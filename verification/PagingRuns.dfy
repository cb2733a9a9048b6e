/**
 The mapping operations of paging.c on memory and on the flat map, and runs of
 them over any number of address spaces.
 */
module PagingRuns {
  import opened StatusCodes
  import opened Bits
  import opened Memory
  import opened PageBlocks
  import opened PageTables

  predicate IsAligned(address: Word) {
    address % PAGE_SIZE == 0
  }

  /** The address of the i-th page of a range, in 32-bit arithmetic. */
  function Advance(address: Word, i: nat): Word {
    (address + i * PAGE_SIZE) % WORD_LIMIT
  }

  /** `phys | flags` for the i-th page of a range. */
  function RangeEntry(phys: Word, i: nat, flags: Word): Word {
    OrIsWord(Advance(phys, i), flags);
    Or(Advance(phys, i), flags)
  }

  function RangePage(virt: Word, i: nat): nat {
    (virt / PAGE_SIZE + i) % PAGES
  }

  /** Memory after n rounds of the loop of paging_map_range. */
  function RangeRam(ram: Ram, chunk: nat, virt: Word, phys: Word, n: nat, flags: Word): Ram
    requires chunk < FRAMES
  {
    if n == 0 then ram
    else SetEntry(RangeRam(ram, chunk, virt, phys, n - 1, flags), chunk,
                  RangePage(virt, n - 1), RangeEntry(phys, n - 1, flags))
  }

  /** The flat map with pages virt, virt+4096, ... set to consecutive frames; all others kept. */
  function RangeFlat(m: PageMap, virt: Word, phys: Word, n: nat, flags: Word): PageMap {
    seq(PAGES, page requires 0 <= page < PAGES => RangeAt(m, virt, phys, n, flags, page))
  }

  function RangeAt(m: PageMap, virt: Word, phys: Word, n: nat, flags: Word, page: nat): Word
    requires page < PAGES
  {
    var i := (page - virt / PAGE_SIZE) % PAGES;
    if i < n then RangeEntry(phys, i, flags) else m[page]
  }

  lemma RangeEntryWraps(phys: Word, i: nat, flags: Word)
    ensures RangeEntry(phys, i, flags) == RangeEntry(phys, i % PAGES, flags)
  {
    var k := i / PAGES;
    assert i * PAGE_SIZE == (i % PAGES) * PAGE_SIZE + k * WORD_LIMIT;
    WholeTurns(phys + (i % PAGES) * PAGE_SIZE, k);
  }

  lemma {:induction false} WholeTurns(x: nat, k: nat)
    ensures (x + k * WORD_LIMIT) % WORD_LIMIT == x % WORD_LIMIT
  {
    if k > 0 {
      WholeTurns(x, k - 1);
      assert x + k * WORD_LIMIT == (x + (k - 1) * WORD_LIMIT) + WORD_LIMIT;
    }
  }

  lemma RangeFlatStep(m: PageMap, virt: Word, phys: Word, n: nat, flags: Word)
    ensures RangeFlat(m, virt, phys, n + 1, flags)
      == RangeFlat(m, virt, phys, n, flags)[RangePage(virt, n) := RangeEntry(phys, n, flags)]
  {
    hide RangeAt, RangePage, RangeEntry;
    var longer, entry := RangeFlat(m, virt, phys, n + 1, flags), RangeEntry(phys, n, flags);
    assert RangePage(virt, n) < PAGES by { RangePageInSpace(virt, n); }
    var written := RangeFlat(m, virt, phys, n, flags)[RangePage(virt, n) := entry];
    forall page | 0 <= page < PAGES ensures longer[page] == written[page] {
      RangeAtStep(m, virt, phys, n, flags, page);
    }
  }

  lemma RangePageInSpace(virt: Word, n: nat)
    ensures RangePage(virt, n) < PAGES
  {
  }

  lemma RangeAtStep(m: PageMap, virt: Word, phys: Word, n: nat, flags: Word, page: nat)
    requires page < PAGES
    ensures RangeAt(m, virt, phys, n + 1, flags, page)
      == if page == RangePage(virt, n) then RangeEntry(phys, n, flags) else RangeAt(m, virt, phys, n, flags, page)
  {
    hide RangeEntry;
    RangeEntryWraps(phys, n, flags);
    RangeIndex(virt / PAGE_SIZE, n, page);
    if n < PAGES { SmallRemainder(n); }
  }

  lemma SmallRemainder(n: nat)
    requires n < PAGES
    ensures n % PAGES == n
  {
  }

  /** A page is the n-th of a range exactly when its distance from the start is n, up to whole turns. */
  lemma RangeIndex(v: nat, n: nat, page: nat)
    requires page < PAGES
    ensures page == (v + n) % PAGES <==> (page - v) % PAGES == n % PAGES
  {
  }

  /** The loop of paging_map_range refines the closed form, wrap-around included. */
  lemma {:induction false} RangeRefines(ram: Ram, chunk: nat, virt: Word, phys: Word, n: nat, flags: Word)
    requires Formed(ram, chunk)
    ensures var after := RangeRam(ram, chunk, virt, phys, n, flags);
      && Formed(after, chunk) && Frames(after, chunk) == Frames(ram, chunk)
      && Directory(after, chunk) == Directory(ram, chunk)
      && Flat(after, chunk) == RangeFlat(Flat(ram, chunk), virt, phys, n, flags)
  {
    if n == 0 {
      assert RangeFlat(Flat(ram, chunk), virt, phys, 0, flags) == Flat(ram, chunk);
    } else {
      RangeRefines(ram, chunk, virt, phys, n - 1, flags);
      var mid := RangeRam(ram, chunk, virt, phys, n - 1, flags);
      SetEntryFrames(mid, chunk, RangePage(virt, n - 1), RangeEntry(phys, n - 1, flags));
      SetEntryFlat(mid, chunk, RangePage(virt, n - 1), RangeEntry(phys, n - 1, flags));
      RangeFlatStep(Flat(ram, chunk), virt, phys, n - 1, flags);
    }
  }

  lemma {:induction false} RangeElsewhere(
      ram: Ram, chunk: nat, virt: Word, phys: Word, n: nat, flags: Word, other: nat)
    requires Formed(ram, chunk) && other < FRAMES && Separate(ram, chunk, other)
    ensures var after := RangeRam(ram, chunk, virt, phys, n, flags);
      && Frames(after, other) == Frames(ram, other)
      && Flat(after, other) == Flat(ram, other) && Directory(after, other) == Directory(ram, other)
      && (Formed(ram, other) ==> Formed(after, other))
  {
    if n > 0 {
      RangeElsewhere(ram, chunk, virt, phys, n - 1, flags, other);
      RangeRefines(ram, chunk, virt, phys, n - 1, flags);
      var mid := RangeRam(ram, chunk, virt, phys, n - 1, flags);
      SetEntryElsewhere(mid, chunk, RangePage(virt, n - 1), RangeEntry(phys, n - 1, flags), other);
    }
  }

  // ---------------------------------------------------------------------
  // Operations
  // ---------------------------------------------------------------------

  datatype PagingOp =
    | Set(virt: Word, val: Word)
    | Map(virt: Word, phys: Word, flags: Word)
    | MapRange(virt: Word, phys: Word, count: int, flags: Word)
    | MapTo(virt: Word, phys: Word, physEnd: Word, flags: Word)

  /** The status each operation returns: the error checks of paging.c. */
  function Status(op: PagingOp): int {
    match op
    case Set(virt, _) => if IsAligned(virt) then 0 else -EINVARG
    case Map(virt, phys, _) => if IsAligned(virt) && IsAligned(phys) then 0 else -EINVARG
    case MapRange(virt, phys, count, _) =>
      if count <= 0 || (IsAligned(virt) && IsAligned(phys)) then 0 else -EINVARG
    case MapTo(virt, phys, physEnd, _) =>
      if IsAligned(virt) && IsAligned(phys) && phys <= physEnd && IsAligned(physEnd) then 0 else -EINVARG
  }

  /** Every operation that succeeds installs a range of consecutive frames. */
  function Extent(op: PagingOp): (r: (Word, nat, Word))
  {
    match op
    case Set(_, val) => (val, 1, 0)
    case Map(_, phys, flags) => (phys, 1, flags)
    case MapRange(_, phys, count, flags) => (phys, if count <= 0 then 0 else count, flags)
    case MapTo(_, phys, physEnd, flags) =>
      (phys, if phys <= physEnd then (physEnd - phys) / PAGE_SIZE else 0, flags)
  }

  /** Memory after an operation on one space; errors change nothing. */
  function Apply(ram: Ram, chunk: nat, op: PagingOp): Ram
    requires chunk < FRAMES
  {
    var (phys, n, flags) := Extent(op);
    if Status(op) < 0 then ram else RangeRam(ram, chunk, op.virt, phys, n, flags)
  }

  /** The same operation on the flat map. */
  function ApplyFlat(m: PageMap, op: PagingOp): PageMap {
    var (phys, n, flags) := Extent(op);
    if Status(op) < 0 then m else RangeFlat(m, op.virt, phys, n, flags)
  }

  /** The two-level structure refines the flat map, operation by operation. */
  lemma ApplyRefines(ram: Ram, chunk: nat, op: PagingOp)
    requires Formed(ram, chunk)
    ensures var after := Apply(ram, chunk, op);
      && Formed(after, chunk) && Frames(after, chunk) == Frames(ram, chunk)
      && Directory(after, chunk) == Directory(ram, chunk)
      && Flat(after, chunk) == ApplyFlat(Flat(ram, chunk), op)
  {
    var (phys, n, flags) := Extent(op);
    RangeRefines(ram, chunk, op.virt, phys, n, flags);
  }

  lemma ApplyElsewhere(ram: Ram, chunk: nat, op: PagingOp, other: nat)
    requires Formed(ram, chunk) && other < FRAMES && Separate(ram, chunk, other)
    ensures var after := Apply(ram, chunk, op);
      && Frames(after, other) == Frames(ram, other)
      && Flat(after, other) == Flat(ram, other) && Directory(after, other) == Directory(ram, other)
      && (Formed(ram, other) ==> Formed(after, other))
  {
    var (phys, n, flags) := Extent(op);
    RangeElsewhere(ram, chunk, op.virt, phys, n, flags, other);
  }

  /**
   All or nothing: an operation that fails changes no byte of memory; one that
   succeeds gives page virt + i the entry for frame phys + i, for exactly the
   counted pages.
   */
  lemma AllOrNothing(ram: Ram, chunk: nat, op: PagingOp)
    requires Formed(ram, chunk)
    ensures Status(op) < 0 ==> Apply(ram, chunk, op) == ram
    ensures Status(op) == 0 ==>
      var (phys, n, flags) := Extent(op);
      var before, after := Flat(ram, chunk), Flat(Apply(ram, chunk, op), chunk);
      && (forall i :: 0 <= i < n ==> after[RangePage(op.virt, i)] == RangeEntry(phys, i, flags))
      && (forall page :: 0 <= page < PAGES && (forall i :: 0 <= i < n ==> RangePage(op.virt, i) != page) ==>
            after[page] == before[page])
  {
    hide Flat, Apply, RangeEntry;
    ApplyRefines(ram, chunk, op);
    var (phys, n, flags) := Extent(op);
    var before, after := Flat(ram, chunk), Flat(Apply(ram, chunk, op), chunk);
    if Status(op) == 0 {
      forall i | 0 <= i < n ensures after[RangePage(op.virt, i)] == RangeEntry(phys, i, flags) {
        InRangeFlat(before, op.virt, phys, n, flags, i);
      }
      forall page | 0 <= page < PAGES && (forall i :: 0 <= i < n ==> RangePage(op.virt, i) != page)
        ensures after[page] == before[page]
      {
        OutOfRangeFlat(before, op.virt, phys, n, flags, page);
      }
    } else {
      Refused(ram, chunk, op);
    }
  }

  /** n pages from virt go to consecutive frames from phys, numbers wrapping at 2^32; all others are as before. */
  ghost predicate Maps(before: PageMap, after: PageMap, virt: Word, phys: Word, n: nat, flags: Word) {
    forall page :: 0 <= page < PAGES ==> MapsPage(before, after, virt, phys, n, flags, page)
  }

  predicate MapsPage(before: PageMap, after: PageMap, virt: Word, phys: Word, n: nat, flags: Word, page: nat)
    requires page < PAGES
  {
    var i := (page - virt / 4096) % 0x10_0000;
    after[page] == if i < n then Or((phys + i * 4096) % 0x1_0000_0000, flags) else before[page]
  }

  /** One page's entry is replaced. */
  predicate Sets(before: PageMap, after: PageMap, page: nat, entry: nat)
    requires page < PAGES
  {
    after[page] == entry && forall q :: 0 <= q < PAGES && q != page ==> after[q] == before[q]
  }

  /** Each operation in numbers: which arguments it refuses, and what it maps. */
  lemma OpsInNumbers(ram: Ram, chunk: nat, op: PagingOp)
    requires Formed(ram, chunk)
    ensures Status(op) == if
      match op
      case Set(virt, _) => virt % 4096 == 0
      case Map(virt, phys, _) => virt % 4096 == 0 && phys % 4096 == 0
      case MapRange(virt, phys, count, _) => count <= 0 || (virt % 4096 == 0 && phys % 4096 == 0)
      case MapTo(virt, phys, end, _) => virt % 4096 == 0 && phys % 4096 == 0 && end % 4096 == 0 && phys <= end
      then 0 else -EINVARG
    ensures Status(op) < 0 ==> Apply(ram, chunk, op) == ram
    ensures Status(op) == 0 ==>
      var before, after := Flat(ram, chunk), Flat(Apply(ram, chunk, op), chunk);
      match op
      case Set(virt, val) => Sets(before, after, virt / 4096, val)
      case Map(virt, phys, flags) => Sets(before, after, virt / 4096, Or(phys, flags))
      case MapRange(virt, phys, count, flags) => Maps(before, after, virt, phys, if count > 0 then count else 0, flags)
      case MapTo(virt, phys, end, flags) => Maps(before, after, virt, phys, (end - phys) / 4096, flags)
  {
    hide Flat, Apply, Or, Frames, Maps, Sets;
    ApplyRefines(ram, chunk, op);
    Refused(ram, chunk, op);
    var (phys, n, flags) := Extent(op);
    RangeMaps(Flat(ram, chunk), op.virt, phys, n, flags);
    if Status(op) == 0 && (op.Set? || op.Map?) {
      OrZero(phys);
      OnePage(Flat(ram, chunk), Flat(Apply(ram, chunk, op), chunk), op.virt, phys, flags);
    }
  }

  lemma RangeMaps(m: PageMap, virt: Word, phys: Word, n: nat, flags: Word)
    ensures Maps(m, RangeFlat(m, virt, phys, n, flags), virt, phys, n, flags)
  {
    hide Or;
  }

  lemma OnePage(before: PageMap, after: PageMap, virt: Word, phys: Word, flags: Word)
    requires Maps(before, after, virt, phys, 1, flags)
    ensures Sets(before, after, virt / 4096, Or(phys, flags))
  {
    hide MapsPage, Or;
    forall page | 0 <= page < PAGES
      ensures after[page] == if page == virt / 4096 then Or(phys, flags) else before[page]
    {
      assert MapsPage(before, after, virt, phys, 1, flags, page);
      OnePageAt(before, after, virt, phys, flags, page);
    }
  }

  lemma OnePageAt(before: PageMap, after: PageMap, virt: Word, phys: Word, flags: Word, page: nat)
    requires page < PAGES && MapsPage(before, after, virt, phys, 1, flags, page)
    ensures after[page] == if page == virt / 4096 then Or(phys, flags) else before[page]
  {
    var v := virt / 4096;
    Distance(page, v);
    assert (phys + 0 * 4096) % 0x1_0000_0000 == phys;
    hide Or;
    if page == v {
      assert (page - v) % 0x10_0000 == 0;
    } else {
      assert (page - v) % 0x10_0000 >= 1;
    }
  }

  lemma Distance(page: nat, v: nat)
    requires page < PAGES && v < PAGES
    ensures (page - v) % 0x10_0000 == if page >= v then page - v else page - v + 0x10_0000
  {
  }

  lemma Refused(ram: Ram, chunk: nat, op: PagingOp)
    requires chunk < FRAMES
    ensures Status(op) < 0 ==> Apply(ram, chunk, op) == ram
  {
  }

  lemma InRangeFlat(m: PageMap, virt: Word, phys: Word, n: nat, flags: Word, i: nat)
    requires i < n
    ensures RangeFlat(m, virt, phys, n, flags)[RangePage(virt, i)] == RangeEntry(phys, i, flags)
  {
    hide RangeEntry;
    RangeIndex(virt / PAGE_SIZE, i, RangePage(virt, i));
    RangeEntryWraps(phys, i, flags);
    assert i % PAGES <= i;
  }

  lemma OutOfRangeFlat(m: PageMap, virt: Word, phys: Word, n: nat, flags: Word, page: nat)
    requires page < PAGES && forall i :: 0 <= i < n ==> RangePage(virt, i) != page
    ensures RangeFlat(m, virt, phys, n, flags)[page] == m[page]
  {
    var i := (page - virt / PAGE_SIZE) % PAGES;
    RangeIndex(virt / PAGE_SIZE, i, page);
    assert RangePage(virt, i) == page;
  }

  // ---------------------------------------------------------------------
  // Runs over one space
  // ---------------------------------------------------------------------

  function RunOps(ram: Ram, chunk: nat, ops: seq<PagingOp>): Ram
    requires chunk < FRAMES
  {
    if ops == [] then ram else Apply(RunOps(ram, chunk, ops[..|ops| - 1]), chunk, ops[|ops| - 1])
  }

  function FlatOps(m: PageMap, ops: seq<PagingOp>): PageMap {
    if ops == [] then m else ApplyFlat(FlatOps(m, ops[..|ops| - 1]), ops[|ops| - 1])
  }

  lemma {:induction false} RunOpsRefines(ram: Ram, chunk: nat, ops: seq<PagingOp>)
    requires Formed(ram, chunk)
    ensures var after := RunOps(ram, chunk, ops);
      && Formed(after, chunk) && Frames(after, chunk) == Frames(ram, chunk)
      && Directory(after, chunk) == Directory(ram, chunk)
      && Flat(after, chunk) == FlatOps(Flat(ram, chunk), ops)
  {
    if ops != [] {
      var n := |ops| - 1;
      RunOpsRefines(ram, chunk, ops[..n]);
      ApplyRefines(RunOps(ram, chunk, ops[..n]), chunk, ops[n]);
    }
  }

  lemma RunOneMore(ram: Ram, chunk: nat, ops: seq<PagingOp>, op: PagingOp)
    requires chunk < FRAMES
    ensures RunOps(ram, chunk, ops + [op]) == Apply(RunOps(ram, chunk, ops), chunk, op)
    ensures RunOps(ram, chunk, []) == ram
  {
    assert (ops + [op])[..|ops|] == ops;
  }

  lemma FlatOneMore(m: PageMap, ops: seq<PagingOp>, op: PagingOp)
    ensures FlatOps(m, ops + [op]) == ApplyFlat(FlatOps(m, ops), op)
  {
    assert (ops + [op])[..|ops|] == ops;
  }

  lemma SetTouches(ram: Ram, chunk: nat, page: nat, val: Word)
    requires Formed(ram, chunk) && page < PAGES
    ensures SameElsewhere(ram, SetEntry(ram, chunk, page, val), Frames(ram, chunk))
  {
    hide Frames;
    TableInFrames(ram, chunk, page / PAGE_WORDS);
  }

  lemma {:induction false} RangeTouches(ram: Ram, chunk: nat, virt: Word, phys: Word, n: nat, flags: Word)
    requires Formed(ram, chunk)
    ensures SameElsewhere(ram, RangeRam(ram, chunk, virt, phys, n, flags), Frames(ram, chunk))
  {
    hide RangeEntry, NoRepeats, Flat, Frames, SetEntry;
    if n > 0 {
      RangeTouches(ram, chunk, virt, phys, n - 1, flags);
      RangeRefines(ram, chunk, virt, phys, n - 1, flags);
      var mid := RangeRam(ram, chunk, virt, phys, n - 1, flags);
      SetTouches(mid, chunk, RangePage(virt, n - 1), RangeEntry(phys, n - 1, flags));
    }
  }

  /** No sequence of operations changes memory outside the space's own frames. */
  lemma {:induction false} RunOpsTouches(ram: Ram, chunk: nat, ops: seq<PagingOp>)
    requires Formed(ram, chunk)
    ensures SameElsewhere(ram, RunOps(ram, chunk, ops), Frames(ram, chunk))
  {
    hide NoRepeats, Flat, RangeRam, Frames;
    if ops != [] {
      var n := |ops| - 1;
      RunOpsTouches(ram, chunk, ops[..n]);
      RunOpsRefines(ram, chunk, ops[..n]);
      var (phys, m, flags) := Extent(ops[n]);
      RangeTouches(RunOps(ram, chunk, ops[..n]), chunk, ops[n].virt, phys, m, flags);
    }
  }

  // ---------------------------------------------------------------------
  // Interleaved runs over many spaces
  // ---------------------------------------------------------------------

  datatype Event = Event(chunk: nat, op: PagingOp)

  /** The spaces are well formed and no two of them share a frame. */
  ghost predicate Apart(ram: Ram, chunks: set<nat>) {
    && (forall c :: c in chunks ==> Formed(ram, c))
    && (forall a, b :: a in chunks && b in chunks && a != b ==> Separate(ram, a, b))
  }

  predicate Among(events: seq<Event>, chunks: set<nat>) {
    forall i :: 0 <= i < |events| ==> events[i].chunk in chunks && events[i].chunk < FRAMES
  }

  function RunAll(ram: Ram, events: seq<Event>): Ram
    requires forall i :: 0 <= i < |events| ==> events[i].chunk < FRAMES
  {
    if events == [] then ram
    else
      var n := |events| - 1;
      Apply(RunAll(ram, events[..n]), events[n].chunk, events[n].op)
  }

  /** The operations addressed to one space, in order. */
  function OpsFor(events: seq<Event>, chunk: nat): seq<PagingOp> {
    if events == [] then []
    else
      var n := |events| - 1;
      OpsFor(events[..n], chunk) + if events[n].chunk == chunk then [events[n].op] else []
  }

  /** One event: the addressed space takes the step, every other space stands still. */
  lemma OneEvent(mid: Ram, m: PageMap, events: seq<Event>, c: nat)
    requires events != [] && Formed(mid, events[|events| - 1].chunk) && Formed(mid, c)
    requires var e := events[|events| - 1]; c == e.chunk || Separate(mid, e.chunk, c)
    requires Flat(mid, c) == FlatOps(m, OpsFor(events[..|events| - 1], c))
    ensures var e := events[|events| - 1];
      var after := Apply(mid, e.chunk, e.op);
      && Formed(after, c) && Frames(after, c) == Frames(mid, c) && Directory(after, c) == Directory(mid, c)
      && Flat(after, c) == FlatOps(m, OpsFor(events, c))
  {
    hide Flat, Frames, NoRepeats, Apply, ApplyFlat, Separate;
    var n, e := |events| - 1, events[|events| - 1];
    if c == e.chunk {
      ApplyRefines(mid, c, e.op);
      FlatOneMore(m, OpsFor(events[..n], c), e.op);
    } else {
      ApplyElsewhere(mid, e.chunk, e.op, c);
      assert OpsFor(events, c) == OpsFor(events[..n], c);
    }
  }

  /**
   Isolation: in every interleaving of mapping operations over live spaces,
   each space ends as if its own operations had run alone, and keeps its frames.
   */
  lemma {:induction false} Isolation(ram: Ram, chunks: set<nat>, events: seq<Event>)
    requires Apart(ram, chunks) && Among(events, chunks)
    ensures var after := RunAll(ram, events);
      && Apart(after, chunks)
      && forall c :: c in chunks ==>
        && Frames(after, c) == Frames(ram, c) && Directory(after, c) == Directory(ram, c)
        && Flat(after, c) == FlatOps(Flat(ram, c), OpsFor(events, c))
    decreases |events|
  {
    hide Flat, Frames, NoRepeats, Apply, ApplyFlat, Separate;
    if events != [] {
      var n := |events| - 1;
      var mid, after := RunAll(ram, events[..n]), RunAll(ram, events);
      Isolation(ram, chunks, events[..n]);
      forall c | c in chunks
        ensures Formed(after, c) && Frames(after, c) == Frames(ram, c) && Directory(after, c) == Directory(ram, c)
        ensures Flat(after, c) == FlatOps(Flat(ram, c), OpsFor(events, c))
      {
        OneEvent(mid, Flat(ram, c), events, c);
      }
      StillApart(mid, after, chunks);
    }
  }

  lemma StillApart(before: Ram, after: Ram, chunks: set<nat>)
    requires Apart(before, chunks)
    requires forall c :: c in chunks ==> Formed(after, c) && Frames(after, c) == Frames(before, c)
    ensures Apart(after, chunks)
  {
    forall a, b | a in chunks && b in chunks && a != b ensures Separate(after, a, b) {
      assert Separate(before, a, b);
    }
  }
}
