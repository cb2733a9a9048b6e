/**
 pparser.c: parsing a path into a linked list of heap blocks, and freeing it.
 Pointers to heap blocks are given as frame numbers; 0 is the null pointer.
 */
module PathParser {
  import opened BlockTable
  import opened HeapRuns
  import opened Memory
  import opened Kheap
  import opened PageBlocks
  import opened Buffers
  import opened PathSyntax

  // ---------------------------------------------------------------------
  // The list in memory
  // ---------------------------------------------------------------------

  /** A struct path_part: its own block, the block of its string, and the string. */
  datatype Node = Node(frame: nat, buf: nat, text: CString)

  /** A NUL-terminated string at the start of a page. */
  ghost predicate StringAt(ram: Ram, buf: nat, text: CString) {
    && buf < FRAMES && |text| < PAGE_SIZE
    && forall j :: 0 <= j <= |text| ==> ByteAt(ram, buf * PAGE_SIZE + j) == (text + [0])[j]
  }

  function NextPointer(nodes: seq<Node>, i: int): nat
    requires -1 <= i < |nodes|
  {
    if i + 1 < |nodes| then nodes[i + 1].frame * PAGE_SIZE else 0
  }

  ghost predicate NodeAt(ram: Ram, nodes: seq<Node>, i: nat)
    requires i < |nodes|
  {
    && 0 < nodes[i].frame < FRAMES
    && ram[nodes[i].frame][0] == nodes[i].buf * PAGE_SIZE
    && ram[nodes[i].frame][1] == NextPointer(nodes, i)
    && StringAt(ram, nodes[i].buf, nodes[i].text)
  }

  ghost predicate NodesAt(ram: Ram, nodes: seq<Node>) {
    forall i :: 0 <= i < |nodes| ==> NodeAt(ram, nodes, i)
  }

  /** A struct path_root whose list is `nodes`. */
  ghost predicate RootAt(ram: Ram, root: nat, drive: nat, nodes: seq<Node>) {
    && 0 < root < FRAMES && ram[root][0] == drive && ram[root][1] == NextPointer(nodes, -1)
    && NodesAt(ram, nodes)
  }

  /** The blocks of a list: string and node, in order. */
  function BlocksOf(nodes: seq<Node>): (r: seq<nat>)
    ensures |r| == 2 * |nodes|
  {
    seq(2 * |nodes|, j requires 0 <= j < 2 * |nodes| => if j % 2 == 0 then nodes[j / 2].buf else nodes[j / 2].frame)
  }

  function Texts(nodes: seq<Node>): seq<CString> {
    seq(|nodes|, i requires 0 <= i < |nodes| => nodes[i].text)
  }

  lemma BlocksOfAppend(nodes: seq<Node>, node: Node)
    ensures BlocksOf(nodes + [node]) == BlocksOf(nodes) + [node.buf, node.frame]
  {
  }

  lemma NodeBlocks(nodes: seq<Node>, i: nat)
    requires i < |nodes|
    ensures BlocksOf(nodes)[2 * i] == nodes[i].buf && BlocksOf(nodes)[2 * i + 1] == nodes[i].frame
    ensures nodes[i].buf in BlocksOf(nodes) && nodes[i].frame in BlocksOf(nodes)
  {
  }

  lemma StringSame(before: Ram, after: Ram, buf: nat, text: CString)
    requires StringAt(before, buf, text) && after[buf] == before[buf]
    ensures StringAt(after, buf, text)
  {
    forall j | 0 <= j <= |text| ensures ByteAt(after, buf * PAGE_SIZE + j) == (text + [0])[j] {
      assert (buf * PAGE_SIZE + j) / PAGE_SIZE == buf;
    }
  }

  /** A list survives changes to pages that are not its own. */
  lemma NodesSame(before: Ram, after: Ram, nodes: seq<Node>, changed: seq<nat>)
    requires NodesAt(before, nodes) && SameElsewhere(before, after, changed)
    requires forall f :: f in BlocksOf(nodes) ==> f !in changed
    ensures NodesAt(after, nodes)
  {
    forall i | 0 <= i < |nodes| ensures NodeAt(after, nodes, i) {
      assert NodeAt(before, nodes, i);
      NodeBlocks(nodes, i);
      StringSame(before, after, nodes[i].buf, nodes[i].text);
    }
  }

  /** Linking a new node behind the last one. */
  lemma AppendNode(before: Ram, after: Ram, nodes: seq<Node>, node: Node)
    requires NodesAt(before, nodes) && NoRepeats(BlocksOf(nodes + [node]))
    requires 0 < node.frame < FRAMES && after[node.frame][0] == node.buf * PAGE_SIZE && after[node.frame][1] == 0
    requires StringAt(after, node.buf, node.text)
    requires nodes != [] ==>
      && nodes[|nodes| - 1].frame < FRAMES
      && after[nodes[|nodes| - 1].frame] == before[nodes[|nodes| - 1].frame][1 := node.frame * PAGE_SIZE]
    requires SameElsewhere(before, after,
      [node.buf, node.frame] + if nodes == [] then [] else [nodes[|nodes| - 1].frame])
    ensures NodesAt(after, nodes + [node])
  {
    hide StringAt, NodeAt, BlocksOf, SameElsewhere, NoRepeats;
    var all := nodes + [node];
    assert nodes != [] ==>
      [node.buf, node.frame] + [nodes[|nodes| - 1].frame] == [node.buf, node.frame, nodes[|nodes| - 1].frame];
    forall i | 0 <= i < |all| ensures NodeAt(after, all, i) {
      if i < |nodes| {
        assert NodeAt(before, nodes, i);
        KeptNode(before, after, nodes, node, i);
      } else {
        LastNode(after, nodes, node);
      }
    }
  }

  lemma LastNode(ram: Ram, nodes: seq<Node>, node: Node)
    requires 0 < node.frame < FRAMES && ram[node.frame][0] == node.buf * PAGE_SIZE && ram[node.frame][1] == 0
    requires StringAt(ram, node.buf, node.text)
    ensures NodeAt(ram, nodes + [node], |nodes|)
  {
    hide StringAt;
  }

  /** An older node, with its next pointer set if it was the last one. */
  lemma KeptNode(before: Ram, after: Ram, nodes: seq<Node>, node: Node, i: nat)
    requires i < |nodes| && NodeAt(before, nodes, i) && NoRepeats(BlocksOf(nodes + [node]))
    requires nodes[|nodes| - 1].frame < FRAMES && node.frame < FRAMES
    requires after[nodes[|nodes| - 1].frame] == before[nodes[|nodes| - 1].frame][1 := node.frame * PAGE_SIZE]
    requires SameElsewhere(before, after, [node.buf, node.frame, nodes[|nodes| - 1].frame])
    ensures NodeAt(after, nodes + [node], i)
  {
    hide BlocksOf, StringAt;
    var all, n, blocks := nodes + [node], |nodes|, BlocksOf(nodes + [node]);
    NodeBlocks(all, i);
    NodeBlocks(all, n - 1);
    NodeBlocks(all, n);
    assert nodes[i].buf !in [node.buf, node.frame, nodes[n - 1].frame];
    StringInRange(before, nodes[i].buf, nodes[i].text);
    StringSame(before, after, nodes[i].buf, nodes[i].text);
  }

  lemma StringInRange(ram: Ram, buf: nat, text: CString)
    requires StringAt(ram, buf, text)
    ensures buf < FRAMES
  {
  }

  // ---------------------------------------------------------------------
  // Parsing
  // ---------------------------------------------------------------------

  /**
   pathparser_get_path_part: the next component, copied into a fresh zeroed buffer;
   an empty one leaves no buffer behind.
   */
  method GetPathPart(k: Kernel, path: CString, pos: nat) returns (buf: nat, next: nat, ghost used: nat)
    requires k.Valid() && FreeCount(k.Table()) >= 1
    requires pos <= |path| && |path| - pos < MAX_PATH
    modifies k`ram, k.heap.entries
    ensures k.Valid() && next == AfterComponent(path, pos)
    ensures SameElsewhere(old(k.ram), k.ram, [used])
    ensures k.Frame(0) <= used < FRAMES && 0 < used && used - k.Frame(0) !in Live(old(k.Table()))
    ensures ComponentEnd(path, pos) == pos ==>
      buf == 0 && k.Table() == old(k.Table()) && BlockFree(k.Table(), used - k.Frame(0))
    ensures ComponentEnd(path, pos) > pos ==>
      && buf == used
      && Live(k.Table()) == Live(old(k.Table()))[buf - k.Frame(0) := 1]
      && FreeCount(k.Table()) + 1 == FreeCount(old(k.Table()))
      && StringAt(k.ram, buf, Cut(path, pos, ComponentEnd(path, pos)))
  {
    hide Live, FreeCount, WellFormed, Written, ByteAt, SetByte, ComponentEnd, StringAt;
    ghost var live0, before := Live(k.Table()), k.ram;
    ghost var e := ComponentEnd(path, pos);
    buf := KzallocPage(k, MAX_PATH);
    used := buf;
    ghost var zeroed, taken := k.ram, k.Table();
    NothingWritten(zeroed, buf * PAGE_SIZE, MAX_PATH);
    var i := 0;
    next := pos;
    assert path[pos..pos] == [];
    while next < |path| && path[next] != SLASH
      invariant i < MAX_PATH && next == pos + i <= |path| && ComponentEnd(path, next) == e
      invariant Written(zeroed, k.ram, buf * PAGE_SIZE, MAX_PATH, path[pos..next])
      invariant k.Table() == taken
      modifies k`ram
    {
      WriteNext(zeroed, k.ram, buf * PAGE_SIZE, MAX_PATH, path[pos..next], path[next]);
      EndOf(path, next);
      k.ram := SetByte(k.ram, buf * PAGE_SIZE + i, path[next]);
      assert path[pos..next] + [path[next]] == path[pos..next + 1];
      i, next := i + 1, next + 1;
    }
    EndOf(path, next);
    WrittenInPage(zeroed, k.ram, buf, MAX_PATH, path[pos..next]);
    ZeroedString(before, zeroed, k.ram, buf, Cut(path, pos, e));
    if next < |path| && path[next] == SLASH {
      next := next + 1;
    }
    if i == 0 {
      KfreePage(k, buf);
      assert live0[used - k.Frame(0) := 1] - {used - k.Frame(0)} == live0;
      SameTable(k.Table(), old(k.Table()));
      buf := 0;
    }
  }

  lemma SameTable(t: Table, u: Table)
    requires WellFormed(t) && WellFormed(u) && Live(t) == Live(u) && |t| == |u|
    ensures t == u
  {
    TableIsUnique(t, u, Live(u));
  }

  lemma EndOf(path: CString, i: nat)
    requires i <= |path|
    ensures i == |path| || path[i] == SLASH ==> ComponentEnd(path, i) == i
    ensures i < |path| && path[i] != SLASH ==> ComponentEnd(path, i) == ComponentEnd(path, i + 1)
  {
  }

  /** What was written into a zeroed page is a NUL-terminated string. */
  lemma ZeroedString(before: Ram, zeroed: Ram, ram: Ram, buf: nat, text: CString)
    requires buf < FRAMES && |text| < MAX_PATH
    requires Filled(before, zeroed, buf * PAGE_SIZE, MAX_PATH, 0)
    requires Written(zeroed, ram, buf * PAGE_SIZE, MAX_PATH, text)
    ensures StringAt(ram, buf, text)
  {
    hide ByteAt;
    var p := buf * PAGE_SIZE;
    forall j | 0 <= j <= |text| ensures ByteAt(ram, p + j) == (text + [0])[j] {
      assert ByteAt(zeroed, p + j) == 0;
    }
  }

  /** What a call to pathparser_parse_path_part may rely on and must keep. */
  ghost predicate Building(k: Kernel, live0: map<nat, nat>, root: nat, nodes: seq<Node>)
    reads k, k.heap, k.heap.entries
  {
    && k.Valid() && 0 < root < FRAMES
    && Taken(Live(k.Table()), live0, k.Frame(0), [root] + BlocksOf(nodes))
    && NodesAt(k.ram, nodes)
  }

  /**
   pathparser_parse_path_part: one more node behind `last`, or 0 when the next
   component is empty.
   */
  method ParsePathPart(
      k: Kernel, last: nat, path: CString, pos: nat, ghost live0: map<nat, nat>, ghost root: nat,
      ghost nodes: seq<Node>) returns (part: nat, next: nat, ghost node: Node, ghost used: nat)
    requires Building(k, live0, root, nodes)
    requires last == if nodes == [] then 0 else nodes[|nodes| - 1].frame
    requires pos <= |path| && |path| - pos < MAX_PATH
    requires FreeCount(k.Table()) >= if ComponentEnd(path, pos) == pos then 1 else 2
    modifies k`ram, k.heap.entries
    ensures k.ram[root] == old(k.ram)[root] && next == AfterComponent(path, pos)
    ensures ComponentEnd(path, pos) == pos ==>
      && part == 0 && Building(k, live0, root, nodes)
      && k.Table() == old(k.Table()) && used >= k.Frame(0) && BlockFree(k.Table(), used - k.Frame(0))
      && SameElsewhere(old(k.ram), k.ram, [used])
    ensures ComponentEnd(path, pos) > pos ==>
      && part == node.frame > 0 && node.text == Cut(path, pos, ComponentEnd(path, pos))
      && Building(k, live0, root, nodes + [node])
      && FreeCount(k.Table()) + 2 == FreeCount(old(k.Table()))
      && SameElsewhere(old(k.ram), k.ram, [root] + BlocksOf(nodes + [node]))
  {
    hide Live, FreeCount, WellFormed, Taken, NodesAt, StringAt, Filled, ComponentEnd, BlocksOf, SameElsewhere;
    ghost var base, before := k.Frame(0), k.ram;
    var buf;
    ghost var live1 := Live(k.Table());
    buf, next, used := GetPathPart(k, path, pos);
    TakeOne(live1, live0, base, [root] + BlocksOf(nodes), used - base);
    NewBlock(before, k.ram, root, nodes, used);
    if buf == 0 {
      return 0, next, Node(0, 0, []), used;
    }
    ghost var middle := k.ram;
    part, node := NewPart(k, last, buf, live0, root, nodes, Cut(path, pos, ComponentEnd(path, pos)));
    BlocksOfAppend(nodes, node);
    SameElsewhereWithin(before, middle, k.ram, [used], BlocksOf(nodes + [node]), [root] + BlocksOf(nodes + [node]));
  }

  /** The second half of pathparser_parse_path_part: the node for a string, linked behind `last`. */
  method NewPart(
      k: Kernel, last: nat, buf: nat, ghost live0: map<nat, nat>, ghost root: nat, ghost nodes: seq<Node>,
      ghost text: CString) returns (part: nat, ghost node: Node)
    requires k.Valid() && 0 < root < FRAMES && buf < FRAMES && NodesAt(k.ram, nodes) && StringAt(k.ram, buf, text)
    requires Taken(Live(k.Table()), live0, k.Frame(0), [root] + BlocksOf(nodes) + [buf])
    requires last == if nodes == [] then 0 else nodes[|nodes| - 1].frame
    requires FreeCount(k.Table()) >= 1
    modifies k`ram, k.heap.entries
    ensures node == Node(part, buf, text) && part > 0
    ensures k.ram[root] == old(k.ram)[root]
    ensures Building(k, live0, root, nodes + [node])
    ensures FreeCount(k.Table()) + 1 == FreeCount(old(k.Table()))
    ensures SameElsewhere(old(k.ram), k.ram, BlocksOf(nodes + [node]))
  {
    hide Live, FreeCount, WellFormed, Taken, NodesAt, StringAt, Filled, BlocksOf, SameElsewhere, Linked, WithWord;
    ghost var before, live := k.ram, Live(k.Table());
    part := KzallocPage(k, 8);
    node := Node(part, buf, text);
    TakeOne(live, live0, k.Frame(0), [root] + BlocksOf(nodes) + [buf], part - k.Frame(0));
    NewNode(live0, Live(k.Table()), k.Frame(0), root, nodes, node);
    if nodes != [] {
      LastFrame(before, nodes);
    }
    ghost var zeroed, taken := k.ram, k.Table();
    StoreNode(k, last, buf, part, nodes, node);
    assert k.Table() == taken;
    LinkNode(before, zeroed, k.ram, root, nodes, node, Live(k.Table()), live0, k.Frame(0));
  }

  method StoreNode(k: Kernel, last: nat, buf: nat, part: nat, ghost nodes: seq<Node>, ghost node: Node)
    requires buf < FRAMES && part < FRAMES && last < FRAMES && node.frame == part && node.buf == buf
    requires last == if nodes == [] then 0 else nodes[|nodes| - 1].frame
    requires nodes != [] ==> last != 0
    modifies k`ram
    ensures Linked(old(k.ram), k.ram, nodes, node)
  {
    k.ram := WithWord(k.ram, part, 0, buf * PAGE_SIZE);
    k.ram := WithWord(k.ram, part, 1, 0);
    if last != 0 {
      k.ram := WithWord(k.ram, last, 1, part * PAGE_SIZE);
    }
  }

  lemma LastFrame(ram: Ram, nodes: seq<Node>)
    requires NodesAt(ram, nodes) && nodes != []
    ensures 0 < nodes[|nodes| - 1].frame < FRAMES
  {
    assert NodeAt(ram, nodes, |nodes| - 1);
  }

  /** The stores that fill in a node and link it behind the last one. */
  ghost predicate Linked(before: Ram, after: Ram, nodes: seq<Node>, node: Node) {
    && node.frame < FRAMES && node.buf < FRAMES
    && var filled := WithWord(WithWord(before, node.frame, 0, node.buf * PAGE_SIZE), node.frame, 1, 0);
    if nodes == [] then after == filled
    else
      && nodes[|nodes| - 1].frame < FRAMES
      && after == WithWord(filled, nodes[|nodes| - 1].frame, 1, node.frame * PAGE_SIZE)
  }

  /** A page that is not the list's may change under it. */
  lemma NewBlock(before: Ram, after: Ram, root: nat, nodes: seq<Node>, used: nat)
    requires NodesAt(before, nodes) && SameElsewhere(before, after, [used])
    requires used !in [root] + BlocksOf(nodes) && root < FRAMES
    ensures NodesAt(after, nodes) && after[root] == before[root]
  {
    hide NodesAt, BlocksOf;
    assert ([root] + BlocksOf(nodes))[0] == root;
    forall f | f in BlocksOf(nodes) ensures f !in [used] {
      assert f in [root] + BlocksOf(nodes);
    }
    NodesSame(before, after, nodes, [used]);
  }

  lemma NewNode(live0: map<nat, nat>, live: map<nat, nat>, base: nat, root: nat, nodes: seq<Node>, node: Node)
    requires Taken(live, live0, base, [root] + BlocksOf(nodes) + [node.buf] + [node.frame])
    ensures Taken(live, live0, base, [root] + BlocksOf(nodes + [node]))
  {
    BlocksOfAppend(nodes, node);
    assert [root] + BlocksOf(nodes) + [node.buf] + [node.frame] == [root] + BlocksOf(nodes + [node]);
  }

  /** The blocks of a list behind its root are pairwise different. */
  lemma BlocksDiffer(root: nat, nodes: seq<Node>, node: Node)
    requires NoRepeats([root] + BlocksOf(nodes + [node]))
    ensures NoRepeats(BlocksOf(nodes + [node])) && root != node.frame && node.buf != node.frame
    ensures nodes != [] ==> nodes[|nodes| - 1].frame !in [root, node.buf, node.frame]
  {
    hide BlocksOf;
    var inner, n := BlocksOf(nodes + [node]), |nodes|;
    var blocks := [root] + inner;
    forall i, j | 0 <= i < j < |inner| ensures inner[i] != inner[j] {
      assert blocks[i + 1] == inner[i] && blocks[j + 1] == inner[j];
    }
    NodeBlocks(nodes + [node], n);
    assert blocks[0] == root && blocks[2 * n + 1] == node.buf && blocks[2 * n + 2] == node.frame;
    if n > 0 {
      NodeBlocks(nodes + [node], n - 1);
      assert blocks[2 * n] == nodes[n - 1].frame;
    }
  }

  lemma LinkNode(
      before: Ram, zeroed: Ram, after: Ram, root: nat, nodes: seq<Node>, node: Node,
      live: map<nat, nat>, live0: map<nat, nat>, base: nat)
    requires NodesAt(before, nodes) && StringAt(before, node.buf, node.text) && root < FRAMES
    requires Taken(live, live0, base, [root] + BlocksOf(nodes + [node])) && 0 < node.frame
    requires SameElsewhere(before, zeroed, [node.frame]) && Linked(zeroed, after, nodes, node)
    ensures NodesAt(after, nodes + [node]) && after[root] == before[root]
    ensures SameElsewhere(before, after, BlocksOf(nodes + [node]))
  {
    hide NodesAt, StringAt, BlocksOf, NoRepeats;
    BlocksDiffer(root, nodes, node);
    NodeBlocks(nodes + [node], |nodes|);
    if nodes != [] { NodeBlocks(nodes + [node], |nodes| - 1); }
    StringSame(before, after, node.buf, node.text);
    AppendNode(before, after, nodes, node);
  }

  lemma TextsAppend(nodes: seq<Node>, node: Node)
    ensures Texts(nodes + [node]) == Texts(nodes) + [node.text]
  {
  }

  /** pathparser_create_root. */
  method CreateRoot(k: Kernel, drive: Byte) returns (root: nat)
    requires k.Valid() && FreeCount(k.Table()) >= 1
    modifies k`ram, k.heap.entries
    ensures 0 < root && Building(k, Live(old(k.Table())), root, [])
    ensures k.ram[root][0] == drive && k.ram[root][1] == 0
    ensures FreeCount(k.Table()) + 1 == FreeCount(old(k.Table()))
    ensures SameElsewhere(old(k.ram), k.ram, [root] + BlocksOf([]))
  {
    hide Live, FreeCount, WellFormed, Filled, Taken, NodesAt;
    EmptyList(Live(k.Table()), k.Frame(0));
    ghost var live0 := Live(k.Table());
    root := KzallocPage(k, 8);
    TakeOne(live0, live0, k.Frame(0), [], root - k.Frame(0));
    ghost var taken := k.Table();
    k.ram := WithWord(k.ram, root, 0, drive);
    k.ram := WithWord(k.ram, root, 1, 0);
    assert k.Table() == taken;
    assert [] + [root] == [root] + BlocksOf([]);
    NoNodes(k.ram);
  }

  lemma EmptyList(live: map<nat, nat>, base: nat)
    ensures Taken(live, live, base, [])
  {
  }

  lemma NoNodes(ram: Ram)
    ensures NodesAt(ram, [])
  {
  }

  /** path_root->first = first_part. */
  method SetFirst(k: Kernel, root: nat, first: nat, ghost live0: map<nat, nat>, ghost nodes: seq<Node>)
    requires Building(k, live0, root, nodes) && first < FRAMES
    modifies k`ram
    ensures Building(k, live0, root, nodes) && k.Table() == old(k.Table())
    ensures k.ram[root] == old(k.ram)[root][1 := first * PAGE_SIZE]
    ensures SameElsewhere(old(k.ram), k.ram, [root])
  {
    hide Live, WellFormed, NodesAt, BlocksOf, StringAt;
    ghost var before, table := k.ram, k.Table();
    k.ram := WithWord(k.ram, root, 1, first * PAGE_SIZE);
    assert k.Table() == table;
    forall f | f in BlocksOf(nodes) ensures f !in [root] {
      RootApart(root, BlocksOf(nodes), f);
    }
    NodesSame(before, k.ram, nodes, [root]);
  }

  lemma RootApart(root: nat, blocks: seq<nat>, f: nat)
    requires NoRepeats([root] + blocks) && f in blocks
    ensures f != root
  {
    var i :| 0 <= i < |blocks| && blocks[i] == f;
    assert ([root] + blocks)[0] == root && ([root] + blocks)[i + 1] == f;
  }

  /**
   pathparser_parse: null for a rejected path, otherwise a root whose list holds
   exactly the parts of the path. The blocks taken are those of the root and the
   list; no other memory changes but that of a free block, used for the last
   empty component and given back.
   */
  method Parse(k: Kernel, path: CString) returns (root: nat, ghost nodes: seq<Node>, ghost dropped: nat)
    requires k.Valid()
    requires Accepted(path) ==> FreeCount(k.Table()) >= 2 * |Parts(path, 3)| + 2
    modifies k`ram, k.heap.entries
    ensures k.Valid()
    ensures !Accepted(path) ==> root == 0 && k.ram == old(k.ram) && k.Table() == old(k.Table())
    ensures Accepted(path) ==>
      && RootAt(k.ram, root, path[0] - ZERO, nodes) && Texts(nodes) == Parts(path, 3)
      && Taken(Live(k.Table()), Live(old(k.Table())), k.Frame(0), [root] + BlocksOf(nodes))
      && SameElsewhere(old(k.ram), k.ram, [root] + BlocksOf(nodes) + [dropped])
      && dropped >= k.Frame(0) && BlockFree(k.Table(), dropped - k.Frame(0))
  {
    hide Live, FreeCount, WellFormed, Taken, NodesAt, BlocksOf, Parts, ComponentEnd, Texts, SameElsewhere, StringAt;
    ghost var before := k.ram;
    dropped := 0;
    nodes := [];
    if |path| > MAX_PATH || !ValidFormat(path) {
      return 0, [], 0;
    }
    ghost var live0, all := Live(k.Table()), Parts(path, 3);
    root := CreateRoot(k, path[0] - ZERO);
    var next := 3;
    var part;
    ghost var node;
    MoreParts(path, next);
    ghost var ram := k.ram;
    part, next, node, dropped := ParsePathPart(k, 0, path, next, live0, root, nodes);
    assert Texts([]) == [] by { NoTexts(); }
    if part == 0 {
      SameElsewhereWithin(before, ram, k.ram, [root] + BlocksOf([]), [dropped], [root] + BlocksOf([]) + [dropped]);
      return;
    }
    NodeFrame(k.ram, nodes, node);
    MoreBlocks(before, ram, k.ram, root, nodes, node);
    ram := k.ram;
    SetFirst(k, root, part, live0, nodes + [node]);
    TextsAppend(nodes, node);
    nodes := nodes + [node];
    SameElsewhereWithin(before, ram, k.ram, [root] + BlocksOf(nodes), [root], [root] + BlocksOf(nodes));
    ghost var first := k.ram[root];
    while part != 0
      invariant Building(k, live0, root, nodes) && k.ram[root] == first && nodes != []
      invariant first[0] == path[0] - ZERO && first[1] == nodes[0].frame * PAGE_SIZE
      invariant 3 <= next <= |path|
      invariant if part == 0 then Texts(nodes) == all
        else part == nodes[|nodes| - 1].frame && Texts(nodes) + Parts(path, next) == all
      invariant part != 0 ==> FreeCount(k.Table()) >= 2 * |Parts(path, next)| + 1
      invariant if part != 0 then SameElsewhere(before, k.ram, [root] + BlocksOf(nodes))
        else
          && SameElsewhere(before, k.ram, [root] + BlocksOf(nodes) + [dropped])
          && dropped >= k.Frame(0) && BlockFree(k.Table(), dropped - k.Frame(0))
      decreases if part == 0 then 0 else 1 + |path| - next
    {
      MoreParts(path, next);
      ram := k.ram;
      part, next, node, dropped := ParsePathPart(k, part, path, next, live0, root, nodes);
      if part == 0 {
        SameElsewhereWithin(before, ram, k.ram, [root] + BlocksOf(nodes), [dropped], [root] + BlocksOf(nodes) + [dropped]);
      } else {
        MoreBlocks(before, ram, k.ram, root, nodes, node);
        TextsAppend(nodes, node);
        nodes := nodes + [node];
      }
    }
  }

  lemma MoreBlocks(before: Ram, middle: Ram, after: Ram, root: nat, nodes: seq<Node>, node: Node)
    requires SameElsewhere(before, middle, [root] + BlocksOf(nodes))
    requires SameElsewhere(middle, after, [root] + BlocksOf(nodes + [node]))
    ensures SameElsewhere(before, after, [root] + BlocksOf(nodes + [node]))
  {
    hide SameElsewhere;
    BlocksOfAppend(nodes, node);
    var more := [root] + BlocksOf(nodes + [node]);
    SameElsewhereWithin(before, middle, after, [root] + BlocksOf(nodes), more, more);
  }

  lemma NoTexts()
    ensures Texts([]) == []
  {
  }

  lemma NodeFrame(ram: Ram, nodes: seq<Node>, node: Node)
    requires NodesAt(ram, nodes + [node])
    ensures node.frame < FRAMES
  {
    assert NodeAt(ram, nodes + [node], |nodes|);
  }

  // ---------------------------------------------------------------------
  // Freeing
  // ---------------------------------------------------------------------

  /** One step of the walk: where the pointers of node i lead. */
  lemma Follow(ram: Ram, nodes: seq<Node>, i: nat)
    requires NodesAt(ram, nodes) && i < |nodes|
    ensures 0 < nodes[i].frame < FRAMES
    ensures ram[nodes[i].frame][0] / PAGE_SIZE == nodes[i].buf
    ensures ram[nodes[i].frame][1] / PAGE_SIZE == if i + 1 < |nodes| then nodes[i + 1].frame else 0
  {
    assert NodeAt(ram, nodes, i);
  }

  lemma PrefixGrows(s: seq<nat>, i: nat)
    requires i < |s|
    ensures s[..i] + [s[i]] == s[..i + 1]
    ensures NoRepeats(s) ==> s[i] !in s[..i]
  {
  }

  /** kfree of the i-th of a number of blocks, in order. */
  method KfreeNext(k: Kernel, frame: nat, ghost live0: map<nat, nat>, ghost blocks: seq<nat>, ghost i: nat)
    requires k.Valid() && Owned(live0, k.Frame(0), blocks) && NoRepeats(blocks)
    requires i < |blocks| && frame == blocks[i] && Released(Live(k.Table()), live0, k.Frame(0), blocks[..i])
    modifies k.heap.entries
    ensures k.Valid() && Released(Live(k.Table()), live0, k.Frame(0), blocks[..i + 1])
  {
    hide Live, FreeCount, WellFormed, Owned, Released;
    PrefixGrows(blocks, i);
    StillOwned(live0, Live(k.Table()), k.Frame(0), blocks, blocks[..i], i);
    ReleaseNext(live0, Live(k.Table()), k.Frame(0), blocks, blocks[..i], i);
    KfreePage(k, frame);
  }

  /** pathparser_free: every block of the list and its root return to the pool. */
  method PathparserFree(k: Kernel, root: nat, ghost drive: nat, ghost nodes: seq<Node>)
    requires k.Valid() && RootAt(k.ram, root, drive, nodes)
    requires Owned(Live(k.Table()), k.Frame(0), BlocksOf(nodes) + [root]) && NoRepeats(BlocksOf(nodes) + [root])
    modifies k.heap.entries
    ensures k.Valid()
    ensures Released(Live(k.Table()), Live(old(k.Table())), k.Frame(0), BlocksOf(nodes) + [root])
  {
    hide Live, FreeCount, WellFormed, Owned, Released, NodesAt, BlocksOf, NoRepeats;
    ghost var live0, blocks, n := Live(k.Table()), BlocksOf(nodes) + [root], |nodes|;
    var part := k.ram[root][1] / PAGE_SIZE;
    if n > 0 { Follow(k.ram, nodes, 0); }
    ghost var i := 0;
    NothingReleased(live0, k.Frame(0));
    assert blocks[..0] == [];
    while part != 0
      invariant 0 <= i <= n && part == if i < n then nodes[i].frame else 0
      invariant k.Valid() && Released(Live(k.Table()), live0, k.Frame(0), blocks[..2 * i])
      decreases n - i
    {
      Follow(k.ram, nodes, i);
      if i + 1 < n { Follow(k.ram, nodes, i + 1); }
      NodeBlocks(nodes, i);
      var next := k.ram[part][1] / PAGE_SIZE;
      KfreeNext(k, k.ram[part][0] / PAGE_SIZE, live0, blocks, 2 * i);
      KfreeNext(k, part, live0, blocks, 2 * i + 1);
      part, i := next, i + 1;
    }
    assert i == n by { if i < n { Follow(k.ram, nodes, i); } }
    KfreeNext(k, root, live0, blocks, 2 * n);
    assert blocks[..2 * n + 1] == blocks;
  }

  /** Rotating the root behind its list. */
  lemma RootLast(live: map<nat, nat>, live0: map<nat, nat>, base: nat, root: nat, blocks: seq<nat>)
    requires Taken(live, live0, base, [root] + blocks)
    ensures Owned(live, base, blocks + [root]) && NoRepeats(blocks + [root])
    ensures forall f :: f in [root] + blocks <==> f in blocks + [root]
  {
    var moved, was := blocks + [root], [root] + blocks;
    assert forall f :: f in moved <==> f in was;
    TakenIsOwned(live, live0, base, was);
    forall i, j | 0 <= i < j < |moved| ensures moved[i] != moved[j] {
      assert moved[i] == was[i + 1] && moved[j] == if j == |blocks| then was[0] else was[j + 1];
    }
  }

  /** Parsing a path and freeing the result leaves every byte of the block table as it was. */
  method ParseThenFree(k: Kernel, path: CString)
    requires k.Valid()
    requires Accepted(path) ==> FreeCount(k.Table()) >= 2 * |Parts(path, 3)| + 2
    modifies k`ram, k.heap.entries
    ensures k.Valid() && k.Table() == old(k.Table())
  {
    hide Live, FreeCount, Taken, Owned, Released, NodesAt, BlocksOf, Parts, Texts, NoRepeats;
    ghost var live0 := Live(k.Table());
    ghost var nodes;
    var root;
    ghost var dropped;
    root, nodes, dropped := Parse(k, path);
    if root != 0 {
      ghost var during := Live(k.Table());
      RootLast(during, live0, k.Frame(0), root, BlocksOf(nodes));
      PathparserFree(k, root, path[0] - ZERO, nodes);
      TakenThenReleased(live0, during, Live(k.Table()), k.Frame(0), [root] + BlocksOf(nodes), BlocksOf(nodes) + [root]);
      TableIsUnique(k.Table(), old(k.Table()), live0);
    }
  }
}
