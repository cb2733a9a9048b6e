/**
 The syntax of paths: what pathparser_parse computes from the characters, set
 against splitting at slashes and printing.
 */
module PathSyntax {
  import opened Memory

  const MAX_PATH := 108
  const SLASH: Byte := 47
  const COLON: Byte := 58
  const ZERO: Byte := 48

  /** The characters of a C string, without the final NUL. */
  type CString = s: seq<Byte> | 0 !in s

  predicate IsDigit(c: Byte) {
    48 <= c <= 57
  }

  /** pathparser_path_valid_format. */
  predicate ValidFormat(path: CString) {
    |path| >= 3 && IsDigit(path[0]) && path[1] == COLON && path[2] == SLASH
  }

  predicate Accepted(path: CString) {
    |path| <= MAX_PATH && ValidFormat(path)
  }

  /** Accepted are the paths of 3 to 108 characters that begin with a digit, a colon and a slash. */
  lemma AcceptedIff(path: CString)
    ensures Accepted(path) <==>
      3 <= |path| <= 108 && 48 <= path[0] <= 57 && path[1] == 58 && path[2] == 47
  {
  }

  // ---------------------------------------------------------------------
  // The parser's own walk
  // ---------------------------------------------------------------------

  /** Where the component that starts at i ends: at a slash or at the end. */
  function ComponentEnd(path: CString, i: nat): (e: nat)
    requires i <= |path|
    ensures i <= e <= |path|
    ensures SLASH !in path[i..e]
    ensures e < |path| ==> path[e] == SLASH
    decreases |path| - i
  {
    if i == |path| || path[i] == SLASH then i
    else
      assert path[i..ComponentEnd(path, i + 1)] == [path[i]] + path[i + 1..ComponentEnd(path, i + 1)];
      ComponentEnd(path, i + 1)
  }

  /** The position after a component, past the slash if there is one. */
  function AfterComponent(path: CString, i: nat): (n: nat)
    requires i <= |path|
    ensures i <= n <= |path|
  {
    var e := ComponentEnd(path, i);
    if e < |path| then e + 1 else e
  }

  /** The components pathparser_parse collects from position i: it stops at the first empty one. */
  function Parts(path: CString, i: nat): seq<CString>
    requires i <= |path|
    decreases |path| - i
  {
    var e := ComponentEnd(path, i);
    if e == i then [] else [Cut(path, i, e)] + Parts(path, AfterComponent(path, i))
  }

  function Cut(path: CString, i: nat, e: nat): CString
    requires i <= e <= |path|
  {
    path[i..e]
  }

  // ---------------------------------------------------------------------
  // Splitting and joining
  // ---------------------------------------------------------------------

  /** All the pieces between slashes, empty ones included. */
  function Split(s: CString): (r: seq<CString>)
    ensures r != []
  {
    if s == [] then [[]]
    else
      var rest := Split(s[1..]);
      if s[0] == SLASH then [[]] + rest else [Prepend(s[0], rest[0])] + rest[1..]
  }

  function Prepend(c: Byte, s: CString): CString
    requires c != 0
  {
    [c] + s
  }

  /** The pieces with slashes between them. */
  function Join(parts: seq<CString>): CString
    requires parts != []
  {
    if |parts| == 1 then parts[0] else parts[0] + [SLASH] + Join(parts[1..])
  }

  /** The longest prefix without an empty piece. */
  function NonEmptyPrefix(parts: seq<CString>): seq<CString> {
    if parts == [] || parts[0] == [] then [] else [parts[0]] + NonEmptyPrefix(parts[1..])
  }

  predicate Component(s: CString) {
    s != [] && SLASH !in s
  }

  lemma {:induction false} SplitPlain(c: CString)
    requires SLASH !in c
    ensures Split(c) == [c]
  {
    if c != [] {
      SplitPlain(c[1..]);
      assert c == [c[0]] + c[1..];
    }
  }

  lemma {:induction false} SplitFirst(c: CString, rest: CString)
    requires SLASH !in c
    ensures Split(c + [SLASH] + rest) == [c] + Split(rest)
  {
    var s: CString := c + [SLASH] + rest;
    if c == [] {
      assert s[1..] == rest;
    } else {
      SplitFirst(c[1..], rest);
      assert s[1..] == c[1..] + [SLASH] + rest;
      assert c == [c[0]] + c[1..];
    }
  }

  /** Splitting undoes joining. */
  lemma {:induction false} SplitJoin(parts: seq<CString>)
    requires parts != [] && forall i :: 0 <= i < |parts| ==> SLASH !in parts[i]
    ensures Split(Join(parts)) == parts
  {
    if |parts| == 1 {
      SplitPlain(parts[0]);
    } else {
      SplitJoin(parts[1..]);
      SplitFirst(parts[0], Join(parts[1..]));
    }
  }

  /** Joining undoes splitting. */
  lemma {:induction false} JoinSplit(s: CString)
    ensures Join(Split(s)) == s
  {
    if s != [] {
      JoinSplit(s[1..]);
      var rest := Split(s[1..]);
      if s[0] == SLASH {
        assert ([[]] + rest)[1..] == rest;
        assert s == [] + [SLASH] + s[1..];
      } else {
        var all := Split(s);
        assert all[1..] == rest[1..];
        assert s == [s[0]] + s[1..];
      }
    }
  }

  lemma {:induction false} PrefixOfFull(parts: seq<CString>)
    ensures NonEmptyPrefix(parts) <= parts
    ensures NonEmptyPrefix(parts) == parts <==> [] !in parts
    ensures NonEmptyPrefix(parts) != parts ==> parts[|NonEmptyPrefix(parts)|] == []
    ensures [] !in NonEmptyPrefix(parts)
  {
    if parts != [] && parts[0] != [] {
      PrefixOfFull(parts[1..]);
      assert parts == [parts[0]] + parts[1..];
    }
  }

  // ---------------------------------------------------------------------
  // What the parser computes
  // ---------------------------------------------------------------------

  lemma MoreParts(path: CString, pos: nat)
    requires pos <= |path|
    ensures ComponentEnd(path, pos) == pos ==> Parts(path, pos) == []
    ensures ComponentEnd(path, pos) > pos ==>
      && pos < AfterComponent(path, pos)
      && Parts(path, pos) == [Cut(path, pos, ComponentEnd(path, pos))] + Parts(path, AfterComponent(path, pos))
  {
  }

  lemma PrefixStep(c: CString, rest: seq<CString>)
    ensures NonEmptyPrefix([c] + rest) == if c == [] then [] else [c] + NonEmptyPrefix(rest)
  {
    assert ([c] + rest)[1..] == rest;
  }

  lemma LastPart(path: CString, i: nat)
    requires i <= |path| == ComponentEnd(path, i)
    ensures Parts(path, i) == NonEmptyPrefix(Split(path[i..]))
  {
    hide Split, Parts, NonEmptyPrefix;
    var c := Cut(path, i, |path|);
    assert path[i..] == c;
    SplitPlain(c);
    PrefixStep(c, []);
    NoPrefix();
    assert [c] + [] == [c];
    MoreParts(path, i);
    MoreParts(path, |path|);
  }

  /** The parts are the longest prefix of non-empty pieces between slashes. */
  lemma {:induction false} PartsAreSplitPrefix(path: CString, i: nat)
    requires i <= |path|
    ensures Parts(path, i) == NonEmptyPrefix(Split(path[i..]))
    decreases |path| - i
  {
    hide Split, Parts, NonEmptyPrefix;
    var e := ComponentEnd(path, i);
    if e == |path| {
      LastPart(path, i);
    } else {
      var c := Cut(path, i, e);
      MoreParts(path, i);
      assert path[i..] == c + [SLASH] + path[e + 1..];
      SplitFirst(c, path[e + 1..]);
      PrefixStep(c, Split(path[e + 1..]));
      if e > i {
        PartsAreSplitPrefix(path, e + 1);
      }
    }
  }

  lemma NoPrefix()
    ensures NonEmptyPrefix([]) == []
  {
  }

  /** Every part is a component and fits, with its NUL, in the buffer made for it. */
  lemma {:induction false} PartsFit(path: CString, i: nat)
    requires i <= |path|
    ensures forall c :: c in Parts(path, i) ==> Component(c) && |c| <= |path| - i
    decreases |path| - i
  {
    if ComponentEnd(path, i) > i {
      PartsFit(path, AfterComponent(path, i));
    }
  }

  /** A printed path: drive digit, colon, slash and the parts with slashes between them. */
  function Print(drive: nat, parts: seq<CString>): CString
    requires drive <= 9 && parts != []
  {
    [ZERO + drive, COLON, SLASH] + Join(parts)
  }

  /** Parsing what was printed gives back the drive and the parts. */
  lemma RoundTrip(drive: nat, parts: seq<CString>)
    requires drive <= 9 && parts != [] && forall i :: 0 <= i < |parts| ==> Component(parts[i])
    requires |Print(drive, parts)| <= MAX_PATH
    ensures var path := Print(drive, parts);
      Accepted(path) && path[0] - ZERO == drive && Parts(path, 3) == parts
  {
    var path := Print(drive, parts);
    assert path[3..] == Join(parts);
    PartsAreSplitPrefix(path, 3);
    SplitJoin(parts);
    PrefixOfFull(parts);
  }

  /** Printing what was parsed gives back the path, exactly when no piece of it is empty. */
  lemma PrintParsed(path: CString)
    requires Accepted(path)
    ensures Parts(path, 3) != [] && Print(path[0] - ZERO, Parts(path, 3)) == path <==> [] !in Split(path[3..])
  {
    hide Split, Join, Parts, NonEmptyPrefix;
    var pieces, parts := Split(path[3..]), Parts(path, 3);
    PartsAreSplitPrefix(path, 3);
    PrefixOfFull(pieces);
    JoinSplit(path[3..]);
    assert path == [path[0], COLON, SLASH] + path[3..];
    if parts != [] && Print(path[0] - ZERO, parts) == path {
      PartsFit(path, 3);
      assert Join(parts) == path[3..] by { assert path[3..] == Print(path[0] - ZERO, parts)[3..]; }
      SplitJoin(parts);
    }
  }
}
