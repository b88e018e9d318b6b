/** Paths of the form `d:/a/b/c`: the parser, and the split and join it is measured against. A
    path is a C string without its terminator, so it holds no NUL. */
module PathParser {
  import opened Bytes

  datatype Root = Root(drive: nat, parts: seq<string>)

  predicate IsDigit(c: char) {
    '0' <= c <= '9'
  }

  predicate ValidFormat(path: string) {
    |path| >= 3 && IsDigit(path[0]) && path[1] == ':' && path[2] == '/'
  }

  // ---------------------------------------------------------------- what the parser computes

  /** Length of the component `s` begins with. */
  function PartLength(s: string): (n: nat)
    ensures n <= |s| && '/' !in s[..n] && (n < |s| ==> s[n] == '/')
  {
    if s == [] || s[0] == '/' then 0 else
      assert forall m :: 0 <= m <= |s[1..]| ==> s[..m + 1] == [s[0]] + s[1..][..m];
      1 + PartLength(s[1..])
  }

  /** What follows the component and its slash. */
  function AfterPart(s: string): (r: string)
    ensures s != [] ==> |r| < |s|
  {
    var n := PartLength(s);
    if n < |s| then s[n + 1..] else []
  }

  function Parts(s: string): seq<string>
    decreases |s|
  {
    var n := PartLength(s);
    if n == 0 then [] else [s[..n]] + Parts(AfterPart(s))
  }

  function Parse(path: string): Option<Root> {
    if |path| > MAX_PATH || !ValidFormat(path) then None
    else Some(Root(path[0] as int - '0' as int, Parts(path[3..])))
  }

  // ---------------------------------------------------------------- split and join

  /** Components so far, and one more character: a slash begins a new one. */
  ghost function More(cs: seq<string>, x: char): (ds: seq<string>)
    requires cs != []
    ensures ds != []
  {
    if x == '/' then cs + [[]] else cs[..|cs| - 1] + [cs[|cs| - 1] + [x]]
  }

  /** All components between slashes, the empty ones too. */
  ghost function Split(s: string): (cs: seq<string>)
    ensures cs != []
  {
    if s == [] then [[]] else More(Split(s[..|s| - 1]), s[|s| - 1])
  }

  ghost function UpToEmpty(cs: seq<string>): seq<string> {
    if cs == [] || cs[0] == [] then [] else [cs[0]] + UpToEmpty(cs[1..])
  }

  function JoinParts(cs: seq<string>): string {
    if cs == [] then [] else if |cs| == 1 then cs[0] else cs[0] + "/" + JoinParts(cs[1..])
  }

  function Digit(d: nat): char
    requires d < 10
  {
    ('0' as int + d) as char
  }

  function Join(r: Root): string
    requires r.drive < 10
  {
    [Digit(r.drive)] + ":/" + JoinParts(r.parts)
  }

  ghost predicate Clean(c: string) {
    c != [] && '/' !in c
  }

  ghost predicate AllClean(cs: seq<string>) {
    forall i :: 0 <= i < |cs| ==> Clean(cs[i])
  }

  // ---------------------------------------------------------------- the parser against them

  lemma {:induction false} PartLengthIs(c: string, rest: string)
    requires '/' !in c && (rest == [] || rest[0] == '/')
    ensures PartLength(c + rest) == |c|
  {
    if c == [] {
      assert c + rest == rest;
    } else {
      PartLengthIs(c[1..], rest);
      assert (c + rest)[1..] == c[1..] + rest;
    }
  }

  /** The first component and the rest. */
  lemma {:induction false} PartsCons(c: string, rest: string)
    requires '/' !in c && c != []
    ensures Parts(c) == [c]
    ensures Parts(c + "/" + rest) == [c] + Parts(rest)
  {
    PartLengthIs(c, []);
    assert c + [] == c && c[..|c|] == c;
    PartLengthIs(c, "/" + rest);
    var s := c + "/" + rest;
    assert s == c + ("/" + rest);
    assert s[..|c|] == c && s[|c| + 1..] == rest;
  }

  lemma {:induction false} SplitSnoc(s: string, x: char)
    ensures Split(s + [x]) == More(Split(s), x)
  {
    assert (s + [x])[..|s|] == s;
  }

  lemma {:induction false} SplitPlain(c: string)
    requires '/' !in c
    ensures Split(c) == [c]
  {
    if c != [] {
      var front, x := c[..|c| - 1], c[|c| - 1];
      SplitPlain(front);
      assert c == front + [x];
      SplitSnoc(front, x);
      assert More([front], x) == [front + [x]];
    }
  }

  lemma {:induction false} MoreCons(c: string, cs: seq<string>, x: char)
    requires cs != []
    ensures More([c] + cs, x) == [c] + More(cs, x)
  {
    assert ([c] + cs)[..|cs|] == [c] + cs[..|cs| - 1];
  }

  /** Splitting at the first slash. */
  lemma {:induction false} SplitCons(c: string, rest: string)
    requires '/' !in c
    ensures Split(c + "/" + rest) == [c] + Split(rest)
    decreases |rest|
  {
    if rest == [] {
      assert c + "/" + rest == c + "/";
      SplitPlain(c);
      SplitSnoc(c, '/');
    } else {
      var r, x := rest[..|rest| - 1], rest[|rest| - 1];
      assert c + "/" + rest == c + "/" + r + [x];
      SplitSnoc(c + "/" + r, x);
      SplitCons(c, r);
      MoreCons(c, Split(r), x);
    }
  }

  /** On every string the parser keeps the components before the first empty one. */
  lemma {:induction false} PartsAreSplit(s: string)
    ensures Parts(s) == UpToEmpty(Split(s))
    decreases |s|
  {
    var n := PartLength(s);
    var c := s[..n];
    if n < |s| {
      assert s == c + "/" + s[n + 1..];
      SplitCons(c, s[n + 1..]);
      PartsAreSplit(s[n + 1..]);
      assert ([c] + Split(s[n + 1..]))[1..] == Split(s[n + 1..]);
    } else {
      assert s == c;
      SplitPlain(c);
      assert Parts([]) == [];
    }
  }

  lemma {:induction false} PartsClean(s: string)
    ensures AllClean(Parts(s))
    decreases |s|
  {
    if PartLength(s) > 0 {
      PartsClean(AfterPart(s));
    }
  }

  lemma {:induction false} PartsOfJoin(cs: seq<string>)
    requires AllClean(cs)
    ensures Parts(JoinParts(cs)) == cs
  {
    if |cs| == 1 {
      PartsCons(cs[0], []);
    } else if cs != [] {
      PartsOfJoin(cs[1..]);
      PartsCons(cs[0], JoinParts(cs[1..]));
    }
  }

  /** Parsing a joined path gives the drive and the components back exactly if the path is no longer
      than the limit and every component is non-empty and free of slashes. */
  lemma {:induction false} ParseOfJoinIff(r: Root)
    requires r.drive < 10
    ensures Parse(Join(r)) == Some(r) <==> |Join(r)| <= 108 && AllClean(r.parts)
  {
    var path := Join(r);
    assert path[3..] == JoinParts(r.parts);
    PartsClean(JoinParts(r.parts));
    if AllClean(r.parts) {
      PartsOfJoin(r.parts);
    }
  }

  /** What is left where the parser stopped: nothing, or an empty component. */
  ghost predicate Stopped(parts: seq<string>, rest: string) {
    if parts == [] then rest == [] || rest[0] == '/'
    else rest == [] || (rest[0] == '/' && (|rest| == 1 || rest[1] == '/'))
  }

  lemma {:induction false} JoinOfParts(s: string) returns (rest: string)
    ensures s == JoinParts(Parts(s)) + rest && Stopped(Parts(s), rest)
    decreases |s|
  {
    var n := PartLength(s);
    if n == 0 {
      rest := s;
    } else if n == |s| {
      PartsCons(s, []);
      rest := [];
    } else {
      var c, after := s[..n], s[n + 1..];
      assert s == c + "/" + after;
      PartsCons(c, after);
      rest := JoinOfParts(after);
      JoinCons(c, Parts(after), rest);
      rest := if Parts(after) == [] then "/" + rest else rest;
    }
  }

  lemma {:induction false} JoinCons(c: string, cs: seq<string>, rest: string)
    ensures c + "/" + (JoinParts(cs) + rest) == JoinParts([c] + cs) + if cs == [] then "/" + rest else rest
  {
    assert ([c] + cs)[1..] == cs;
  }

  /** An accepted path is the join of what was parsed from it, up to its first empty component; no
      part, with its terminator, outgrows its buffer. */
  lemma {:induction false} ParsedJoins(path: string) returns (rest: string)
    requires Parse(path).Some?
    ensures var r := Parse(path).value; r.drive < 10 && path == Join(r) + rest && AllClean(r.parts)
    ensures rest == [] || rest[0] == '/'
    ensures forall i :: 0 <= i < |Parse(path).value.parts| ==> |Parse(path).value.parts[i]| + 1 <= 108
  {
    rest := JoinOfParts(path[3..]);
    PartsClean(path[3..]);
    PartsShort(path[3..]);
    JoinPrefix(path, Parse(path).value, rest);
  }

  lemma {:induction false} JoinPrefix(path: string, r: Root, rest: string)
    requires ValidFormat(path) && r.drive == path[0] as int - '0' as int && r.drive < 10
    requires path[3..] == JoinParts(r.parts) + rest
    ensures path == Join(r) + rest
  {
    assert path == [path[0]] + ":/" + path[3..];
    assert Digit(r.drive) == path[0];
  }

  lemma {:induction false} PartsShort(s: string)
    ensures forall i :: 0 <= i < |Parts(s)| ==> |Parts(s)[i]| <= |s|
    decreases |s|
  {
    if PartLength(s) > 0 {
      PartsShort(AfterPart(s));
    }
  }

  // ---------------------------------------------------------------- the parser itself

  /** The component at the cursor, copied into a buffer of its own, and the cursor past it and its
      slash; no component at a slash or at the end. */
  method GetPathPart(path: string, pos: nat) returns (part: Option<string>, next: nat)
    requires pos <= |path| < MAX_PATH + pos
    ensures pos <= next <= |path| && path[next..] == AfterPart(path[pos..])
    ensures part.Some? <==> PartLength(path[pos..]) > 0
    ensures part.Some? ==> part.value == path[pos..][..PartLength(path[pos..])] && next > pos
  {
    var buffer := new char[MAX_PATH](_ => '\0');
    var i := 0;
    next := pos;
    while next < |path| && path[next] != '/'
      invariant pos <= next == pos + i <= |path| && '/' !in path[pos..next]
      invariant buffer[..i] == path[pos..next]
    {
      buffer[i] := path[next];
      assert path[pos..next + 1] == path[pos..next] + [path[next]];
      assert buffer[..i + 1] == buffer[..i] + [path[next]];
      next := next + 1;
      i := i + 1;
    }
    PartLengthIs(path[pos..next], path[next..]);
    assert path[pos..] == path[pos..next] + path[next..];
    if next < |path| {
      next := next + 1;
    }
    part := if i == 0 then None else Some(buffer[..i]);
  }

  /** What is still to be recorded: the component in hand and those after the cursor. */
  ghost function Pending(part: Option<string>, rest: string): seq<string> {
    if part.Some? then [part.value] + Parts(rest) else []
  }

  /** Appends the component at the cursor to the parts, if there is one. */
  method ParsePathPart(parts: seq<string>, path: string, pos: nat) returns (more: bool, longer: seq<string>, next: nat)
    requires pos <= |path| < MAX_PATH + pos
    ensures pos <= next <= |path| && (more ==> next > pos)
    ensures longer + (if more then Parts(path[next..]) else []) == parts + Parts(path[pos..])
  {
    var part;
    part, next := GetPathPart(path, pos);
    assert Parts(path[pos..]) == Pending(part, path[next..]);
    if part.None? {
      return false, parts, next;
    }
    more, longer := true, parts + [part.value];
  }

  method ParsePath(path: string) returns (root: Option<Root>)
    ensures root == Parse(path)
  {
    if |path| > MAX_PATH {
      return None;
    }
    if !ValidFormat(path) {
      return None;
    }
    var drive := path[0] as int - '0' as int;
    var more, parts, pos := ParsePathPart([], path, 3);
    while more
      invariant 3 <= pos <= |path|
      invariant parts + (if more then Parts(path[pos..]) else []) == Parts(path[3..])
      decreases |path| - pos, more
    {
      more, parts, pos := ParsePathPart(parts, path, pos);
    }
    assert parts + [] == parts;
    return Some(Root(drive, parts));
  }
}
