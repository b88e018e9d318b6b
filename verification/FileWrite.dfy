/** Writing a file at a position: finding or extending the way to it, then laying the data
    over the chain. */
module FileWrite {
  import opened Bytes
  import opened FatChains
  import opened FileData

  datatype WriteResult =
    | Written(fat: seq<nat>, data: seq<seq<Byte>>, first: nat)
    | NoRoom(fat: seq<nat>, data: seq<seq<Byte>>)
    | WriteFault

  function FromFill(r: FillResult, first: nat): WriteResult {
    match r
    case Filled(f, d) => Written(f, d, first)
    case FillFull(f, d) => NoRoom(f, d)
    case FillFault => WriteFault
  }

  /** Write `buf` at offset `o` of the `k`-th cluster of the file starting at `first`, where
      first == 0 is a file without clusters. */
  ghost function WriteAt(fat: seq<nat>, data: seq<seq<Byte>>, lim: nat, cs: nat, first: nat, k: nat, o: nat, buf: seq<Byte>): WriteResult
    requires ValidTable(fat, lim) && ValidData(data, lim, cs) && o < cs
  {
    if first == 0 then
      match Alloc(fat, lim, -1)
      case Full => NoRoom(fat, data)
      case Allocated(f, n) => FromFill(Fill(f, data, lim, cs, n, o, buf), n)
    else if !(2 <= first < lim) then WriteFault
    else
      match Walk(fat, lim, first, k)
      case Walked(f, c) => FromFill(Fill(f, data, lim, cs, c, o, buf), first)
      case WalkFull(f) => NoRoom(f, data)
      case WalkFault => WriteFault
  }

  /** Clusters a file needs to hold `n` bytes from offset `o` of its `k`-th cluster on. */
  function Needed(cs: nat, k: nat, o: nat, n: nat): nat
    requires o < cs
  {
    k + 1 + Hops(cs, o, n)
  }

  /** The bytes of `buf` that go below `end` when written from `p` on. */
  function Fitting(p: nat, buf: seq<Byte>, end: nat): seq<Byte> {
    buf[..Min(|buf|, Max(0, end - p))]
  }

  ghost predicate OnlyIn(data: seq<seq<Byte>>, data': seq<seq<Byte>>, lim: nat, ch: seq<nat>) {
    && |data'| == |data| == lim
    && forall c {:trigger data'[c]} :: 2 <= c < lim && c !in ch ==> data'[c] == data[c]
  }

  /** `after` is `before` with what fits of `buf` spliced in at `p`. */
  ghost predicate Absorbed(before: seq<Byte>, after: seq<Byte>, p: nat, buf: seq<Byte>) {
    var w := Fitting(p, buf, |before|);
    if w == [] then after == before else p + |w| <= |before| && after == Splice(before, p, w)
  }

  /** The chain's bytes after the write: what fits is spliced in at `p`, nothing else moves. */
  ghost predicate BytesWritten(data: seq<seq<Byte>>, data': seq<seq<Byte>>, lim: nat, cs: nat, ch: seq<nat>, p: nat, buf: seq<Byte>)
  {
    && ValidData(data, lim, cs) && ValidData(data', lim, cs) && InRange(ch, lim)
    && OnlyIn(data, data', lim, ch)
    && Absorbed(Flatten(data, ch), Flatten(data', ch), p, buf)
  }

  lemma {:induction false} OverlaidAbsorbed(before: seq<Byte>, after: seq<Byte>, p: nat, buf: seq<Byte>, end: nat)
    requires Overlaid(before, after, p, buf, end)
    requires end == |before| || p + |buf| <= end
    ensures Absorbed(before, after, p, buf)
  {
  }

  // ---------------------------------------------------------------- the loop on a chain

  /** A write of `n` bytes from offset `o` of position `i` of the chain: the whole of it goes in
      exactly when the missing clusters are free; if not, none is left free. */
  ghost predicate FillOutcome(fat: seq<nat>, data: seq<seq<Byte>>, lim: nat, cs: nat, ch: seq<nat>,
                              i: nat, o: nat, buf: seq<Byte>, r: FillResult, ext: seq<nat>)
    requires lim <= |fat| && o < cs
  {
    var need := Max(0, Needed(cs, i, o, |buf|) - |ch|);
    && !r.FillFault?
    && Extends(fat, r.fat, lim, ch, ext)
    && BytesWritten(data, r.data, lim, cs, ch + ext, Span(i, cs) + o, buf)
    && (r.Filled? <==> need <= |FreeSet(fat, lim)|)
    && |ext| == Min(need, |FreeSet(fat, lim)|)
  }

  lemma {:induction false} FillOnChain(fat: seq<nat>, data: seq<seq<Byte>>, lim: nat, cs: nat, ch: seq<nat>, i: nat, o: nat, buf: seq<Byte>)
    returns (ext: seq<nat>)
    requires ValidTable(fat, lim) && ValidData(data, lim, cs)
    requires IsChain(fat, lim, ch) && i < |ch| && o < cs
    ensures FillOutcome(fat, data, lim, cs, ch, i, o, buf, Fill(fat, data, lim, cs, ch[i], o, buf), ext)
  {
    var k := Hops(cs, o, |buf|);
    var v, r := Visit(fat, lim, ch[i], k), Walk(fat, lim, ch[i], k);
    FillIsWalkAndLay(fat, data, lim, cs, ch[i], o, buf);
    ext := WalkAlongChain(fat, lim, ch, i, k);
    var all := ch + ext;
    ExtendsIsChain(fat, r.fat, lim, ch, ext);
    var j := if r.Walked? then i + k + 1 else |all|;
    assert v == all[i..j];
    assert BytesWritten(data, Lay(data, lim, cs, v, o, buf), lim, cs, all, Span(i, cs) + o, buf) by {
      LaidOnChain(data, lim, cs, all, i, j, o, buf, r.Walked?);
    }
  }

  /** A walk long enough for `n` bytes holds them. */
  lemma {:induction false} HopsHold(cs: nat, i: nat, o: nat, n: nat)
    requires o < cs
    ensures Span(i, cs) + o + n <= Span(i + 1 + Hops(cs, o, n), cs)
    ensures n > 0 ==> Span(i + Hops(cs, o, n), cs) < Span(i, cs) + o + n
    decreases n
  {
    if o + n > cs {
      HopsHold(cs, i + 1, 0, n - (cs - o));
    }
  }

  /** A chain shorter than needed ends no later than the `n` bytes do. */
  lemma {:induction false} TooShort(cs: nat, i: nat, o: nat, n: nat, len: nat)
    requires o < cs && len < Needed(cs, i, o, n)
    ensures Span(len, cs) <= Span(i, cs) + o + n
  {
    HopsHold(cs, i, o, n);
    SpanMono(len, Needed(cs, i, o, n) - 1, cs);
  }

  lemma {:induction false} LaidOnChain(data: seq<seq<Byte>>, lim: nat, cs: nat, all: seq<nat>, i: nat, j: nat, o: nat, buf: seq<Byte>, enough: bool)
    requires ValidData(data, lim, cs) && InRange(all, lim) && Distinct(all)
    requires i < j <= |all| && o < cs
    requires if enough then j == i + 1 + Hops(cs, o, |buf|) else j == |all|
    ensures BytesWritten(data, Lay(data, lim, cs, all[i..j], o, buf), lim, cs, all, Span(i, cs) + o, buf)
  {
    var data' := Lay(data, lim, cs, all[i..j], o, buf);
    assert OnlyIn(data, data', lim, all) by {
      forall c | 2 <= c < lim && c !in all
        ensures data'[c] == data[c]
      {
        LayFrame(data, lim, cs, all[i..j], o, buf, c);
      }
    }
    if buf != [] {
      LayOnChain(data, lim, cs, all, i, j, o, buf);
      HopsHold(cs, i, o, |buf|);
      FlattenLength(data, lim, cs, all);
      OverlaidAbsorbed(Flatten(data, all), Flatten(data', all), Span(i, cs) + o, buf, Span(j, cs));
    }
  }

  // ---------------------------------------------------------------- the whole write

  /** A write at offset `o` of the `k`-th cluster of the file on chain `ch`, when it lengthened
      the chain by `ext`. It succeeds exactly when the clusters the file lacks are free, and then
      takes exactly those; otherwise it takes all that are free. */
  ghost predicate WriteOutcome(fat: seq<nat>, data: seq<seq<Byte>>, lim: nat, cs: nat, ch: seq<nat>,
                               k: nat, o: nat, buf: seq<Byte>, r: WriteResult, ext: seq<nat>)
    requires lim <= |fat| && o < cs
  {
    var need := Max(0, Needed(cs, k, o, |buf|) - |ch|);
    && !r.WriteFault?
    && Extends(fat, r.fat, lim, ch, ext)
    && BytesWritten(data, r.data, lim, cs, ch + ext, Span(k, cs) + o, buf)
    && (r.Written? <==> need <= |FreeSet(fat, lim)|)
    && |ext| == Min(need, |FreeSet(fat, lim)|)
    && (r.Written? ==> ch + ext != [] && r.first == (ch + ext)[0])
  }

  lemma {:induction false} NothingFits(data: seq<seq<Byte>>, lim: nat, cs: nat, ch: seq<nat>, k: nat, o: nat, buf: seq<Byte>)
    requires ValidData(data, lim, cs) && InRange(ch, lim) && |ch| <= k
    ensures BytesWritten(data, data, lim, cs, ch, Span(k, cs) + o, buf)
  {
    FlattenLength(data, lim, cs, ch);
    SpanMono(|ch|, k, cs);
  }

  /** Getting to the `k`-th cluster by lengthening the chain by `e`, then filling, is one write. */
  lemma {:induction false} ReachThenFill(fat: seq<nat>, f: seq<nat>, data: seq<seq<Byte>>, lim: nat, cs: nat, ch: seq<nat>, e: seq<nat>,
                                         k: nat, o: nat, buf: seq<Byte>, r: FillResult, more: seq<nat>)
    requires ValidTable(fat, lim) && |f| == |fat| && o < cs && k < |ch + e|
    requires Extends(fat, f, lim, ch, e) && |e| == Max(0, k + 1 - |ch|)
    requires FillOutcome(f, data, lim, cs, ch + e, k, o, buf, r, more)
    ensures WriteOutcome(fat, data, lim, cs, ch, k, o, buf, FromFill(r, (ch + e)[0]), e + more)
  {
    assert ch + e + more == ch + (e + more);
    ExtendsTrans(fat, f, r.fat, lim, ch, e, more);
    ExtendsFree(fat, f, lim, ch, e);
  }

  lemma {:induction false} WriteOnChain(fat: seq<nat>, data: seq<seq<Byte>>, lim: nat, cs: nat, ch: seq<nat>, k: nat, o: nat, buf: seq<Byte>)
    returns (ext: seq<nat>)
    requires ValidTable(fat, lim) && ValidData(data, lim, cs)
    requires IsChain(fat, lim, ch) && ch != [] && o < cs
    ensures WriteOutcome(fat, data, lim, cs, ch, k, o, buf, WriteAt(fat, data, lim, cs, ch[0], k, o, buf), ext)
  {
    ext := WalkAlongChain(fat, lim, ch, 0, k);
    match Walk(fat, lim, ch[0], k)
    case Walked(f, c) =>
      ExtendsIsChain(fat, f, lim, ch, ext);
      var more := FillOnChain(f, data, lim, cs, ch + ext, k, o, buf);
      ReachThenFill(fat, f, data, lim, cs, ch, ext, k, o, buf, Fill(f, data, lim, cs, c, o, buf), more);
      ext := ext + more;
    case WalkFull(f) =>
      ExtendsIsChain(fat, f, lim, ch, ext);
      NothingFits(data, lim, cs, ch + ext, k, o, buf);
  }

  lemma {:induction false} WriteFirst(fat: seq<nat>, data: seq<seq<Byte>>, lim: nat, cs: nat, o: nat, buf: seq<Byte>)
    returns (ext: seq<nat>)
    requires ValidTable(fat, lim) && ValidData(data, lim, cs) && o < cs
    ensures WriteOutcome(fat, data, lim, cs, [], 0, o, buf, WriteAt(fat, data, lim, cs, 0, 0, o, buf), ext)
  {
    AllocFirst(fat, lim);
    match Alloc(fat, lim, -1)
    case Allocated(f, n) =>
      var one := [] + [n];
      ExtendsIsChain(fat, f, lim, [], [n]);
      var more := FillOnChain(f, data, lim, cs, one, 0, o, buf);
      assert one[0] == n;
      ReachThenFill(fat, f, data, lim, cs, [], [n], 0, o, buf, Fill(f, data, lim, cs, n, o, buf), more);
      ext := [n] + more;
    case Full =>
      WriteFirstFull(fat, data, lim, cs, o, buf);
      ext := [];
  }

  lemma {:induction false} WriteFirstFull(fat: seq<nat>, data: seq<seq<Byte>>, lim: nat, cs: nat, o: nat, buf: seq<Byte>)
    requires ValidTable(fat, lim) && ValidData(data, lim, cs) && o < cs && FreeSet(fat, lim) == {}
    ensures WriteOutcome(fat, data, lim, cs, [], 0, o, buf, NoRoom(fat, data), [])
  {
    var none: seq<nat> := [];
    assert none + none == none;
    ExtendsRefl(fat, lim, none);
    NothingFits(data, lim, cs, none, 0, o, buf);
  }

  // ---------------------------------------------------------------- chain length and file size

  /** `len` clusters are exactly what `size` bytes need. */
  ghost predicate Tight(len: nat, size: nat, cs: nat) {
    size <= Span(len, cs) && (len > 0 ==> Span(len - 1, cs) < size)
  }

  lemma {:induction false} TightIsCeiling(len: nat, size: nat, cs: nat)
    requires cs > 0
    ensures Tight(len, size, cs) <==> len == (size + cs - 1) / cs
  {
    var p := size + cs - 1;
    var q := Index(p, cs);
    IndexIsDivision(p, cs);
    PositionSplit(p, cs);
    if len < q {
      SpanGap(len, q, cs);
    } else if q < len {
      SpanMono(q, len - 1, cs);
    }
  }

  /** A successful write of at least one byte keeps the chain exactly as long as the file,
      wherever it starts: on a cluster boundary, inside, or past the end. */
  lemma {:induction false} WriteKeepsTight(len: nat, size: nat, cs: nat, k: nat, o: nat, n: nat)
    requires o < cs && n > 0 && Tight(len, size, cs)
    ensures Tight(Max(len, Needed(cs, k, o, n)), Max(size, Span(k, cs) + o + n), cs)
  {
    var need, end := Needed(cs, k, o, n), Span(k, cs) + o + n;
    assert Span(need - 1, cs) < end <= Span(need, cs) by { HopsHold(cs, k, o, n); }
    if need <= len {
      SpanMono(need, len, cs);
      assert Max(size, end) <= Span(len, cs);
    } else {
      SpanMono(len, need - 1, cs);
      assert Max(size, end) == end;
    }
  }
}
