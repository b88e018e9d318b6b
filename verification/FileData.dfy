/** File contents on cluster chains: the bytes of a chain, writing across and beyond it,
    and reading it back. */
module FileData {
  import opened Bytes
  import opened FatChains

  /** One buffer of `cs` bytes for every cluster number 2 <= c < lim. */
  ghost predicate ValidData(data: seq<seq<Byte>>, lim: nat, cs: nat) {
    && cs > 0 && |data| == lim
    && forall c :: 2 <= c < lim ==> |data[c]| == cs
  }

  ghost predicate InRange(ch: seq<nat>, lim: nat) {
    forall i :: 0 <= i < |ch| ==> 2 <= ch[i] < lim
  }

  /** Bytes in `n` clusters. */
  ghost function Span(n: nat, cs: nat): nat {
    if n == 0 then 0 else Span(n - 1, cs) + cs
  }

  lemma {:induction false} SpanIsProduct(n: nat, cs: nat)
    ensures Span(n, cs) == n * cs
  {
    if n > 0 {
      SpanIsProduct(n - 1, cs);
      assert n * cs == (n - 1) * cs + cs;
    }
  }

  lemma {:induction false} SpanGap(k: nat, n: nat, cs: nat)
    requires k < n
    ensures Span(k, cs) + cs <= Span(n, cs)
  {
    if k + 1 < n {
      SpanGap(k, n - 1, cs);
    }
  }

  lemma {:induction false} SpanMono(k: nat, n: nat, cs: nat)
    requires k <= n
    ensures Span(k, cs) <= Span(n, cs)
  {
    if k < n { SpanGap(k, n, cs); }
  }

  /** The cluster of a file that byte `p` lies in, and its offset there: quotient and remainder
      by the cluster size (`IndexIsDivision`). */
  function Index(p: nat, cs: nat): nat
    requires cs > 0
  {
    if p < cs then 0 else 1 + Index(p - cs, cs)
  }

  function Offset(p: nat, cs: nat): (o: nat)
    requires cs > 0
    ensures o < cs
  {
    if p < cs then p else Offset(p - cs, cs)
  }

  lemma {:induction false} PositionSplit(p: nat, cs: nat)
    requires cs > 0
    ensures p == Span(Index(p, cs), cs) + Offset(p, cs)
  {
    if p >= cs {
      PositionSplit(p - cs, cs);
    }
  }

  lemma {:induction false} IndexIsDivision(p: nat, cs: nat)
    requires cs > 0
    ensures Index(p, cs) == p / cs && Offset(p, cs) == p % cs
  {
    PositionSplit(p, cs);
    var k, q, r := Index(p, cs), p / cs, p % cs;
    SpanIsProduct(k, cs);
    assert p == q * cs + r && 0 <= r < cs;
    assert (q - k) * cs == (Offset(p, cs) as int) - r;
    MultipleIsFar(q - k, cs);
  }

  /** The bytes of a chain, cluster after cluster. */
  ghost function Flatten(data: seq<seq<Byte>>, ch: seq<nat>): seq<Byte>
    requires InRange(ch, |data|)
  {
    FlattenTo(data, ch, |ch|)
  }

  ghost function FlattenTo(data: seq<seq<Byte>>, ch: seq<nat>, n: nat): seq<Byte>
    requires InRange(ch, |data|) && n <= |ch|
  {
    if n == 0 then [] else FlattenTo(data, ch, n - 1) + data[ch[n - 1]]
  }

  lemma {:induction false} FlattenToLength(data: seq<seq<Byte>>, lim: nat, cs: nat, ch: seq<nat>, n: nat)
    requires ValidData(data, lim, cs) && InRange(ch, lim) && n <= |ch|
    ensures |FlattenTo(data, ch, n)| == Span(n, cs)
  {
    if n > 0 {
      FlattenToLength(data, lim, cs, ch, n - 1);
    }
  }

  lemma {:induction false} FlattenLength(data: seq<seq<Byte>>, lim: nat, cs: nat, ch: seq<nat>)
    requires ValidData(data, lim, cs) && InRange(ch, lim)
    ensures |Flatten(data, ch)| == Span(|ch|, cs)
  {
    FlattenToLength(data, lim, cs, ch, |ch|);
  }

  /** A prefix of a chain's bytes depends only on the clusters of that prefix. */
  lemma {:induction false} FlattenToFrame(data: seq<seq<Byte>>, data': seq<seq<Byte>>, ch: seq<nat>, ch': seq<nat>, n: nat)
    requires InRange(ch, |data|) && InRange(ch', |data'|) && n <= |ch| && n <= |ch'|
    requires forall i :: 0 <= i < n ==> ch'[i] == ch[i] && ch[i] < |data'| && data'[ch[i]] == data[ch[i]]
    ensures FlattenTo(data', ch', n) == FlattenTo(data, ch, n)
  {
    if n > 0 {
      FlattenToFrame(data, data', ch, ch', n - 1);
    }
  }

  lemma {:induction false} FlattenFrame(data: seq<seq<Byte>>, data': seq<seq<Byte>>, ch: seq<nat>)
    requires InRange(ch, |data|) && |data'| == |data|
    requires forall i :: 0 <= i < |ch| ==> data'[ch[i]] == data[ch[i]]
    ensures Flatten(data', ch) == Flatten(data, ch)
  {
    FlattenToFrame(data, data', ch, ch, |ch|);
  }

  lemma {:induction false} FlattenToAppend(data: seq<seq<Byte>>, a: seq<nat>, b: seq<nat>, n: nat)
    requires InRange(a, |data|) && InRange(b, |data|) && n <= |b|
    ensures InRange(a + b, |data|)
    ensures FlattenTo(data, a + b, |a| + n) == Flatten(data, a) + FlattenTo(data, b, n)
  {
    if n == 0 {
      FlattenToFrame(data, data, a, a + b, |a|);
    } else {
      FlattenToAppend(data, a, b, n - 1);
    }
  }

  lemma {:induction false} FlattenAppend(data: seq<seq<Byte>>, a: seq<nat>, b: seq<nat>)
    requires InRange(a, |data|) && InRange(b, |data|)
    ensures InRange(a + b, |data|)
    ensures Flatten(data, a + b) == Flatten(data, a) + Flatten(data, b)
  {
    FlattenToAppend(data, a, b, |b|);
  }

  lemma {:induction false} FlattenAround(data: seq<seq<Byte>>, a: seq<nat>, c: nat, b: seq<nat>)
    requires InRange(a, |data|) && InRange(b, |data|) && 2 <= c < |data|
    ensures InRange(a + [c] + b, |data|)
    ensures Flatten(data, a + [c] + b) == Flatten(data, a) + data[c] + Flatten(data, b)
  {
    FlattenAppend(data, a, [c]);
    FlattenAppend(data, a + [c], b);
    assert FlattenTo(data, [c], 1) == FlattenTo(data, [c], 0) + data[c] == data[c];
  }

  /** A chain's bytes are those before, in and after its `k`-th cluster. */
  lemma {:induction false} FlattenAt(data: seq<seq<Byte>>, lim: nat, cs: nat, ch: seq<nat>, k: nat)
    requires ValidData(data, lim, cs) && InRange(ch, lim)
    requires k < |ch|
    ensures InRange(ch[..k], lim) && InRange(ch[k + 1..], lim)
    ensures |Flatten(data, ch[..k])| == Span(k, cs)
    ensures |Flatten(data, ch)| == Span(|ch|, cs) >= Span(k, cs) + cs
    ensures Flatten(data, ch) == Flatten(data, ch[..k]) + data[ch[k]] + Flatten(data, ch[k + 1..])
  {
    assert ch == ch[..k] + [ch[k]] + ch[k + 1..];
    FlattenAround(data, ch[..k], ch[k], ch[k + 1..]);
    FlattenLength(data, lim, cs, ch[..k]);
    FlattenLength(data, lim, cs, ch);
    SpanGap(k, |ch|, cs);
  }

  lemma {:induction false} SpliceMiddle<T>(a: seq<T>, m: seq<T>, b: seq<T>, o: nat, d: seq<T>)
    requires o + |d| <= |m|
    ensures a + Splice(m, o, d) + b == Splice(a + m + b, |a| + o, d)
  {
  }

  /** Writing inside the `k`-th cluster of a chain is a splice of the chain's bytes. */
  lemma {:induction false} WriteInChain(data: seq<seq<Byte>>, lim: nat, cs: nat, ch: seq<nat>, k: nat, o: nat, d: seq<Byte>)
    requires ValidData(data, lim, cs) && InRange(ch, lim) && Distinct(ch)
    requires k < |ch| && o + |d| <= cs
    ensures Span(k, cs) + o + |d| <= |Flatten(data, ch)| == Span(|ch|, cs)
    ensures Flatten(data[ch[k] := Splice(data[ch[k]], o, d)], ch) == Splice(Flatten(data, ch), Span(k, cs) + o, d)
  {
    var data' := data[ch[k] := Splice(data[ch[k]], o, d)];
    FlattenAt(data, lim, cs, ch, k);
    FlattenAt(data', lim, cs, ch, k);
    FlattenFrame(data, data', ch[..k]);
    FlattenFrame(data, data', ch[k + 1..]);
    SpliceMiddle(Flatten(data, ch[..k]), data[ch[k]], Flatten(data, ch[k + 1..]), o, d);
  }

  /** Bytes of the `k`-th cluster are bytes of the chain from `Span(k, cs)` on. */
  lemma {:induction false} ReadInChain(data: seq<seq<Byte>>, lim: nat, cs: nat, ch: seq<nat>, k: nat, o: nat, n: nat)
    requires ValidData(data, lim, cs) && InRange(ch, lim)
    requires k < |ch| && o + n <= cs
    ensures Span(k, cs) + o + n <= |Flatten(data, ch)|
    ensures data[ch[k]][o..o + n] == Flatten(data, ch)[Span(k, cs) + o..Span(k, cs) + o + n]
  {
    FlattenAt(data, lim, cs, ch, k);
  }

  // ---------------------------------------------------------------- the write loop

  datatype FillResult =
    | Filled(fat: seq<nat>, data: seq<seq<Byte>>)
    | FillFull(fat: seq<nat>, data: seq<seq<Byte>>)
    | FillFault

  /** Write `buf` from offset `o` of cluster `c` on, moving along and extending the chain. */
  ghost function Fill(fat: seq<nat>, data: seq<seq<Byte>>, lim: nat, cs: nat, c: nat, o: nat, buf: seq<Byte>): (r: FillResult)
    requires ValidTable(fat, lim) && ValidData(data, lim, cs)
    requires 2 <= c < lim && o < cs
    ensures !r.FillFault? ==> |r.fat| == |fat| && ValidData(r.data, lim, cs)
    decreases |buf|
  {
    if buf == [] then Filled(fat, data)
    else
      var w := Min(|buf|, cs - o);
      var data' := data[c := Splice(data[c], o, buf[..w])];
      if w == |buf| then Filled(fat, data')
      else
        match NextOrExtend(fat, lim, c)
        case Moved(f, n) => Fill(f, data', lim, cs, n, 0, buf[w..])
        case NoSpace => FillFull(fat, data')
        case Fault => FillFault
  }

  /** Clusters crossed by `n` bytes from offset `o` of a cluster on. */
  function Hops(cs: nat, o: nat, n: nat): nat
    requires o < cs
    decreases n
  {
    if o + n <= cs then 0 else 1 + Hops(cs, 0, n - (cs - o))
  }

  /** Lay `buf` over the clusters `v`, from offset `o` of the first one on. */
  ghost function Lay(data: seq<seq<Byte>>, lim: nat, cs: nat, v: seq<nat>, o: nat, buf: seq<Byte>): (r: seq<seq<Byte>>)
    requires ValidData(data, lim, cs) && InRange(v, lim) && o < cs
    ensures ValidData(r, lim, cs)
    decreases |v|
  {
    if v == [] || buf == [] then data
    else
      var w := Min(|buf|, cs - o);
      Lay(data[v[0] := Splice(data[v[0]], o, buf[..w])], lim, cs, v[1..], 0, buf[w..])
  }

  /** The write loop walks and extends the chain like a walk, and puts the data down on
      the clusters that walk stands on. */
  lemma {:induction false} FillIsWalkAndLay(fat: seq<nat>, data: seq<seq<Byte>>, lim: nat, cs: nat, c: nat, o: nat, buf: seq<Byte>)
    requires ValidTable(fat, lim) && ValidData(data, lim, cs)
    requires 2 <= c < lim && o < cs
    ensures var k := Hops(cs, o, |buf|);
            var laid := Lay(data, lim, cs, Visit(fat, lim, c, k), o, buf);
            Fill(fat, data, lim, cs, c, o, buf) ==
            match Walk(fat, lim, c, k)
            case Walked(f, _) => Filled(f, laid)
            case WalkFull(f) => FillFull(f, laid)
            case WalkFault => FillFault
    decreases |buf|
  {
    var w := Min(|buf|, cs - o);
    var rest := buf[w..];
    if buf != [] {
      var data' := data[c := Splice(data[c], o, buf[..w])];
      if w == |buf| {
        assert Visit(fat, lim, c, 0) == [c];
        assert Lay(data, lim, cs, [c], o, buf) == Lay(data', lim, cs, [], 0, rest) == data';
      } else {
        match NextOrExtend(fat, lim, c)
        case Moved(f, n) =>
          FillIsWalkAndLay(f, data', lim, cs, n, 0, rest);
          var v := Visit(f, lim, n, Hops(cs, 0, |rest|));
          assert ([c] + v)[1..] == v;
        case NoSpace =>
          assert Lay(data, lim, cs, [c], o, buf) == Lay(data', lim, cs, [], 0, rest) == data';
        case Fault =>
      }
    }
  }

  /** `after` is `before` with as much of `buf` spliced in at `p` as fits below `end`. */
  ghost predicate Overlaid(before: seq<Byte>, after: seq<Byte>, p: nat, buf: seq<Byte>, end: nat) {
    && p <= end <= |before|
    && after == Splice(before, p, buf[..Min(|buf|, end - p)])
  }

  lemma {:induction false} SpliceOn<T>(s0: seq<T>, s1: seq<T>, s2: seq<T>, p: nat, buf: seq<T>, w: nat, u: nat)
    requires w + u <= |buf| && p + w + u <= |s0|
    requires s1 == Splice(s0, p, buf[..w]) && s2 == Splice(s1, p + w, buf[w..][..u])
    ensures s2 == Splice(s0, p, buf[..w + u])
  {
    SpliceSplice(s0, p, buf[..w], buf[w..][..u]);
    assert buf[..w] + buf[w..][..u] == buf[..w + u];
  }

  lemma {:induction false} LayFrame(data: seq<seq<Byte>>, lim: nat, cs: nat, v: seq<nat>, o: nat, buf: seq<Byte>, c: nat)
    requires ValidData(data, lim, cs) && InRange(v, lim) && o < cs
    requires c < lim && c !in v
    ensures Lay(data, lim, cs, v, o, buf)[c] == data[c]
    decreases |v|
  {
    if v != [] && buf != [] {
      var w := Min(|buf|, cs - o);
      LayFrame(data[v[0] := Splice(data[v[0]], o, buf[..w])], lim, cs, v[1..], 0, buf[w..], c);
    }
  }

  lemma {:induction false} LayUnfold(data: seq<seq<Byte>>, lim: nat, cs: nat, ch: seq<nat>, i: nat, j: nat, o: nat, buf: seq<Byte>)
    requires ValidData(data, lim, cs) && InRange(ch, lim)
    requires i < j <= |ch| && o < cs && buf != []
    ensures var w := Min(|buf|, cs - o);
            var data' := data[ch[i] := Splice(data[ch[i]], o, buf[..w])];
            && ValidData(data', lim, cs)
            && Lay(data, lim, cs, ch[i..j], o, buf)
               == if i + 1 < j && w < |buf| then Lay(data', lim, cs, ch[i + 1..j], 0, buf[w..]) else data'
  {
    assert ch[i..j][1..] == ch[i + 1..j];
  }

  lemma {:induction false} LayThenLay(s0: seq<Byte>, s1: seq<Byte>, s2: seq<Byte>, p: nat, q: nat, buf: seq<Byte>, w: nat, end: nat)
    requires w <= |buf| && q == p + w <= |s0| && s1 == Splice(s0, p, buf[..w])
    requires Overlaid(s1, s2, q, buf[w..], end)
    ensures Overlaid(s0, s2, p, buf, end)
  {
    SpliceOn(s0, s1, s2, p, buf, w, Min(|buf| - w, end - q));
  }

  /** Laying `buf` over part of a chain splices as much of it as that part holds into the
      bytes of the chain. */
  lemma {:induction false} LayOnChain(data: seq<seq<Byte>>, lim: nat, cs: nat, ch: seq<nat>, i: nat, j: nat, o: nat, buf: seq<Byte>)
    requires ValidData(data, lim, cs) && InRange(ch, lim) && Distinct(ch)
    requires i < j <= |ch| && o < cs && buf != []
    ensures Overlaid(Flatten(data, ch), Flatten(Lay(data, lim, cs, ch[i..j], o, buf), ch), Span(i, cs) + o, buf, Span(j, cs))
    decreases j - i
  {
    var w := Min(|buf|, cs - o);
    var data' := data[ch[i] := Splice(data[ch[i]], o, buf[..w])];
    LayUnfold(data, lim, cs, ch, i, j, o, buf);
    if i + 1 < j && w < |buf| {
      LayOnChain(data', lim, cs, ch, i + 1, j, 0, buf[w..]);
      LayStep(data, data', lim, cs, ch, i, j, o, buf, Flatten(Lay(data', lim, cs, ch[i + 1..j], 0, buf[w..]), ch));
    } else {
      LayOnce(data, data', lim, cs, ch, i, j, o, buf, w);
    }
  }

  lemma {:induction false} LayOnce(data: seq<seq<Byte>>, data': seq<seq<Byte>>, lim: nat, cs: nat, ch: seq<nat>, i: nat, j: nat, o: nat,
                                   buf: seq<Byte>, w: nat)
    requires ValidData(data, lim, cs) && InRange(ch, lim) && Distinct(ch)
    requires i < j <= |ch| && o < cs && w == Min(|buf|, cs - o)
    requires data' == data[ch[i] := Splice(data[ch[i]], o, buf[..w])]
    requires i + 1 == j || w == |buf|
    ensures Overlaid(Flatten(data, ch), Flatten(data', ch), Span(i, cs) + o, buf, Span(j, cs))
  {
    var p, end := Span(i, cs) + o, Span(j, cs);
    assert p <= end <= Span(|ch|, cs) && Min(|buf|, end - p) == w by {
      SpanGap(i, j, cs);
      SpanMono(j, |ch|, cs);
    }
    WriteInChain(data, lim, cs, ch, i, o, buf[..w]);
  }

  lemma {:induction false} LayStep(data: seq<seq<Byte>>, data': seq<seq<Byte>>, lim: nat, cs: nat, ch: seq<nat>, i: nat, j: nat, o: nat,
                                   buf: seq<Byte>, after: seq<Byte>)
    requires ValidData(data, lim, cs) && InRange(ch, lim) && Distinct(ch)
    requires i + 1 < j <= |ch| && o < cs && cs - o < |buf|
    requires data' == data[ch[i] := Splice(data[ch[i]], o, buf[..cs - o])]
    requires Overlaid(Flatten(data', ch), after, Span(i + 1, cs), buf[cs - o..], Span(j, cs))
    ensures Overlaid(Flatten(data, ch), after, Span(i, cs) + o, buf, Span(j, cs))
  {
    WriteInChain(data, lim, cs, ch, i, o, buf[..cs - o]);
    LayThenLay(Flatten(data, ch), Flatten(data', ch), after, Span(i, cs) + o, Span(i + 1, cs), buf, cs - o, Span(j, cs));
  }
}
