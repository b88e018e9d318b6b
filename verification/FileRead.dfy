/** Reading a file: locating a cluster by offset, and the recursive cluster-by-cluster read. */
module FileRead {
  import opened Bytes
  import opened FatChains
  import opened FileData
  import Streamer

  /** The entries the reader refuses to follow: 12-bit markers, tested on 16-bit entries. */
  predicate Rejects(e: nat) {
    e == 0xFF8 || e == 0xFFF || e == 0xFF7 || e == 0xFF0 || e == 0xFF6 || e == 0
  }

  datatype Lookup = Found(cluster: nat) | Rejected | Outside

  /** `k` links from cluster `c`. `Outside` is an entry beyond the table. */
  function Locate(fat: seq<nat>, c: nat, k: nat): Lookup
    decreases k
  {
    if k == 0 then Found(c)
    else if c >= |fat| then Outside
    else if Rejects(fat[c]) then Rejected
    else Locate(fat, fat[c], k - 1)
  }

  /** No link the reader refuses among positions i < j <= i + k of the chain. */
  ghost predicate Followable(ch: seq<nat>, i: nat, k: nat) {
    forall j :: i < j <= i + k && j < |ch| ==> !Rejects(ch[j])
  }

  /** Inside a chain the reader finds the right cluster exactly when no link on the way has
      a refused number; otherwise it reports an error. */
  lemma {:induction false} LocateInChain(fat: seq<nat>, lim: nat, ch: seq<nat>, i: nat, k: nat)
    requires IsChain(fat, lim, ch) && i + k < |ch|
    ensures Locate(fat, ch[i], k) == if Followable(ch, i, k) then Found(ch[i + k]) else Rejected
    decreases k
  {
    if k > 0 {
      assert LinkAt(fat, ch, i);
      LocateInChain(fat, lim, ch, i + 1, k - 1);
      assert Followable(ch, i, k) <==> !Rejects(ch[i + 1]) && Followable(ch, i + 1, k - 1);
    }
  }

  /** With the numbers written out: the reader follows a chain exactly if it does not lead through
      0xFF0, 0xFF6, 0xFF7, 0xFF8 or 0xFFF, so always on a volume whose clusters stay below these. */
  lemma {:induction false} FollowedIff(fat: seq<nat>, lim: nat, ch: seq<nat>, i: nat, k: nat)
    requires IsChain(fat, lim, ch) && i + k < |ch|
    ensures Locate(fat, ch[i], k) == Found(ch[i + k])
            <==> forall j :: i < j <= i + k ==> ch[j] !in {0xFF0, 0xFF6, 0xFF7, 0xFF8, 0xFFF}
    ensures Locate(fat, ch[i], k) != Found(ch[i + k]) ==> Locate(fat, ch[i], k) == Rejected
    ensures lim <= 0xFF0 ==> Locate(fat, ch[i], k) == Found(ch[i + k])
  {
    LocateInChain(fat, lim, ch, i, k);
    FollowableIs(ch, lim, i, k);
  }

  lemma {:induction false} FollowableIs(ch: seq<nat>, lim: nat, i: nat, k: nat)
    requires InRange(ch, lim)
    ensures Followable(ch, i, k)
            <==> forall j :: i < j <= i + k && j < |ch| ==> ch[j] !in {0xFF0, 0xFF6, 0xFF7, 0xFF8, 0xFFF}
    ensures lim <= 0xFF0 ==> Followable(ch, i, k)
  {
    if Followable(ch, i, k) {
      forall j | i < j <= i + k && j < |ch|
        ensures ch[j] !in {0xFF0, 0xFF6, 0xFF7, 0xFF8, 0xFFF}
      {
        assert !Rejects(ch[j]);
      }
    }
  }

  /** One link past the end the reader does not see the end mark: it takes it for a cluster
      number, which is no cluster of the volume. */
  lemma {:induction false} LocatePastEnd(fat: seq<nat>, lim: nat, ch: seq<nat>)
    requires ValidTable(fat, lim) && IsChain(fat, lim, ch) && ch != []
    requires Followable(ch, 0, |ch| - 1)
    ensures Locate(fat, ch[0], |ch|) == Found(fat[ch[|ch| - 1]])
    ensures fat[ch[|ch| - 1]] >= lim
  {
    LocateEndFrom(fat, lim, ch, 0);
  }

  lemma {:induction false} LocateEndFrom(fat: seq<nat>, lim: nat, ch: seq<nat>, i: nat)
    requires ValidTable(fat, lim) && IsChain(fat, lim, ch) && i < |ch|
    requires Followable(ch, i, |ch| - 1 - i)
    ensures Locate(fat, ch[i], |ch| - i) == Found(fat[ch[|ch| - 1]])
    ensures fat[ch[|ch| - 1]] >= lim
    decreases |ch| - i
  {
    assert LinkAt(fat, ch, i);
    if i + 1 < |ch| {
      LocateEndFrom(fat, lim, ch, i + 1);
    } else {
      assert Locate(fat, fat[ch[i]], 0) == Found(fat[ch[i]]);
    }
  }

  // ---------------------------------------------------------------- one chunk

  datatype ReadResult = Got(bytes: seq<Byte>) | ReadError | ReadFault

  /** A chunk of `n <= cs` bytes from offset `o` of cluster `c`. It is not cut at the end of the
      cluster: what is left comes from the physically next one. */
  ghost function Chunk(data: seq<seq<Byte>>, lim: nat, cs: nat, c: nat, o: nat, n: nat): (r: ReadResult)
    requires ValidData(data, lim, cs) && o < cs && n <= cs
    ensures r.Got? ==> |r.bytes| == n
  {
    if !(2 <= c < lim) || !Streamer.ReadInBuffer(o, n) then ReadFault
    else if o + n <= cs then Got(data[c][o..o + n])
    else if c + 1 < lim then Got(data[c][o..] + data[c + 1][..o + n - cs])
    else ReadFault
  }

  /** The chunk of `n` bytes at offset `o` of the `k`-th cluster of the file starting at `first`. */
  ghost function ChunkAt(fat: seq<nat>, data: seq<seq<Byte>>, lim: nat, cs: nat, first: nat, k: nat, o: nat, n: nat): (r: ReadResult)
    requires ValidData(data, lim, cs) && o < cs && n <= cs
    ensures r.Got? ==> |r.bytes| == n
  {
    match Locate(fat, first, k)
    case Found(c) => Chunk(data, lim, cs, c, o, n)
    case Rejected => ReadError
    case Outside => ReadFault
  }

  function Then(a: ReadResult, b: ReadResult): ReadResult {
    if a.Got? && b.Got? then Got(a.bytes + b.bytes) else if a.Got? then b else a
  }

  /** `total` bytes of that file from there on, a cluster's worth at a time. */
  ghost function ReadFrom(fat: seq<nat>, data: seq<seq<Byte>>, lim: nat, cs: nat, first: nat, k: nat, o: nat, total: nat): (r: ReadResult)
    requires ValidData(data, lim, cs) && o < cs
    ensures r.Got? ==> |r.bytes| == total
    decreases total
  {
    if total <= cs then ChunkAt(fat, data, lim, cs, first, k, o, total)
    else Then(ChunkAt(fat, data, lim, cs, first, k, o, cs),
              ReadFrom(fat, data, lim, cs, first, k + 1, o, total - cs))
  }

  /** Neighbours on the chain that are neighbours on the disk too. */
  ghost predicate Adjacent(ch: seq<nat>, k: nat) {
    k + 1 < |ch| && ch[k + 1] == ch[k] + 1
  }

  /** A chunk holds the file's bytes when it ends in its cluster or runs into the cluster
      that also comes next in the chain. */
  lemma {:induction false} ChunkOnChain(data: seq<seq<Byte>>, lim: nat, cs: nat, ch: seq<nat>, k: nat, o: nat, n: nat)
    requires ValidData(data, lim, cs) && InRange(ch, lim)
    requires k < |ch| && o < cs && n <= cs && Streamer.ReadInBuffer(o, n)
    requires o + n <= cs || Adjacent(ch, k)
    ensures Span(k, cs) + o + n <= |Flatten(data, ch)|
    ensures Chunk(data, lim, cs, ch[k], o, n) == Got(Flatten(data, ch)[Span(k, cs) + o..Span(k, cs) + o + n])
  {
    if o + n <= cs {
      ReadInChain(data, lim, cs, ch, k, o, n);
    } else {
      ChunkAcross(data, lim, cs, ch, k, o, n);
    }
  }

  lemma {:induction false} ChunkAcross(data: seq<seq<Byte>>, lim: nat, cs: nat, ch: seq<nat>, k: nat, o: nat, n: nat)
    requires ValidData(data, lim, cs) && InRange(ch, lim)
    requires Adjacent(ch, k) && o < cs && n <= cs < o + n
    ensures Span(k, cs) + o + n <= |Flatten(data, ch)|
    ensures data[ch[k]][o..] + data[ch[k] + 1][..o + n - cs] == Flatten(data, ch)[Span(k, cs) + o..Span(k, cs) + o + n]
  {
    var all, p, q := Flatten(data, ch), Span(k, cs) + o, Span(k + 1, cs);
    var a, b, m := data[ch[k]], data[ch[k] + 1], o + n - cs;
    assert q == p + (cs - o) && |a| == |b| == cs && ch[k + 1] == ch[k] + 1;
    ReadInChain(data, lim, cs, ch, k, o, cs - o);
    assert a[o..] == a[o..o + (cs - o)] == all[p..q];
    ReadInChain(data, lim, cs, ch, k + 1, 0, m);
    assert b[..m] == b[0..0 + m] == all[q..q + m];
    SliceJoin(all, p, cs - o, n);
  }

  lemma {:induction false} InsideChain(cs: nat, len: nat, k: nat, o: nat)
    requires Span(k, cs) + o < Span(len, cs)
    ensures k < len
  {
    if k >= len { SpanMono(len, k, cs); }
  }

  /** `r` is bytes p..p + n of `all`, or an error if the way to them is not `ok`. */
  ghost predicate Reads(r: ReadResult, all: seq<Byte>, p: nat, n: nat, ok: bool) {
    p + n <= |all| && r == if ok then Got(all[p..p + n]) else ReadError
  }

  lemma {:induction false} ChunkAtOnChain(fat: seq<nat>, data: seq<seq<Byte>>, lim: nat, cs: nat, ch: seq<nat>, k: nat, o: nat, n: nat)
    requires ValidData(data, lim, cs) && IsChain(fat, lim, ch)
    requires k < |ch| && o < cs && n <= cs && Streamer.ReadInBuffer(o, n)
    requires o + n <= cs || Adjacent(ch, k)
    ensures Reads(ChunkAt(fat, data, lim, cs, ch[0], k, o, n), Flatten(data, ch), Span(k, cs) + o, n, Followable(ch, 0, k))
  {
    LocateInChain(fat, lim, ch, 0, k);
    ChunkOnChain(data, lim, cs, ch, k, o, n);
  }

  // ---------------------------------------------------------------- the whole read

  /** The chunks after the first. */
  function LaterChunks(cs: nat, total: nat): nat
    requires cs > 0
  {
    if total <= cs then 0 else 1 + LaterChunks(cs, total - cs)
  }

  lemma {:induction false} HopsByCluster(cs: nat, o: nat, total: nat)
    requires o < cs < total
    ensures Hops(cs, o, total) == 1 + Hops(cs, o, total - cs)
    decreases total
  {
    if o + total - cs > cs && o > 0 {
      HopsByCluster(cs, 0, total - (cs - o));
    }
  }

  lemma {:induction false} SliceJoin<T>(s: seq<T>, p: nat, n: nat, total: nat)
    requires n <= total && p + total <= |s|
    ensures s[p..p + total] == s[p..p + n] + s[p + n..p + total]
  {
  }

  /** Reading whole sectors or part of one from offset `o` of the chain's `k`-th cluster gives the
      file's bytes, or an error where a link is refused, if the read starts on a cluster or the
      clusters it touches are adjacent on the disk. */
  lemma {:induction false} ReadOnChain(fat: seq<nat>, data: seq<seq<Byte>>, lim: nat, cs: nat, ch: seq<nat>,
                                       k: nat, o: nat, total: nat)
    requires ValidData(data, lim, cs) && IsChain(fat, lim, ch) && ch != []
    requires o < cs && total > 0 && Span(k, cs) + o + total <= Span(|ch|, cs)
    requires o % Streamer.SECTOR_SIZE == 0 || o % Streamer.SECTOR_SIZE + total <= Streamer.SECTOR_SIZE
    requires o == 0 || forall j :: k <= j < k + Hops(cs, o, total) ==> Adjacent(ch, j)
    ensures Reads(ReadFrom(fat, data, lim, cs, ch[0], k, o, total), Flatten(data, ch), Span(k, cs) + o, total,
                  Followable(ch, 0, k + LaterChunks(cs, total)))
    decreases total
  {
    assert Reads(ChunkAt(fat, data, lim, cs, ch[0], k, o, Min(total, cs)), Flatten(data, ch), Span(k, cs) + o, Min(total, cs),
                 Followable(ch, 0, k)) by {
      InsideChain(cs, |ch|, k, o);
      Streamer.ReadInBufferIff(o, Min(total, cs));
      ChunkAtOnChain(fat, data, lim, cs, ch, k, o, Min(total, cs));
    }
    if total > cs {
      HopsByCluster(cs, o, total);
      ReadOnChain(fat, data, lim, cs, ch, k + 1, o, total - cs);
      ReadStep(fat, data, lim, cs, ch, k, o, total);
    }
  }

  lemma {:induction false} ReadStep(fat: seq<nat>, data: seq<seq<Byte>>, lim: nat, cs: nat, ch: seq<nat>, k: nat, o: nat, total: nat)
    requires ValidData(data, lim, cs) && InRange(ch, lim) && ch != [] && o < cs < total
    requires Reads(ChunkAt(fat, data, lim, cs, ch[0], k, o, cs), Flatten(data, ch), Span(k, cs) + o, cs, Followable(ch, 0, k))
    requires Reads(ReadFrom(fat, data, lim, cs, ch[0], k + 1, o, total - cs), Flatten(data, ch), Span(k + 1, cs) + o, total - cs,
                   Followable(ch, 0, k + 1 + LaterChunks(cs, total - cs)))
    ensures Reads(ReadFrom(fat, data, lim, cs, ch[0], k, o, total), Flatten(data, ch), Span(k, cs) + o, total,
                  Followable(ch, 0, k + LaterChunks(cs, total)))
  {
    ReadJoin(Flatten(data, ch), Span(k, cs) + o, Span(k + 1, cs) + o, cs, total - cs, Followable(ch, 0, k),
             Followable(ch, 0, k + 1 + LaterChunks(cs, total - cs)),
             ChunkAt(fat, data, lim, cs, ch[0], k, o, cs), ReadFrom(fat, data, lim, cs, ch[0], k + 1, o, total - cs));
  }

  lemma {:induction false} ReadJoin(all: seq<Byte>, p: nat, q: nat, n: nat, m: nat, ok: bool, allOk: bool, a: ReadResult, b: ReadResult)
    requires q == p + n && (allOk ==> ok)
    requires Reads(a, all, p, n, ok) && Reads(b, all, q, m, allOk)
    ensures Reads(Then(a, b), all, p, n + m, allOk)
  {
    SliceJoin(all, p, n, n + m);
  }

  // ---------------------------------------------------------------- reads off a cluster boundary

  /** Every cluster the read crosses into is the disk neighbour of the one before. */
  ghost predicate Contiguous(ch: seq<nat>, cs: nat, k: nat, o: nat, total: nat)
    requires o < cs
  {
    forall j :: k <= j < k + Hops(cs, o, total) ==> Adjacent(ch, j)
  }

  /** The read gives the file's bytes, whatever the clusters hold. */
  ghost predicate AlwaysFaithful(fat: seq<nat>, lim: nat, cs: nat, ch: seq<nat>, k: nat, o: nat, total: nat)
    requires o < cs && InRange(ch, lim) && ch != []
  {
    forall data :: ValidData(data, lim, cs) ==> Faithful(fat, data, lim, cs, ch, k, o, total)
  }

  ghost predicate Faithful(fat: seq<nat>, data: seq<seq<Byte>>, lim: nat, cs: nat, ch: seq<nat>, k: nat, o: nat, total: nat)
    requires o < cs && InRange(ch, lim) && ch != [] && ValidData(data, lim, cs)
  {
    Reads(ReadFrom(fat, data, lim, cs, ch[0], k, o, total), Flatten(data, ch), Span(k, cs) + o, total, true)
  }

  /** Cluster `x` holds ones, every other cluster zeros. */
  ghost function Marked(lim: nat, cs: nat, x: nat): (data: seq<seq<Byte>>)
    ensures cs > 0 ==> ValidData(data, lim, cs)
    ensures forall c, i :: 2 <= c < lim && 0 <= i < cs ==> data[c][i] == if c == x then 1 else 0
  {
    seq(lim, c => seq(cs, i => if c == x then 1 else 0))
  }

  /** A chunk that runs over into a cluster that is not the next one of the chain. */
  lemma {:induction false} ChunkSpills(lim: nat, cs: nat, ch: seq<nat>, k: nat, o: nat, n: nat)
    requires InRange(ch, lim) && k + 1 < |ch| && !Adjacent(ch, k) && 0 < o < cs && n <= cs < o + n
    ensures var data := Marked(lim, cs, ch[k] + 1);
            var r := Chunk(data, lim, cs, ch[k], o, n);
            && Span(k + 1, cs) < |Flatten(data, ch)|
            && (r.Got? ==> r.bytes[cs - o] == 1 && Flatten(data, ch)[Span(k + 1, cs)] == 0)
  {
    var data := Marked(lim, cs, ch[k] + 1);
    ReadInChain(data, lim, cs, ch, k + 1, 0, 1);
    assert data[ch[k + 1]][0..0 + 1] == [0];
    assert Flatten(data, ch)[Span(k + 1, cs) + 0..Span(k + 1, cs) + 0 + 1] == [Flatten(data, ch)[Span(k + 1, cs)]];
  }

  lemma {:induction false} ReadsAt(r: ReadResult, all: seq<Byte>, p: nat, total: nat, i: nat)
    requires Reads(r, all, p, total, true) && i < total
    ensures r.Got? && |r.bytes| == total && r.bytes[i] == all[p + i]
  {
  }

  lemma {:induction false} ReadsTail(all: seq<Byte>, p: nat, n: nat, m: nat, a: ReadResult, b: ReadResult)
    requires (a.Got? ==> |a.bytes| == n) && Reads(Then(a, b), all, p, n + m, true)
    ensures Reads(b, all, p + n, m, true)
  {
    assert b.bytes == all[p..p + (n + m)][n..] == all[p + n..p + n + m];
  }

  lemma {:induction false} WrongFirst(all: seq<Byte>, p: nat, total: nat, a: ReadResult, b: ReadResult, r: ReadResult, i: nat)
    requires i < total && p + i < |all| && (r == a || r == Then(a, b))
    requires a.Got? ==> i < |a.bytes| && a.bytes[i] != all[p + i]
    ensures !Reads(r, all, p, total, true)
  {
    if Reads(r, all, p, total, true) {
      ReadsAt(r, all, p, total, i);
    }
  }

  lemma {:induction false} WrongLater(all: seq<Byte>, p: nat, n: nat, m: nat, a: ReadResult, b: ReadResult)
    requires (a.Got? ==> |a.bytes| == n) && !Reads(b, all, p + n, m, true)
    ensures !Reads(Then(a, b), all, p, n + m, true)
  {
    if Reads(Then(a, b), all, p, n + m, true) {
      ReadsTail(all, p, n, m, a, b);
    }
  }

  lemma {:induction false} ReadSpillsHere(fat: seq<nat>, lim: nat, cs: nat, ch: seq<nat>, k: nat, o: nat, total: nat)
    requires IsChain(fat, lim, ch) && 0 < o < cs < o + total && Span(k, cs) + o + total <= Span(|ch|, cs)
    requires Followable(ch, 0, |ch|) && k + 1 < |ch| && !Adjacent(ch, k)
    ensures !Faithful(fat, Marked(lim, cs, ch[k] + 1), lim, cs, ch, k, o, total)
  {
    var data := Marked(lim, cs, ch[k] + 1);
    var n := Min(total, cs);
    LocateInChain(fat, lim, ch, 0, k);
    ChunkSpills(lim, cs, ch, k, o, n);
    var b := if total > cs then ReadFrom(fat, data, lim, cs, ch[0], k + 1, o, total - cs) else ReadError;
    assert Span(k + 1, cs) == Span(k, cs) + o + (cs - o);
    WrongFirst(Flatten(data, ch), Span(k, cs) + o, total, ChunkAt(fat, data, lim, cs, ch[0], k, o, n), b,
               ReadFrom(fat, data, lim, cs, ch[0], k, o, total), cs - o);
  }

  lemma {:induction false} ReadSpills(fat: seq<nat>, lim: nat, cs: nat, ch: seq<nat>, k: nat, o: nat, total: nat, j: nat)
    requires IsChain(fat, lim, ch) && 0 < o < cs && Span(k, cs) + o + total <= Span(|ch|, cs)
    requires Followable(ch, 0, |ch|)
    requires k <= j < k + Hops(cs, o, total) && j + 1 < |ch| && !Adjacent(ch, j)
    ensures !Faithful(fat, Marked(lim, cs, ch[j] + 1), lim, cs, ch, k, o, total)
    decreases total
  {
    var data := Marked(lim, cs, ch[j] + 1);
    if j == k {
      ReadSpillsHere(fat, lim, cs, ch, k, o, total);
    } else {
      HopsLong(cs, o, total);
      HopsByCluster(cs, o, total);
      ReadSpills(fat, lim, cs, ch, k + 1, o, total - cs, j);
      assert Span(k + 1, cs) + o == Span(k, cs) + o + cs;
      WrongLater(Flatten(data, ch), Span(k, cs) + o, cs, total - cs, ChunkAt(fat, data, lim, cs, ch[0], k, o, cs),
                 ReadFrom(fat, data, lim, cs, ch[0], k + 1, o, total - cs));
    }
  }

  lemma {:induction false} HopsShort(cs: nat, o: nat, total: nat)
    requires o < cs && total <= cs
    ensures Hops(cs, o, total) <= 1
  {
    if o + total > cs {
      assert Hops(cs, 0, total - (cs - o)) == 0;
    }
  }

  lemma {:induction false} HopsLong(cs: nat, o: nat, total: nat)
    requires o < cs && Hops(cs, o, total) > 1
    ensures total > cs
  {
    if total <= cs { HopsShort(cs, o, total); }
  }

  /** Hops stay on the chain. */
  lemma {:induction false} HopsInside(cs: nat, len: nat, k: nat, o: nat, total: nat)
    requires o < cs && total > 0 && Span(k, cs) + o + total <= Span(len, cs)
    ensures k + Hops(cs, o, total) < len
    decreases total
  {
    InsideChain(cs, len, k, o);
    if o + total > cs {
      HopsInside(cs, len, k + 1, 0, total - (cs - o));
    }
  }

  /** A read of whole sectors, or of part of one, on a followable chain is faithful for every content
      of the clusters exactly if it starts on a cluster boundary or the clusters it touches
      lie next to each other on the disk. */
  lemma {:induction false} FaithfulIff(fat: seq<nat>, lim: nat, cs: nat, ch: seq<nat>, k: nat, o: nat, total: nat)
    requires IsChain(fat, lim, ch) && ch != [] && Followable(ch, 0, |ch|)
    requires o < cs && total > 0 && Span(k, cs) + o + total <= Span(|ch|, cs)
    requires o % Streamer.SECTOR_SIZE == 0 || o % Streamer.SECTOR_SIZE + total <= Streamer.SECTOR_SIZE
    ensures AlwaysFaithful(fat, lim, cs, ch, k, o, total) <==> o == 0 || Contiguous(ch, cs, k, o, total)
  {
    if o == 0 || Contiguous(ch, cs, k, o, total) {
      forall data | ValidData(data, lim, cs)
        ensures Faithful(fat, data, lim, cs, ch, k, o, total)
      {
        ReadOnChain(fat, data, lim, cs, ch, k, o, total);
        assert Followable(ch, 0, k + LaterChunks(cs, total));
      }
    } else {
      var j :| k <= j < k + Hops(cs, o, total) && !Adjacent(ch, j);
      HopsInside(cs, |ch|, k, o, total);
      ReadSpills(fat, lim, cs, ch, k, o, total, j);
    }
  }

  /** On the chain [2, 4] of 1024-byte clusters, 1024 bytes from byte 512 on come out wrong when
      cluster 3 differs from cluster 4. */
  lemma {:induction false} GapExample()
    ensures var fat, ch := [0xFFF8, 0xFFFF, 4, 0, 0xFFFF], [2, 4];
            && IsChain(fat, 5, ch) && Span(0, 1024) + 512 + 1024 <= Span(2, 1024)
            && !Faithful(fat, Marked(5, 1024, 3), 5, 1024, ch, 0, 512, 1024)
  {
    var fat, ch := [0xFFF8, 0xFFFF, 4, 0, 0xFFFF], [2, 4];
    assert LinkAt(fat, ch, 0) && LinkAt(fat, ch, 1);
    assert Span(2, 1024) == Span(1, 1024) + 1024 && Span(1, 1024) == Span(0, 1024) + 1024;
    ReadSpillsHere(fat, 5, 1024, ch, 0, 512, 1024);
  }
}
