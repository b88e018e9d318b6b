/** Reading files of the volume, and reading back what was written. */
module Reading {
  import opened Bytes
  import opened FatChains
  import opened FileData
  import opened FileRead
  import opened Names
  import opened Directory
  import opened FileSystem
  import opened Runs

  /** One item: `total` bytes of the file starting at cluster `first`, from byte `p` on. */
  ghost function ReadAt(v: Volume, first: nat, p: nat, total: nat): ReadResult
    requires ValidVolume(v)
  {
    ReadFrom(v.fat, v.data, v.lim, v.cs, first, Index(p, v.cs), Offset(p, v.cs), total)
  }

  /** The read call: `n` items of `size` bytes from byte `p` on, each read by itself. */
  ghost function ReadItems(v: Volume, first: nat, p: nat, size: nat, n: nat): ReadResult
    requires ValidVolume(v)
    decreases n
  {
    if n == 0 then Got([]) else Then(ReadAt(v, first, p, size), ReadItems(v, first, p + size, size, n - 1))
  }

  // ---------------------------------------------------------------- cluster arithmetic

  lemma {:induction false} ClusterIs(p: nat, cs: nat, k: nat)
    requires cs > 0 && Span(k, cs) <= p < Span(k + 1, cs)
    ensures Index(p, cs) == k
  {
    var q := Index(p, cs);
    PositionSplit(p, cs);
    if q < k {
      SpanGap(q, k, cs);
    } else if q > k {
      SpanMono(k + 1, q, cs);
    }
  }

  lemma {:induction false} ClusterMono(p: nat, q: nat, cs: nat)
    requires p <= q && cs > 0
    ensures Index(p, cs) <= Index(q, cs)
  {
    PositionSplit(p, cs);
    PositionSplit(q, cs);
    if Index(q, cs) < Index(p, cs) {
      SpanGap(Index(q, cs), Index(p, cs), cs);
    }
  }

  lemma {:induction false} SpanAdd(a: nat, b: nat, cs: nat)
    ensures Span(a + b, cs) == Span(a, cs) + Span(b, cs)
  {
    if b > 0 {
      SpanAdd(a, b - 1, cs);
    }
  }

  lemma {:induction false} LastChunk(cs: nat, total: nat)
    requires cs > 0 && total > 0
    ensures Span(LaterChunks(cs, total), cs) < total <= Span(LaterChunks(cs, total) + 1, cs)
    decreases total
  {
    if total > cs {
      LastChunk(cs, total - cs);
    }
  }

  // ---------------------------------------------------------------- one file

  /** The links up to the cluster of byte `p` can all be followed. */
  ghost predicate Readable(ch: seq<nat>, cs: nat, p: nat)
    requires cs > 0
  {
    Followable(ch, 0, Index(p, cs))
  }

  /** In numbers: none of the clusters after the first, up to the one of byte `p`, is refused. */
  lemma {:induction false} ReadableIff(ch: seq<nat>, lim: nat, cs: nat, p: nat)
    requires cs > 0 && InRange(ch, lim)
    ensures Readable(ch, cs, p)
            <==> forall j :: 1 <= j <= p / cs && j < |ch| ==> ch[j] !in {0xFF0, 0xFF6, 0xFF7, 0xFF8, 0xFFF}
    ensures lim <= 0xFF0 ==> Readable(ch, cs, p)
  {
    FollowableIs(ch, lim, 0, Index(p, cs));
    IndexIsDivision(p, cs);
  }

  /** The file of slot `s` and its chain. */
  lemma {:induction false} FileChain(v: Volume, chains: seq<seq<nat>>, s: nat)
    requires Inv(v, chains) && s < |chains| && IsLive(v.root[s]) && v.root[s].filesize > 0
    ensures chains[s] != [] && FirstCluster(v.root[s]) == chains[s][0]
    ensures IsChain(v.fat, v.lim, chains[s]) && (v.root[s].filesize as int) <= Span(|chains[s]|, v.cs)
    ensures |Flatten(v.data, chains[s])| == Span(|chains[s]|, v.cs)
  {
    assert SlotOk(v.root[s], chains[s], v.cs) && Span(0, v.cs) == 0;
    FlattenLength(v.data, v.lim, v.cs, chains[s]);
  }

  lemma {:induction false} ReadByte(v: Volume, chains: seq<seq<nat>>, s: nat, p: nat)
    requires Inv(v, chains) && s < |chains| && IsLive(v.root[s]) && p < v.root[s].filesize
    ensures Reads(ReadAt(v, FirstCluster(v.root[s]), p, 1), Content(v, chains, s), p, 1, Readable(chains[s], v.cs, p))
  {
    FileChain(v, chains, s);
    PositionSplit(p, v.cs);
    ReadOnChain(v.fat, v.data, v.lim, v.cs, chains[s], Index(p, v.cs), Offset(p, v.cs), 1);
    assert Content(v, chains, s)[p..p + 1] == Flatten(v.data, chains[s])[p..p + 1];
  }

  /** A file without clusters has first cluster 0, and every read that starts in its first cluster's
      worth of bytes takes that for a cluster: it leaves the data area. */
  lemma {:induction false} EmptyFileFaults(v: Volume, chains: seq<seq<nat>>, s: nat, p: nat, size: nat, n: nat)
    requires Inv(v, chains) && s < |chains| && IsLive(v.root[s]) && chains[s] == [] && p < v.cs && n > 0
    ensures ReadItems(v, FirstCluster(v.root[s]), p, size, n) == ReadFault
  {
    assert SlotOk(v.root[s], chains[s], v.cs);
    assert Locate(v.fat, 0, 0) == Found(0);
    assert ReadAt(v, 0, p, size) == ReadFault;
  }

  /** Byte-sized items read any range inside a file, across any number of clusters, and fail
      exactly when a link on the way has a number the reader refuses. */
  lemma {:induction false} ByteReads(v: Volume, chains: seq<seq<nat>>, s: nat, p: nat, n: nat)
    requires Inv(v, chains) && s < |chains| && IsLive(v.root[s]) && n > 0 && p + n <= (v.root[s].filesize as int)
    ensures Reads(ReadItems(v, FirstCluster(v.root[s]), p, 1, n), Content(v, chains, s), p, n,
                  Readable(chains[s], v.cs, p + n - 1))
    decreases n
  {
    ReadByte(v, chains, s, p);
    var first, ok := FirstCluster(v.root[s]), Readable(chains[s], v.cs, p);
    if n == 1 {
      OneItem(v, first, p, 1);
    } else {
      ByteReads(v, chains, s, p + 1, n - 1);
      assert Readable(chains[s], v.cs, p + n - 1) ==> ok by { ClusterMono(p, p + n - 1, v.cs); }
      NextByte(v, first, Content(v, chains, s), p, n, ok, Readable(chains[s], v.cs, p + n - 1));
    }
  }

  /** The same with the numbers written out. */
  lemma {:induction false} RangeReads(v: Volume, chains: seq<seq<nat>>, s: nat, p: nat, n: nat)
    requires Inv(v, chains) && s < |chains| && IsLive(v.root[s]) && n > 0 && p + n <= |Content(v, chains, s)|
    ensures ReadItems(v, FirstCluster(v.root[s]), p, 1, n) ==
            if forall j :: 1 <= j <= (p + n - 1) / v.cs && j < |chains[s]| ==> chains[s][j] !in {0xFF0, 0xFF6, 0xFF7, 0xFF8, 0xFFF}
            then Got(Content(v, chains, s)[p..p + n]) else ReadError
    ensures v.lim <= 0xFF0 ==> ReadItems(v, FirstCluster(v.root[s]), p, 1, n) == Got(Content(v, chains, s)[p..p + n])
  {
    ByteReads(v, chains, s, p, n);
    FileChain(v, chains, s);
    ReadableIff(chains[s], v.lim, v.cs, p + n - 1);
  }

  lemma {:induction false} OneItem(v: Volume, first: nat, p: nat, size: nat)
    requires ValidVolume(v)
    ensures ReadItems(v, first, p, size, 1) == ReadAt(v, first, p, size)
  {
    var a := ReadAt(v, first, p, size);
    assert ReadItems(v, first, p + size, size, 0) == Got([]);
    assert a.Got? ==> a.bytes + [] == a.bytes;
  }

  lemma {:induction false} NextByte(v: Volume, first: nat, all: seq<Byte>, p: nat, n: nat, ok: bool, allOk: bool)
    requires ValidVolume(v) && n > 1 && (allOk ==> ok)
    requires Reads(ReadAt(v, first, p, 1), all, p, 1, ok)
    requires Reads(ReadItems(v, first, p + 1, 1, n - 1), all, p + 1, n - 1, allOk)
    ensures Reads(ReadItems(v, first, p, 1, n), all, p, n, allOk)
  {
    ReadJoin(all, p, p + 1, 1, n - 1, ok, allOk, ReadAt(v, first, p, 1), ReadItems(v, first, p + 1, 1, n - 1));
  }

  /** The read call item by item: item `i` is what a read of `size` bytes at `p + i * size` gives. */
  lemma {:induction false} ItemAt(v: Volume, first: nat, p: nat, size: nat, n: nat, i: nat)
    requires ValidVolume(v) && i < n && ReadItems(v, first, p, size, n).Got?
    ensures var all := ReadItems(v, first, p, size, n).bytes;
            && 0 <= i * size && i * size + size <= |all|
            && ReadAt(v, first, p + i * size, size) == Got(all[i * size..i * size + size])
    decreases i
  {
    var head, rest := ReadAt(v, first, p, size), ReadItems(v, first, p + size, size, n - 1);
    assert ReadItems(v, first, p, size, n) == Then(head, rest);
    assert |head.bytes| == size;
    if i == 0 {
      assert (head.bytes + rest.bytes)[0..size] == head.bytes;
    } else {
      ItemAt(v, first, p + size, size, n - 1, i - 1);
      var k := (i - 1) * size;
      assert i * size == k + size;
      AfterHead(head.bytes, rest.bytes, k, size);
    }
  }

  lemma {:induction false} AfterHead(a: seq<Byte>, b: seq<Byte>, k: nat, n: nat)
    requires k + n <= |b|
    ensures (a + b)[|a| + k..|a| + k + n] == b[k..k + n]
  {
  }

  /** One item of `n` bytes from a cluster boundary on reads the same range. */
  lemma {:induction false} BulkRead(v: Volume, chains: seq<seq<nat>>, s: nat, p: nat, n: nat)
    requires Inv(v, chains) && s < |chains| && IsLive(v.root[s]) && n > 0 && p + n <= (v.root[s].filesize as int)
    requires Offset(p, v.cs) == 0
    ensures Reads(ReadItems(v, FirstCluster(v.root[s]), p, n, 1), Content(v, chains, s), p, n,
                  Readable(chains[s], v.cs, p + n - 1))
  {
    FileChain(v, chains, s);
    PositionSplit(p, v.cs);
    ReadOnChain(v.fat, v.data, v.lim, v.cs, chains[s], Index(p, v.cs), 0, n);
    LastCluster(v.cs, Index(p, v.cs), n);
    assert Content(v, chains, s)[p..p + n] == Flatten(v.data, chains[s])[p..p + n];
    OneItem(v, FirstCluster(v.root[s]), p, n);
  }

  lemma {:induction false} LastCluster(cs: nat, k: nat, n: nat)
    requires cs > 0 && n > 0
    ensures Index(Span(k, cs) + n - 1, cs) == k + LaterChunks(cs, n)
  {
    var l := LaterChunks(cs, n);
    LastChunk(cs, n);
    SpanAdd(k, l, cs);
    SpanAdd(k, l + 1, cs);
    ClusterIs(Span(k, cs) + n - 1, cs, k + l);
  }

  /** The cluster-by-cluster read refines byte reads. */
  lemma {:induction false} BulkIsBytes(v: Volume, chains: seq<seq<nat>>, s: nat, p: nat, n: nat)
    requires Inv(v, chains) && s < |chains| && IsLive(v.root[s]) && n > 0 && p + n <= (v.root[s].filesize as int)
    requires Offset(p, v.cs) == 0
    ensures ReadItems(v, FirstCluster(v.root[s]), p, n, 1) == ReadItems(v, FirstCluster(v.root[s]), p, 1, n)
  {
    BulkRead(v, chains, s, p, n);
    ByteReads(v, chains, s, p, n);
  }

  // ---------------------------------------------------------------- read-back

  function Concat(bufs: seq<seq<Byte>>): seq<Byte> {
    if bufs == [] then [] else bufs[0] + Concat(bufs[1..])
  }

  /** A sequence of writes through one handle; None as soon as one fails. */
  ghost function WriteSeq(v: Volume, h: Handle, bufs: seq<seq<Byte>>): Option<(Volume, Handle)>
    requires ValidVolume(v) && h.slot < |v.root|
    decreases |bufs|
  {
    if bufs == [] then Some((v, h))
    else
      match Write(v, h, bufs[0])
      case WroteAll(v', h') => if ValidVolume(v') && h'.slot < |v'.root| then WriteSeq(v', h', bufs[1..]) else None
      case OutOfSpace(_) => None
      case WriteOutside => None
  }

  /** Writing at the end of a file appends. */
  lemma {:induction false} OverwrittenAtEnd(before: seq<Byte>, after: seq<Byte>, buf: seq<Byte>)
    requires Overwritten(before, after, |before|, buf)
    ensures after == before + buf
  {
    assert after == after[..|before|] + after[|before|..|before| + |buf|];
    assert after[..|before|] == before;
  }

  /** Successful writes from the end of the file on append their buffers, whatever their sizes,
      and the file stays the one found under its name. */
  lemma {:induction false} WritesAppend(v: Volume, chains: seq<seq<nat>>, h: Handle, bufs: seq<seq<Byte>>, name: seq<Byte>)
    returns (chains': seq<seq<nat>>)
    requires AtEnd(v, chains, h, name)
    requires WriteSeq(v, h, bufs).Some?
    ensures var (v', h') := WriteSeq(v, h, bufs).value;
            Appended(v, chains, h, v', chains', h', name, Concat(bufs))
    decreases |bufs|
  {
    if bufs == [] {
      chains' := chains;
      assert Content(v, chains, h.slot) + [] == Content(v, chains, h.slot);
    } else {
      var next := WriteKeeps(v, chains, h, bufs[0]);
      var WroteAll(v1, h1) := Write(v, h, bufs[0]);
      WriteAtEnd(v, chains, h, bufs[0], v1, h1, next, name);
      chains' := WritesAppend(v1, next, h1, bufs[1..], name);
      var (v', h') := WriteSeq(v1, h1, bufs[1..]).value;
      AppendedTwice(v, chains, h, v1, next, h1, v', chains', h', name, bufs[0], Concat(bufs[1..]));
    }
  }

  /** One or more writes at the end of the file appended `bytes`, changed no other file and lost no
      cluster. */
  ghost predicate Appended(v: Volume, chains: seq<seq<nat>>, h: Handle, v': Volume, chains': seq<seq<nat>>, h': Handle,
                           name: seq<Byte>, bytes: seq<Byte>) {
    && AtEnd(v, chains, h, name) && AtEnd(v', chains', h', name) && h'.slot == h.slot
    && Content(v', chains', h.slot) == Content(v, chains, h.slot) + bytes
    && Step(v, chains, v', chains', h.slot)
  }

  lemma {:induction false} OthersTrans(u: Volume, a: seq<seq<nat>>, v: Volume, b: seq<seq<nat>>, w: Volume, c: seq<seq<nat>>, s: nat)
    requires OthersKept(u, a, v, b, s) && OthersKept(v, b, w, c, s)
    ensures OthersKept(u, a, w, c, s)
  {
    forall t | 0 <= t < |u.root| && t != s
      ensures OtherKept(u, a, w, c, t)
    {
      assert OtherKept(u, a, v, b, t) && OtherKept(v, b, w, c, t);
    }
  }

  lemma {:induction false} AppendedTwice(v: Volume, chains: seq<seq<nat>>, h: Handle, v1: Volume, chains1: seq<seq<nat>>, h1: Handle,
                                         v2: Volume, chains2: seq<seq<nat>>, h2: Handle, name: seq<Byte>, a: seq<Byte>, b: seq<Byte>)
    requires Appended(v, chains, h, v1, chains1, h1, name, a) && Appended(v1, chains1, h1, v2, chains2, h2, name, b)
    ensures Appended(v, chains, h, v2, chains2, h2, name, a + b)
  {
    assert Content(v, chains, h.slot) + a + b == Content(v, chains, h.slot) + (a + b);
    OthersTrans(v, chains, v1, chains1, v2, chains2, h.slot);
  }

  /** A handle standing at the end of the file found under `name`. */
  ghost predicate AtEnd(v: Volume, chains: seq<seq<nat>>, h: Handle, name: seq<Byte>) {
    && Inv(v, chains) && HandleOk(v, chains, h) && (h.pos as int) == |Content(v, chains, h.slot)|
    && Neat(v.root) && FindSlot(v.root, name, 0) == Some(h.slot)
  }

  lemma {:induction false} WriteAtEnd(v: Volume, chains: seq<seq<nat>>, h: Handle, buf: seq<Byte>,
                                      v': Volume, h': Handle, chains': seq<seq<nat>>, name: seq<Byte>)
    requires AtEnd(v, chains, h, name) && WriteDone(v, chains, h, buf, v', h', chains')
    ensures Appended(v, chains, h, v', chains', h', name, buf)
  {
    OverwrittenAtEnd(Content(v, chains, h.slot), Content(v', chains', h.slot), buf);
    EntryKept(v, chains, h, buf, v', h', chains', name);
  }

  lemma {:induction false} EntryKept(v: Volume, chains: seq<seq<nat>>, h: Handle, buf: seq<Byte>,
                                     v': Volume, h': Handle, chains': seq<seq<nat>>, name: seq<Byte>)
    requires WriteDone(v, chains, h, buf, v', h', chains')
    requires Neat(v.root) && FindSlot(v.root, name, 0) == Some(h.slot)
    ensures Neat(v'.root) && FindSlot(v'.root, name, 0) == Some(h.slot)
  {
    forall t | 0 <= t < |v.root| && t != h.slot
      ensures v'.root[t] == v.root[t]
    {
      assert OtherKept(v, chains, v', chains', t);
    }
    assert v'.root == v.root[h.slot := v'.root[h.slot]];
    SameNameKept(v.root, v'.root, h.slot);
    SameEntryFound(v.root, v'.root, v.total, v'.total, name, h.slot);
  }

  /** The writes of `bufs` to a file just opened under `name`. */
  ghost predicate Written(sys: System, name: seq<Byte>, bufs: seq<seq<Byte>>, v: Volume, s: nat) {
    var r := OpenWrite(sys.vol, name);
    && r.Done? && ValidVolume(r.vol) && r.slot < |r.vol.root| && s == r.slot
    && var w := WriteSeq(r.vol, Handle(r.vol.root[s], 0, s), bufs);
       w.Some? && w.value.0 == v
  }

  lemma {:induction false} WrittenHolds(sys: System, chains: seq<seq<nat>>, id: nat, name: seq<Byte>, bufs: seq<seq<Byte>>,
                                        v: Volume, s: nat) returns (chains': seq<seq<nat>>)
    requires SysInv(sys, chains) && Neat(sys.vol.root) && Allowed(sys, OpenFor(id, name)) && Representable(name)
    requires Written(sys, name, bufs, v, s)
    ensures Inv(v, chains') && s < |v.root| && LastMatch(v.root, name, v.total) == Some(s) && IsLive(v.root[s])
    ensures Content(v, chains', s) == Concat(bufs)
  {
    var start := OpenKeeps(sys, chains, id, name);
    var r := OpenWrite(sys.vol, name);
    var h0 := Handle(r.vol.root[s], 0, s);
    chains' := WritesAppend(r.vol, start, h0, bufs, name);
    assert [] + Concat(bufs) == Concat(bufs);
    LookupsAgree(v.root, v.total, name);
  }

  /** Read-back: after opening a name for writing and any successful writes, opening it for reading
      finds that file, and reading any range inside it byte by byte gives that slice of the
      concatenated buffers, or an error exactly if the way there leads through one of the five numbers
      the reader refuses; on a volume of fewer clusters it always gives the slice. */
  lemma {:induction false} ReadBack(sys: System, chains: seq<seq<nat>>, id: nat, name: seq<Byte>, bufs: seq<seq<Byte>>,
                                    v: Volume, s: nat, p: nat, n: nat) returns (chains': seq<seq<nat>>)
    requires SysInv(sys, chains) && Neat(sys.vol.root) && Allowed(sys, OpenFor(id, name)) && Representable(name)
    requires Written(sys, name, bufs, v, s) && n > 0 && p + n <= |Concat(bufs)|
    ensures Inv(v, chains') && s < |v.root| && LastMatch(v.root, name, v.total) == Some(s) && IsLive(v.root[s])
    ensures Content(v, chains', s) == Concat(bufs)
    ensures ReadItems(v, FirstCluster(v.root[s]), p, 1, n) ==
            if forall j :: 1 <= j <= (p + n - 1) / v.cs && j < |chains'[s]| ==> chains'[s][j] !in {0xFF0, 0xFF6, 0xFF7, 0xFF8, 0xFFF}
            then Got(Concat(bufs)[p..p + n]) else ReadError
    ensures v.lim <= 0xFF0 ==> ReadItems(v, FirstCluster(v.root[s]), p, 1, n) == Got(Concat(bufs)[p..p + n])
  {
    chains' := WrittenHolds(sys, chains, id, name, bufs, v, s);
    RangeReads(v, chains', s, p, n);
  }

  lemma {:induction false} OnlyMatch(root: seq<Item>, total: nat, name: seq<Byte>, s: nat)
    requires DirShape(root, total) && UniqueNames(root) && s < |root| && IsLive(root[s]) && Matches(root[s], name)
    ensures FindSlot(root, name, 0) == Some(s)
  {
    FindSlotNone(root, total, name, 0);
    MatchUnique(root, name, s, FindSlot(root, name, 0).value);
  }

  /** Any run that works on other files only leaves a file where it was: both lookups still find it
      under its name, and every range reads back as it did. */
  lemma {:induction false} StillReads(states: seq<System>, ops: seq<Op>, chains: seq<seq<nat>>, name: seq<Byte>, s: nat, p: nat, n: nat)
    returns (last: seq<seq<nat>>)
    requires IsRun(states, ops) && SysInv(states[0], chains) && Neat(states[0].vol.root) && AllNeat(ops)
    requires UsableName(name) && FindSlot(states[0].vol.root, name, 0) == Some(s) && Spares(states, ops, s)
    requires n > 0 && p + n <= |Content(states[0].vol, chains, s)|
    ensures var v := states[|ops|].vol;
            && Inv(v, last) && FindSlot(v.root, name, 0) == Some(s) && LastMatch(v.root, name, v.total) == Some(s)
            && Reads(ReadItems(v, FirstCluster(v.root[s]), p, 1, n), Content(states[0].vol, chains, s), p, n,
                     Readable(chains[s], v.cs, p + n - 1))
  {
    last := RunKeeps(states, ops, chains);
    var u, v := states[0].vol, states[|ops|].vol;
    assert SlotKept(u, chains, v, last, s);
    OnlyMatch(v.root, v.total, name, s);
    LookupsAgree(v.root, v.total, name);
    ByteReads(v, last, s, p, n);
  }
}
