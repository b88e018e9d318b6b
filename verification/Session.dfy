/** A session over the whole stack, from file calls down to disk sectors: save buffers under a
    name, open it again and read a range back. */
module Session {
  import opened Bytes
  import opened Names
  import opened Directory
  import opened FileSystem
  import opened Runs
  import opened Reading
  import opened Driver

  /** The driver holds a volume in order, with no file open for writing. */
  ghost predicate InOrder(v: Volume, chains: seq<seq<nat>>) {
    SysInv(System(v, map[]), chains) && Neat(v.root)
  }

  /** The handle a successful open for writing starts from. */
  ghost function Opened(v: Volume, name: seq<Byte>): Option<(Volume, Handle)>
    requires ValidVolume(v)
  {
    match OpenWrite(v, name)
    case Done(v', s) => if ValidVolume(v') && s < |v'.root| then Some((v', Handle(v'.root[s], 0, s))) else None
    case _ => None
  }

  /** Every slot but the one opened has the same entry, chain and content. */
  ghost predicate KeptBut(v: Volume, chains: seq<seq<nat>>, v': Volume, chains': seq<seq<nat>>, saved: Option<nat>) {
    forall t: nat :: saved != Some(t) ==> SlotKept(v, chains, v', chains', t)
  }

  ghost function SlotOpened(v: Volume, name: seq<Byte>): Option<nat> {
    match OpenWrite(v, name)
    case Done(_, s) => Some(s)
    case _ => None
  }

  /** Write all buffers through a fresh handle. Succeed or fail, the volume stays in order and every
      other file is as it was. */
  method Save(fs: Fat16, name: seq<Byte>, bufs: seq<seq<Byte>>, ghost chains: seq<seq<nat>>) returns (ok: bool, ghost last: seq<seq<nat>>)
    requires fs.Mounted() && InOrder(fs.Vol(), chains) && UsableName(name) && Representable(name)
    modifies fs, fs.disk, fs.fatRead, fs.fatWrite, fs.clusterWrite
    ensures fs.Mounted() && (old(fs.Mirrored()) ==> fs.Mirrored())
    ensures ok <==> Opened(old(fs.Vol()), name).Some?
                    && var (v, h) := Opened(old(fs.Vol()), name).value; WriteSeq(v, h, bufs).Some?
    ensures InOrder(fs.Vol(), last) && KeptBut(old(fs.Vol()), chains, fs.Vol(), last, SlotOpened(old(fs.Vol()), name))
    ensures ok ==> var s := FindSlot(fs.Vol().root, name, 0);
                   s.Some? && s == SlotOpened(old(fs.Vol()), name) && Content(fs.Vol(), last, s.value) == Concat(bufs)
  {
    ghost var v0 := fs.Vol();
    last := OpenKeeps(System(v0, map[]), chains, 0, name);
    var h := fs.OpenForWrite(name);
    if h.None? {
      AllKept(v0, chains);
      return false, last;
    }
    ghost var v, h0, start := fs.Vol(), h.value.Value(), last;
    assert Opened(v0, name) == Some((v, h0));
    assert AtEnd(v, start, h0, name);
    ok, last := WriteEach(fs, h.value, bufs, start, name);
    OthersTrans(v0, chains, v, start, fs.Vol(), last, h0.slot);
    AllButKept(v0, chains, fs.Vol(), last, h0.slot);
    assert ok ==> [] + Concat(bufs) == Concat(bufs);
  }

  lemma {:induction false} AllKept(v: Volume, chains: seq<seq<nat>>)
    requires Inv(v, chains)
    ensures KeptBut(v, chains, v, chains, None)
  {
  }

  lemma {:induction false} AllButKept(v: Volume, chains: seq<seq<nat>>, v': Volume, chains': seq<seq<nat>>, s: nat)
    requires OthersKept(v, chains, v', chains', s)
    ensures KeptBut(v, chains, v', chains', Some(s))
  {
    forall t: nat | t != s
      ensures SlotKept(v, chains, v', chains', t)
    {
      StepSpares(v, chains, v', chains', s, t);
    }
  }

  /** What a failed write leaves: the volume in order and every other file as it was. */
  lemma {:induction false} FailedWrite(v: Volume, chains: seq<seq<nat>>, h: Handle, buf: seq<Byte>, v': Volume, chains': seq<seq<nat>>)
    requires Inv(v, chains) && HandleOk(v, chains, h) && Neat(v.root) && Write(v, h, buf) == OutOfSpace(v')
    requires WriteEffect(v, chains, h, buf, Lacking(v.cs, |chains[h.slot]|, h.pos, |buf|), OutOfSpace(v'), chains')
    ensures OthersKept(v, chains, v', chains', h.slot) && Neat(v'.root)
  {
  }

  method WriteEach(fs: Fat16, h: FileHandle, bufs: seq<seq<Byte>>, ghost chains: seq<seq<nat>>, ghost name: seq<Byte>)
    returns (ok: bool, ghost last: seq<seq<nat>>)
    requires fs.Mounted() && AtEnd(fs.Vol(), chains, h.Value(), name)
    modifies fs`items, fs.disk, fs.fatRead, fs.fatWrite, fs.clusterWrite, h
    ensures fs.Mounted() && (old(fs.Mirrored()) ==> fs.Mirrored())
    ensures ok <==> WriteSeq(old(fs.Vol()), old(h.Value()), bufs).Some?
    ensures OthersKept(old(fs.Vol()), chains, fs.Vol(), last, h.slot) && Neat(fs.Vol().root)
    ensures ok ==> && (fs.Vol(), h.Value()) == WriteSeq(old(fs.Vol()), old(h.Value()), bufs).value
                   && Appended(old(fs.Vol()), chains, old(h.Value()), fs.Vol(), last, h.Value(), name, Concat(bufs))
    decreases |bufs|
  {
    ghost var v, h0 := fs.Vol(), h.Value();
    if bufs == [] {
      last := WritesAppend(v, chains, h0, [], name);
      return true, last;
    }
    ghost var next := WriteKeeps(v, chains, h0, bufs[0]);
    ok := fs.WriteBytes(h, bufs[0]);
    last := next;
    if !ok {
      FailedWrite(v, chains, h0, bufs[0], fs.Vol(), next);
      return;
    }
    ghost var v1, h1 := fs.Vol(), h.Value();
    WriteAtEnd(v, chains, h0, bufs[0], v1, h1, next, name);
    ok, last := WriteEach(fs, h, bufs[1..], next, name);
    OthersTrans(v, chains, v1, next, fs.Vol(), last, h.slot);
    if ok {
      AppendedTwice(v, chains, h0, v1, next, h1, fs.Vol(), last, h.Value(), name, bufs[0], Concat(bufs[1..]));
    }
  }

  /** Open a saved file for reading and read `n` bytes at `p`, byte by byte. It fails exactly if the way
      there leads through one of the five numbers the reader refuses, so never on a small volume. */
  method Load(fs: Fat16, name: seq<Byte>, p: Word32, n: Word32, ghost chains: seq<seq<nat>>, ghost s: nat) returns (ok: bool, out: seq<Byte>)
    requires fs.Mounted() && Inv(fs.Vol(), chains) && Neat(fs.Vol().root) && UsableName(name)
    requires FindSlot(fs.Vol().root, name, 0) == Some(s) && 0 < n < 0x8000_0000
    requires (p as int) + (n as int) <= |Content(fs.Vol(), chains, s)|
    modifies fs.fatRead, fs.clusterRead
    ensures ok <==> forall j :: 1 <= j <= (p + n - 1) / fs.Vol().cs && j < |chains[s]| ==>
                                  chains[s][j] !in {0xFF0, 0xFF6, 0xFF7, 0xFF8, 0xFFF}
    ensures fs.Vol().lim <= 0xFF0 ==> ok
    ensures ok ==> out == Content(fs.Vol(), chains, s)[p..(p as int) + (n as int)]
  {
    LookupsAgree(fs.Vol().root, fs.Vol().total, name);
    var h := fs.OpenForRead(name);
    ok, out := LoadFrom(fs, h.value, p, n, chains, s);
  }

  /** The same through a handle that stands anywhere in the file. */
  method LoadFrom(fs: Fat16, h: FileHandle, p: Word32, n: Word32, ghost chains: seq<seq<nat>>, ghost s: nat) returns (ok: bool, out: seq<Byte>)
    requires fs.Mounted() && Inv(fs.Vol(), chains) && s < |chains| && IsLive(fs.Vol().root[s]) && h.item == fs.Vol().root[s]
    requires 0 < n < 0x8000_0000 && (p as int) + (n as int) <= |Content(fs.Vol(), chains, s)|
    modifies fs.fatRead, fs.clusterRead, h
    ensures ok <==> forall j :: 1 <= j <= (p + n - 1) / fs.Vol().cs && j < |chains[s]| ==>
                                  chains[s][j] !in {0xFF0, 0xFF6, 0xFF7, 0xFF8, 0xFFF}
    ensures fs.Vol().lim <= 0xFF0 ==> ok
    ensures ok ==> out == Content(fs.Vol(), chains, s)[p..(p as int) + (n as int)]
  {
    var seek := h.SeekTo(p, SeekSet);
    RangeReads(fs.Vol(), chains, s, p, n);
    var res;
    res, out := fs.ReadFile(h, 1, n);
    ok := res >= 0;
  }
}
