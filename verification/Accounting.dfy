/** File sizes and chain lengths over whole runs: every file keeps exactly the clusters its size
    needs, and the one way out of that is named. */
module Accounting {
  import opened Bytes
  import opened FatChains
  import opened FileData
  import opened FileWrite
  import opened Directory
  import opened FileSystem
  import opened Runs

  /** The file of a slot has exactly as many clusters as its size needs. */
  ghost predicate TightAt(v: Volume, chains: seq<seq<nat>>, s: nat)
    requires s < |v.root| && s < |chains|
  {
    IsLive(v.root[s]) ==> Tight(|chains[s]|, v.root[s].filesize, v.cs)
  }

  ghost predicate AllTight(v: Volume, chains: seq<seq<nat>>)
    requires |chains| == |v.root|
  {
    forall s :: 0 <= s < |chains| ==> TightAt(v, chains, s)
  }

  /** A write of nothing, on a cluster boundary at or past the end of the file. */
  predicate Hollow(h: Handle, buf: seq<Byte>, cs: nat)
    requires cs > 0
  {
    buf == [] && Offset(h.pos, cs) == 0 && h.pos >= h.item.filesize
  }

  /** The first byte of cluster `k` is inside a tight file exactly if the file has that cluster. */
  lemma {:induction false} BoundaryInside(len: nat, size: nat, cs: nat, k: nat)
    requires cs > 0 && Tight(len, size, cs)
    ensures Span(k, cs) < size <==> k < len
  {
    if k < len {
      SpanMono(k, len - 1, cs);
    } else {
      SpanMono(len, k, cs);
    }
  }

  lemma {:induction false} EmptyWriteTight(len: nat, size: nat, cs: nat, k: nat, o: nat)
    requires o < cs && Tight(len, size, cs)
    ensures Tight(Max(len, k + 1), Max(size, Span(k, cs) + o), cs) <==> o > 0 || k < len
  {
    if k < len {
      SpanGap(k, len, cs);
    } else {
      SpanMono(len, k, cs);
      SpanGap(k, k + 1, cs);
    }
  }

  /** A successful write keeps the file exact exactly if it is not hollow. */
  lemma {:induction false} WriteTightIff(v: Volume, chains: seq<seq<nat>>, h: Handle, buf: seq<Byte>,
                                         v': Volume, h': Handle, chains': seq<seq<nat>>)
    requires WriteDone(v, chains, h, buf, v', h', chains')
    requires |chains'[h.slot]| == |chains[h.slot]| + Lacking(v.cs, |chains[h.slot]|, h.pos, |buf|)
    requires TightAt(v, chains, h.slot)
    ensures TightAt(v', chains', h.slot) <==> !Hollow(h, buf, v.cs)
  {
    var k, o, len, size := Index(h.pos, v.cs), Offset(h.pos, v.cs), |chains[h.slot]|, v.root[h.slot].filesize;
    PositionSplit(h.pos, v.cs);
    if buf != [] {
      WriteKeepsTight(len, size, v.cs, k, o, |buf|);
    } else {
      EmptyWriteTight(len, size, v.cs, k, o);
      BoundaryInside(len, size, v.cs, k);
    }
  }

  // ---------------------------------------------------------------- operations

  /** Writes succeed and are not hollow; other operations may do as they please. */
  ghost predicate ExactOp(sys: System, op: Op) {
    op.WriteTo? && op.id in sys.handles && CanApply(sys) ==>
      Write(sys.vol, sys.handles[op.id], op.buf).WroteAll? && !Hollow(sys.handles[op.id], op.buf, sys.vol.cs)
  }

  lemma {:induction false} OthersTight(v: Volume, chains: seq<seq<nat>>, v': Volume, chains': seq<seq<nat>>, s: nat)
    requires OthersKept(v, chains, v', chains', s) && AllTight(v, chains)
    requires s < |v.root| && TightAt(v', chains', s)
    ensures AllTight(v', chains')
  {
    forall t | 0 <= t < |chains'|
      ensures TightAt(v', chains', t)
    {
      if t != s {
        assert OtherKept(v, chains, v', chains', t) && TightAt(v, chains, t);
      }
    }
  }

  lemma {:induction false} OpenTight(sys: System, chains: seq<seq<nat>>, id: nat, name: seq<Byte>) returns (chains': seq<seq<nat>>)
    requires SysInv(sys, chains) && AllTight(sys.vol, chains) && Allowed(sys, OpenFor(id, name))
    ensures SysInv(Apply(sys, OpenFor(id, name)), chains') && AllTight(Apply(sys, OpenFor(id, name)).vol, chains')
  {
    var v := sys.vol;
    chains' := chains;
    match FindSlot(v.root, name, 0)
    case Some(s) =>
      TruncateOpens(sys, chains, id, name, s);
      TruncateKeeps(v, chains, s);
      chains' := chains[s := []];
      OthersTight(v, chains, Truncate(v, s).vol, chains', s);
    case None =>
      CreateOpens(sys, chains, id, name);
      CreateKeeps(v, chains, name);
      if Create(v, name).Done? {
        var s := Create(v, name).slot;
        assert SlotOk(v.root[s], chains[s], v.cs);
        OthersTight(v, chains, Create(v, name).vol, chains, s);
      }
  }

  lemma {:induction false} WriteTight(sys: System, chains: seq<seq<nat>>, id: nat, buf: seq<Byte>) returns (chains': seq<seq<nat>>)
    requires SysInv(sys, chains) && AllTight(sys.vol, chains) && id in sys.handles && ExactOp(sys, WriteTo(id, buf))
    ensures SysInv(Apply(sys, WriteTo(id, buf)), chains') && AllTight(Apply(sys, WriteTo(id, buf)).vol, chains')
  {
    var v, h := sys.vol, sys.handles[id];
    chains' := WriteKeepsAll(sys, chains, id, buf);
    var WroteAll(v', h') := Write(v, h, buf);
    WriteTightIff(v, chains, h, buf, v', h', chains');
    OthersTight(v, chains, v', chains', h.slot);
  }

  lemma {:induction false} RemoveTight(sys: System, chains: seq<seq<nat>>, name: seq<Byte>) returns (chains': seq<seq<nat>>)
    requires SysInv(sys, chains) && AllTight(sys.vol, chains) && Allowed(sys, Remove(name))
    ensures SysInv(Apply(sys, Remove(name)), chains') && AllTight(Apply(sys, Remove(name)).vol, chains')
  {
    chains' := RemoveKeeps(sys, chains, name);
    EraseKeeps(sys.vol, chains, name);
    if Delete(sys.vol, name).Done? {
      var Done(v', s) := Delete(sys.vol, name);
      OthersTight(sys.vol, chains, v', chains', s);
    }
  }

  // ---------------------------------------------------------------- whole runs

  lemma {:induction false} OpTight(sys: System, chains: seq<seq<nat>>, op: Op) returns (chains': seq<seq<nat>>)
    requires SysInv(sys, chains) && AllTight(sys.vol, chains) && Allowed(sys, op) && ExactOp(sys, op)
    ensures SysInv(Apply(sys, op), chains') && AllTight(Apply(sys, op).vol, chains')
  {
    chains' := chains;
    match op
    case OpenFor(id, name) =>
      chains' := OpenTight(sys, chains, id, name);
    case WriteTo(id, buf) =>
      chains' := WriteTight(sys, chains, id, buf);
    case SeekTo(id, offset, mode) =>
      SeekKeeps(sys, chains, id, offset, mode);
    case Remove(name) =>
      chains' := RemoveTight(sys, chains, name);
    case Close(id) =>
  }

  ghost predicate AllExact(states: seq<System>, ops: seq<Op>)
    requires |states| == |ops| + 1
  {
    forall i :: 0 <= i < |ops| ==> ExactOp(states[i], ops[i])
  }

  /** Over every run whose writes succeed and are not hollow, every file has exactly
      ceil(size / cluster size) clusters in every state. */
  lemma {:induction false} RunStaysTight(states: seq<System>, ops: seq<Op>, chains: seq<seq<nat>>, k: nat) returns (last: seq<seq<nat>>)
    requires IsRun(states, ops) && AllExact(states, ops) && k <= |ops|
    requires SysInv(states[0], chains) && AllTight(states[0].vol, chains)
    ensures SysInv(states[k], last) && AllTight(states[k].vol, last)
    ensures var v := states[k].vol;
            forall s :: 0 <= s < |last| && IsLive(v.root[s]) ==> |last[s]| == ((v.root[s].filesize as int) + v.cs - 1) / v.cs
  {
    if k == 0 {
      last := chains;
    } else {
      var before := RunStaysTight(states, ops, chains, k - 1);
      assert Allowed(states[k - 1], ops[k - 1]) && ExactOp(states[k - 1], ops[k - 1]);
      last := OpTight(states[k - 1], before, ops[k - 1]);
      assert states[k - 1 + 1] == Apply(states[k - 1], ops[k - 1]);
    }
    TightSizes(states[k].vol, last);
  }

  lemma {:induction false} TightSizes(v: Volume, chains: seq<seq<nat>>)
    requires Inv(v, chains) && AllTight(v, chains)
    ensures forall s :: 0 <= s < |chains| && IsLive(v.root[s]) ==> |chains[s]| == ((v.root[s].filesize as int) + v.cs - 1) / v.cs
  {
    forall s | 0 <= s < |chains| && IsLive(v.root[s])
      ensures |chains[s]| == ((v.root[s].filesize as int) + v.cs - 1) / v.cs
    {
      assert TightAt(v, chains, s);
      TightIsCeiling(|chains[s]|, v.root[s].filesize, v.cs);
    }
  }

  // ---------------------------------------------------------------- the hollow write

  /** One free cluster, and one file without clusters. */
  function SmallVolume(): Volume {
    Volume(3, 512, [0xFFF8, 0xFFFF, 0], [[], [], seq(512, _ => 0)], [OneByteItem(65)], 1)
  }

  /** Writing nothing to it takes the cluster, which a file of size zero does not need. */
  lemma {:induction false} HollowExample() returns (chains: seq<seq<nat>>)
    ensures var v, h := SmallVolume(), Handle(OneByteItem(65), 0, 0);
            && Inv(v, [[]]) && HandleOk(v, [[]], h) && AllTight(v, [[]])
            && var out := Write(v, h, []);
               out.WroteAll? && Inv(out.vol, chains) && |chains[0]| == 1 && out.vol.root[0].filesize == 0
  {
    var v, h := SmallVolume(), Handle(OneByteItem(65), 0, 0);
    assert Span(3, 512) == Span(2, 512) + 512 && Span(2, 512) == Span(1, 512) + 512 && Span(1, 512) == Span(0, 512) + 512;
    assert SlotOk(v.root[0], [], v.cs);
    chains := WriteKeeps(v, [[]], h, []);
    assert FreeSet(v.fat, v.lim) == {2};
  }
}
