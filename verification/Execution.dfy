/** Whole runs on the disk itself: any list of operations, with any number of files open, carried
    out by the driver sector by sector. */
module Execution {
  import opened Bytes
  import opened Names
  import opened FileSystem
  import opened Runs
  import opened Driver

  /** The open descriptors, by id. */
  type Table = map<nat, FileHandle>

  ghost predicate Separate(t: Table) {
    forall i, j :: i in t && j in t && t[i] == t[j] ==> i == j
  }

  ghost function Values(t: Table): (m: map<nat, Handle>)
    reads t.Values
  {
    map id | id in t :: t[id].Value()
  }

  ghost function Sys(fs: Fat16, t: Table): System
    requires fs.Base()
    reads fs, fs.disk, t.Values
  {
    System(fs.Vol(), Values(t))
  }

  /** The pure run. */
  ghost function RunOps(sys: System, ops: seq<Op>): System
    decreases |ops|
  {
    if ops == [] then sys
    else
      var front := RunOps(sys, ops[..|ops| - 1]);
      if CanApply(front) then Apply(front, ops[|ops| - 1]) else front
  }

  /** Each operation is allowed where it is applied, and names what it deletes by a C string. */
  ghost predicate AllAllowed(sys: System, ops: seq<Op>) {
    forall k :: 0 <= k < |ops| ==>
      Allowed(RunOps(sys, ops[..k]), ops[k]) && (ops[k].Remove? ==> CString(ops[k].name))
  }

  lemma {:induction false} OneChanged(m: map<nat, Handle>, m': map<nat, Handle>, id: nat)
    requires m'.Keys == m.Keys && id in m && forall i :: i in m && i != id ==> m'[i] == m[i]
    ensures m' == m[id := m'[id]]
  {
  }

  lemma {:induction false} OneAdded(t: Table, id: nat, h: FileHandle)
    ensures Values(t[id := h]) == Values(t)[id := h.Value()]
  {
  }

  lemma {:induction false} StillSeparate(t: Table, id: nat, h: FileHandle)
    requires Separate(t) && h !in t.Values
    ensures Separate(t[id := h])
  {
  }

  lemma {:induction false} SameHandle(m: map<nat, Handle>, id: nat)
    requires id in m
    ensures m[id := m[id]] == m
  {
  }

  /** The operation neither leaves the table nor the volume. */
  ghost predicate Safe(sys: System, op: Op) {
    && CanApply(sys)
    && match op
       case OpenFor(_, name) => CString(name) && OpenWrite(sys.vol, name) != FsFault
       case WriteTo(id, buf) => id in sys.handles && Write(sys.vol, sys.handles[id], buf) != WriteOutside
       case SeekTo(id, _, _) => id in sys.handles
       case Remove(name) => CString(name) && Delete(sys.vol, name) != FsFault
       case Close(_) => true
  }

  lemma {:induction false} AllowedIsSafe(sys: System, op: Op, chains: seq<seq<nat>>)
    requires SysInv(sys, chains) && Allowed(sys, op) && (op.Remove? ==> CString(op.name))
    ensures Safe(sys, op)
  {
    match op
    case OpenFor(id, name) => var _ := OpenKeeps(sys, chains, id, name);
    case WriteTo(id, buf) => var _ := WriteKeepsAll(sys, chains, id, buf);
    case SeekTo(_, _, _) =>
    case Remove(name) => var _ := RemoveKeeps(sys, chains, name);
    case Close(_) =>
  }

  /** One operation on the disk is the same operation on the volume. */
  method Execute(fs: Fat16, t: Table, op: Op) returns (t': Table)
    requires fs.Mounted() && Separate(t) && Safe(Sys(fs, t), op)
    modifies fs, fs.disk, fs.fatRead, fs.fatWrite, fs.clusterWrite, t.Values
    ensures fs.Mounted() && (old(fs.Mirrored()) ==> fs.Mirrored())
    ensures Separate(t') && forall h :: h in t'.Values ==> h in t.Values || fresh(h)
    ensures Sys(fs, t') == Apply(old(Sys(fs, t)), op)
  {
    t' := t;
    match op
    case OpenFor(id, name) =>
      t' := OpenOne(fs, t, id, name);
    case WriteTo(id, buf) =>
      WriteOne(fs, t, id, buf);
    case SeekTo(id, offset, mode) =>
      SeekOne(t, id, offset, mode);
    case Remove(name) =>
      RemoveOne(fs, t, name);
    case Close(id) =>
      t' := t - {id};
      assert Values(t') == old(Values(t)) - {id};
  }

  method OpenOne(fs: Fat16, t: Table, id: nat, name: seq<Byte>) returns (t': Table)
    requires fs.Mounted() && Separate(t) && Safe(Sys(fs, t), OpenFor(id, name))
    modifies fs, fs.disk, fs.fatRead, fs.fatWrite
    ensures fs.Mounted() && (old(fs.Mirrored()) ==> fs.Mirrored())
    ensures Separate(t') && forall h :: h in t'.Values ==> h in t.Values || fresh(h)
    ensures Sys(fs, t') == Apply(old(Sys(fs, t)), OpenFor(id, name))
  {
    var h := fs.OpenForWrite(name);
    t' := t;
    if h.Some? {
      OneAdded(t, id, h.value);
      StillSeparate(t, id, h.value);
      t' := t[id := h.value];
    }
  }

  method WriteOne(fs: Fat16, t: Table, id: nat, buf: seq<Byte>)
    requires fs.Mounted() && Separate(t) && Safe(Sys(fs, t), WriteTo(id, buf))
    modifies fs`items, fs.disk, fs.fatRead, fs.fatWrite, fs.clusterWrite, t.Values
    ensures fs.Mounted() && (old(fs.Mirrored()) ==> fs.Mirrored())
    ensures Sys(fs, t) == Apply(old(Sys(fs, t)), WriteTo(id, buf))
  {
    ghost var sys := Sys(fs, t);
    var ok := fs.WriteBytes(t[id], buf);
    assert Values(t) == sys.handles[id := t[id].Value()] by {
      OneChanged(sys.handles, Values(t), id);
    }
    WriteApplied(sys, id, buf, fs.Vol(), t[id].Value());
  }

  lemma {:induction false} WriteApplied(sys: System, id: nat, buf: seq<Byte>, v: Volume, h: Handle)
    requires Safe(sys, WriteTo(id, buf))
    requires match Write(sys.vol, sys.handles[id], buf)
             case WroteAll(v', h') => v == v' && h == h'
             case OutOfSpace(v') => v == v' && h == sys.handles[id]
    ensures System(v, sys.handles[id := h]) == Apply(sys, WriteTo(id, buf))
  {
    SameHandle(sys.handles, id);
  }

  method SeekOne(t: Table, id: nat, offset: Word32, mode: SeekMode)
    requires Separate(t) && id in t
    modifies t.Values
    ensures Values(t) == old(Values(t))[id := Seek(old(Values(t))[id], offset, mode)]
  {
    ghost var handles := Values(t);
    var _ := t[id].SeekTo(offset, mode);
    OneChanged(handles, Values(t), id);
  }

  method RemoveOne(fs: Fat16, t: Table, name: seq<Byte>)
    requires fs.Mounted() && Safe(Sys(fs, t), Remove(name))
    modifies fs`items, fs.disk, fs.fatRead, fs.fatWrite
    ensures fs.Mounted() && (old(fs.Mirrored()) ==> fs.Mirrored())
    ensures Sys(fs, t) == Apply(old(Sys(fs, t)), Remove(name))
  {
    var _ := fs.DeleteFile(name);
    assert Values(t) == old(Values(t));
  }

  /** An allowed operation keeps the invariant. */
  method ExecuteNext(fs: Fat16, t: Table, op: Op, ghost chains: seq<seq<nat>>) returns (t': Table, ghost next: seq<seq<nat>>)
    requires fs.Mounted() && Separate(t) && SysInv(Sys(fs, t), chains) && Allowed(Sys(fs, t), op)
    requires op.Remove? ==> CString(op.name)
    modifies fs, fs.disk, fs.fatRead, fs.fatWrite, fs.clusterWrite, t.Values
    ensures fs.Mounted() && (old(fs.Mirrored()) ==> fs.Mirrored())
    ensures Separate(t') && forall h :: h in t'.Values ==> h in t.Values || fresh(h)
    ensures CanApply(old(Sys(fs, t))) && Sys(fs, t') == Apply(old(Sys(fs, t)), op) && SysInv(Sys(fs, t'), next)
  {
    AllowedIsSafe(Sys(fs, t), op, chains);
    next := ApplyKeeps(Sys(fs, t), chains, op);
    t' := Execute(fs, t, op);
  }

  /** Every allowed list of operations, carried out on the disk, ends in the state of the pure run:
      volume, open handles and invariant. The cache matches the directory on disk in every state
      reached, and the FAT copies agree if they did at the start. */
  method ExecuteAll(fs: Fat16, t: Table, ops: seq<Op>, ghost chains: seq<seq<nat>>) returns (t': Table, ghost last: seq<seq<nat>>)
    requires fs.Mounted() && Separate(t) && SysInv(Sys(fs, t), chains) && AllAllowed(Sys(fs, t), ops)
    modifies fs, fs.disk, fs.fatRead, fs.fatWrite, fs.clusterWrite, t.Values
    ensures fs.Mounted() && (old(fs.Mirrored()) ==> fs.Mirrored())
    ensures Sys(fs, t') == RunOps(old(Sys(fs, t)), ops) && SysInv(Sys(fs, t'), last)
  {
    ghost var sys := Sys(fs, t);
    t', last := t, chains;
    var k := 0;
    while k < |ops|
      invariant 0 <= k <= |ops| && fs.Mounted() && (old(fs.Mirrored()) ==> fs.Mirrored())
      invariant Separate(t') && forall h :: h in t'.Values ==> h in t.Values || fresh(h)
      invariant Sys(fs, t') == RunOps(sys, ops[..k]) && SysInv(Sys(fs, t'), last)
    {
      assert ops[..k + 1][..k] == ops[..k];
      t', last := ExecuteNext(fs, t', ops[k], last);
      k := k + 1;
    }
    assert ops[..k] == ops;
  }

  /** The states of the pure run are a run. */
  lemma {:induction false} RunOpsIsRun(sys: System, ops: seq<Op>, chains: seq<seq<nat>>) returns (states: seq<System>)
    requires SysInv(sys, chains) && AllAllowed(sys, ops)
    ensures IsRun(states, ops) && forall k :: 0 <= k <= |ops| ==> states[k] == RunOps(sys, ops[..k])
  {
    states := seq(|ops| + 1, k requires 0 <= k <= |ops| => RunOps(sys, ops[..k]));
    forall k | 0 <= k < |ops|
      ensures Allowed(states[k], ops[k]) && (CanApply(states[k]) ==> states[k + 1] == Apply(states[k], ops[k]))
    {
      assert ops[..k + 1][..k] == ops[..k];
    }
  }
}
