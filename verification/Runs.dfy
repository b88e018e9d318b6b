/** Whole runs of the driver: open-for-write, write, seek, close and delete in any order, with
    any number of files open, successful or out of space. */
module Runs {
  import opened Bytes
  import opened FatChains
  import opened FileData
  import opened Names
  import opened Directory
  import opened FileSystem

  datatype SeekMode = SeekSet | SeekCur | SeekEnd

  /** Seek: a position inside the file, or relative to the current one; refused at or past
      the end of the file. */
  function Seek(h: Handle, offset: Word32, mode: SeekMode): Handle {
    if offset >= h.item.filesize then h
    else
      match mode
      case SeekSet => h.(pos := offset)
      case SeekCur => h.(pos := Add32(h.pos, offset))
      case SeekEnd => h
  }

  /** From any position: a seek inside the file sets the position or adds to it, 32 bits wide; any other
      leaves it. */
  lemma {:induction false} SeekMoves(h: Handle, offset: Word32)
    ensures offset < h.item.filesize ==> Seek(h, offset, SeekSet) == Handle(h.item, offset, h.slot)
    ensures offset < h.item.filesize ==> Seek(h, offset, SeekCur) == Handle(h.item, (h.pos + offset) % 0x1_0000_0000, h.slot)
    ensures Seek(h, offset, SeekEnd) == h
    ensures offset >= h.item.filesize ==> Seek(h, offset, SeekSet) == h && Seek(h, offset, SeekCur) == h
  {
  }

  datatype System = System(vol: Volume, handles: map<nat, Handle>)

  datatype Op =
    | OpenFor(id: nat, name: seq<Byte>)
    | WriteTo(id: nat, buf: seq<Byte>)
    | SeekTo(id: nat, offset: Word32, mode: SeekMode)
    | Remove(name: seq<Byte>)
    | Close(id: nat)

  /** A name whose entry cannot be taken for a deleted one. */
  ghost predicate UsableName(name: seq<Byte>) {
    CString(name) && (name != [] ==> name[0] != DELETED)
  }

  ghost predicate SlotOpen(sys: System, s: nat) {
    exists id :: id in sys.handles && sys.handles[id].slot == s
  }

  /** The discipline the driver relies on: a file open for writing is not opened for writing
      again and not deleted. */
  ghost predicate Allowed(sys: System, op: Op) {
    match op
    case OpenFor(id, name) =>
      && UsableName(name) && id !in sys.handles
      && (FindSlot(sys.vol.root, name, 0).Some? ==> !SlotOpen(sys, FindSlot(sys.vol.root, name, 0).value))
    case WriteTo(id, _) => id in sys.handles
    case SeekTo(id, _, _) => id in sys.handles
    case Remove(name) =>
      FindSlot(sys.vol.root, name, 0).Some? ==> !SlotOpen(sys, FindSlot(sys.vol.root, name, 0).value)
    case Close(_) => true
  }

  ghost predicate CanApply(sys: System) {
    ValidVolume(sys.vol) && forall id :: id in sys.handles ==> sys.handles[id].slot < |sys.vol.root|
  }

  ghost function Apply(sys: System, op: Op): System
    requires CanApply(sys)
  {
    match op
    case OpenFor(id, name) =>
      (match OpenWrite(sys.vol, name)
       case Done(v, s) => if s < |v.root| then System(v, sys.handles[id := Handle(v.root[s], 0, s)]) else sys
       case _ => sys)
    case WriteTo(id, buf) =>
      if id !in sys.handles then sys
      else
        (match Write(sys.vol, sys.handles[id], buf)
         case WroteAll(v, h) => System(v, sys.handles[id := h])
         case OutOfSpace(v) => sys.(vol := v)
         case WriteOutside => sys)
    case SeekTo(id, offset, mode) =>
      if id !in sys.handles then sys else sys.(handles := sys.handles[id := Seek(sys.handles[id], offset, mode)])
    case Remove(name) =>
      (match Delete(sys.vol, name)
       case Done(v, _) => sys.(vol := v)
       case _ => sys)
    case Close(id) => sys.(handles := sys.handles - {id})
  }

  /** A directory of plain files with distinct names, on which all views agree. */
  ghost predicate Neat(root: seq<Item>) {
    PlainFiles(root) && UniqueNames(root)
  }

  /** An operation that keeps it so: it creates no file under a name that is shown differently. */
  ghost predicate NeatOp(op: Op) {
    op.OpenFor? ==> Representable(op.name)
  }

  /** What holds between any two operations. */
  ghost predicate SysInv(sys: System, chains: seq<seq<nat>>) {
    && Inv(sys.vol, chains)
    && (forall id :: id in sys.handles ==> HandleOk(sys.vol, chains, sys.handles[id]))
    && (forall i, j :: i in sys.handles && j in sys.handles && sys.handles[i].slot == sys.handles[j].slot ==> i == j)
  }

  // ---------------------------------------------------------------- names

  /** Changing one slot to an entry that is not live, or has a name no other live entry has,
      keeps the names unique. */
  lemma {:induction false} NamesKept(root: seq<Item>, s: nat, i: Item)
    requires Neat(root) && s < |root|
    requires !IsEnd(i) && !IsDeleted(i) ==> i.attribute / 8 % 4 == 0
    requires IsLive(i) ==> forall t :: 0 <= t < |root| && t != s && IsLive(root[t]) ==> !SameName(NameOf(root[t]), NameOf(i))
    ensures Neat(root[s := i])
  {
    if IsLive(i) {
      forall t | 0 <= t < |root| && t != s && IsLive(root[t])
        ensures !SameName(NameOf(i), NameOf(root[t]))
      {
        assert SameName(NameOf(i), NameOf(root[t])) ==> SameName(NameOf(root[t]), NameOf(i));
      }
    }
  }

  /** A file created under a representable name is shown under it, and under no other live entry's. */
  lemma {:induction false} NewNameUnique(root: seq<Item>, total: nat, name: seq<Byte>, s: nat)
    requires DirShape(root, total) && CString(name) && Representable(name) && FindSlot(root, name, 0).None? && s < |root|
    ensures Matches(NewItem(name), name)
    ensures forall t :: 0 <= t < |root| && t != s && IsLive(root[t]) ==> !SameName(NameOf(root[t]), NameOf(NewItem(name)))
  {
    RoundTripIff(name);
    FindSlotNone(root, total, name, 0);
    forall t | 0 <= t < |root| && t != s && IsLive(root[t])
      ensures !SameName(NameOf(root[t]), NameOf(NewItem(name)))
    {
      assert !Matches(root[t], name);
      if SameName(NameOf(root[t]), NameOf(NewItem(name))) {
        SameTrans(NameOf(root[t]), NameOf(NewItem(name)), name);
      }
    }
  }

  /** A created file can be opened again by its name exactly if the name is representable and does
      not start with the deletion mark. */
  lemma {:induction false} ReopenIff(v: Volume, chains: seq<seq<nat>>, name: seq<Byte>)
    requires Inv(v, chains) && CString(name)
    requires FindSlot(v.root, name, 0).None? && FreeSlot(v.root, 0).Some?
    ensures var r := OpenWrite(v, name);
            && r.Done?
            && (FindSlot(r.vol.root, name, 0) == Some(r.slot)
                <==> Representable(name) && (name != [] ==> name[0] != DELETED))
  {
    var s := FreeSlot(v.root, 0).value;
    var r := OpenWrite(v, name);
    CreateKeeps(v, chains, name);
    FirstByte(name);
    RoundTripIff(name);
    FindSlotNone(v.root, v.total, name, 0);
    FindSlotNone(r.vol.root, r.vol.total, name, 0);
    assert IsLive(NewItem(name)) <==> (name != [] ==> name[0] != DELETED);
    if FindSlot(r.vol.root, name, 0).Some? {
      assert forall t :: 0 <= t < |v.root| && t != s ==> r.vol.root[t] == v.root[t];
    }
  }

  // ---------------------------------------------------------------- one operation

  /** A handle on another slot stays good. */
  /** A file created as "ABCDEFGHI" is not found under that name: it is shown as "ABCDEFGH.I". */
  lemma {:induction false} NineCharacters(v: Volume, chains: seq<seq<nat>>)
    requires Inv(v, chains) && FreeSlot(v.root, 0).Some? && FindSlot(v.root, [65, 66, 67, 68, 69, 70, 71, 72, 73], 0).None?
    ensures var name := [65, 66, 67, 68, 69, 70, 71, 72, 73];
            var r := OpenWrite(v, name);
            r.Done? && FindSlot(r.vol.root, name, 0) != Some(r.slot)
  {
    var name := [65, 66, 67, 68, 69, 70, 71, 72, 73];
    BaseLengthIs(name, 9, 9);
    ReopenIff(v, chains, name);
  }

  lemma {:induction false} OtherHandle(v: Volume, chains: seq<seq<nat>>, v': Volume, chains': seq<seq<nat>>, s: nat, h: Handle)
    requires OthersKept(v, chains, v', chains', s) && HandleOk(v, chains, h) && h.slot != s
    ensures HandleOk(v', chains', h)
  {
    assert OtherKept(v, chains, v', chains', h.slot);
  }

  /** The state after a step on slot `s` under handle `id`. */
  lemma {:induction false} StepKeeps(sys: System, chains: seq<seq<nat>>, v: Volume, chains': seq<seq<nat>>, s: nat, id: nat, h: Handle)
    requires SysInv(sys, chains)
    requires OthersKept(sys.vol, chains, v, chains', s)
    requires HandleOk(v, chains', h) && h.slot == s
    requires forall j :: j in sys.handles && sys.handles[j].slot == s ==> j == id
    ensures SysInv(System(v, sys.handles[id := h]), chains')
  {
    var handles := sys.handles[id := h];
    forall j | j in handles
      ensures HandleOk(v, chains', handles[j])
      ensures j != id ==> handles[j].slot != s
    {
      if j != id {
        OtherHandle(sys.vol, chains, v, chains', s, sys.handles[j]);
      }
    }
  }

  /** What opening slot `s` of the new volume for writing amounts to. */
  ghost predicate OpenDone(sys: System, chains: seq<seq<nat>>, id: nat, name: seq<Byte>, v: Volume, s: nat, chains': seq<seq<nat>>) {
    && Inv(sys.vol, chains) && s < |v.root| && Step(sys.vol, chains, v, chains', s)
    && SysInv(System(v, sys.handles[id := Handle(v.root[s], 0, s)]), chains')
    && IsLive(v.root[s]) && Content(v, chains', s) == []
    && (Representable(name) ==> FindSlot(v.root, name, 0) == Some(s))
    && (Neat(sys.vol.root) && Representable(name) ==> Neat(v.root))
  }

  lemma {:induction false} TruncateOpens(sys: System, chains: seq<seq<nat>>, id: nat, name: seq<Byte>, s: nat)
    requires SysInv(sys, chains) && Allowed(sys, OpenFor(id, name)) && FindSlot(sys.vol.root, name, 0) == Some(s)
    ensures Truncate(sys.vol, s).Done? && OpenDone(sys, chains, id, name, Truncate(sys.vol, s).vol, s, chains[s := []])
  {
    var v, chains' := sys.vol, chains[s := []];
    TruncateKeeps(v, chains, s);
    var v' := Truncate(v, s).vol;
    if Neat(v.root) { NamesKept(v.root, s, Emptied(v.root[s])); }
    StepKeeps(sys, chains, v', chains', s, id, Handle(v'.root[s], 0, s));
    SameEntryFound(v.root, v'.root, v.total, v'.total, name, s);
  }

  lemma {:induction false} CreateNeat(v: Volume, name: seq<Byte>, s: nat)
    requires DirShape(v.root, v.total) && Neat(v.root) && CString(name) && Representable(name)
    requires FindSlot(v.root, name, 0).None? && s < |v.root|
    ensures Neat(v.root[s := NewItem(name)])
  {
    NewNameUnique(v.root, v.total, name, s);
    NamesKept(v.root, s, NewItem(name));
  }

  lemma {:induction false} CreateOpens(sys: System, chains: seq<seq<nat>>, id: nat, name: seq<Byte>)
    requires SysInv(sys, chains) && Allowed(sys, OpenFor(id, name)) && FindSlot(sys.vol.root, name, 0) == None
    ensures match Create(sys.vol, name)
            case Done(v, s) => OpenDone(sys, chains, id, name, v, s, chains)
            case DirectoryFull => true
            case NoSuchFile => false
            case FsFault => false
  {
    var v := sys.vol;
    CreateKeeps(v, chains, name);
    if FreeSlot(v.root, 0).Some? {
      var Done(v', s) := Create(v, name);
      FirstByte(name);
      if Neat(v.root) && Representable(name) { CreateNeat(v, name, s); }
      assert SlotOk(v.root[s], chains[s], v.cs);
      assert SysInv(System(v', sys.handles[id := Handle(v'.root[s], 0, s)]), chains) by {
        StepKeeps(sys, chains, v', chains, s, id, Handle(v'.root[s], 0, s));
      }
      assert Representable(name) ==> FindSlot(v'.root, name, 0) == Some(s) by { ReopenIff(v, chains, name); }
    }
  }

  lemma {:induction false} OpenKeeps(sys: System, chains: seq<seq<nat>>, id: nat, name: seq<Byte>) returns (chains': seq<seq<nat>>)
    requires SysInv(sys, chains) && Allowed(sys, OpenFor(id, name))
    ensures match OpenWrite(sys.vol, name)
            case Done(v, s) => OpenDone(sys, chains, id, name, v, s, chains')
            case DirectoryFull => chains' == chains
            case NoSuchFile => false
            case FsFault => false
  {
    match FindSlot(sys.vol.root, name, 0)
    case Some(s) =>
      TruncateOpens(sys, chains, id, name, s);
      chains' := chains[s := []];
    case None =>
      CreateOpens(sys, chains, id, name);
      chains' := chains;
  }

  /** Changing an entry without changing its name keeps it the one found. */
  lemma {:induction false} SameEntryFound(root: seq<Item>, root': seq<Item>, total: nat, total': nat, name: seq<Byte>, s: nat)
    requires DirShape(root, total) && DirShape(root', total') && |root'| == |root|
    requires FindSlot(root, name, 0) == Some(s)
    requires root' == root[s := root'[s]] && IsLive(root'[s]) && NameOf(root'[s]) == NameOf(root[s])
    ensures FindSlot(root', name, 0) == Some(s)
  {
    FindSlotNone(root, total, name, 0);
    FindSlotNone(root', total', name, 0);
    assert Matches(root'[s], name);
    assert forall t :: 0 <= t < |root| && t != s ==> root'[t] == root[t];
  }

  /** An entry with the same name, state and kind keeps the directory unique and plain. */
  lemma {:induction false} SameNameKept(root: seq<Item>, root': seq<Item>, s: nat)
    requires Neat(root) && s < |root| == |root'| && root' == root[s := root'[s]]
    requires IsLive(root[s])
    requires root'[s].filename == root[s].filename && root'[s].ext == root[s].ext && root'[s].attribute == root[s].attribute
    ensures Neat(root')
  {
    NamesKept(root, s, root'[s]);
  }

  lemma {:induction false} WriteKeepsAll(sys: System, chains: seq<seq<nat>>, id: nat, buf: seq<Byte>) returns (chains': seq<seq<nat>>)
    requires SysInv(sys, chains) && id in sys.handles
    ensures CanApply(sys) && SysInv(Apply(sys, WriteTo(id, buf)), chains')
    ensures Neat(sys.vol.root) ==> Neat(Apply(sys, WriteTo(id, buf)).vol.root)
    ensures var h := sys.handles[id];
            WriteEffect(sys.vol, chains, h, buf, Lacking(sys.vol.cs, |chains[h.slot]|, h.pos, |buf|), Write(sys.vol, h, buf), chains')
  {
    var h := sys.handles[id];
    chains' := WriteKeeps(sys.vol, chains, h, buf);
    match Write(sys.vol, h, buf)
    case WroteAll(v', h') =>
      assert forall t :: 0 <= t < |v'.root| && t != h.slot ==> OtherKept(sys.vol, chains, v', chains', t);
      assert v'.root == sys.vol.root[h.slot := v'.root[h.slot]];
      if Neat(sys.vol.root) { SameNameKept(sys.vol.root, v'.root, h.slot); }
      StepKeeps(sys, chains, v', chains', h.slot, id, h');
    case OutOfSpace(v') =>
      StepKeeps(sys, chains, v', chains', h.slot, id, h);
      assert sys.handles[id := h] == sys.handles;
  }

  lemma {:induction false} RemoveKeeps(sys: System, chains: seq<seq<nat>>, name: seq<Byte>) returns (chains': seq<seq<nat>>)
    requires SysInv(sys, chains) && Allowed(sys, Remove(name))
    ensures match Delete(sys.vol, name)
            case Done(v, s) =>
              && FindSlot(sys.vol.root, name, 0) == Some(s)
              && Step(sys.vol, chains, v, chains', s) && SysInv(sys.(vol := v), chains')
              && (Neat(sys.vol.root) ==> Neat(v.root) && FindSlot(v.root, name, 0) == None)
            case NoSuchFile => FindSlot(sys.vol.root, name, 0) == None && chains' == chains
            case DirectoryFull => false
            case FsFault => false
  {
    var v := sys.vol;
    chains' := chains;
    EraseKeeps(v, chains, name);
    match FindSlot(v.root, name, 0)
    case None =>
    case Some(s) =>
      var v' := Delete(v, name).vol;
      chains' := chains[s := []];
      forall id | id in sys.handles
        ensures HandleOk(v', chains', sys.handles[id])
      {
        OtherHandle(v, chains, v', chains', s, sys.handles[id]);
      }
      if Neat(v.root) {
        NamesKept(v.root, s, Erased(v.root[s]));
        GoneAfterErase(v, chains, v', chains', name, s);
      }
  }

  lemma {:induction false} MatchUnique(root: seq<Item>, name: seq<Byte>, s: nat, t: nat)
    requires UniqueNames(root) && s < |root| && t < |root| && IsLive(root[s]) && IsLive(root[t])
    requires Matches(root[s], name) && Matches(root[t], name)
    ensures s == t
  {
    SameTrans(NameOf(root[s]), name, NameOf(root[t]));
  }

  /** With unique names a deleted file is not found again. */
  lemma {:induction false} GoneAfterErase(v: Volume, chains: seq<seq<nat>>, v': Volume, chains': seq<seq<nat>>, name: seq<Byte>, s: nat)
    requires OthersKept(v, chains, v', chains', s) && UniqueNames(v.root)
    requires FindSlot(v.root, name, 0) == Some(s) && !IsLive(v'.root[s])
    ensures FindSlot(v'.root, name, 0) == None
  {
    forall t | 0 <= t < |v.root| && IsLive(v'.root[t])
      ensures !Matches(v'.root[t], name)
    {
      assert OtherKept(v, chains, v', chains', t);
      if Matches(v.root[t], name) { MatchUnique(v.root, name, s, t); }
    }
  }

  lemma {:induction false} SeekKeeps(sys: System, chains: seq<seq<nat>>, id: nat, offset: Word32, mode: SeekMode)
    requires SysInv(sys, chains) && id in sys.handles
    ensures SysInv(sys.(handles := sys.handles[id := Seek(sys.handles[id], offset, mode)]), chains)
  {
    var h := sys.handles[id];
    assert SlotOk(sys.vol.root[h.slot], chains[h.slot], sys.vol.cs);
    assert Span(0, sys.vol.cs) == 0;
    assert HandleOk(sys.vol, chains, Seek(h, offset, mode));
  }

  /** The clusters an operation loses: all free ones, when a write to a file without clusters
      runs out of space, and none otherwise. */
  ghost function Leak(sys: System, chains: seq<seq<nat>>, op: Op): set<nat>
    requires SysInv(sys, chains) && Allowed(sys, op)
  {
    if op.WriteTo? && Write(sys.vol, sys.handles[op.id], op.buf).OutOfSpace? && chains[sys.handles[op.id].slot] == []
    then FreeSet(sys.vol.fat, sys.vol.lim) else {}
  }

  /** The one slot an operation works on, if any: the slot opened, written through or deleted. */
  ghost predicate WorksOn(sys: System, op: Op, t: nat)
    requires CanApply(sys)
  {
    match op
    case OpenFor(_, name) => OpenWrite(sys.vol, name).Done? && OpenWrite(sys.vol, name).slot == t
    case WriteTo(id, _) => id in sys.handles && sys.handles[id].slot == t
    case SeekTo(_, _, _) => false
    case Remove(name) => Delete(sys.vol, name).Done? && Delete(sys.vol, name).slot == t
    case Close(_) => false
  }

  /** Same geometry, and slot `t` has the same entry, chain and content. */
  ghost predicate SlotKept(v: Volume, chains: seq<seq<nat>>, v': Volume, chains': seq<seq<nat>>, t: nat) {
    && Inv(v, chains) && Inv(v', chains') && |v'.root| == |v.root| && v'.cs == v.cs
    && (t < |v.root| ==> OtherKept(v, chains, v', chains', t))
  }

  /** What every operation, successful or not, keeps -- every file but the one it works on among
      it -- and exactly which clusters it loses. */
  ghost predicate OpKept(sys: System, chains: seq<seq<nat>>, op: Op, chains': seq<seq<nat>>) {
    && SysInv(sys, chains) && Allowed(sys, op) && CanApply(sys)
    && var sys' := Apply(sys, op);
       && SysInv(sys', chains') && sys'.vol.lim == sys.vol.lim
       && Lost(sys'.vol, chains') == Lost(sys.vol, chains) + Leak(sys, chains, op)
       && (Neat(sys.vol.root) && NeatOp(op) ==> Neat(sys'.vol.root))
       && (forall t: nat :: !WorksOn(sys, op, t) ==> SlotKept(sys.vol, chains, sys'.vol, chains', t))
  }

  /** Keeping every slot but `s`, in the form of `OpKept`. */
  lemma {:induction false} StepSpares(v: Volume, chains: seq<seq<nat>>, v': Volume, chains': seq<seq<nat>>, s: nat, t: nat)
    requires OthersKept(v, chains, v', chains', s) && t != s
    ensures SlotKept(v, chains, v', chains', t)
  {
  }

  lemma {:induction false} SameSpares(v: Volume, chains: seq<seq<nat>>, t: nat)
    requires Inv(v, chains)
    ensures SlotKept(v, chains, v, chains, t)
  {
  }

  lemma {:induction false} SpareTrans(u: Volume, a: seq<seq<nat>>, v: Volume, b: seq<seq<nat>>, w: Volume, c: seq<seq<nat>>, t: nat)
    requires SlotKept(u, a, v, b, t) && SlotKept(v, b, w, c, t)
    ensures SlotKept(u, a, w, c, t)
  {
  }

  lemma {:induction false} OpenOp(sys: System, chains: seq<seq<nat>>, id: nat, name: seq<Byte>) returns (chains': seq<seq<nat>>)
    requires SysInv(sys, chains) && Allowed(sys, OpenFor(id, name))
    ensures OpKept(sys, chains, OpenFor(id, name), chains')
  {
    chains' := OpenKeeps(sys, chains, id, name);
    var v' := Apply(sys, OpenFor(id, name)).vol;
    forall t: nat | !WorksOn(sys, OpenFor(id, name), t)
      ensures SlotKept(sys.vol, chains, v', chains', t)
    {
      match OpenWrite(sys.vol, name)
      case Done(v, s) => StepSpares(sys.vol, chains, v, chains', s, t);
      case DirectoryFull => SameSpares(sys.vol, chains, t);
    }
  }

  lemma {:induction false} WriteOp(sys: System, chains: seq<seq<nat>>, id: nat, buf: seq<Byte>) returns (chains': seq<seq<nat>>)
    requires SysInv(sys, chains) && Allowed(sys, WriteTo(id, buf))
    ensures OpKept(sys, chains, WriteTo(id, buf), chains')
  {
    chains' := WriteKeepsAll(sys, chains, id, buf);
    var v', s := Apply(sys, WriteTo(id, buf)).vol, sys.handles[id].slot;
    forall t: nat | t != s
      ensures SlotKept(sys.vol, chains, v', chains', t)
    {
      StepSpares(sys.vol, chains, v', chains', s, t);
    }
  }

  lemma {:induction false} RemoveOp(sys: System, chains: seq<seq<nat>>, name: seq<Byte>) returns (chains': seq<seq<nat>>)
    requires SysInv(sys, chains) && Allowed(sys, Remove(name))
    ensures OpKept(sys, chains, Remove(name), chains')
  {
    chains' := RemoveKeeps(sys, chains, name);
    var v' := Apply(sys, Remove(name)).vol;
    forall t: nat | !WorksOn(sys, Remove(name), t)
      ensures SlotKept(sys.vol, chains, v', chains', t)
    {
      match Delete(sys.vol, name)
      case Done(v, s) => StepSpares(sys.vol, chains, v, chains', s, t);
      case NoSuchFile => SameSpares(sys.vol, chains, t);
    }
  }

  lemma {:induction false} ApplyKeeps(sys: System, chains: seq<seq<nat>>, op: Op) returns (chains': seq<seq<nat>>)
    requires SysInv(sys, chains) && Allowed(sys, op)
    ensures OpKept(sys, chains, op, chains')
  {
    chains' := chains;
    match op
    case OpenFor(id, name) =>
      chains' := OpenOp(sys, chains, id, name);
    case WriteTo(id, buf) =>
      chains' := WriteOp(sys, chains, id, buf);
    case SeekTo(id, offset, mode) =>
      SeekKeeps(sys, chains, id, offset, mode);
    case Remove(name) =>
      chains' := RemoveOp(sys, chains, name);
    case Close(id) =>
  }

  // ---------------------------------------------------------------- whole runs

  /** `states` is a run of `ops`, each allowed where it is applied. */
  ghost predicate IsRun(states: seq<System>, ops: seq<Op>) {
    && |states| == |ops| + 1
    && forall i :: 0 <= i < |ops| ==> Allowed(states[i], ops[i]) && (CanApply(states[i]) ==> states[i + 1] == Apply(states[i], ops[i]))
  }

  /** What a run from `a` to `b` keeps, as far as its operations are neat and lose nothing. */
  ghost predicate RunKept(a: System, chainsA: seq<seq<nat>>, b: System, chainsB: seq<seq<nat>>, neat: bool, noLeak: bool) {
    && SysInv(a, chainsA) && SysInv(b, chainsB) && b.vol.lim == a.vol.lim
    && Lost(a.vol, chainsA) <= Lost(b.vol, chainsB)
    && (neat && Neat(a.vol.root) ==> Neat(b.vol.root))
    && (noLeak ==> Lost(b.vol, chainsB) == Lost(a.vol, chainsA))
  }

  ghost predicate AllNeat(ops: seq<Op>) {
    forall i :: 0 <= i < |ops| ==> NeatOp(ops[i])
  }

  ghost predicate NeverLeaks(states: seq<System>, ops: seq<Op>)
    requires |states| == |ops| + 1
  {
    forall i :: 0 <= i < |ops| ==> NoLeak(states[i], ops[i])
  }

  /** No operation of the run works on slot `t`. */
  ghost predicate Spares(states: seq<System>, ops: seq<Op>, t: nat)
    requires |states| == |ops| + 1
  {
    forall i :: 0 <= i < |ops| ==> CanApply(states[i]) ==> !WorksOn(states[i], ops[i], t)
  }

  /** Every slot no operation works on has the same entry, chain and content at the end. */
  ghost predicate SparedKept(states: seq<System>, ops: seq<Op>, chains: seq<seq<nat>>, last: seq<seq<nat>>)
    requires |states| == |ops| + 1
  {
    forall t: nat :: Spares(states, ops, t) ==> SlotKept(states[0].vol, chains, states[|ops|].vol, last, t)
  }

  /** Safety over every run: the invariant holds in every state reached, so chains stay acyclic,
      in range and disjoint; a neat directory stays neat; if no write to an empty file ran out
      of space, no cluster is lost; and a slot no operation works on keeps entry, chain and bytes. */
  lemma {:induction false} RunKeeps(states: seq<System>, ops: seq<Op>, chains: seq<seq<nat>>) returns (last: seq<seq<nat>>)
    requires IsRun(states, ops) && SysInv(states[0], chains)
    ensures RunKept(states[0], chains, states[|ops|], last, AllNeat(ops), NeverLeaks(states, ops))
    ensures SparedKept(states, ops, chains, last)
    decreases |ops|
  {
    if ops == [] {
      last := chains;
    } else {
      var next := ApplyKeeps(states[0], chains, ops[0]);
      RunTail(states, ops);
      last := RunKeeps(states[1..], ops[1..], next);
      FirstStep(states, ops, chains, next);
      assert states[1..][|ops[1..]|] == states[|ops|];
      forall t: nat | Spares(states, ops, t)
        ensures SlotKept(states[0].vol, chains, states[|ops|].vol, last, t)
      {
        SparesTail(states, ops, t);
        SpareTrans(states[0].vol, chains, states[1].vol, next, states[|ops|].vol, last, t);
      }
    }
  }

  lemma {:induction false} SparesTail(states: seq<System>, ops: seq<Op>, t: nat)
    requires |states| == |ops| + 1 && ops != [] && Spares(states, ops, t)
    ensures Spares(states[1..], ops[1..], t)
    ensures CanApply(states[0]) ==> !WorksOn(states[0], ops[0], t)
  {
    forall i | 0 <= i < |ops[1..]|
      ensures CanApply(states[1..][i]) ==> !WorksOn(states[1..][i], ops[1..][i], t)
    {
      assert states[1..][i] == states[i + 1] && ops[1..][i] == ops[i + 1];
    }
  }

  lemma {:induction false} FirstStep(states: seq<System>, ops: seq<Op>, chains: seq<seq<nat>>, next: seq<seq<nat>>)
    requires IsRun(states, ops) && ops != [] && OpKept(states[0], chains, ops[0], next)
    ensures RunKept(states[0], chains, states[1], next, AllNeat(ops), NeverLeaks(states, ops))
  {
    if NoLeak(states[0], ops[0]) {
      NoLeakLeaks(states[0], chains, ops[0]);
    }
  }

  /** Conservation over every run that loses nothing: free clusters plus clusters in use. */
  lemma {:induction false} RunConserves(states: seq<System>, ops: seq<Op>, chains: seq<seq<nat>>) returns (last: seq<seq<nat>>)
    requires IsRun(states, ops) && SysInv(states[0], chains) && NeverLeaks(states, ops)
    ensures RunKept(states[0], chains, states[|ops|], last, AllNeat(ops), true)
    ensures var a, b := states[0].vol, states[|ops|].vol;
            |FreeSet(b.fat, b.lim)| + TotalLength(last) == |FreeSet(a.fat, a.lim)| + TotalLength(chains)
  {
    last := RunKeeps(states, ops, chains);
    Account(states[0].vol, chains);
    Account(states[|ops|].vol, last);
  }

  /** No write to a file without clusters runs out of space here. */
  ghost predicate NoLeak(sys: System, op: Op) {
    op.WriteTo? && op.id in sys.handles && CanApply(sys) && FirstCluster(sys.handles[op.id].item) == 0
    ==> !Write(sys.vol, sys.handles[op.id], op.buf).OutOfSpace?
  }

  lemma {:induction false} NoLeakLeaks(sys: System, chains: seq<seq<nat>>, op: Op)
    requires SysInv(sys, chains) && Allowed(sys, op) && NoLeak(sys, op)
    ensures Leak(sys, chains, op) == {}
  {
    if op.WriteTo? {
      var h := sys.handles[op.id];
      assert SlotOk(sys.vol.root[h.slot], chains[h.slot], sys.vol.cs);
    }
  }

  lemma {:induction false} RunTail(states: seq<System>, ops: seq<Op>)
    requires IsRun(states, ops) && ops != []
    ensures IsRun(states[1..], ops[1..])
    ensures AllNeat(ops) ==> AllNeat(ops[1..])
    ensures NeverLeaks(states, ops) ==> NeverLeaks(states[1..], ops[1..])
  {
    forall i | 0 <= i < |ops[1..]|
      ensures Allowed(states[1..][i], ops[1..][i])
      ensures CanApply(states[1..][i]) ==> states[1..][i + 1] == Apply(states[1..][i], ops[1..][i])
      ensures AllNeat(ops) ==> NeatOp(ops[1..][i])
      ensures NeverLeaks(states, ops) ==> NoLeak(states[1..][i], ops[1..][i])
    {
      assert states[1..][i] == states[i + 1] && ops[1..][i] == ops[i + 1] && states[1..][i + 1] == states[i + 2];
    }
  }

  lemma {:induction false} Account(v: Volume, chains: seq<seq<nat>>)
    requires Inv(v, chains)
    ensures |FreeSet(v.fat, v.lim)| + TotalLength(chains) + |Lost(v, chains)| == v.lim - 2
  {
    ClusterAccounting(v.fat, v.lim, chains);
  }
}
