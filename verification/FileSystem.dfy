/** The mounted volume as one value, the driver's operations on it, and what every one of
    them keeps: chains, directory shape, the contents of every other file. */
module FileSystem {
  import opened Bytes
  import opened FatChains
  import opened FileData
  import opened FileWrite
  import opened Names
  import opened Directory

  /** FAT (first copy), cluster data, cached root directory and its slot bound; `lim` and
      `cs` are the cluster limit and the cluster size. */
  datatype Volume = Volume(lim: nat, cs: nat, fat: seq<nat>, data: seq<seq<Byte>>, root: seq<Item>, total: nat)

  ghost predicate ValidVolume(v: Volume) {
    && ValidTable(v.fat, v.lim)
    && ValidData(v.data, v.lim, v.cs)
    && Span(v.lim, v.cs) < TWO32
    && v.total <= |v.root|
  }

  // ---------------------------------------------------------------- invariant

  /** A slot and its chain: a live entry starts its chain and is no longer than it; any other
      slot owns nothing. */
  ghost predicate SlotOk(i: Item, ch: seq<nat>, cs: nat) {
    if IsLive(i) then
      && FirstCluster(i) == (if ch == [] then 0 else ch[0])
      && (i.filesize as int) <= Span(|ch|, cs)
    else ch == []
  }

  /** `chains[s]` is the cluster chain of slot `s`. */
  ghost predicate Inv(v: Volume, chains: seq<seq<nat>>) {
    && ValidVolume(v)
    && DirShape(v.root, v.total)
    && |chains| == |v.root|
    && WellFormed(v.fat, v.lim, chains)
    && forall s :: 0 <= s < |chains| ==> SlotOk(v.root[s], chains[s], v.cs)
  }

  /** The chains are determined by the volume. */
  lemma {:induction false} ChainsUnique(v: Volume, a: seq<seq<nat>>, b: seq<seq<nat>>)
    requires Inv(v, a) && Inv(v, b)
    ensures a == b
  {
    forall s | 0 <= s < |a|
      ensures a[s] == b[s]
    {
      assert SlotOk(v.root[s], a[s], v.cs) && SlotOk(v.root[s], b[s], v.cs);
      if a[s] != [] && b[s] != [] {
        ChainUnique(v.fat, v.lim, a[s], b[s]);
      }
    }
  }

  ghost function Lost(v: Volume, chains: seq<seq<nat>>): set<nat>
    requires ValidVolume(v)
  {
    Orphans(v.fat, v.lim, chains)
  }

  /** The bytes of the file in slot `s`. */
  ghost function Content(v: Volume, chains: seq<seq<nat>>, s: nat): seq<Byte>
    requires Inv(v, chains) && s < |chains| && IsLive(v.root[s])
  {
    ContentOf(v.data, v.lim, v.cs, chains[s], v.root[s].filesize)
  }

  ghost function ContentOf(data: seq<seq<Byte>>, lim: nat, cs: nat, ch: seq<nat>, size: nat): (r: seq<Byte>)
    requires ValidData(data, lim, cs) && InRange(ch, lim) && size <= Span(|ch|, cs)
    ensures |r| == size
  {
    FlattenLength(data, lim, cs, ch);
    Flatten(data, ch)[..size]
  }

  /** Every slot but `s` has the same entry, chain and content before and after. */
  ghost predicate OthersKept(v: Volume, chains: seq<seq<nat>>, v': Volume, chains': seq<seq<nat>>, s: nat) {
    && Inv(v, chains) && Inv(v', chains')
    && |v'.root| == |v.root| && v'.lim == v.lim && v'.cs == v.cs
    && forall t :: 0 <= t < |v.root| && t != s ==> OtherKept(v, chains, v', chains', t)
  }

  ghost predicate OtherKept(v: Volume, chains: seq<seq<nat>>, v': Volume, chains': seq<seq<nat>>, t: nat)
    requires Inv(v, chains) && Inv(v', chains') && t < |v.root| == |v'.root|
  {
    && v'.root[t] == v.root[t] && chains'[t] == chains[t]
    && (IsLive(v.root[t]) ==> Content(v', chains', t) == Content(v, chains, t))
  }

  // ---------------------------------------------------------------- truncate, create, delete

  datatype FsResult = Done(vol: Volume, slot: nat) | NoSuchFile | DirectoryFull | FsFault

  /** Free the chain an entry starts, if it has one. */
  function FreeFile(fat: seq<nat>, i: Item): FreeResult {
    if FirstCluster(i) >= 2 then
      if FirstCluster(i) >= EOC_MIN then Freed(fat) else FreeChain(fat, FirstCluster(i))
    else Freed(fat)
  }

  function Emptied(i: Item): Item {
    i.(filesize := 0, low := 0, high := 0)
  }

  function Erased(i: Item): Item {
    Emptied(i).(filename := i.filename[0 := DELETED])
  }

  function NewItem(name: seq<Byte>): Item {
    RawItem(BaseField(name), ExtField(name), ARCHIVED, seq(8, _ => 0), 0, seq(4, _ => 0), 0, 0)
  }

  /** What truncating, deleting and creating write to a slot, byte by byte. */
  lemma {:induction false} WrittenSlots(i: Item, name: seq<Byte>)
    ensures var s := EncodeItem(i);
            && EncodeItem(Emptied(i)) == s[..20] + [0, 0] + s[22..26] + [0, 0, 0, 0, 0, 0]
            && EncodeItem(Erased(i)) == [0xE5] + s[1..20] + [0, 0] + s[22..26] + [0, 0, 0, 0, 0, 0]
            && EncodeItem(NewItem(name)) == BaseField(name) + ExtField(name) + [0x20] + seq(20, _ => 0)
  {
  }

  ghost function Truncate(v: Volume, s: nat): FsResult
    requires s < |v.root|
  {
    match FreeFile(v.fat, v.root[s])
    case Freed(f) => Done(v.(fat := f, root := v.root[s := Emptied(v.root[s])]), s)
    case FreeFault => FsFault
  }

  ghost function Create(v: Volume, name: seq<Byte>): FsResult {
    match FreeSlot(v.root, 0)
    case None => DirectoryFull
    case Some(s) => Done(v.(root := v.root[s := NewItem(name)], total := Max(v.total, s + 1)), s)
  }

  /** Open for writing: truncate the file if there is one, else create it. */
  ghost function OpenWrite(v: Volume, name: seq<Byte>): FsResult {
    match FindSlot(v.root, name, 0)
    case Some(s) => Truncate(v, s)
    case None => Create(v, name)
  }

  ghost function Delete(v: Volume, name: seq<Byte>): FsResult {
    match FindSlot(v.root, name, 0)
    case None => NoSuchFile
    case Some(s) =>
      match FreeFile(v.fat, v.root[s])
      case Freed(f) => Done(v.(fat := f, root := v.root[s := Erased(v.root[s])]), s)
      case FreeFault => FsFault
  }

  /** A change of the table and one slot that leaves every other chain's entries alone leaves every
      other file alone. */
  lemma {:induction false} OthersUntouched(v: Volume, chains: seq<seq<nat>>, v': Volume, chains': seq<seq<nat>>, s: nat, touched: seq<nat>)
    requires Inv(v, chains) && Inv(v', chains') && s < |v.root| == |v'.root|
    requires v'.lim == v.lim && v'.cs == v.cs
    requires v'.root == v.root[s := v'.root[s]] && chains' == chains[s := chains'[s]]
    requires OnlyIn(v.data, v'.data, v.lim, touched)
    requires forall t, c :: 0 <= t < |chains| && t != s && c in chains[t] ==> c !in touched
    ensures OthersKept(v, chains, v', chains', s)
  {
    forall t | 0 <= t < |v.root| && t != s
      ensures OtherKept(v, chains, v', chains', t)
    {
      var ch := chains[t];
      assert IsChain(v.fat, v.lim, ch);
      forall i | 0 <= i < |ch|
        ensures v'.data[ch[i]] == v.data[ch[i]]
      {
        assert ch[i] in chains[t];
      }
      FlattenFrame(v.data, v'.data, ch);
    }
  }

  /** Freeing a live slot's chain empties it and keeps the rest well-formed. */
  lemma {:induction false} FreeSlotChain(v: Volume, chains: seq<seq<nat>>, s: nat)
    requires Inv(v, chains) && s < |chains| && IsLive(v.root[s])
    ensures var r := FreeFile(v.fat, v.root[s]);
            && r.Freed? && |r.fat| == |v.fat|
            && WellFormed(r.fat, v.lim, chains[s := []])
            && Orphans(r.fat, v.lim, chains[s := []]) == Orphans(v.fat, v.lim, chains)
            && FreeSet(r.fat, v.lim) == FreeSet(v.fat, v.lim) + Members(chains[s])
  {
    var ch := chains[s];
    assert SlotOk(v.root[s], ch, v.cs);
    if ch != [] {
      assert 2 <= ch[0] < v.lim;
      FreeWholeChain(v.fat, v.lim, ch);
    }
    var r := FreeFile(v.fat, v.root[s]);
    DropOne(v.fat, r.fat, v.lim, chains, s);
    DropOrphans(v.fat, r.fat, v.lim, chains, s);
  }

  /** Replacing the entry of an emptied slot keeps the invariant. */
  lemma {:induction false} SlotReplaced(v: Volume, chains: seq<seq<nat>>, s: nat, f: seq<nat>, i: Item)
    requires Inv(v, chains) && s < |chains|
    requires |f| == |v.fat| && WellFormed(f, v.lim, chains[s := []])
    requires SlotOk(i, [], v.cs) && !IsEnd(i)
    requires s <= v.total
    ensures var v' := v.(fat := f, root := v.root[s := i], total := Max(v.total, s + 1));
            Inv(v', chains[s := []]) && OthersKept(v, chains, v', chains[s := []], s)
  {
    var v' := v.(fat := f, root := v.root[s := i], total := Max(v.total, s + 1));
    var chains' := chains[s := []];
    forall t | 0 <= t < |chains'|
      ensures SlotOk(v'.root[t], chains'[t], v'.cs)
    {
      assert SlotOk(v.root[t], chains[t], v.cs);
    }
    OthersUntouched(v, chains, v', chains', s, []);
  }

  /** A step that works on slot `s`: every other file is kept and no cluster is lost. */
  ghost predicate Step(v: Volume, chains: seq<seq<nat>>, v': Volume, chains': seq<seq<nat>>, s: nat) {
    && OthersKept(v, chains, v', chains', s)
    && Lost(v', chains') == Lost(v, chains)
  }

  lemma {:induction false} TruncateKeeps(v: Volume, chains: seq<seq<nat>>, s: nat)
    requires Inv(v, chains) && s < |chains| && IsLive(v.root[s])
    ensures var r := Truncate(v, s);
            && r.Done? && r.slot == s && Step(v, chains, r.vol, chains[s := []], s)
            && r.vol.root[s] == Emptied(v.root[s]) && r.vol.data == v.data
  {
    FreeSlotChain(v, chains, s);
    SlotReplaced(v, chains, s, FreeFile(v.fat, v.root[s]).fat, Emptied(v.root[s]));
  }

  lemma {:induction false} EraseKeeps(v: Volume, chains: seq<seq<nat>>, name: seq<Byte>)
    requires Inv(v, chains)
    ensures match FindSlot(v.root, name, 0)
            case None => Delete(v, name) == NoSuchFile
            case Some(s) =>
              var r := Delete(v, name);
              && r.Done? && r.slot == s && Step(v, chains, r.vol, chains[s := []], s)
              && r.vol.root[s] == Erased(v.root[s]) && r.vol.data == v.data
  {
    match FindSlot(v.root, name, 0)
    case None =>
    case Some(s) =>
      FreeSlotChain(v, chains, s);
      SlotReplaced(v, chains, s, FreeFile(v.fat, v.root[s]).fat, Erased(v.root[s]));
  }

  /** The first byte of a converted name: never zero, and the deletion mark only if the name
      starts with it. */
  lemma {:induction false} FirstByte(name: seq<Byte>)
    requires CString(name)
    ensures BaseField(name)[0] != 0
    ensures BaseField(name)[0] == DELETED <==> name != [] && name[0] == DELETED
  {
  }

  lemma {:induction false} CreateKeeps(v: Volume, chains: seq<seq<nat>>, name: seq<Byte>)
    requires Inv(v, chains) && CString(name)
    ensures match Create(v, name)
            case Done(v', s) =>
              && s < |v.root| && !IsLive(v.root[s]) && v' == v.(root := v.root[s := NewItem(name)], total := v'.total)
              && Step(v, chains, v', chains, s)
            case DirectoryFull => forall s :: 0 <= s < |v.root| ==> !IsEnd(v.root[s]) && !IsDeleted(v.root[s])
            case NoSuchFile => false
            case FsFault => false
  {
    match FreeSlot(v.root, 0)
    case None =>
    case Some(s) =>
      FirstByte(name);
      FreeSlotLow(v.root, v.total);
      assert SlotOk(v.root[s], chains[s], v.cs);
      assert chains[s := []] == chains;
      SlotReplaced(v, chains, s, v.fat, NewItem(name));
  }

  // ---------------------------------------------------------------- write

  /** A file descriptor: a clone of the directory entry, a position, and the slot the clone is
      flushed to (-1 for a file opened for reading). */
  datatype Handle = Handle(item: Item, pos: Word32, slot: int)

  datatype WriteOut = WroteAll(vol: Volume, handle: Handle) | OutOfSpace(vol: Volume) | WriteOutside

  /** The clone after a write: a first cluster is filled in once, the size grows to the end
      of the write, in 32-bit arithmetic. */
  function Grown(i: Item, first: nat, pos: Word32, n: nat): Item
    requires first < TWO32
  {
    var linked := if i.low == 0 && first != 0 then i.(low := first % TWO16, high := first / TWO16) else i;
    linked.(filesize := Max(i.filesize, Add32(pos, n)))
  }

  function Finish(v: Volume, h: Handle, n: nat, r: WriteResult): WriteOut
    requires h.slot < |v.root|
  {
    match r
    case Written(f, d, first) =>
      if first >= TWO32 then WriteOutside
      else
        var i := Grown(h.item, first, h.pos, n);
        WroteAll(v.(fat := f, data := d, root := if h.slot >= 0 then v.root[h.slot := i] else v.root),
                 Handle(i, Add32(h.pos, n), h.slot))
    case NoRoom(f, d) => OutOfSpace(v.(fat := f, data := d))
    case WriteFault => WriteOutside
  }

  lemma {:induction false} FinishWritten(v: Volume, h: Handle, n: nat, w: Volume, first: nat, g: Handle)
    requires h.slot < |v.root| && first < TWO32
    requires g == Handle(Grown(h.item, first, h.pos, n), Add32(h.pos, n), h.slot)
    requires w == v.(fat := w.fat, data := w.data, root := if h.slot >= 0 then v.root[h.slot := g.item] else v.root)
    ensures Finish(v, h, n, Written(w.fat, w.data, first)) == WroteAll(w, g)
  {
  }

  /** Write `buf` at byte `pos` of the file starting at cluster `first`. */
  ghost function WriteFrom(v: Volume, first: nat, pos: nat, buf: seq<Byte>): WriteResult
    requires ValidVolume(v)
  {
    WriteAt(v.fat, v.data, v.lim, v.cs, first, Index(pos, v.cs), Offset(pos, v.cs), buf)
  }

  ghost function Write(v: Volume, h: Handle, buf: seq<Byte>): WriteOut
    requires ValidVolume(v) && h.slot < |v.root|
  {
    Finish(v, h, |buf|, WriteFrom(v, FirstCluster(h.item), h.pos, buf))
  }

  /** The clone is up to date, and a file without clusters is only written from its start. */
  ghost predicate HandleOk(v: Volume, chains: seq<seq<nat>>, h: Handle) {
    && |chains| == |v.root| && 0 <= h.slot < |v.root|
    && IsLive(v.root[h.slot]) && h.item == v.root[h.slot]
    && (chains[h.slot] == [] ==> h.pos == 0)
  }

  /** `after` holds `buf` at `pos` and every other byte of `before`. */
  ghost predicate Overwritten(before: seq<Byte>, after: seq<Byte>, pos: nat, buf: seq<Byte>) {
    && |after| == Max(|before|, pos + |buf|)
    && after[pos..pos + |buf|] == buf
    && forall i :: 0 <= i < |before| && !(pos <= i < pos + |buf|) ==> after[i] == before[i]
  }

  /** `after` has the length of `before`, with the part of `buf` that falls on it. */
  ghost predicate PartlyOverwritten(before: seq<Byte>, after: seq<Byte>, pos: nat, buf: seq<Byte>) {
    && |after| == |before|
    && forall i :: 0 <= i < |before| ==> after[i] == if pos <= i < pos + |buf| then buf[i - pos] else before[i]
  }

  /** A chain cannot be longer than the volume, so no position on it overflows. */
  lemma {:induction false} ChainFits(fat: seq<nat>, lim: nat, cs: nat, ch: seq<nat>)
    requires ValidTable(fat, lim) && IsChain(fat, lim, ch)
    ensures |ch| <= lim && Span(|ch|, cs) <= Span(lim, cs)
  {
    DistinctCount(ch);
    ClusterSetCount(lim);
    assert forall c :: c in Members(ch) ==> IsCluster(c, lim);
    SubsetCount(Members(ch), ClusterSet(lim));
    SpanMono(|ch|, lim, cs);
  }

  lemma {:induction false} SubsetCount(a: set<nat>, b: set<nat>)
    requires a <= b
    ensures |a| <= |b|
  {
    assert b == a + (b - a);
  }

  /** The outcome of the cluster-level write behind `Write`. */
  lemma {:induction false} WriteOutcomeOf(v: Volume, chains: seq<seq<nat>>, h: Handle, buf: seq<Byte>)
    returns (ext: seq<nat>)
    requires Inv(v, chains) && HandleOk(v, chains, h)
    ensures var k, o := Index(h.pos, v.cs), Offset(h.pos, v.cs);
            && h.pos == Span(k, v.cs) + o && o < v.cs
            && WriteOutcome(v.fat, v.data, v.lim, v.cs, chains[h.slot], k, o, buf,
                            WriteAt(v.fat, v.data, v.lim, v.cs, FirstCluster(h.item), k, o, buf), ext)
  {
    PositionSplit(h.pos, v.cs);
    assert SlotOk(v.root[h.slot], chains[h.slot], v.cs);
    if chains[h.slot] == [] {
      ext := WriteFirst(v.fat, v.data, v.lim, v.cs, 0, buf);
    } else {
      ext := WriteOnChain(v.fat, v.data, v.lim, v.cs, chains[h.slot], Index(h.pos, v.cs), Offset(h.pos, v.cs), buf);
    }
  }

  /** Lengthening and writing the chain of slot `s` and updating its entry. */
  lemma {:induction false} ChainWritten(v: Volume, chains: seq<seq<nat>>, s: nat, f: seq<nat>, d: seq<seq<Byte>>, ext: seq<nat>, i: Item)
    requires Inv(v, chains) && s < |chains| && IsLive(v.root[s])
    requires Extends(v.fat, f, v.lim, chains[s], ext)
    requires ValidData(d, v.lim, v.cs) && OnlyIn(v.data, d, v.lim, chains[s] + ext)
    requires IsLive(i) && SlotOk(i, chains[s] + ext, v.cs)
    ensures Step(v, chains, v.(fat := f, data := d, root := v.root[s := i]), chains[s := chains[s] + ext], s)
  {
    var chains' := chains[s := chains[s] + ext];
    var v' := v.(fat := f, data := d, root := v.root[s := i]);
    ExtendOne(v.fat, f, v.lim, chains, s, ext);
    ExtendOrphans(v.fat, f, v.lim, chains, s, ext);
    forall t | 0 <= t < |chains'|
      ensures SlotOk(v'.root[t], chains'[t], v'.cs)
    {
      assert SlotOk(v.root[t], chains[t], v.cs);
    }
    assert forall t, c :: 0 <= t < |chains| && t != s && c in chains'[t] ==> c !in chains'[s];
    assert forall t :: 0 <= t < |chains| && t != s ==> chains'[t] == chains[t];
    OthersUntouched(v, chains, v', chains', s, chains[s] + ext);
  }

  /** The entry a successful write leaves describes the longer chain. */
  lemma {:induction false} GrownOk(i: Item, ch: seq<nat>, ext: seq<nat>, lim: nat, cs: nat, pos: Word32, n: nat)
    requires IsLive(i) && SlotOk(i, ch, cs) && ch + ext != [] && InRange(ch + ext, lim) && lim <= EOC_MIN
    requires pos + n <= Span(|ch + ext|, cs) && pos + n < TWO32
    ensures var i' := Grown(i, (ch + ext)[0], pos, n);
            IsLive(i') && SlotOk(i', ch + ext, cs) && i'.filesize == Max(i.filesize, pos + n)
  {
    var first := (ch + ext)[0];
    assert 2 <= first < TWO16;
    SpanMono(|ch|, |ch + ext|, cs);
    if ch != [] {
      assert first == ch[0] && i.low == first && i.high == 0;
    }
  }

  lemma {:induction false} FlattenExtended(data: seq<seq<Byte>>, lim: nat, cs: nat, ch: seq<nat>, ext: seq<nat>)
    requires ValidData(data, lim, cs) && InRange(ch + ext, lim)
    ensures InRange(ch, lim) && |Flatten(data, ch)| == Span(|ch|, cs) <= |Flatten(data, ch + ext)| == Span(|ch + ext|, cs)
    ensures Flatten(data, ch) <= Flatten(data, ch + ext)
  {
    assert forall i :: 0 <= i < |ch| ==> (ch + ext)[i] == ch[i];
    assert forall i :: 0 <= i < |ext| ==> (ch + ext)[|ch| + i] == ext[i];
    FlattenAppend(data, ch, ext);
    FlattenLength(data, lim, cs, ch);
    FlattenLength(data, lim, cs, ch + ext);
  }

  lemma {:induction false} AbsorbedAll(f: seq<Byte>, whole: seq<Byte>, after: seq<Byte>, size: nat, pos: nat, buf: seq<Byte>)
    requires f <= whole && Absorbed(whole, after, pos, buf)
    requires size <= |f| && pos + |buf| <= |whole|
    ensures |after| == |whole| && Overwritten(f[..size], after[..Max(size, pos + |buf|)], pos, buf)
  {
    assert Fitting(pos, buf, |whole|) == buf;
    assert after[pos..pos + |buf|] == buf;
    assert after[..Max(size, pos + |buf|)][pos..pos + |buf|] == after[pos..pos + |buf|];
  }

  lemma {:induction false} AbsorbedPart(f: seq<Byte>, whole: seq<Byte>, after: seq<Byte>, size: nat, pos: nat, buf: seq<Byte>)
    requires f <= whole && Absorbed(whole, after, pos, buf)
    requires size <= |f| && pos + |buf| >= |whole|
    ensures |after| == |whole| && PartlyOverwritten(f[..size], after[..size], pos, buf)
  {
  }

  /** The file's bytes when its chain's bytes absorb all of `buf` ... */
  lemma {:induction false} ContentOverwritten(data: seq<seq<Byte>>, d: seq<seq<Byte>>, lim: nat, cs: nat, ch: seq<nat>, ext: seq<nat>,
                                              size: nat, pos: nat, buf: seq<Byte>)
    requires BytesWritten(data, d, lim, cs, ch + ext, pos, buf) && InRange(ch, lim)
    requires size <= Span(|ch|, cs) && pos + |buf| <= Span(|ch + ext|, cs) && Max(size, pos + |buf|) <= Span(|ch + ext|, cs)
    ensures Overwritten(ContentOf(data, lim, cs, ch, size), ContentOf(d, lim, cs, ch + ext, Max(size, pos + |buf|)), pos, buf)
  {
    FlattenExtended(data, lim, cs, ch, ext);
    AbsorbedAll(Flatten(data, ch), Flatten(data, ch + ext), Flatten(d, ch + ext), size, pos, buf);
  }

  /** ... and when they end before `buf` does. */
  lemma {:induction false} ContentCutShort(data: seq<seq<Byte>>, d: seq<seq<Byte>>, lim: nat, cs: nat, ch: seq<nat>, ext: seq<nat>,
                                           size: nat, pos: nat, buf: seq<Byte>)
    requires BytesWritten(data, d, lim, cs, ch + ext, pos, buf) && InRange(ch, lim)
    requires size <= Span(|ch|, cs) && size <= Span(|ch + ext|, cs) && pos + |buf| >= Span(|ch + ext|, cs)
    ensures PartlyOverwritten(ContentOf(data, lim, cs, ch, size), ContentOf(d, lim, cs, ch + ext, size), pos, buf)
  {
    FlattenExtended(data, lim, cs, ch, ext);
    AbsorbedPart(Flatten(data, ch), Flatten(data, ch + ext), Flatten(d, ch + ext), size, pos, buf);
  }

  /** Clusters a write of `n` bytes at `pos` needs beyond the `len` the file has. */
  function Lacking(cs: nat, len: nat, pos: nat, n: nat): nat
    requires cs > 0
  {
    Max(0, Needed(cs, Index(pos, cs), Offset(pos, cs), n) - len)
  }

  /** What a successful write does. */
  ghost predicate WriteDone(v: Volume, chains: seq<seq<nat>>, h: Handle, buf: seq<Byte>, v': Volume, h': Handle, chains': seq<seq<nat>>)
  {
    && HandleOk(v, chains, h) && HandleOk(v', chains', h')
    && Step(v, chains, v', chains', h.slot)
    && h'.slot == h.slot && h'.pos == h.pos + |buf|
    && chains[h.slot] <= chains'[h.slot]
    && v'.total == v.total
    && v'.root[h.slot].filename == v.root[h.slot].filename && v'.root[h.slot].ext == v.root[h.slot].ext
    && v'.root[h.slot].attribute == v.root[h.slot].attribute
    && Overwritten(Content(v, chains, h.slot), Content(v', chains', h.slot), h.pos, buf)
  }

  lemma {:induction false} WriteSucceeds(v: Volume, chains: seq<seq<nat>>, h: Handle, buf: seq<Byte>,
                                         k: nat, o: nat, r: WriteResult, ext: seq<nat>)
    requires Inv(v, chains) && HandleOk(v, chains, h)
    requires h.pos == Span(k, v.cs) + o && o < v.cs && r.Written?
    requires WriteOutcome(v.fat, v.data, v.lim, v.cs, chains[h.slot], k, o, buf, r, ext)
    ensures r.first < v.lim && h.pos + |buf| < TWO32
    ensures var i := Grown(h.item, r.first, h.pos, |buf|);
            WriteDone(v, chains, h, buf, v.(fat := r.fat, data := r.data, root := v.root[h.slot := i]),
                      Handle(i, h.pos + |buf|, h.slot), chains[h.slot := chains[h.slot] + ext])
  {
    var s, cs, ch, all := h.slot, v.cs, chains[h.slot], chains[h.slot] + ext;
    ExtendsIsChain(v.fat, r.fat, v.lim, ch, ext);
    ChainFits(r.fat, v.lim, cs, all);
    assert h.pos + |buf| <= Span(|all|, cs) by {
      HopsHold(cs, k, o, |buf|);
      SpanMono(Needed(cs, k, o, |buf|), |all|, cs);
    }
    assert SlotOk(v.root[s], ch, cs);
    GrownOk(h.item, ch, ext, v.lim, cs, h.pos, |buf|);
    ChainWritten(v, chains, s, r.fat, r.data, ext, Grown(h.item, r.first, h.pos, |buf|));
    ContentOverwritten(v.data, r.data, v.lim, cs, ch, ext, v.root[s].filesize, h.pos, buf);
  }

  /** What a write does that runs out of space on a file that had clusters: they and all
      free ones now hold as much of the data as fits, and the entry is as it was. */
  ghost predicate WriteCutShort(v: Volume, chains: seq<seq<nat>>, h: Handle, buf: seq<Byte>, v': Volume, chains': seq<seq<nat>>)
  {
    && HandleOk(v, chains, h) && HandleOk(v', chains', h) && chains[h.slot] <= chains'[h.slot]
    && Step(v, chains, v', chains', h.slot)
    && v'.root == v.root && v'.total == v.total
    && FreeSet(v'.fat, v'.lim) == {}
    && PartlyOverwritten(Content(v, chains, h.slot), Content(v', chains', h.slot), h.pos, buf)
  }

  lemma {:induction false} WriteFails(v: Volume, chains: seq<seq<nat>>, h: Handle, buf: seq<Byte>,
                                      k: nat, o: nat, r: WriteResult, ext: seq<nat>)
    requires Inv(v, chains) && HandleOk(v, chains, h) && chains[h.slot] != []
    requires h.pos == Span(k, v.cs) + o && o < v.cs && r.NoRoom?
    requires WriteOutcome(v.fat, v.data, v.lim, v.cs, chains[h.slot], k, o, buf, r, ext)
    ensures WriteCutShort(v, chains, h, buf, v.(fat := r.fat, data := r.data), chains[h.slot := chains[h.slot] + ext])
  {
    var s, cs, ch, all := h.slot, v.cs, chains[h.slot], chains[h.slot] + ext;
    ExtendsIsChain(v.fat, r.fat, v.lim, ch, ext);
    ExtendsFree(v.fat, r.fat, v.lim, ch, ext);
    assert SlotOk(v.root[s], ch, cs);
    SpanMono(|ch|, |all|, cs);
    assert v.root[s := v.root[s]] == v.root;
    ChainWritten(v, chains, s, r.fat, r.data, ext, v.root[s]);
    TooShort(cs, k, o, |buf|, |all|);
    ContentCutShort(v.data, r.data, v.lim, cs, ch, ext, v.root[s].filesize, h.pos, buf);
  }

  /** What a write does that runs out of space on a file without clusters: the clusters it took
      are recorded nowhere, so every free cluster is lost; every file is kept. */
  ghost predicate WriteLeaked(v: Volume, chains: seq<seq<nat>>, h: Handle, v': Volume)
  {
    && HandleOk(v, chains, h) && HandleOk(v', chains, h)
    && OthersKept(v, chains, v', chains, h.slot)
    && v'.root == v.root && v'.total == v.total
    && Lost(v', chains) == Lost(v, chains) + FreeSet(v.fat, v.lim)
    && FreeSet(v'.fat, v'.lim) == {}
  }

  lemma {:induction false} WriteLeaks(v: Volume, chains: seq<seq<nat>>, h: Handle, r: WriteResult, ext: seq<nat>)
    requires Inv(v, chains) && HandleOk(v, chains, h) && chains[h.slot] == []
    requires r.NoRoom? && Extends(v.fat, r.fat, v.lim, [], ext) && |ext| == |FreeSet(v.fat, v.lim)|
    requires ValidData(r.data, v.lim, v.cs) && OnlyIn(v.data, r.data, v.lim, ext)
    ensures WriteLeaked(v, chains, h, v.(fat := r.fat, data := r.data))
  {
    var v' := v.(fat := r.fat, data := r.data);
    assert [] + ext == ext;
    ExtendsFree(v.fat, r.fat, v.lim, [], ext);
    SameCount(Members(ext), FreeSet(v.fat, v.lim));
    forall t | 0 <= t < |chains|
      ensures IsChain(r.fat, v.lim, chains[t]) && forall c :: c in chains[t] ==> c !in ext
    {
      ExtendMisses(v.fat, r.fat, v.lim, [], ext, chains[t]);
    }
    assert OthersKept(v, chains, v', chains, h.slot) by {
      assert forall t :: 0 <= t < |chains| ==> SlotOk(v.root[t], chains[t], v.cs);
      assert v.root[h.slot := v.root[h.slot]] == v.root && chains[h.slot := chains[h.slot]] == chains;
      OthersUntouched(v, chains, v', chains, h.slot, ext);
    }
    LeakedOrphans(v.fat, r.fat, v.lim, chains, ext);
  }

  lemma {:induction false} LeakedOrphans(fat: seq<nat>, f: seq<nat>, lim: nat, chains: seq<seq<nat>>, ext: seq<nat>)
    requires WellFormed(fat, lim, chains) && Extends(fat, f, lim, [], ext)
    requires forall t, c :: 0 <= t < |chains| && c in chains[t] ==> c !in ext
    ensures Orphans(f, lim, chains) == Orphans(fat, lim, chains) + Members(ext)
  {
    assert [] + ext == ext;
    ChainEntriesTaken(f, lim, ext);
    forall c | 2 <= c < lim
      ensures c in Orphans(f, lim, chains) <==> c in Orphans(fat, lim, chains) || c in ext
    {
    }
    assert forall c :: c in ext ==> 2 <= c < lim;
  }

  lemma {:induction false} SameCount(a: set<nat>, b: set<nat>)
    requires a <= b && |a| == |b|
    ensures a == b
  {
    assert b == a + (b - a);
    assert |b - a| == 0;
  }

  /** Everything a write can do, by outcome; `lack` is the number of clusters it is short of. */
  ghost predicate WriteEffect(v: Volume, chains: seq<seq<nat>>, h: Handle, buf: seq<Byte>, lack: nat, out: WriteOut, chains': seq<seq<nat>>)
    requires Inv(v, chains) && HandleOk(v, chains, h)
  {
    match out
    case WroteAll(v', h') =>
      && lack <= |FreeSet(v.fat, v.lim)|
      && WriteDone(v, chains, h, buf, v', h', chains')
      && |chains'[h.slot]| == |chains[h.slot]| + lack
    case OutOfSpace(v') =>
      && lack > |FreeSet(v.fat, v.lim)|
      && if chains[h.slot] != [] then WriteCutShort(v, chains, h, buf, v', chains')
         else chains' == chains && WriteLeaked(v, chains, h, v')
    case WriteOutside => false
  }

  lemma {:induction false} FinishKeeps(v: Volume, chains: seq<seq<nat>>, h: Handle, buf: seq<Byte>,
                                       k: nat, o: nat, r: WriteResult, ext: seq<nat>)
    returns (chains': seq<seq<nat>>)
    requires Inv(v, chains) && HandleOk(v, chains, h)
    requires h.pos == Span(k, v.cs) + o && o < v.cs
    requires WriteOutcome(v.fat, v.data, v.lim, v.cs, chains[h.slot], k, o, buf, r, ext)
    ensures WriteEffect(v, chains, h, buf, Max(0, Needed(v.cs, k, o, |buf|) - |chains[h.slot]|), Finish(v, h, |buf|, r), chains')
  {
    chains' := chains[h.slot := chains[h.slot] + ext];
    if r.Written? {
      WriteSucceeds(v, chains, h, buf, k, o, r, ext);
    } else if chains[h.slot] != [] {
      WriteFails(v, chains, h, buf, k, o, r, ext);
    } else {
      assert [] + ext == ext;
      WriteLeaks(v, chains, h, r, ext);
      chains' := chains;
    }
  }

  /** Writing through a handle: it succeeds exactly when the clusters the file lacks are free; it never
      touches another file; it loses clusters exactly when it fails on a file without any
      while some were free. */
  lemma {:induction false} WriteKeeps(v: Volume, chains: seq<seq<nat>>, h: Handle, buf: seq<Byte>) returns (chains': seq<seq<nat>>)
    requires Inv(v, chains) && HandleOk(v, chains, h)
    ensures WriteEffect(v, chains, h, buf, Lacking(v.cs, |chains[h.slot]|, h.pos, |buf|), Write(v, h, buf), chains')
  {
    var ext := WriteOutcomeOf(v, chains, h, buf);
    var k, o := Index(h.pos, v.cs), Offset(h.pos, v.cs);
    chains' := FinishKeeps(v, chains, h, buf, k, o, WriteAt(v.fat, v.data, v.lim, v.cs, FirstCluster(h.item), k, o, buf), ext);
  }
}
