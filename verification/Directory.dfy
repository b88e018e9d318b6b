/** The root directory: 32-byte entries, the two lookups, slot allocation and enumeration. */
module Directory {
  import opened Bytes
  import opened Names

  const DELETED: Byte := 0xE5
  const LONG_NAME: Byte := 0x0F
  const ARCHIVED: Byte := 0x20
  const ITEM_SIZE: int := 32

  /** A directory entry; `times` and `modified` are the date and time fields around the
      high half of the first cluster, which the driver copies but never reads. */
  datatype RawItem = RawItem(
    filename: seq<Byte>, ext: seq<Byte>, attribute: Byte, times: seq<Byte>,
    high: Word16, modified: seq<Byte>, low: Word16, filesize: Word32)

  type Item = i: RawItem | |i.filename| == 8 && |i.ext| == 3 && |i.times| == 8 && |i.modified| == 4
    witness RawItem([0, 0, 0, 0, 0, 0, 0, 0], [0, 0, 0], 0, [0, 0, 0, 0, 0, 0, 0, 0], 0, [0, 0, 0, 0], 0, 0)

  function EncodeItem(i: Item): (s: seq<Byte>)
    ensures |s| == ITEM_SIZE
  {
    i.filename + i.ext + [i.attribute] + i.times + Encode16(i.high) + i.modified + Encode16(i.low) + Encode32(i.filesize)
  }

  function DecodeItem(s: seq<Byte>): Item
    requires |s| == ITEM_SIZE
  {
    RawItem(s[..8], s[8..11], s[11], s[12..20], Decode16(s[20..22]), s[22..26], Decode16(s[26..28]), Decode32(s[28..32]))
  }

  lemma {:induction false} ItemRoundTrip(i: Item)
    ensures DecodeItem(EncodeItem(i)) == i
  {
    var s := EncodeItem(i);
    Word16RoundTrip(i.high, s[20..22]);
    Word16RoundTrip(i.low, s[26..28]);
    Word32RoundTrip(i.filesize);
    assert s[..8] == i.filename && s[8..11] == i.ext && s[12..20] == i.times && s[22..26] == i.modified;
    assert s[20..22] == Encode16(i.high) && s[26..28] == Encode16(i.low) && s[28..32] == Encode32(i.filesize);
  }

  lemma {:induction false} SlotRoundTrip(s: seq<Byte>)
    requires |s| == ITEM_SIZE
    ensures EncodeItem(DecodeItem(s)) == s
  {
    Word16RoundTrip(0, s[20..22]);
    Word16RoundTrip(0, s[26..28]);
    Bytes32RoundTrip(s[28..32]);
    assert s == s[..8] + s[8..11] + [s[11]] + s[12..20] + s[20..22] + s[22..26] + s[26..28] + s[28..32];
  }

  predicate IsEnd(i: Item) {
    i.filename[0] == 0
  }

  predicate IsDeleted(i: Item) {
    i.filename[0] == DELETED
  }

  /** An entry the write side works on. */
  predicate IsLive(i: Item) {
    !IsEnd(i) && !IsDeleted(i) && i.attribute != LONG_NAME
  }

  function NameOf(i: Item): seq<Byte> {
    FullName(i.filename, i.ext)
  }

  function FirstCluster(i: Item): nat {
    (i.high as int) * TWO16 + (i.low as int)
  }

  ghost predicate Matches(i: Item, name: seq<Byte>) {
    SameName(NameOf(i), name)
  }

  /** Where the fields of an entry lie in its 32 bytes, low bytes first ... */
  lemma {:induction false} SlotBytes(s: seq<Byte>)
    requires |s| == 32
    ensures var i := DecodeItem(s);
            && i.filename == s[0..8] && i.ext == s[8..11] && i.attribute == s[11]
            && FirstCluster(i) == (s[26] as int) + 0x100 * (s[27] as int) + 0x1_0000 * (s[20] as int) + 0x100_0000 * (s[21] as int)
            && (i.filesize as int) == (s[28] as int) + 0x100 * (s[29] as int) + 0x1_0000 * (s[30] as int) + 0x100_0000 * (s[31] as int)
  {
    assert s[28..32][..2] == s[28..30] && s[28..32][2..] == s[30..32];
  }

  /** ... and how its state is read off them. */
  lemma {:induction false} SlotKind(s: seq<Byte>)
    requires |s| == 32
    ensures var i := DecodeItem(s);
            && (IsEnd(i) <==> s[0] == 0) && (IsLive(i) <==> s[0] != 0 && s[0] != 0xE5 && s[11] != 0x0F)
            && (IsListed(i) <==> s[0] != 0xE5 && s[11] / 8 % 2 == 0 && s[11] / 16 % 2 == 0)
  {
  }

  // ---------------------------------------------------------------- lookups

  /** Write and delete look for the first live match before the end mark. */
  ghost function FindSlot(root: seq<Item>, name: seq<Byte>, i: nat): (r: Option<nat>)
    ensures r.Some? ==> i <= r.value < |root| && IsLive(root[r.value]) && Matches(root[r.value], name)
    decreases |root| - i
  {
    if i >= |root| || IsEnd(root[i]) then None
    else if IsLive(root[i]) && Matches(root[i], name) then Some(i)
    else FindSlot(root, name, i + 1)
  }

  /** Reading takes the last match among the first `n` slots, whatever their state. */
  ghost function LastMatch(root: seq<Item>, name: seq<Byte>, n: nat): (r: Option<nat>)
    requires n <= |root|
    ensures r.Some? ==> r.value < n && Matches(root[r.value], name)
    ensures r.None? ==> forall i :: 0 <= i < n ==> !Matches(root[i], name)
  {
    if n == 0 then None
    else if Matches(root[n - 1], name) then Some(n - 1)
    else LastMatch(root, name, n - 1)
  }

  /** The entry at that slot. */
  ghost function LastItem(root: seq<Item>, name: seq<Byte>, n: nat): Option<Item>
    requires n <= |root|
  {
    var s := LastMatch(root, name, n);
    if s.Some? then Some(root[s.value]) else None
  }

  lemma {:induction false} LastItemNext(root: seq<Item>, name: seq<Byte>, n: nat)
    requires n < |root|
    ensures LastItem(root, name, n + 1) == if Matches(root[n], name) then Some(root[n]) else LastItem(root, name, n)
  {
  }

  function FreeSlot(root: seq<Item>, i: nat): (r: Option<nat>)
    ensures r.Some? ==> i <= r.value < |root| && (IsEnd(root[r.value]) || IsDeleted(root[r.value]))
    ensures r.Some? ==> forall j :: i <= j < r.value ==> !IsEnd(root[j]) && !IsDeleted(root[j])
    ensures r.None? ==> forall j :: i <= j < |root| ==> !IsEnd(root[j]) && !IsDeleted(root[j])
    decreases |root| - i
  {
    if i >= |root| then None
    else if IsEnd(root[i]) || IsDeleted(root[i]) then Some(i)
    else FreeSlot(root, i + 1)
  }

  /** Slots are handed out from the front. */
  lemma {:induction false} FreeSlotLow(root: seq<Item>, total: nat)
    requires DirShape(root, total) && FreeSlot(root, 0).Some?
    ensures FreeSlot(root, 0).value <= total
  {
    if total < |root| {
      assert IsEnd(root[total]);
    }
  }

  /** Neither a volume label nor a subdirectory (attribute bits 3 and 4 clear). */
  predicate IsListed(i: Item) {
    !IsDeleted(i) && i.attribute / 8 % 4 == 0
  }

  /** The slots an enumeration shows, from slot `i` on. */
  function Listing(root: seq<Item>, i: nat): (r: seq<nat>)
    ensures forall k :: 0 <= k < |r| ==> i <= r[k] < |root| && !IsEnd(root[r[k]]) && IsListed(root[r[k]])
    ensures forall j, k :: 0 <= j < k < |r| ==> r[j] < r[k]
    decreases |root| - i
  {
    if i >= |root| || IsEnd(root[i]) then []
    else if IsListed(root[i]) then [i] + Listing(root, i + 1)
    else Listing(root, i + 1)
  }

  // ---------------------------------------------------------------- shape

  /** Slots below `total` are in use or deleted; slots from `total` on were never used. */
  ghost predicate DirShape(root: seq<Item>, total: nat) {
    && total <= |root|
    && (forall i :: 0 <= i < total ==> !IsEnd(root[i]))
    && (forall i :: total <= i < |root| ==> IsEnd(root[i]))
  }

  /** Only plain files: no long-name, label or subdirectory entry in use. */
  ghost predicate PlainFiles(root: seq<Item>) {
    forall i :: 0 <= i < |root| && !IsEnd(root[i]) && !IsDeleted(root[i]) ==> root[i].attribute / 8 % 4 == 0
  }

  ghost predicate UniqueNames(root: seq<Item>) {
    forall i, j | 0 <= i < |root| && 0 <= j < |root| && IsLive(root[i]) && IsLive(root[j]) ::
      SameName(NameOf(root[i]), NameOf(root[j])) ==> i == j
  }

  /** The write lookup misses no live match. */
  lemma {:induction false} FindSlotNone(root: seq<Item>, total: nat, name: seq<Byte>, i: nat)
    requires DirShape(root, total)
    ensures FindSlot(root, name, i).None? ==> forall j :: i <= j < |root| && IsLive(root[j]) ==> !Matches(root[j], name)
    ensures FindSlot(root, name, i).Some? ==>
              forall j :: i <= j < FindSlot(root, name, i).value && IsLive(root[j]) ==> !Matches(root[j], name)
    decreases |root| - i
  {
    if i < |root| && !IsEnd(root[i]) {
      FindSlotNone(root, total, name, i + 1);
    }
  }

  /** A deleted entry shows a name that starts with the deletion mark. */
  lemma {:induction false} DeletedName(i: Item)
    requires IsDeleted(i)
    ensures NameOf(i) != [] && NameOf(i)[0] == DELETED
  {
    assert Trim(i.filename) == [DELETED] + Trim(i.filename[1..]);
  }

  lemma {:induction false} DeletedMatch(i: Item, name: seq<Byte>)
    requires Matches(i, name) && IsDeleted(i)
    ensures name != [] && name[0] == DELETED
  {
    DeletedName(i);
    assert ToLower(NameOf(i)[0]) == ToLower(name[0]);
  }

  /** The read lookup, the write lookup and the enumeration show the same files: for a name
      that does not start with the deletion mark the two lookups agree ... */
  lemma {:induction false} LookupsAgree(root: seq<Item>, total: nat, name: seq<Byte>)
    requires DirShape(root, total) && PlainFiles(root) && UniqueNames(root)
    requires name != [] ==> name[0] != DELETED
    ensures LastMatch(root, name, total) == FindSlot(root, name, 0)
  {
    FindSlotNone(root, total, name, 0);
    match LastMatch(root, name, total)
    case Some(i) =>
      if IsDeleted(root[i]) { DeletedMatch(root[i], name); }
      assert IsLive(root[i]);
      var j := FindSlot(root, name, 0).value;
      SameTrans(NameOf(root[i]), name, NameOf(root[j]));
    case None =>
  }

  lemma {:induction false} SameTrans(a: seq<Byte>, b: seq<Byte>, c: seq<Byte>)
    requires SameName(a, b) && SameName(c, b)
    ensures SameName(a, c)
  {
  }

  lemma {:induction false} ListingComplete(root: seq<Item>, total: nat, i: nat, s: nat)
    requires DirShape(root, total)
    requires i <= s < |root| && !IsEnd(root[s]) && IsListed(root[s])
    ensures s in Listing(root, i)
    decreases |root| - i
  {
    assert !IsEnd(root[i]);
    if i < s {
      ListingComplete(root, total, i + 1, s);
    }
  }

  lemma {:induction false} ListedInUse(root: seq<Item>, s: nat)
    requires s in Listing(root, 0)
    ensures s < |root| && !IsEnd(root[s]) && IsListed(root[s])
  {
    var k :| 0 <= k < |Listing(root, 0)| && Listing(root, 0)[k] == s;
  }

  /** ... the enumeration shows exactly the live slots, each once ... */
  lemma {:induction false} ListingIsLive(root: seq<Item>, total: nat, s: nat)
    requires DirShape(root, total) && PlainFiles(root) && s < |root|
    ensures s in Listing(root, 0) <==> IsLive(root[s])
  {
    if s in Listing(root, 0) {
      ListedInUse(root, s);
    }
    if IsLive(root[s]) {
      ListingComplete(root, total, 0, s);
    }
  }

  /** ... and every enumerated name leads both lookups back to its slot. */
  lemma {:induction false} ListedNameFound(root: seq<Item>, total: nat, k: nat)
    requires DirShape(root, total) && PlainFiles(root) && UniqueNames(root)
    requires k < |Listing(root, 0)|
    ensures var s := Listing(root, 0)[k];
            var name := NameOf(root[s]);
            FindSlot(root, name, 0) == Some(s) && LastMatch(root, name, total) == Some(s)
  {
    var s := Listing(root, 0)[k];
    var name := NameOf(root[s]);
    FindSlotNone(root, total, name, 0);
    assert Matches(root[s], name) && IsLive(root[s]);
    if name != [] {
      FirstOfName(root[s]);
    }
    LookupsAgree(root, total, name);
  }

  /** A name shown for an entry in use does not start with the deletion mark. */
  lemma {:induction false} FirstOfName(i: Item)
    requires !IsDeleted(i) && NameOf(i) != []
    ensures NameOf(i)[0] != DELETED
  {
    var base := Trim(i.filename);
    if base == [] {
      assert NameOf(i)[0] == DOT;
    } else {
      assert base[0] == i.filename[0];
    }
  }

  // ---------------------------------------------------------------- mount

  /** The item count taken at mount: entries before the end mark, deleted ones skipped. */
  function CountItems(root: seq<Item>, i: nat): nat
    decreases |root| - i
  {
    if i >= |root| || IsEnd(root[i]) then 0
    else (if IsDeleted(root[i]) then 0 else 1) + CountItems(root, i + 1)
  }

  lemma {:induction false} CountBounded(root: seq<Item>, i: nat)
    requires i <= |root|
    ensures CountItems(root, i) <= |root| - i
    decreases |root| - i
  {
    if i < |root| {
      CountBounded(root, i + 1);
    }
  }

  /** That count, used as a slot bound, reaches the end mark exactly when no entry before
      it is deleted. */
  lemma {:induction false} CountIsBoundIff(root: seq<Item>, end: nat)
    requires end <= |root| && (end < |root| ==> IsEnd(root[end]))
    requires forall i :: 0 <= i < end ==> !IsEnd(root[i])
    ensures CountItems(root, 0) == end <==> forall i :: 0 <= i < end ==> !IsDeleted(root[i])
  {
    CountFrom(root, end, 0);
  }

  /** It is the number of entries before the end mark whose first byte is not 0xE5. */
  lemma {:induction false} CountIsNumber(root: seq<Item>, end: nat, i: nat)
    requires i <= end <= |root| && (end < |root| ==> root[end].filename[0] == 0)
    requires forall j :: 0 <= j < end ==> root[j].filename[0] != 0
    ensures CountItems(root, i) == |InUse(root, end, i)|
    decreases end - i
  {
    if i == end {
      assert InUse(root, end, i) == {};
    } else {
      CountIsNumber(root, end, i + 1);
      InUseNext(root, end, i);
    }
  }

  ghost function InUse(root: seq<Item>, end: nat, i: nat): set<nat>
    requires end <= |root|
  {
    set j: nat | i <= j < end && root[j].filename[0] != 0xE5
  }

  lemma {:induction false} InUseNext(root: seq<Item>, end: nat, i: nat)
    requires i < end <= |root|
    ensures |InUse(root, end, i)| == (if root[i].filename[0] != 0xE5 then 1 else 0) + |InUse(root, end, i + 1)|
  {
    var all, rest := InUse(root, end, i), InUse(root, end, i + 1);
    if root[i].filename[0] != 0xE5 {
      assert all == {i} + rest;
    } else {
      assert all == rest;
    }
  }

  lemma {:induction false} CountFrom(root: seq<Item>, end: nat, i: nat)
    requires i <= end <= |root| && (end < |root| ==> IsEnd(root[end]))
    requires forall j :: 0 <= j < end ==> !IsEnd(root[j])
    ensures CountItems(root, i) <= end - i
    ensures CountItems(root, i) == end - i <==> forall j :: i <= j < end ==> !IsDeleted(root[j])
    decreases end - i
  {
    if i < end {
      CountFrom(root, end, i + 1);
    }
  }

  /** An entry named after one byte. */
  function OneByteItem(b: Byte): Item {
    RawItem([b, SPACE, SPACE, SPACE, SPACE, SPACE, SPACE, SPACE], [SPACE, SPACE, SPACE], ARCHIVED, [0, 0, 0, 0, 0, 0, 0, 0],
            0, [0, 0, 0, 0], 0, 0)
  }

  lemma {:induction false} OneByteName(b: Byte)
    requires b != 0 && b != SPACE
    ensures NameOf(OneByteItem(b)) == [b]
  {
    var i := OneByteItem(b);
    assert Trim(i.filename[1..]) == [] && Trim(i.ext) == [];
    assert Trim(i.filename) == [b] + Trim(i.filename[1..]);
  }

  /** With a deleted entry in front, the count taken at mount hides the file behind it from the read
      lookup; the write lookup finds it. */
  lemma {:induction false} DeletedHidesFile()
    ensures var root := [OneByteItem(DELETED), OneByteItem(65), OneByteItem(0)];
            && CountItems(root, 0) == 1
            && FindSlot(root, [65], 0) == Some(1) && LastMatch(root, [65], CountItems(root, 0)) == None
  {
    var root := [OneByteItem(DELETED), OneByteItem(65), OneByteItem(0)];
    OneByteName(65);
    OneByteName(DELETED);
    assert CountItems(root, 2) == 0 && CountItems(root, 1) == 1;
    assert FindSlot(root, [65], 1) == Some(1);
    assert LastMatch(root, [65], 0) == None;
  }
}
