/** The FAT16 driver as it runs: sector streams over the disk image, the cached root directory, and
    the loops over chains and slots, each proved to compute the operation of `FileSystem` on
    the volume the image and the cache represent. */
module Driver {
  import opened Bytes
  import opened Streamer
  import opened FatChains
  import opened FileData
  import opened FileWrite
  import opened Names
  import opened Directory
  import opened Layout
  import opened FileRead
  import opened FileSystem
  import opened Reading
  import Runs

  /** The volume an image and a cached directory represent. */
  ghost function VolumeOf(g: Geometry, img: seq<Byte>, items: seq<Item>, total: nat): (v: Volume)
    requires ValidImage(g, img)
    ensures total <= |items| ==> ValidVolume(v)
  {
    Volume(g.lim, g.cs, FatOf(g, img), DataOf(g, img), items, total)
  }

  /** The first `n` slots of the cache equal those on disk byte for byte, slot `but` excepted. */
  ghost predicate CacheTo(g: Geometry, img: seq<Byte>, items: seq<Item>, but: int, n: nat)
    requires ValidImage(g, img) && n <= |items| == g.slots
    decreases n
  {
    n == 0 || (CacheTo(g, img, items, but, n - 1) && (n - 1 == but || SlotOf(g, img, n - 1) == EncodeItem(items[n - 1])))
  }

  ghost predicate CacheOk(g: Geometry, img: seq<Byte>, items: seq<Item>, but: int)
    requires ValidImage(g, img)
  {
    |items| == g.slots && CacheTo(g, img, items, but, g.slots)
  }

  lemma {:induction false} CacheToIff(g: Geometry, img: seq<Byte>, items: seq<Item>, but: int, n: nat)
    requires ValidImage(g, img) && n <= |items| == g.slots
    ensures CacheTo(g, img, items, but, n)
            <==> forall i :: 0 <= i < n && i != but ==> SlotOf(g, img, i) == EncodeItem(items[i])
    decreases n
  {
    if n > 0 {
      CacheToIff(g, img, items, but, n - 1);
    }
  }

  /** The cache equals the on-disk slots byte for byte, slot `but` excepted. */
  lemma {:induction false} CacheOkIff(g: Geometry, img: seq<Byte>, items: seq<Item>, but: int)
    requires ValidImage(g, img) && |items| == g.slots
    ensures CacheOk(g, img, items, but)
            <==> forall i :: 0 <= i < g.slots && i != but ==> SlotOf(g, img, i) == EncodeItem(items[i])
  {
    CacheToIff(g, img, items, but, g.slots);
  }

  lemma {:induction false} CacheKept(g: Geometry, img: seq<Byte>, img': seq<Byte>, items: seq<Item>, but: int)
    requires ValidImage(g, img) && ValidImage(g, img') && SameSlots(g, img, img')
    requires CacheOk(g, img, items, but)
    ensures CacheOk(g, img', items, but)
  {
    CacheOkIff(g, img, items, but);
    CacheOkIff(g, img', items, but);
  }

  /** A well-formed image with its cache. */
  ghost predicate Good(g: Geometry, img: seq<Byte>, items: seq<Item>, total: nat, but: int) {
    ValidImage(g, img) && CacheOk(g, img, items, but) && total <= |items|
  }

  ghost predicate FatsAgree(g: Geometry, img: seq<Byte>)
    requires ValidImage(g, img)
  {
    FatOf(g, img) == Fat2Of(g, img)
  }

  /** The copies agree exactly if they do byte for byte. */
  lemma {:induction false} FatsAgreeIff(g: Geometry, img: seq<Byte>)
    requires ValidImage(g, img)
    ensures FatsAgree(g, img)
            <==> img[g.fatBase..g.fatBase + 2 * g.entries] == img[g.fat2Base..g.fat2Base + 2 * g.entries]
  {
    var a, b := img[g.fatBase..g.fatBase + 2 * g.entries], img[g.fat2Base..g.fat2Base + 2 * g.entries];
    if FatsAgree(g, img) {
      forall k | 0 <= k < |a|
        ensures a[k] == b[k]
      {
        EntriesAgree(g, img, k / 2);
      }
    }
    if a == b {
      BytesAgree(g, img);
    }
  }

  lemma {:induction false} BytesAgree(g: Geometry, img: seq<Byte>)
    requires ValidImage(g, img)
    requires img[g.fatBase..g.fatBase + 2 * g.entries] == img[g.fat2Base..g.fat2Base + 2 * g.entries]
    ensures FatsAgree(g, img)
  {
    forall c | 0 <= c < g.entries
      ensures FatOf(g, img)[c] == Fat2Of(g, img)[c]
    {
      SameInBoth(img, g.fatBase, g.fat2Base, 2 * g.entries, 2 * c);
      SameInBoth(img, g.fatBase, g.fat2Base, 2 * g.entries, 2 * c + 1);
      EntriesAgree(g, img, c);
    }
  }

  lemma {:induction false} SameInBoth(img: seq<Byte>, p: nat, q: nat, n: nat, k: nat)
    requires p + n <= |img| && q + n <= |img| && k < n && img[p..p + n] == img[q..q + n]
    ensures img[p + k] == img[q + k]
  {
    assert img[p..p + n][k] == img[p + k] && img[q..q + n][k] == img[q + k];
  }

  lemma {:induction false} EntriesAgree(g: Geometry, img: seq<Byte>, c: nat)
    requires ValidImage(g, img) && c < g.entries
    ensures FatOf(g, img)[c] == Fat2Of(g, img)[c]
            <==> img[g.fatBase + 2 * c] == img[g.fat2Base + 2 * c] && img[g.fatBase + 2 * c + 1] == img[g.fat2Base + 2 * c + 1]
  {
    FatToEntry(g.entries, img, g.fatBase, c);
    FatToEntry(g.entries, img, g.fat2Base, c);
  }

  lemma {:induction false} TwoEntries(img: seq<Byte>, p: nat, q: nat, w: Word16)
    requires p + 2 <= q && q + 2 <= |img|
    ensures var img' := Splice(Splice(img, p, Encode16(w)), q, Encode16(w)); EntryBytes(img', p, w) && EntryBytes(img', q, w)
  {
  }

  /** What setting entry `c` in both copies does. */
  lemma {:induction false} SetEntryState(g: Geometry, img: seq<Byte>, items: seq<Item>, total: nat, c: nat, w: Word16)
    requires Good(g, img, items, total, -1) && c < g.entries
    ensures g.fatBase + 2 * c + 2 <= |img| && g.fat2Base + 2 * c + 2 <= |img|
    ensures var img' := Splice(Splice(img, g.fatBase + 2 * c, Encode16(w)), g.fat2Base + 2 * c, Encode16(w));
            && Good(g, img', items, total, -1)
            && VolumeOf(g, img', items, total) == VolumeOf(g, img, items, total).(fat := FatOf(g, img)[c := w])
            && (FatsAgree(g, img) ==> FatsAgree(g, img'))
  {
    var one := Splice(img, g.fatBase + 2 * c, Encode16(w));
    Fat1Effect(g, img, c, w);
    Fat2Effect(g, one, c, w);
    CacheKept(g, img, one, items, -1);
    CacheKept(g, one, Splice(one, g.fat2Base + 2 * c, Encode16(w)), items, -1);
  }

  /** What writing inside cluster `c` does. */
  lemma {:induction false} ClusterState(g: Geometry, img: seq<Byte>, items: seq<Item>, total: nat, c: nat, o: nat, d: seq<Byte>)
    requires Good(g, img, items, total, -1) && 2 <= c < g.lim && o < g.cs && o + |d| <= g.cs
    ensures ClusterPos(g, c) + o < |img| && ClusterPos(g, c) + o + |d| <= |img|
    ensures var img' := Splice(img, ClusterPos(g, c) + o, d);
            && Good(g, img', items, total, -1)
            && VolumeOf(g, img', items, total)
               == VolumeOf(g, img, items, total).(data := DataOf(g, img)[c := Splice(DataOf(g, img)[c], o, d)])
            && (FatsAgree(g, img) ==> FatsAgree(g, img'))
  {
    ClusterInside(g, c);
    ClusterEffect(g, img, c, o, d);
    CacheKept(g, img, Splice(img, ClusterPos(g, c) + o, d), items, -1);
  }

  /** What flushing slot `s` does. */
  lemma {:induction false} SlotState(g: Geometry, img: seq<Byte>, items: seq<Item>, total: nat, s: nat)
    requires Good(g, img, items, total, s) && s < |items|
    ensures SlotPos(g, s) + ITEM_SIZE <= |img|
    ensures var img' := Splice(img, SlotPos(g, s), EncodeItem(items[s]));
            && Good(g, img', items, total, -1)
            && VolumeOf(g, img', items, total) == VolumeOf(g, img, items, total)
            && (FatsAgree(g, img) ==> FatsAgree(g, img'))
  {
    SlotEffect(g, img, s, EncodeItem(items[s]));
    CacheOkIff(g, img, items, s);
    CacheOkIff(g, Splice(img, SlotPos(g, s), EncodeItem(items[s])), items, -1);
  }

  /** A walk on a volume. */
  ghost function WalkIn(v: Volume, c: nat, k: nat): WalkResult
    requires ValidVolume(v) && 2 <= c < v.lim
  {
    Walk(v.fat, v.lim, c, k)
  }

  /** The write loop on a volume. */
  ghost function FillVolume(v: Volume, c: nat, o: nat, buf: seq<Byte>): FillResult
    requires ValidVolume(v) && 2 <= c < v.lim && o < v.cs
  {
    Fill(v.fat, v.data, v.lim, v.cs, c, o, buf)
  }

  /** One round of it. */
  lemma {:induction false} FillRound(v: Volume, c: nat, o: nat, buf: seq<Byte>, n: nat)
    requires ValidVolume(v) && 2 <= c < v.lim && o < v.cs && buf != [] && n == Min(|buf|, v.cs - o)
    ensures var data := v.data[c := Splice(v.data[c], o, buf[..n])];
            && ValidData(data, v.lim, v.cs)
            && FillVolume(v, c, o, buf)
               == if n == |buf| then FillVolume(v.(data := data), c, 0, buf[n..])
                  else match NextOrExtend(v.fat, v.lim, c)
                       case Moved(f, m) => FillVolume(v.(fat := f, data := data), m, 0, buf[n..])
                       case NoSpace => FillFull(v.fat, data)
                       case Fault => FillFault
  {
  }

  // ---------------------------------------------------------------- mount

  const HEADER_SIZE: nat := 62
  const SIGNATURE: Byte := 0x29

  /** The fields of the boot sector's parameter block that the driver uses. */
  function DecodeBpb(h: seq<Byte>): Bpb
    requires |h| == HEADER_SIZE
  {
    Bpb(h[13], Decode16(h[14..16]), h[16], Decode16(h[17..19]), Decode16(h[19..21]), Decode16(h[22..24]), Decode32(h[32..36]))
  }

  /** The header as bytes, in the boot sector's own numbers, decodes to its parameters. */
  lemma {:induction false} BootHeaderDecodes(start: seq<Byte>, geometry: seq<Byte>, extended: seq<Byte>)
    requires |start| == 13 && |geometry| == 8 && |extended| == 26
    ensures var h := start + [0x80] + [0xC8, 0x00] + [0x02] + [0x40, 0x00] + [0x00, 0x00] + [0xF8] + [0x00, 0x01]
                     + geometry + [0x94, 0x35, 0x77, 0x00] + extended;
            |h| == HEADER_SIZE && DecodeBpb(h) == BOOT_BPB
  {
    var h := start + [0x80] + [0xC8, 0x00] + [0x02] + [0x40, 0x00] + [0x00, 0x00] + [0xF8] + [0x00, 0x01]
             + geometry + [0x94, 0x35, 0x77, 0x00] + extended;
    assert h[14..16] == [0xC8, 0x00] && h[17..19] == [0x40, 0x00] && h[19..21] == [0x00, 0x00] && h[22..24] == [0x00, 0x01];
    assert h[32..36] == [0x94, 0x35, 0x77, 0x00];
    assert h[32..36][..2] == [0x94, 0x35] && h[32..36][2..] == [0x77, 0x00];
  }

  /** The header on disk, field after field in the order the packed structure declares them: jump,
      name and bytes per sector come first, `geometry` is track, heads and hidden sectors, `extended`
      the second header. */
  function EncodeHeader(b: Bpb, start: seq<Byte>, media: Byte, geometry: seq<Byte>, extended: seq<Byte>): (h: seq<Byte>)
    requires |start| == 13 && |geometry| == 8 && |extended| == 26
    ensures |h| == HEADER_SIZE
  {
    start + [b.sectorsPerCluster] + Encode16(b.reservedSectors) + [b.fatCopies] + Encode16(b.rootDirEntries)
    + Encode16(b.numberOfSectors) + [media] + Encode16(b.sectorsPerFat) + geometry + Encode32(b.sectorsBig) + extended
  }

  /** Decoding at mount gives back the parameters of any header, and finds the signature. */
  lemma {:induction false} HeaderRoundTrip(b: Bpb, start: seq<Byte>, media: Byte, geometry: seq<Byte>, extended: seq<Byte>)
    requires |start| == 13 && |geometry| == 8 && |extended| == 26
    ensures DecodeBpb(EncodeHeader(b, start, media, geometry, extended)) == b
    ensures EncodeHeader(b, start, media, geometry, extended)[38] == extended[2]
  {
    var h := EncodeHeader(b, start, media, geometry, extended);
    assert h[14..16] == Encode16(b.reservedSectors) && h[17..19] == Encode16(b.rootDirEntries);
    assert h[19..21] == Encode16(b.numberOfSectors) && h[22..24] == Encode16(b.sectorsPerFat);
    assert h[32..36] == Encode32(b.sectorsBig);
    Word16RoundTrip(b.reservedSectors, h[14..16]);
    Word16RoundTrip(b.rootDirEntries, h[17..19]);
    Word16RoundTrip(b.numberOfSectors, h[19..21]);
    Word16RoundTrip(b.sectorsPerFat, h[22..24]);
    Word32RoundTrip(b.sectorsBig);
  }

  /** The directory on the disk. */
  ghost function RootOf(g: Geometry, img: seq<Byte>): (r: seq<Item>)
    requires ValidImage(g, img)
    ensures |r| == g.slots
  {
    RootTo(g, img, g.slots)
  }

  ghost function RootTo(g: Geometry, img: seq<Byte>, n: nat): (r: seq<Item>)
    requires ValidImage(g, img) && n <= g.slots
    ensures |r| == n
  {
    if n == 0 then [] else RootTo(g, img, n - 1) + [DecodeItem(SlotOf(g, img, n - 1))]
  }

  lemma {:induction false} RootToItem(g: Geometry, img: seq<Byte>, n: nat, i: nat)
    requires ValidImage(g, img) && i < n <= g.slots
    ensures RootTo(g, img, n)[i] == DecodeItem(SlotOf(g, img, i))
  {
    if i < n - 1 {
      RootToItem(g, img, n - 1, i);
    }
  }

  lemma {:induction false} RootItem(g: Geometry, img: seq<Byte>, i: nat)
    requires ValidImage(g, img) && i < g.slots
    ensures RootOf(g, img)[i] == DecodeItem(SlotOf(g, img, i))
  {
    RootToItem(g, img, g.slots, i);
  }

  lemma {:induction false} RootFirstByte(g: Geometry, img: seq<Byte>, i: nat)
    requires ValidImage(g, img) && i < g.slots
    ensures RootOf(g, img)[i].filename[0] == SlotOf(g, img, i)[0]
  {
    RootItem(g, img, i);
  }

  lemma {:induction false} RootSlot(g: Geometry, img: seq<Byte>, raw: seq<Byte>, i: nat)
    requires ValidImage(g, img) && i < g.slots && raw == img[g.rootBase..g.rootBase + g.slots * ITEM_SIZE]
    ensures DecodeItem(raw[i * ITEM_SIZE..i * ITEM_SIZE + ITEM_SIZE]) == RootOf(g, img)[i]
  {
    SliceOfSlice(img, g.rootBase, g.slots * ITEM_SIZE, i * ITEM_SIZE, ITEM_SIZE);
    RootItem(g, img, i);
  }

  /** A freshly loaded directory is a faithful cache. */
  lemma {:induction false} RootCached(g: Geometry, img: seq<Byte>)
    requires ValidImage(g, img)
    ensures CacheOk(g, img, RootOf(g, img), -1)
  {
    forall i | 0 <= i < g.slots
      ensures SlotOf(g, img, i) == EncodeItem(RootOf(g, img)[i])
    {
      SlotRoundTrip(SlotOf(g, img, i));
      RootItem(g, img, i);
    }
    CacheOkIff(g, img, RootOf(g, img), -1);
  }

  ghost predicate HasEndMark(root: seq<Item>) {
    exists i :: 0 <= i < |root| && IsEnd(root[i])
  }

  /** From a mount without deleted entries before the end mark, and with nothing after it, the
      driver starts in a consistent directory. */
  lemma {:induction false} MountShape(root: seq<Item>, end: nat)
    requires end < |root|
    requires forall i :: 0 <= i < end ==> !IsEnd(root[i]) && !IsDeleted(root[i])
    requires forall i :: end <= i < |root| ==> IsEnd(root[i])
    ensures DirShape(root, CountItems(root, 0))
  {
    CountIsBoundIff(root, end);
  }

  /** What mounting demands of a volume that carries the signature. */
  ghost predicate Mountable(img: seq<Byte>) {
    && |img| % SECTOR_SIZE == 0 && |img| >= SECTOR_SIZE
    && (img[38] == SIGNATURE ==>
          var b := DecodeBpb(img[..HEADER_SIZE]);
          && ValidBpb(b) && GeometryOf(b).size <= |img|
          && (GeometryIsValid(b); HasEndMark(RootOf(GeometryOf(b), img))))
  }

  /** fat16_resolve: refuse a volume without the signature, else mount it. */
  method Resolve(disk: Disk) returns (r: Option<Fat16>)
    requires Mountable(disk.image)
    ensures r.Some? <==> disk.image[38] == 0x29
    ensures r.Some? ==>
              var fs := r.value;
              && fresh(fs) && fs.disk == disk && fs.geo == GeometryOf(DecodeBpb(disk.image[..HEADER_SIZE]))
              && fs.Mounted() && fs.items == RootOf(fs.geo, disk.image) && fs.total == CountItems(fs.items, 0)
  {
    var stream := new DiskStream(disk);
    ReadInBufferIff(0, HEADER_SIZE);
    var header := stream.Read(HEADER_SIZE);
    if header[38] != SIGNATURE {
      return None;
    }
    GeometryIsValid(DecodeBpb(header));
    var fs := new Fat16(disk, GeometryOf(DecodeBpb(header)));
    return Some(fs);
  }

  class Fat16 {
    const disk: Disk
    const geo: Geometry
    const clusterRead: DiskStream
    const fatRead: DiskStream
    const clusterWrite: DiskStream
    const fatWrite: DiskStream
    var items: seq<Item>
    var total: nat

    constructor (d: Disk, g: Geometry)
      requires ValidImage(g, d.image) && HasEndMark(RootOf(g, d.image))
      ensures disk == d && geo == g
      ensures Mounted() && items == RootOf(g, d.image) && total == CountItems(items, 0)
    {
      disk, geo := d, g;
      clusterRead := new DiskStream(d);
      fatRead := new DiskStream(d);
      clusterWrite := new DiskStream(d);
      fatWrite := new DiskStream(d);
      items, total := [], 0;
      new;
      var stream := new DiskStream(d);
      var n := CountOnDisk(stream);
      var root := LoadRoot(stream);
      items, total := root, n;
      CountBounded(root, 0);
    }

    /** Count entries up to the end mark, one streamed entry at a time. */
    method CountOnDisk(stream: DiskStream) returns (n: nat)
      requires Base() && stream.disk == disk && HasEndMark(RootOf(geo, disk.image))
      modifies stream
      ensures n == CountItems(RootOf(geo, disk.image), 0)
    {
      ghost var root: seq<Item> := RootOf(geo, disk.image);
      ghost var end :| 0 <= end < |root| && IsEnd(root[end]);
      stream.Seek(geo.rootBase);
      n := 0;
      ghost var i := 0;
      while true
        invariant 0 <= i <= end && stream.pos == SlotPos(geo, i)
        invariant CountItems(root, 0) == n + CountItems(root, i)
        decreases end - i
      {
        var first := NextFirstByte(stream, i);
        if first == 0 {
          break;
        }
        if first != DELETED {
          n := n + 1;
        }
        assert i != end;
        i := i + 1;
      }
    }

    /** Read the entry the stream stands on; its first byte tells its state. */
    method NextFirstByte(stream: DiskStream, ghost i: nat) returns (first: Byte)
      requires Base() && stream.disk == disk && i < geo.slots && stream.pos == SlotPos(geo, i)
      modifies stream
      ensures first == RootOf(geo, disk.image)[i].filename[0] && stream.pos == SlotPos(geo, i + 1)
    {
      InOneSector(geo, 0, i);
      RootFirstByte(geo, disk.image, i);
      var raw := stream.Read(ITEM_SIZE);
      first := raw[0];
    }

    /** Read the whole directory into memory. */
    method LoadRoot(stream: DiskStream) returns (root: seq<Item>)
      requires Base() && stream.disk == disk && geo.slots > 0
      modifies stream
      ensures root == RootOf(geo, disk.image) && CacheOk(geo, disk.image, root, -1)
    {
      stream.Seek(geo.rootBase);
      ReadInBufferIff(geo.rootBase, geo.slots * ITEM_SIZE);
      var raw := stream.Read(geo.slots * ITEM_SIZE);
      root := [];
      var i := 0;
      while i < geo.slots
        invariant 0 <= i <= geo.slots
        invariant root == RootOf(geo, disk.image)[..i]
      {
        RootSlot(geo, disk.image, raw, i);
        root := root + [DecodeItem(raw[i * ITEM_SIZE..i * ITEM_SIZE + ITEM_SIZE])];
        i := i + 1;
      }
      RootCached(geo, disk.image);
    }

    ghost predicate Base()
      reads disk
    {
      && clusterRead.disk == disk && fatRead.disk == disk && clusterWrite.disk == disk && fatWrite.disk == disk
      && ValidImage(geo, disk.image)
    }

    ghost predicate MountedBut(s: int)
      reads this, disk
    {
      Base() && Good(geo, disk.image, items, total, s)
    }

    ghost predicate Mounted()
      reads this, disk
    {
      MountedBut(-1)
    }

    /** The volume the driver state stands for. */
    ghost function Vol(): (v: Volume)
      requires Base()
      reads this, disk
      ensures total <= |items| ==> ValidVolume(v)
    {
      VolumeOf(geo, disk.image, items, total)
    }

    /** The two FAT copies agree. */
    ghost predicate Mirrored()
      requires Base()
      reads disk
    {
      FatsAgree(geo, disk.image)
    }

    method GetFatEntry(c: nat) returns (e: nat)
      requires Base() && c < geo.entries
      modifies fatRead
      ensures geo.fatBase + 2 * c + 2 <= |disk.image| && e == FatOf(geo, disk.image)[c]
      ensures e == (disk.image[geo.fatBase + 2 * c] as int) + 256 * (disk.image[geo.fatBase + 2 * c + 1] as int)
    {
      InOneSector(geo, c, 0);
      FatEntry(geo, disk.image, c);
      fatRead.Seek(geo.fatBase + 2 * c);
      var raw := fatRead.Read(2);
      e := Decode16(raw);
    }

    /** An entry is written to both copies. */
    method SetFatEntry(c: nat, w: Word16)
      requires Mounted() && c < geo.entries
      modifies disk, fatWrite
      ensures Mounted() && Vol() == old(Vol()).(fat := old(Vol().fat)[c := w])
      ensures old(Mirrored()) ==> Mirrored()
      ensures EntryBytes(disk.image, geo.fatBase + 2 * c, w) && EntryBytes(disk.image, geo.fat2Base + 2 * c, w)
    {
      SetEntryState(geo, disk.image, items, total, c, w);
      PutEntry(geo.fatBase + 2 * c, w);
      PutEntry(geo.fat2Base + 2 * c, w);
      assert disk.image == Splice(Splice(old(disk.image), geo.fatBase + 2 * c, Encode16(w)), geo.fat2Base + 2 * c, Encode16(w));
      TwoEntries(old(disk.image), geo.fatBase + 2 * c, geo.fat2Base + 2 * c, w);
    }

    method PutEntry(p: nat, w: Word16)
      requires fatWrite.disk == disk && |disk.image| % SECTOR_SIZE == 0 && p + 2 <= |disk.image|
      modifies disk, fatWrite
      ensures disk.image == Splice(old(disk.image), p, Encode16(w))
    {
      fatWrite.Seek(p);
      fatWrite.Write(Encode16(w));
    }

    method FindFreeCluster() returns (r: Option<nat>)
      requires Base()
      modifies fatRead
      ensures r == FindFree(FatOf(geo, disk.image), geo.lim, 2)
    {
      ghost var fat := FatOf(geo, disk.image);
      var i := 2;
      while i < geo.lim
        invariant 2 <= i <= geo.lim
        invariant forall j :: 2 <= j < i ==> fat[j] != 0
      {
        var entry := GetFatEntry(i);
        if entry == 0 {
          FindFreeIs(fat, geo.lim, 2, i);
          return Some(i);
        }
        i := i + 1;
      }
      FindFreeIs(fat, geo.lim, 2, i);
      return None;
    }

    method AllocCluster(prev: int) returns (r: Option<nat>)
      requires Mounted() && prev < geo.lim
      modifies disk, fatRead, fatWrite
      ensures Mounted() && (old(Mirrored()) ==> Mirrored())
      ensures match Alloc(old(Vol().fat), geo.lim, prev)
              case Full => r == None && Vol() == old(Vol())
              case Allocated(f, n) => r == Some(n) && Vol() == old(Vol()).(fat := f)
    {
      r := FindFreeCluster();
      if r.Some? {
        SetFatEntry(r.value, EOC);
        if prev >= 2 {
          SetFatEntry(prev, r.value);
        }
      }
    }

    /** The chain walk of the write path: follow the link, or extend the chain where it ends. */
    method Advance(c: nat) returns (r: Option<nat>)
      requires Mounted() && 2 <= c < geo.lim
      requires NextOrExtend(Vol().fat, geo.lim, c) != Fault
      modifies disk, fatRead, fatWrite
      ensures Mounted() && (old(Mirrored()) ==> Mirrored())
      ensures match NextOrExtend(old(Vol().fat), geo.lim, c)
              case Moved(f, n) => r == Some(n) && Vol() == old(Vol()).(fat := f)
              case NoSpace => r == None && Vol() == old(Vol())
    {
      var next := GetFatEntry(c);
      if next < 2 || next >= EOC_MIN {
        r := AllocCluster(c);
      } else {
        r := Some(next);
      }
    }

    /** Zero the entries of a chain; no shape of the table is assumed but that links stay in it. */
    method FreeClusterChain(first: nat)
      requires Mounted() && 2 <= first
      requires first < EOC_MIN ==> FreeChain(Vol().fat, first).Freed?
      modifies disk, fatRead, fatWrite
      ensures Mounted() && (old(Mirrored()) ==> Mirrored())
      ensures Vol() == if first < EOC_MIN then old(Vol()).(fat := FreeChain(old(Vol().fat), first).fat) else old(Vol())
    {
      var c := first;
      while c >= 2 && c < EOC_MIN
        invariant Mounted() && (old(Mirrored()) ==> Mirrored())
        invariant c >= 2 && (c >= EOC_MIN ==> first >= EOC_MIN)
        invariant Vol() == old(Vol()).(fat := Vol().fat)
        invariant c >= EOC_MIN ==> Vol() == old(Vol())
        invariant c < EOC_MIN ==> first < EOC_MIN && FreeChain(Vol().fat, c) == FreeChain(old(Vol().fat), first)
        decreases NonZero(Vol().fat)
      {
        ghost var fat := Vol().fat;
        var next := GetFatEntry(c);
        SetFatEntry(c, 0);
        if next < 2 || next >= EOC_MIN {
          break;
        }
        assert c in NonZero(fat) && c !in NonZero(Vol().fat);
        c := next;
      }
    }

    method WriteClusterData(c: nat, o: nat, d: seq<Byte>)
      requires Mounted() && 2 <= c < geo.lim && o < geo.cs && o + |d| <= geo.cs
      modifies disk, clusterWrite
      ensures Mounted() && (old(Mirrored()) ==> Mirrored())
      ensures Vol() == old(Vol()).(data := old(Vol().data)[c := Splice(old(Vol().data)[c], o, d)])
    {
      ClusterState(geo, disk.image, items, total, c, o, d);
      var start := ClusterStart(geo, c);
      clusterWrite.Seek(start + o);
      clusterWrite.Write(d);
      assert disk.image == Splice(old(disk.image), ClusterPos(geo, c) + o, d);
    }

    /** The first of `k` moves. */
    method AdvanceWalk(c: nat, ghost k: nat) returns (r: Option<nat>)
      requires Mounted() && 2 <= c < geo.lim && k > 0 && !WalkIn(Vol(), c, k).WalkFault?
      modifies disk, fatRead, fatWrite
      ensures Mounted() && (old(Mirrored()) ==> Mirrored()) && Vol() == old(Vol()).(fat := Vol().fat)
      ensures r.Some? ==> 2 <= r.value < geo.lim && WalkIn(old(Vol()), c, k) == WalkIn(Vol(), r.value, k - 1)
      ensures r.None? ==> WalkIn(old(Vol()), c, k) == WalkFull(Vol().fat)
    {
      WalkUnfold(Vol().fat, geo.lim, c, k);
      r := Advance(c);
    }

    /** Walk `k` clusters along a chain, extending it where it is too short. */
    method WalkTo(first: nat, k: nat) returns (r: Option<nat>)
      requires Mounted() && 2 <= first < geo.lim
      requires !WalkIn(Vol(), first, k).WalkFault?
      modifies disk, fatRead, fatWrite
      ensures Mounted() && (old(Mirrored()) ==> Mirrored())
      ensures match WalkIn(old(Vol()), first, k)
              case Walked(f, c) => r == Some(c) && Vol() == old(Vol()).(fat := f)
              case WalkFull(f) => r == None && Vol() == old(Vol()).(fat := f)
    {
      var c := first;
      var i := 0;
      ghost var result := WalkIn(Vol(), first, k);
      while i < k
        invariant 0 <= i <= k && 2 <= c < geo.lim
        invariant Mounted() && (old(Mirrored()) ==> Mirrored())
        invariant Vol() == old(Vol()).(fat := Vol().fat)
        invariant result == WalkIn(Vol(), c, k - i)
      {
        var next := AdvanceWalk(c, k - i);
        if next.None? {
          assert result == WalkFull(Vol().fat);
          return None;
        }
        c := next.value;
        i := i + 1;
      }
      assert result == Walked(Vol().fat, c);
      return Some(c);
    }

    /** Write `buf` from offset `o` of cluster `c` on, cluster by cluster. */
    method FillFrom(first: nat, o: nat, buf: seq<Byte>) returns (ok: bool)
      requires Mounted() && 2 <= first < geo.lim && o < geo.cs
      requires !FillVolume(Vol(), first, o, buf).FillFault?
      modifies disk, fatRead, fatWrite, clusterWrite
      ensures Mounted() && (old(Mirrored()) ==> Mirrored())
      ensures match FillVolume(old(Vol()), first, o, buf)
              case Filled(f, d) => ok && Vol() == old(Vol()).(fat := f, data := d)
              case FillFull(f, d) => !ok && Vol() == old(Vol()).(fat := f, data := d)
    {
      ghost var result := FillVolume(Vol(), first, o, buf);
      var c, off, rest := first, o, buf;
      while rest != []
        invariant 2 <= c < geo.lim && 0 <= off < geo.cs
        invariant Mounted() && (old(Mirrored()) ==> Mirrored())
        invariant Vol() == old(Vol()).(fat := Vol().fat, data := Vol().data)
        invariant FillVolume(Vol(), c, off, rest) == result
        decreases |rest|
      {
        var space := geo.cs - off;
        var n := if |rest| < space then |rest| else space;
        FillRound(Vol(), c, off, rest, n);
        var next := FillOne(c, off, rest[..n], n < |rest|);
        if next.None? {
          return false;
        }
        rest, off, c := rest[n..], 0, next.value;
      }
      return true;
    }

    /** One round of the write loop: put down a chunk, then move on if more is to come. */
    method FillOne(c: nat, o: nat, chunk: seq<Byte>, more: bool) returns (r: Option<nat>)
      requires Mounted() && 2 <= c < geo.lim && o < geo.cs && o + |chunk| <= geo.cs
      requires more ==> NextOrExtend(Vol().fat, geo.lim, c) != Fault
      modifies disk, fatRead, fatWrite, clusterWrite
      ensures Mounted() && (old(Mirrored()) ==> Mirrored())
      ensures var data := old(Vol().data)[c := Splice(old(Vol().data)[c], o, chunk)];
              if !more then r == Some(c) && Vol() == old(Vol()).(data := data)
              else match NextOrExtend(old(Vol().fat), geo.lim, c)
                   case Moved(f, n) => r == Some(n) && Vol() == old(Vol()).(fat := f, data := data)
                   case NoSpace => r == None && Vol() == old(Vol()).(data := data)
    {
      WriteClusterData(c, o, chunk);
      if more {
        r := Advance(c);
      } else {
        r := Some(c);
      }
    }

    /** Write at a file offset, following and extending the chain; the first cluster is returned. */
    method WriteInternal(first: nat, offset: nat, buf: seq<Byte>) returns (ok: bool, start: nat)
      requires Mounted() && !WriteFrom(Vol(), first, offset, buf).WriteFault?
      modifies disk, fatRead, fatWrite, clusterWrite
      ensures Mounted() && (old(Mirrored()) ==> Mirrored())
      ensures match WriteFrom(old(Vol()), first, offset, buf)
              case Written(f, d, n) => ok && start == n && Vol() == old(Vol()).(fat := f, data := d)
              case NoRoom(f, d) => !ok && Vol() == old(Vol()).(fat := f, data := d)
    {
      var k, o := SplitOffset(offset, geo.cs);
      var c: Option<nat>;
      start := first;
      if first == 0 {
        c := AllocCluster(-1);
        if c.Some? {
          start := c.value;
        }
      } else {
        c := WalkTo(first, k);
      }
      if c.None? {
        return false, start;
      }
      ok := FillFrom(c.value, o, buf);
    }

    // -------------------------------------------------------------- directory slots

    /** Does an entry show this name? */
    method NameMatches(i: Item, name: seq<Byte>) returns (same: bool)
      requires CString(name)
      ensures same <==> Matches(i, name)
    {
      NameIsShort(i);
      var order := CompareNames(NameOf(i), name, MAX_PATH);
      same := order == 0;
    }

    method FindSlotByName(name: seq<Byte>) returns (r: Option<nat>)
      requires CString(name)
      ensures r == FindSlot(items, name, 0)
    {
      var i := 0;
      while i < |items|
        invariant 0 <= i <= |items|
        invariant FindSlot(items, name, 0) == FindSlot(items, name, i)
      {
        var entry := items[i];
        if entry.filename[0] == 0 {
          break;
        }
        if entry.filename[0] != DELETED && entry.attribute != LONG_NAME {
          var same := NameMatches(entry, name);
          if same {
            return Some(i);
          }
        }
        i := i + 1;
      }
      return None;
    }

    method FindFreeSlot() returns (r: Option<nat>)
      ensures r == FreeSlot(items, 0)
    {
      var i := 0;
      while i < |items|
        invariant 0 <= i <= |items|
        invariant FreeSlot(items, 0) == FreeSlot(items, i)
      {
        var first := items[i].filename[0];
        if first == 0 || first == DELETED {
          return Some(i);
        }
        i := i + 1;
      }
      return None;
    }

    /** Flush a cached slot to its place on disk. */
    method WriteRootDirEntry(slot: nat)
      requires slot < |items| && MountedBut(slot)
      modifies disk, fatWrite
      ensures Mounted() && Vol() == old(Vol()) && (old(Mirrored()) ==> Mirrored())
    {
      SlotState(geo, disk.image, items, total, slot);
      fatWrite.Seek(SlotPos(geo, slot));
      fatWrite.Write(EncodeItem(items[slot]));
    }

    /** Change a slot in the cache and flush it. */
    method StoreItem(slot: nat, i: Item)
      requires Mounted() && slot < |items|
      modifies this`items, disk, fatWrite
      ensures Mounted() && Vol() == old(Vol()).(root := old(items)[slot := i]) && (old(Mirrored()) ==> Mirrored())
    {
      CacheBut(geo, disk.image, items, slot, i);
      items := items[slot := i];
      WriteRootDirEntry(slot);
    }

    /** The chain an entry starts is freed, if it has one. */
    method FreeItemChain(i: Item)
      requires Mounted() && FreeFile(Vol().fat, i).Freed?
      modifies disk, fatRead, fatWrite
      ensures Mounted() && Vol() == old(Vol()).(fat := FreeFile(old(Vol().fat), i).fat) && (old(Mirrored()) ==> Mirrored())
    {
      if FirstCluster(i) >= 2 {
        FreeClusterChain(FirstCluster(i));
      }
    }

    // -------------------------------------------------------------- public operations

    /** fat16_open in write mode: truncate or create. */
    method OpenForWrite(name: seq<Byte>) returns (r: Option<FileHandle>)
      requires Mounted() && CString(name)
      requires OpenWrite(Vol(), name) != FsFault
      modifies this, disk, fatRead, fatWrite
      ensures Mounted() && (old(Mirrored()) ==> Mirrored())
      ensures var f := OpenWrite(old(Vol()), name);
              if f.Done?
              then r.Some? && fresh(r.value) && Vol() == f.vol && f.slot < |items| && r.value.Value() == Handle(items[f.slot], 0, f.slot)
              else r.None? && Vol() == old(Vol())
    {
      var slot := FindSlotByName(name);
      if slot.None? {
        slot := FindFreeSlot();
        if slot.None? {
          return None;
        }
        var base, ext := NameTo83(name);
        StoreItem(slot.value, RawItem(base, ext, ARCHIVED, seq(8, _ => 0), 0, seq(4, _ => 0), 0, 0));
        if slot.value >= total {
          total := slot.value + 1;
        }
      } else {
        var existing := items[slot.value];
        FreeItemChain(existing);
        StoreItem(slot.value, existing.(filesize := 0, low := 0, high := 0));
      }
      var h := new FileHandle(items[slot.value], slot.value);
      return Some(h);
    }

    /** fat16_delete. */
    method DeleteFile(name: seq<Byte>) returns (res: int)
      requires Mounted() && CString(name)
      requires Delete(Vol(), name) != FsFault
      modifies this`items, disk, fatRead, fatWrite
      ensures Mounted() && (old(Mirrored()) ==> Mirrored())
      ensures var f := Delete(old(Vol()), name);
              if f.Done? then res == 0 && Vol() == f.vol else res == -EIO && Vol() == old(Vol())
    {
      var slot := FindSlotByName(name);
      if slot.None? {
        return -EIO;
      }
      var item := items[slot.value];
      FreeItemChain(item);
      StoreItem(slot.value, item.(filename := item.filename[0 := DELETED], filesize := 0, low := 0, high := 0));
      return 0;
    }

    /** fat16_write: the byte count is a 32-bit product. */
    method WriteFile(h: FileHandle, size: Word32, nmemb: Word32, buf: seq<Byte>) returns (res: int)
      requires Mounted() && h.slot < |items|
      requires |buf| == (size as int) * (nmemb as int) % TWO32
      requires Write(Vol(), h.Value(), buf) != WriteOutside
      modifies this`items, disk, fatRead, fatWrite, clusterWrite, h
      ensures Mounted() && (old(Mirrored()) ==> Mirrored())
      ensures match Write(old(Vol()), old(h.Value()), buf)
              case WroteAll(v, h') => res == ToInt(nmemb) && Vol() == v && h.Value() == h'
              case OutOfSpace(v) => res == -ENOMEM && Vol() == v && h.Value() == old(h.Value())
    {
      var ok := WriteBytes(h, buf);
      res := if ok then ToInt(nmemb) else -ENOMEM;
    }

    method WriteBytes(h: FileHandle, buf: seq<Byte>) returns (ok: bool)
      requires Mounted() && h.slot < |items|
      requires Write(Vol(), h.Value(), buf) != WriteOutside
      modifies this`items, disk, fatRead, fatWrite, clusterWrite, h
      ensures Mounted() && (old(Mirrored()) ==> Mirrored())
      ensures match Write(old(Vol()), old(h.Value()), buf)
              case WroteAll(v, h') => ok && Vol() == v && h.Value() == h'
              case OutOfSpace(v) => !ok && Vol() == v && h.Value() == old(h.Value())
    {
      ghost var v, was := Vol(), h.Value();
      ghost var r := WriteFrom(v, FirstCluster(was.item), was.pos, buf);
      var first;
      ok, first := WriteInternal(FirstCluster(h.item), h.pos, buf);
      if ok {
        assert r == Written(Vol().fat, Vol().data, first);
        Commit(h, first, |buf|);
        FinishWritten(v, was, |buf|, Vol(), first, h.Value());
      }
    }

    /** fat16_open in read mode: the last match among the first `total` slots. */
    method OpenForRead(name: seq<Byte>) returns (r: Option<FileHandle>)
      requires total <= |items| && CString(name)
      ensures match LastMatch(items, name, total)
              case Some(s) => r.Some? && fresh(r.value) && r.value.Value() == Handle(items[s], 0, -1)
              case None => r.None?
    {
      var found: Option<Item> := None;
      var i := 0;
      while i < total
        invariant 0 <= i <= total
        invariant found == LastItem(items, name, i)
      {
        LastItemNext(items, name, i);
        var same := NameMatches(items[i], name);
        if same {
          found := Some(items[i]);
        }
        i := i + 1;
      }
      if found.None? {
        return None;
      }
      var h := new FileHandle(found.value, -1);
      return Some(h);
    }

    /** fat16_readdir: the `index`-th listed name. */
    method ReadDir(index: nat) returns (r: Option<seq<Byte>>)
      ensures r == if index < |Listing(items, 0)| then Some(NameOf(items[Listing(items, 0)[index]])) else None
    {
      ghost var list := Listing(items, 0);
      var count := 0;
      var i := 0;
      while i < |items|
        invariant 0 <= i <= |items| && 0 <= count <= index && count <= |list|
        invariant list[count..] == Listing(items, i)
      {
        var entry := items[i];
        if entry.filename[0] == 0 {
          break;
        }
        if entry.filename[0] != DELETED && entry.attribute / 8 % 4 == 0 {
          assert list[count..] == [i] + Listing(items, i + 1);
          assert list[count + 1..] == list[count..][1..];
          if count == index {
            return Some(NameOf(entry));
          }
          count := count + 1;
        }
        i := i + 1;
      }
      return None;
    }

    /** fat16_get_cluster_for_offset: follow `k` links. */
    method ClusterAhead(first: nat, k: nat) returns (r: Option<nat>)
      requires Base() && Locate(FatOf(geo, disk.image), first, k) != Outside
      modifies fatRead
      ensures match Locate(FatOf(geo, disk.image), first, k)
              case Found(c) => r == Some(c)
              case Rejected => r == None
    {
      ghost var fat := FatOf(geo, disk.image);
      var c := first;
      var i := 0;
      while i < k
        invariant 0 <= i <= k
        invariant Locate(fat, c, k - i) == Locate(fat, first, k)
      {
        var entry := GetFatEntry(c);
        if entry == 0xFF8 || entry == 0xFFF {
          return None;
        }
        if entry == 0xFF7 || entry == 0xFF0 || entry == 0xFF6 || entry == 0 {
          return None;
        }
        c := entry;
        i := i + 1;
      }
      return Some(c);
    }

    /** fat16_read_internal_from_stream: one cluster's worth, then the rest. */
    method ReadInternal(first: nat, offset: nat, size: nat) returns (r: Option<seq<Byte>>)
      requires Mounted() && !ReadAt(Vol(), first, offset, size).ReadFault?
      modifies fatRead, clusterRead
      ensures match ReadAt(Vol(), first, offset, size)
              case Got(b) => r == Some(b)
              case ReadError => r == None
      decreases size
    {
      var k, o := SplitOffset(offset, geo.cs);
      var n := if size > geo.cs then geo.cs else size;
      ReadUnfold(Vol(), first, offset, size);
      r := ReadChunk(first, k, o, n);
      if r.Some? && size > n {
        var rest := ReadInternal(first, offset + n, size - n);
        if rest.Some? {
          r := Some(r.value + rest.value);
        } else {
          r := None;
        }
      }
    }

    /** One seek and one read; it is not cut at the end of the cluster. */
    method ReadChunk(first: nat, k: nat, o: nat, n: nat) returns (r: Option<seq<Byte>>)
      requires Mounted() && o < geo.cs && n <= geo.cs
      requires !ChunkAt(Vol().fat, Vol().data, geo.lim, geo.cs, first, k, o, n).ReadFault?
      modifies fatRead, clusterRead
      ensures match ChunkAt(Vol().fat, Vol().data, geo.lim, geo.cs, first, k, o, n)
              case Got(b) => r == Some(b)
              case ReadError => r == None
    {
      var c := ClusterAhead(first, k);
      if c.None? {
        return None;
      }
      ChunkBytes(geo, disk.image, c.value, o, n);
      var start := ClusterStart(geo, c.value);
      clusterRead.Seek(start + o);
      var bytes := clusterRead.Read(n);
      return Some(bytes);
    }

    /** One item of `left`, after `out` was read. */
    method ReadItem(first: nat, offset: nat, size: nat, ghost left: nat, ghost out: seq<Byte>) returns (item: Option<seq<Byte>>)
      requires Mounted() && left > 0
      requires !ReadOn(out, Vol(), first, offset, size, left).ReadFault?
      modifies fatRead, clusterRead
      ensures ReadOn(out, Vol(), first, offset, size, left) ==
              if item.Some? then ReadOn(out + item.value, Vol(), first, offset + size, size, left - 1) else ReadError
    {
      NextItem(Vol(), first, offset, size, left, out);
      item := ReadInternal(first, offset, size);
    }

    /** fat16_read: `nmemb` items of `size` bytes, from the descriptor's position on. The position
        does not move. */
    method ReadFile(h: FileHandle, size: Word32, nmemb: Word32) returns (res: int, out: seq<Byte>)
      requires Mounted() && !ReadItems(Vol(), FirstCluster(h.item), h.pos, size, nmemb).ReadFault?
      modifies fatRead, clusterRead
      ensures match ReadItems(Vol(), FirstCluster(h.item), h.pos, size, nmemb)
              case Got(b) => res == ToInt(nmemb) && out == b
              case ReadError => res == -EIO
    {
      ghost var v := Vol();
      var first := FirstCluster(h.item);
      ghost var result := ReadItems(v, first, h.pos, size, nmemb);
      out := [];
      ReadOnEnds(out, v, first, h.pos, size, nmemb);
      var offset: nat, left: nat := h.pos, nmemb;
      while left > 0
        invariant Mounted() && Vol() == v
        invariant result == ReadOn(out, v, first, offset, size, left)
      {
        var item := ReadItem(first, offset, size, left, out);
        if item.None? {
          return -EIO, out;
        }
        out := out + item.value;
        offset, left := offset + size, left - 1;
      }
      ReadOnEnds(out, v, first, offset, size, 0);
      return ToInt(nmemb), out;
    }

    /** Record a write of `n` bytes in the descriptor's clone and flush it to the directory. */
    method Commit(h: FileHandle, first: nat, n: nat)
      requires Mounted() && h.slot < |items| && first < TWO32
      modifies this`items, disk, fatWrite, h
      ensures Mounted() && (old(Mirrored()) ==> Mirrored())
      ensures h.Value() == Handle(Grown(old(h.item), first, old(h.pos), n), Add32(old(h.pos), n), h.slot)
      ensures Vol() == if h.slot >= 0 then old(Vol()).(root := old(items)[h.slot := h.item]) else old(Vol())
    {
      var end := Add32(h.pos, n);
      if h.item.low == 0 && first != 0 {
        h.item := h.item.(low := first % TWO16, high := first / TWO16);
      }
      if end > h.item.filesize {
        h.item := h.item.(filesize := end);
      }
      h.pos := end;
      if h.slot >= 0 {
        StoreItem(h.slot, h.item);
      }
    }
  }

  const EIO: int := 1
  const ENOMEM: int := 3
  const EUNIMP: int := 7

  /** Cluster index and offset of a file position. */
  method SplitOffset(p: nat, cs: nat) returns (k: nat, o: nat)
    requires cs > 0
    ensures k == Index(p, cs) && o == Offset(p, cs)
  {
    IndexIsDivision(p, cs);
    k, o := p / cs, p % cs;
  }

  /** Conversion of a 32-bit count to a C int. */
  function ToInt(w: Word32): (r: int)
    ensures -0x8000_0000 <= r < 0x8000_0000 && (r - w) % TWO32 == 0
  {
    if w < 0x8000_0000 then w else w - TWO32
  }

  /** A FAT file descriptor. */
  class FileHandle {
    var item: Item
    var pos: Word32
    const slot: int

    constructor (i: Item, s: int)
      ensures Value() == Handle(i, 0, s)
    {
      item, pos, slot := i, 0, s;
    }

    /** fat16_seek: a position at or past the end of the file is refused. */
    method SeekTo(offset: Word32, mode: Runs.SeekMode) returns (res: int)
      modifies this
      ensures Value() == Runs.Seek(old(Value()), offset, mode)
      ensures res == 0 ==> pos == if mode.SeekSet? then offset else (old(pos) + offset) % 0x1_0000_0000
      ensures res != 0 ==> pos == old(pos)
      ensures res == if offset >= old(item.filesize) then -EIO else if mode.SeekEnd? then -EUNIMP else 0
    {
      if offset >= item.filesize {
        return -EIO;
      }
      match mode
      case SeekSet =>
        pos := offset;
        return 0;
      case SeekEnd =>
        return -EUNIMP;
      case SeekCur =>
        pos := Add32(pos, offset);
        return 0;
    }

    ghost function Value(): Handle
      reads this
    {
      Handle(item, pos, slot)
    }
  }

  /** `out`, and `n` more items after it. */
  ghost function ReadOn(out: seq<Byte>, v: Volume, first: nat, p: nat, size: nat, n: nat): ReadResult
    requires ValidVolume(v)
  {
    Then(Got(out), ReadItems(v, first, p, size, n))
  }

  lemma {:induction false} ReadOnEnds(out: seq<Byte>, v: Volume, first: nat, p: nat, size: nat, n: nat)
    requires ValidVolume(v)
    ensures n == 0 ==> ReadOn(out, v, first, p, size, n) == Got(out)
    ensures out == [] ==> ReadOn(out, v, first, p, size, n) == ReadItems(v, first, p, size, n)
  {
    assert out + [] == out;
    var r := ReadItems(v, first, p, size, n);
    assert r.Got? ==> [] + r.bytes == r.bytes;
  }

  lemma {:induction false} NextItem(v: Volume, first: nat, p: nat, size: nat, n: nat, out: seq<Byte>)
    requires ValidVolume(v) && n > 0 && !ReadOn(out, v, first, p, size, n).ReadFault?
    ensures match ReadAt(v, first, p, size)
            case Got(b) => ReadOn(out, v, first, p, size, n) == ReadOn(out + b, v, first, p + size, size, n - 1)
            case ReadError => ReadOn(out, v, first, p, size, n) == ReadError
            case ReadFault => false
  {
    var item, rest := ReadAt(v, first, p, size), ReadItems(v, first, p + size, size, n - 1);
    assert ReadItems(v, first, p, size, n) == Then(item, rest);
    if item.Got? {
      ThenAssoc(out, item.bytes, rest);
    }
  }

  lemma {:induction false} ThenAssoc(a: seq<Byte>, b: seq<Byte>, r: ReadResult)
    ensures Then(Got(a), Then(Got(b), r)) == Then(Got(a + b), r)
  {
    if r.Got? {
      assert a + (b + r.bytes) == a + b + r.bytes;
    }
  }

  /** The bytes under a chunk, if it stays on the volume: those of its cluster and, past its
      end, of the next one on the disk. */
  lemma {:induction false} ChunkBytes(g: Geometry, img: seq<Byte>, c: nat, o: nat, n: nat)
    requires ValidImage(g, img) && o < g.cs && n <= g.cs
    requires Chunk(DataOf(g, img), g.lim, g.cs, c, o, n).Got?
    ensures ClusterPos(g, c) + o < |img| && ClusterPos(g, c) + o + n <= |img|
    ensures ReadInBuffer(ClusterPos(g, c) + o, n)
    ensures Chunk(DataOf(g, img), g.lim, g.cs, c, o, n).bytes == img[ClusterPos(g, c) + o..ClusterPos(g, c) + o + n]
  {
    ClusterInside(g, c);
    ClusterAligned(g, c);
    SameOffset(ClusterPos(g, c), o, n);
    if o + n <= g.cs {
      InCluster(g, img, c, o, n);
    } else {
      AcrossClusters(g, img, c, o, n);
    }
  }

  lemma {:induction false} SameOffset(base: nat, o: nat, n: nat)
    requires base % SECTOR_SIZE == 0 && ReadInBuffer(o, n)
    ensures ReadInBuffer(base + o, n)
  {
    ReadInBufferIff(o, n);
    ReadInBufferIff(base + o, n);
  }

  lemma {:induction false} AcrossClusters(g: Geometry, img: seq<Byte>, c: nat, o: nat, n: nat)
    requires ValidImage(g, img) && 2 <= c && c + 1 < g.lim && o < g.cs && n <= g.cs < o + n
    ensures ClusterPos(g, c) + o + n <= |img|
    ensures DataOf(g, img)[c][o..] + DataOf(g, img)[c + 1][..o + n - g.cs] == img[ClusterPos(g, c) + o..ClusterPos(g, c) + o + n]
  {
    var p, q := ClusterPos(g, c) + o, ClusterPos(g, c + 1);
    assert q == p + (g.cs - o);
    InCluster(g, img, c, o, g.cs - o);
    InCluster(g, img, c + 1, 0, o + n - g.cs);
    SliceJoin(img, p, g.cs - o, n);
    assert DataOf(g, img)[c][o..] == img[p..q];
    assert DataOf(g, img)[c + 1][..o + n - g.cs] == img[q..p + n];
  }

  lemma {:induction false} InCluster(g: Geometry, img: seq<Byte>, c: nat, o: nat, n: nat)
    requires ValidImage(g, img) && 2 <= c < g.lim && o + n <= g.cs
    ensures ClusterPos(g, c) + o + n <= |img|
    ensures DataOf(g, img)[c][o..o + n] == img[ClusterPos(g, c) + o..ClusterPos(g, c) + o + n]
  {
    ClusterInside(g, c);
    DataCluster(g, img, c);
    SliceOfSlice(img, ClusterPos(g, c), g.cs, o, n);
  }

  /** A read is its first chunk, then a read from one cluster further on. */
  lemma {:induction false} ReadUnfold(v: Volume, first: nat, p: nat, size: nat)
    requires ValidVolume(v)
    ensures ReadAt(v, first, p, size)
            == var chunk := ChunkAt(v.fat, v.data, v.lim, v.cs, first, Index(p, v.cs), Offset(p, v.cs), Min(size, v.cs));
               if size <= v.cs then chunk else Then(chunk, ReadAt(v, first, p + v.cs, size - v.cs))
  {
    assert Index(p + v.cs, v.cs) == Index(p, v.cs) + 1 && Offset(p + v.cs, v.cs) == Offset(p, v.cs);
  }

  lemma {:induction false} NameIsShort(i: Item)
    ensures CString(NameOf(i)) && |NameOf(i)| < MAX_PATH
  {
  }

  lemma {:induction false} CacheBut(g: Geometry, img: seq<Byte>, items: seq<Item>, s: nat, i: Item)
    requires ValidImage(g, img) && CacheOk(g, img, items, -1) && s < |items|
    ensures CacheOk(g, img, items[s := i], s)
  {
    CacheOkIff(g, img, items, -1);
    CacheOkIff(g, img, items[s := i], s);
  }

  lemma {:induction false} FatBytes(g: Geometry, img: seq<Byte>, c: nat)
    requires ValidImage(g, img) && c < g.entries
    ensures g.fatBase + 2 * c + 2 <= |img|
    ensures FatOf(g, img)[c] == (img[g.fatBase + 2 * c] as int) + 256 * (img[g.fatBase + 2 * c + 1] as int)
  {
    FatEntry(g, img, c);
  }

  lemma {:induction false} ClusterBytes(g: Geometry, img: seq<Byte>, c: nat, p: nat)
    requires ValidImage(g, img) && 2 <= c < g.lim && p == g.dataBase + (c - 2) * g.cs
    ensures p + g.cs <= |img| && DataOf(g, img)[c] == img[p..p + g.cs]
  {
    SpanIsProduct(c - 2, g.cs);
    DataCluster(g, img, c);
    ClusterIsSlice(g, img, c, p);
  }

  /** What a mounted driver's volume is in bytes of the image: entry c of the FAT is the two bytes at
      2c, low one first; cluster c the (c - 2)-th stretch of the data; slot i of the cache the i-th 32
      bytes of the root directory. */
  lemma {:induction false} VolumeBytes(fs: Fat16, c: nat, i: nat, p: nat, q: nat, r: nat)
    requires fs.Mounted() && 2 <= c < fs.geo.lim && i < fs.geo.slots
    requires p == fs.geo.fatBase + 2 * c && q == fs.geo.dataBase + (c - 2) * fs.geo.cs && r == fs.geo.rootBase + 32 * i
    ensures var img, v := fs.disk.image, fs.Vol();
            && v.lim == fs.geo.lim && v.cs == fs.geo.cs && v.root == fs.items && v.total == fs.total
            && |v.fat| == fs.geo.entries && |v.root| == fs.geo.slots
            && p + 2 <= |img| && v.fat[c] == (img[p] as int) + 256 * (img[p + 1] as int)
            && q + v.cs <= |img| && v.data[c] == img[q..q + v.cs]
            && r + 32 <= |img| && img[r..r + 32] == EncodeItem(v.root[i])
  {
    FatBytes(fs.geo, fs.disk.image, c);
    ClusterBytes(fs.geo, fs.disk.image, c, q);
    CachedSlot(fs.geo, fs.disk.image, fs.items, i, r);
  }

  lemma {:induction false} CachedSlot(g: Geometry, img: seq<Byte>, items: seq<Item>, i: nat, r: nat)
    requires ValidImage(g, img) && |items| == g.slots && CacheOk(g, img, items, -1) && i < g.slots
    requires r == g.rootBase + 32 * i
    ensures r + 32 <= |img| && img[r..r + 32] == EncodeItem(items[i])
  {
    CacheOkIff(g, img, items, -1);
    assert SlotOf(g, img, i) == EncodeItem(items[i]);
  }
}
