/** Where the volume's structures lie in the disk image: the regions laid out by the BIOS parameter
    block (FAT 1, FAT 2, root directory, clusters), and what a write to one of them does to
    all of them. */
module Layout {
  import opened Bytes
  import opened Streamer
  import opened FatChains
  import opened FileData
  import opened Directory

  // ---------------------------------------------------------------- parameter block

  datatype Bpb = Bpb(
    sectorsPerCluster: Byte, reservedSectors: Word16, fatCopies: Byte, rootDirEntries: Word16,
    numberOfSectors: Word16, sectorsPerFat: Word16, sectorsBig: Word32)

  function RootSector(b: Bpb): nat {
    (b.fatCopies as int) * (b.sectorsPerFat as int) + (b.reservedSectors as int)
  }

  /** First data sector; the division rounds down. */
  function EndSector(b: Bpb): nat {
    RootSector(b) + (b.rootDirEntries as int) * ITEM_SIZE / SECTOR_SIZE
  }

  function TotalSectors(b: Bpb): nat {
    if b.numberOfSectors != 0 then b.numberOfSectors else b.sectorsBig
  }

  /** Number of data clusters. */
  function ClusterCount(b: Bpb): nat
    requires b.sectorsPerCluster > 0 && EndSector(b) <= TotalSectors(b)
  {
    (TotalSectors(b) - EndSector(b)) / b.sectorsPerCluster
  }

  /** The first sector of cluster `c`. */
  function ClusterSector(b: Bpb, c: nat): int {
    EndSector(b) + (c - 2) * (b.sectorsPerCluster as int)
  }

  /** What the driver relies on: two FAT copies to write to, a root directory of whole sectors, a
      FAT with an entry for every cluster, cluster numbers below the end marks, and byte
      positions that fit a C int. */
  ghost predicate ValidBpb(b: Bpb) {
    && b.sectorsPerCluster > 0 && b.fatCopies >= 2 && b.rootDirEntries % 16 == 0
    && EndSector(b) <= TotalSectors(b) && TotalSectors(b) * SECTOR_SIZE < 0x8000_0000
    && ClusterCount(b) + 2 <= (b.sectorsPerFat as int) * 256 && ClusterCount(b) + 2 <= EOC_MIN
  }

  // ---------------------------------------------------------------- geometry

  /** Byte positions and counts derived from the parameter block: the two FAT copies of `entries`
      entries each, `slots` directory slots, and clusters of `cs` bytes numbered from 2 below `lim`. */
  datatype Geometry = Geometry(
    fatBase: nat, fat2Base: nat, entries: nat, rootBase: nat, slots: nat, dataBase: nat, cs: nat, lim: nat, size: nat)

  function GeometryOf(b: Bpb): Geometry
    requires b.sectorsPerCluster > 0 && EndSector(b) <= TotalSectors(b)
  {
    var fatBytes := (b.sectorsPerFat as int) * SECTOR_SIZE;
    Geometry(
      b.reservedSectors * SECTOR_SIZE,
      (b.reservedSectors as int) * SECTOR_SIZE + fatBytes,
      fatBytes / 2,
      RootSector(b) * SECTOR_SIZE,
      b.rootDirEntries,
      EndSector(b) * SECTOR_SIZE,
      (b.sectorsPerCluster as int) * SECTOR_SIZE,
      ClusterCount(b) + 2,
      TotalSectors(b) * SECTOR_SIZE)
  }

  /** The regions follow one another without overlap, on sector boundaries, inside the volume. */
  ghost predicate ValidGeometry(g: Geometry) {
    && g.fatBase % SECTOR_SIZE == 0 && g.rootBase % SECTOR_SIZE == 0 && g.dataBase % SECTOR_SIZE == 0
    && g.fatBase + 2 * g.entries <= g.fat2Base && g.fat2Base + 2 * g.entries <= g.rootBase
    && g.rootBase + ITEM_SIZE * g.slots <= g.dataBase
    && g.cs > 0 && g.cs % SECTOR_SIZE == 0
    && 2 <= g.lim <= g.entries && g.lim <= EOC_MIN
    && g.dataBase + Span(g.lim - 2, g.cs) <= g.size < 0x8000_0000
    && Span(g.lim, g.cs) < TWO32
  }

  lemma {:induction false} MulMono(a: int, b: int, m: nat)
    requires a <= b
    ensures a * m <= b * m
  {
    assert (b - a) * m >= 0;
    assert b * m == a * m + (b - a) * m;
  }

  /** A valid parameter block lays out disjoint regions, and the driver's position arithmetic
      lands on them: entry `c` of FAT 2 lies one FAT behind that of FAT 1, and cluster `c` starts
      where the geometry has it. */
  lemma {:induction false} GeometryIsValid(b: Bpb)
    requires ValidBpb(b)
    ensures ValidGeometry(GeometryOf(b))
  {
    MulMono(2, b.fatCopies, b.sectorsPerFat);
    ClustersFit(TotalSectors(b) - EndSector(b), b.sectorsPerCluster);
    WholeSectors(b.rootDirEntries);
    RegionsFollow(b.reservedSectors, b.sectorsPerFat, RootSector(b), b.rootDirEntries, EndSector(b), TotalSectors(b),
                  b.sectorsPerCluster, ClusterCount(b));
  }

  /** The regions in bytes, packed without a gap: FAT copy k begins k FATs behind the reserved sectors,
      the root directory where the last copy ends, the clusters where the last slot ends, and less
      than one cluster is left behind them. */
  lemma {:induction false} RegionsPacked(b: Bpb)
    requires ValidBpb(b)
    ensures var g := GeometryOf(b);
            var reserved: int, fat: int, copies: int := b.reservedSectors * 512, b.sectorsPerFat * 512, b.fatCopies;
            && g.fatBase == reserved && g.fat2Base == reserved + fat && 2 * g.entries == fat
            && g.rootBase == reserved + copies * fat && g.slots == b.rootDirEntries
            && g.dataBase == g.rootBase + 32 * (b.rootDirEntries as int)
            && g.cs == 512 * (b.sectorsPerCluster as int)
            && g.size == 512 * (if b.numberOfSectors != 0 then b.numberOfSectors as int else b.sectorsBig as int)
            && g.dataBase + (g.lim - 2) * g.cs <= g.size < g.dataBase + (g.lim - 1) * g.cs
  {
    WholeSectors(b.rootDirEntries);
    LastCluster(TotalSectors(b) - EndSector(b), b.sectorsPerCluster);
    Regroup(b.fatCopies, b.sectorsPerFat);
  }

  lemma {:induction false} Regroup(a: nat, b: nat)
    ensures a * b * 512 == a * (b * 512)
  {
  }

  /** As many clusters as fit. */
  lemma {:induction false} LastCluster(rest: nat, s: nat)
    requires s > 0
    ensures rest / s * (s * 512) <= rest * 512 < (rest / s + 1) * (s * 512)
  {
    var n := rest / s;
    assert n * s <= rest < (n + 1) * s;
    Regroup(n, s);
    Regroup(n + 1, s);
  }

  lemma {:induction false} RegionsFollow(reserved: nat, spf: nat, root: nat, slots: nat, end: nat, total: nat, spc: nat, count: nat)
    requires reserved + 2 * spf <= root && end * SECTOR_SIZE == root * SECTOR_SIZE + ITEM_SIZE * slots && end <= total
    requires 0 < spc < 256 && Span(count, spc * SECTOR_SIZE) <= (total - end) * SECTOR_SIZE
    requires total * SECTOR_SIZE < 0x8000_0000 && count + 2 <= spf * 256 && count + 2 <= EOC_MIN
    ensures ValidGeometry(Geometry(reserved * SECTOR_SIZE, reserved * SECTOR_SIZE + spf * SECTOR_SIZE, spf * SECTOR_SIZE / 2,
                                   root * SECTOR_SIZE, slots, end * SECTOR_SIZE, spc * SECTOR_SIZE, count + 2, total * SECTOR_SIZE))
  {
    SectorMultiple(reserved);
    SectorMultiple(reserved + spf);
    SectorMultiple(root);
    SectorMultiple(end);
    SectorMultiple(spc);
    assert spf * SECTOR_SIZE / 2 == spf * 256;
    assert Span(count + 2, spc * SECTOR_SIZE) == Span(count + 1, spc * SECTOR_SIZE) + spc * SECTOR_SIZE;
  }

  lemma {:induction false} SectorMultiple(n: nat)
    ensures n * SECTOR_SIZE % SECTOR_SIZE == 0
  {
  }

  lemma {:induction false} WholeSectors(slots: nat)
    requires slots % 16 == 0
    ensures slots * ITEM_SIZE / SECTOR_SIZE * SECTOR_SIZE == ITEM_SIZE * slots
  {
    assert slots == 16 * (slots / 16);
  }

  lemma {:induction false} ClustersFit(sectors: nat, s: nat)
    requires s > 0
    ensures Span(sectors / s, s * SECTOR_SIZE) <= sectors * SECTOR_SIZE
  {
    var n := sectors / s;
    SpanIsProduct(n, s * SECTOR_SIZE);
    assert n * s <= sectors;
    assert n * (s * SECTOR_SIZE) == n * s * SECTOR_SIZE;
  }

  lemma {:induction false} ClusterSectorIs(b: Bpb, c: nat)
    requires ValidBpb(b) && c >= 2
    ensures ClusterSector(b, c) * SECTOR_SIZE == GeometryOf(b).dataBase + Span(c - 2, GeometryOf(b).cs)
  {
    var s: int := b.sectorsPerCluster;
    SpanIsProduct(c - 2, GeometryOf(b).cs);
    assert (c - 2) * (s * SECTOR_SIZE) == (c - 2) * s * SECTOR_SIZE;
  }

  /** The sector of cluster 0, which an empty file has for its first: two clusters before the data. */
  lemma {:induction false} ClusterZeroBeforeData(b: Bpb)
    requires ValidBpb(b)
    ensures ClusterSector(b, 0) * SECTOR_SIZE == GeometryOf(b).dataBase - 2 * GeometryOf(b).cs
  {
  }

  /** The parameter block in the kernel's own boot sector. */
  const BOOT_BPB: Bpb := Bpb(0x80, 200, 2, 0x40, 0, 0x100, 0x773594)

  /** It describes more sectors than a C int can address in bytes, so it is not valid. */
  lemma {:induction false} BootBpbTooLarge()
    ensures !ValidBpb(BOOT_BPB) && ValidBpb(BOOT_BPB.(sectorsBig := 0x3F_FFFF))
  {
    var b := BOOT_BPB.(sectorsBig := 0x3F_FFFF);
    assert EndSector(b) == 716 && TotalSectors(b) == 0x3F_FFFF;
    assert ClusterCount(b) == (0x3F_FFFF - 716) / 128;
  }

  /** With fewer sectors: the root directory begins at sector 712 and the first cluster at 716. */
  lemma {:induction false} BootGeometry()
    ensures GeometryOf(BOOT_BPB.(sectorsBig := 0x3F_FFFF)) ==
            Geometry(200 * 512, 456 * 512, 65536, 712 * 512, 64, 716 * 512, 128 * 512, 32764, 4194303 * 512)
  {
    var b := BOOT_BPB.(sectorsBig := 0x3F_FFFF);
    assert EndSector(b) == 716 && TotalSectors(b) == 0x3F_FFFF;
    assert ClusterCount(b) == (0x3F_FFFF - 716) / 128;
  }

  ghost predicate ValidImage(g: Geometry, img: seq<Byte>) {
    ValidGeometry(g) && |img| % SECTOR_SIZE == 0 && g.size <= |img|
  }

  // ---------------------------------------------------------------- positions

  function SlotPos(g: Geometry, i: nat): nat {
    g.rootBase + i * ITEM_SIZE
  }

  ghost function ClusterPos(g: Geometry, c: nat): nat
    requires c >= 2
  {
    g.dataBase + Span(c - 2, g.cs)
  }

  /** The driver's arithmetic for it. */
  method ClusterStart(g: Geometry, c: nat) returns (p: nat)
    requires c >= 2
    ensures p == ClusterPos(g, c)
  {
    SpanIsProduct(c - 2, g.cs);
    p := g.dataBase + (c - 2) * g.cs;
  }

  /** Every cluster lies between the root directory and the end of the volume. */
  lemma {:induction false} ClusterInside(g: Geometry, c: nat)
    requires ValidGeometry(g) && 2 <= c < g.lim
    ensures g.dataBase <= ClusterPos(g, c) && ClusterPos(g, c) + g.cs <= g.size
  {
    SpanGap(c - 2, g.lim - 2, g.cs);
  }

  lemma {:induction false} ClusterAligned(g: Geometry, c: nat)
    requires ValidGeometry(g) && 2 <= c < g.lim
    ensures ClusterPos(g, c) % SECTOR_SIZE == 0
  {
    SpanAligned(c - 2, g.cs);
  }

  lemma {:induction false} SpanAligned(n: nat, cs: nat)
    requires cs % SECTOR_SIZE == 0
    ensures Span(n, cs) % SECTOR_SIZE == 0
  {
    if n > 0 {
      SpanAligned(n - 1, cs);
    }
  }

  /** Clusters do not overlap. */
  lemma {:induction false} ClustersApart(g: Geometry, c: nat, d: nat)
    requires 2 <= c < d
    ensures ClusterPos(g, c) + g.cs <= ClusterPos(g, d)
  {
    SpanGap(c - 2, d - 2, g.cs);
  }

  /** Item `i` of `m` items of `w` bytes to the sector. */
  lemma {:induction false} InSector(base: nat, i: nat, w: nat, m: nat)
    requires base % SECTOR_SIZE == 0 && m > 0 && m * w == SECTOR_SIZE
    ensures (base + i * w) % SECTOR_SIZE + w <= SECTOR_SIZE
  {
    var q, r := i / m, i % m;
    assert i * w == q * (m * w) + r * w by { assert i == q * m + r; }
    assert base + i * w == SECTOR_SIZE * (base / SECTOR_SIZE + q) + r * w;
    assert r * w + w <= m * w by { MulMono(r + 1, m, w); }
  }

  /** FAT entries and directory slots never straddle a sector, as the streamer requires of reads. */
  lemma {:induction false} InOneSector(g: Geometry, c: nat, i: nat)
    requires ValidGeometry(g)
    ensures ReadInBuffer(g.fatBase + 2 * c, 2)
    ensures ReadInBuffer(SlotPos(g, i), ITEM_SIZE)
  {
    InSector(g.fatBase, c, 2, 256);
    InSector(g.rootBase, i, ITEM_SIZE, 16);
    ReadInBufferIff(g.fatBase + 2 * c, 2);
    ReadInBufferIff(SlotPos(g, i), ITEM_SIZE);
  }

  // ---------------------------------------------------------------- projections

  function EntryAt(img: seq<Byte>, p: nat): nat
    requires p + 2 <= |img|
  {
    Decode16(img[p..p + 2])
  }

  /** The table of `n` entries at `base`. */
  function FatTo(n: nat, img: seq<Byte>, base: nat): (f: seq<nat>)
    requires base + 2 * n <= |img|
    ensures |f| == n
  {
    if n == 0 then [] else FatTo(n - 1, img, base) + [EntryAt(img, base + 2 * (n - 1))]
  }

  lemma {:induction false} FatToEntry(n: nat, img: seq<Byte>, base: nat, c: nat)
    requires base + 2 * n <= |img| && c < n
    ensures FatTo(n, img, base)[c] == EntryAt(img, base + 2 * c)
  {
    if c < n - 1 {
      FatToEntry(n - 1, img, base, c);
    }
  }

  /** The first FAT copy, the one the driver reads. */
  ghost function FatOf(g: Geometry, img: seq<Byte>): (f: seq<nat>)
    requires ValidImage(g, img)
    ensures |f| == g.entries
  {
    FatTo(g.entries, img, g.fatBase)
  }

  ghost function Fat2Of(g: Geometry, img: seq<Byte>): (f: seq<nat>)
    requires ValidImage(g, img)
    ensures |f| == g.entries
  {
    FatTo(g.entries, img, g.fat2Base)
  }

  ghost function SlotOf(g: Geometry, img: seq<Byte>, i: nat): (s: seq<Byte>)
    requires ValidImage(g, img) && i < g.slots
    ensures |s| == ITEM_SIZE
  {
    img[SlotPos(g, i)..SlotPos(g, i) + ITEM_SIZE]
  }

  ghost function ClusterOf(g: Geometry, img: seq<Byte>, c: nat): (s: seq<Byte>)
    requires ValidImage(g, img) && c < g.lim
    ensures c >= 2 ==> |s| == g.cs
  {
    if c < 2 then [] else
      ClusterInside(g, c);
      img[ClusterPos(g, c)..ClusterPos(g, c) + g.cs]
  }

  /** A word at `p`, low byte first. */
  ghost predicate EntryBytes(img: seq<Byte>, p: nat, w: Word16) {
    p + 2 <= |img| && img[p] == w % 256 && img[p + 1] == w / 256
  }

  /** The clusters numbered below `n`. */
  ghost function DataTo(g: Geometry, img: seq<Byte>, n: nat): (d: seq<seq<Byte>>)
    requires ValidImage(g, img) && n <= g.lim
    ensures ValidData(d, n, g.cs)
  {
    if n == 0 then [] else DataTo(g, img, n - 1) + [ClusterOf(g, img, n - 1)]
  }

  ghost function DataOf(g: Geometry, img: seq<Byte>): (d: seq<seq<Byte>>)
    requires ValidImage(g, img)
    ensures ValidData(d, g.lim, g.cs)
  {
    DataTo(g, img, g.lim)
  }

  lemma {:induction false} DataToCluster(g: Geometry, img: seq<Byte>, n: nat, c: nat)
    requires ValidImage(g, img) && c < n <= g.lim
    ensures DataTo(g, img, n)[c] == ClusterOf(g, img, c)
  {
    if c < n - 1 {
      DataToCluster(g, img, n - 1, c);
    }
  }

  lemma {:induction false} DataCluster(g: Geometry, img: seq<Byte>, c: nat)
    requires ValidImage(g, img) && c < g.lim
    ensures DataOf(g, img)[c] == ClusterOf(g, img, c)
  {
    DataToCluster(g, img, g.lim, c);
  }

  lemma {:induction false} FatEntry(g: Geometry, img: seq<Byte>, c: nat)
    requires ValidImage(g, img) && c < g.entries
    ensures FatOf(g, img)[c] == EntryAt(img, g.fatBase + 2 * c)
  {
    FatToEntry(g.entries, img, g.fatBase, c);
  }

  // ---------------------------------------------------------------- writes and regions

  lemma {:induction false} FatMissed(n: nat, img: seq<Byte>, base: nat, p: nat, d: seq<Byte>)
    requires base + 2 * n <= |img| && p + |d| <= |img|
    requires p + |d| <= base || base + 2 * n <= p
    ensures FatTo(n, Splice(img, p, d), base) == FatTo(n, img, base)
  {
    forall c | 0 <= c < n
      ensures FatTo(n, Splice(img, p, d), base)[c] == FatTo(n, img, base)[c]
    {
      FatToEntry(n, img, base, c);
      FatToEntry(n, Splice(img, p, d), base, c);
      SpliceMisses(img, p, d, base + 2 * c, 2);
    }
  }

  /** Writing one entry changes that entry. */
  lemma {:induction false} FatHit(n: nat, img: seq<Byte>, base: nat, c: nat, w: Word16)
    requires base + 2 * n <= |img| && c < n
    ensures FatTo(n, Splice(img, base + 2 * c, Encode16(w)), base) == FatTo(n, img, base)[c := w]
  {
    var img' := Splice(img, base + 2 * c, Encode16(w));
    forall k | 0 <= k < n
      ensures FatTo(n, img', base)[k] == FatTo(n, img, base)[c := w][k]
    {
      FatToEntry(n, img, base, k);
      FatToEntry(n, img', base, k);
      if k == c {
        assert img'[base + 2 * c..base + 2 * c + 2] == Encode16(w);
        Word16RoundTrip(w, Encode16(w));
      } else {
        SpliceMisses(img, base + 2 * c, Encode16(w), base + 2 * k, 2);
      }
    }
  }

  ghost predicate SameSlots(g: Geometry, img: seq<Byte>, img': seq<Byte>)
    requires ValidImage(g, img) && ValidImage(g, img')
  {
    forall i :: 0 <= i < g.slots ==> SlotOf(g, img', i) == SlotOf(g, img, i)
  }

  lemma {:induction false} RootMissed(g: Geometry, img: seq<Byte>, p: nat, d: seq<Byte>)
    requires ValidImage(g, img) && p + |d| <= |img|
    requires p + |d| <= g.rootBase || g.dataBase <= p
    ensures SameSlots(g, img, Splice(img, p, d))
  {
    forall i | 0 <= i < g.slots
      ensures SlotOf(g, Splice(img, p, d), i) == SlotOf(g, img, i)
    {
      SpliceMisses(img, p, d, SlotPos(g, i), ITEM_SIZE);
    }
  }

  lemma {:induction false} DataMissed(g: Geometry, img: seq<Byte>, p: nat, d: seq<Byte>)
    requires ValidImage(g, img) && p + |d| <= g.dataBase <= |img|
    ensures DataOf(g, Splice(img, p, d)) == DataOf(g, img)
  {
    forall c | 0 <= c < g.lim
      ensures DataOf(g, Splice(img, p, d))[c] == DataOf(g, img)[c]
    {
      DataCluster(g, img, c);
      DataCluster(g, Splice(img, p, d), c);
      if c >= 2 {
        ClusterInside(g, c);
        SpliceMisses(img, p, d, ClusterPos(g, c), g.cs);
      }
    }
  }

  /** Writing one entry of the first copy changes that entry and nothing else ... */
  lemma {:induction false} Fat1Effect(g: Geometry, img: seq<Byte>, c: nat, w: Word16)
    requires ValidImage(g, img) && c < g.entries
    ensures var img' := Splice(img, g.fatBase + 2 * c, Encode16(w));
            && ValidImage(g, img')
            && FatOf(g, img') == FatOf(g, img)[c := w] && Fat2Of(g, img') == Fat2Of(g, img)
            && SameSlots(g, img, img') && DataOf(g, img') == DataOf(g, img)
  {
    var img' := Splice(img, g.fatBase + 2 * c, Encode16(w));
    assert FatOf(g, img') == FatOf(g, img)[c := w] by { FatHit(g.entries, img, g.fatBase, c, w); }
    assert Fat2Of(g, img') == Fat2Of(g, img) by { FatMissed(g.entries, img, g.fat2Base, g.fatBase + 2 * c, Encode16(w)); }
    assert SameSlots(g, img, img') by { RootMissed(g, img, g.fatBase + 2 * c, Encode16(w)); }
    assert DataOf(g, img') == DataOf(g, img) by { DataMissed(g, img, g.fatBase + 2 * c, Encode16(w)); }
  }

  /** ... and likewise for the second. */
  lemma {:induction false} Fat2Effect(g: Geometry, img: seq<Byte>, c: nat, w: Word16)
    requires ValidImage(g, img) && c < g.entries
    ensures var img' := Splice(img, g.fat2Base + 2 * c, Encode16(w));
            && ValidImage(g, img')
            && FatOf(g, img') == FatOf(g, img) && Fat2Of(g, img') == Fat2Of(g, img)[c := w]
            && SameSlots(g, img, img') && DataOf(g, img') == DataOf(g, img)
  {
    var p, d := g.fat2Base + 2 * c, Encode16(w);
    var img' := Splice(img, p, d);
    assert FatOf(g, img') == FatOf(g, img) by { FatMissed(g.entries, img, g.fatBase, p, d); }
    assert Fat2Of(g, img') == Fat2Of(g, img)[c := w] by { FatHit(g.entries, img, g.fat2Base, c, w); }
    assert SameSlots(g, img, img') by { RootMissed(g, img, p, d); }
    assert DataOf(g, img') == DataOf(g, img) by { DataMissed(g, img, p, d); }
  }

  /** Writing one directory slot changes that slot and nothing else. */
  lemma {:induction false} SlotEffect(g: Geometry, img: seq<Byte>, s: nat, d: seq<Byte>)
    requires ValidImage(g, img) && s < g.slots && |d| == ITEM_SIZE
    ensures var img' := Splice(img, SlotPos(g, s), d);
            && ValidImage(g, img')
            && FatOf(g, img') == FatOf(g, img) && Fat2Of(g, img') == Fat2Of(g, img)
            && (forall i :: 0 <= i < g.slots ==> SlotOf(g, img', i) == if i == s then d else SlotOf(g, img, i))
            && DataOf(g, img') == DataOf(g, img)
  {
    FatMissed(g.entries, img, g.fatBase, SlotPos(g, s), d);
    FatMissed(g.entries, img, g.fat2Base, SlotPos(g, s), d);
    DataMissed(g, img, SlotPos(g, s), d);
    forall i | 0 <= i < g.slots
      ensures SlotOf(g, Splice(img, SlotPos(g, s), d), i) == if i == s then d else SlotOf(g, img, i)
    {
      if i != s {
        SpliceMisses(img, SlotPos(g, s), d, SlotPos(g, i), ITEM_SIZE);
      }
    }
  }

  /** Writing inside one cluster changes that cluster and nothing else. */
  lemma {:induction false} ClusterEffect(g: Geometry, img: seq<Byte>, c: nat, o: nat, d: seq<Byte>)
    requires ValidImage(g, img) && 2 <= c < g.lim && o + |d| <= g.cs
    ensures ClusterPos(g, c) + o + |d| <= |img|
    ensures var img' := Splice(img, ClusterPos(g, c) + o, d);
            && ValidImage(g, img')
            && FatOf(g, img') == FatOf(g, img) && Fat2Of(g, img') == Fat2Of(g, img)
            && SameSlots(g, img, img')
            && DataOf(g, img') == DataOf(g, img)[c := Splice(DataOf(g, img)[c], o, d)]
  {
    ClusterInside(g, c);
    var p := ClusterPos(g, c) + o;
    FatMissed(g.entries, img, g.fatBase, p, d);
    FatMissed(g.entries, img, g.fat2Base, p, d);
    RootMissed(g, img, p, d);
    DataSpliced(g, img, c, o, d);
  }

  lemma {:induction false} DataSpliced(g: Geometry, img: seq<Byte>, c: nat, o: nat, d: seq<Byte>)
    requires ValidImage(g, img) && 2 <= c < g.lim && o + |d| <= g.cs && ClusterPos(g, c) + o + |d| <= |img|
    ensures var img' := Splice(img, ClusterPos(g, c) + o, d);
            ValidImage(g, img') && DataOf(g, img') == DataOf(g, img)[c := Splice(DataOf(g, img)[c], o, d)]
  {
    var img' := Splice(img, ClusterPos(g, c) + o, d);
    DataCluster(g, img, c);
    forall k | 0 <= k < g.lim
      ensures DataOf(g, img')[k] == DataOf(g, img)[c := Splice(DataOf(g, img)[c], o, d)][k]
    {
      DataCluster(g, img, k);
      DataCluster(g, img', k);
      if k >= 2 {
        OneCluster(g, img, c, o, d, k);
      }
    }
  }

  lemma {:induction false} OneCluster(g: Geometry, img: seq<Byte>, c: nat, o: nat, d: seq<Byte>, k: nat)
    requires ValidImage(g, img) && 2 <= c < g.lim && o + |d| <= g.cs && 2 <= k < g.lim
    ensures ClusterPos(g, c) + o + |d| <= |img|
    ensures ClusterOf(g, Splice(img, ClusterPos(g, c) + o, d), k)
            == if k == c then Splice(ClusterOf(g, img, c), o, d) else ClusterOf(g, img, k)
  {
    ClusterInside(g, c);
    if k == c {
      SameCluster(g, img, c, o, d);
    } else {
      OtherCluster(g, img, c, o, d, k);
    }
  }

  lemma {:induction false} SameCluster(g: Geometry, img: seq<Byte>, c: nat, o: nat, d: seq<Byte>)
    requires ValidImage(g, img) && 2 <= c < g.lim && o + |d| <= g.cs && ClusterPos(g, c) + o + |d| <= |img|
    ensures ClusterOf(g, Splice(img, ClusterPos(g, c) + o, d), c) == Splice(ClusterOf(g, img, c), o, d)
  {
    var p := ClusterPos(g, c);
    ClusterIsSlice(g, img, c, p);
    ClusterIsSlice(g, Splice(img, p + o, d), c, p);
    SpliceInside(img, p + o, d, p, g.cs);
  }

  lemma {:induction false} OtherCluster(g: Geometry, img: seq<Byte>, c: nat, o: nat, d: seq<Byte>, k: nat)
    requires ValidImage(g, img) && 2 <= c < g.lim && o + |d| <= g.cs && ClusterPos(g, c) + o + |d| <= |img|
    requires 2 <= k < g.lim && k != c
    ensures ClusterOf(g, Splice(img, ClusterPos(g, c) + o, d), k) == ClusterOf(g, img, k)
  {
    var p, q := ClusterPos(g, c), ClusterPos(g, k);
    ClusterIsSlice(g, img, k, q);
    ClusterIsSlice(g, Splice(img, p + o, d), k, q);
    if k < c { ClustersApart(g, k, c); } else { ClustersApart(g, c, k); }
    SpliceMisses(img, p + o, d, q, g.cs);
  }

  lemma {:induction false} ClusterIsSlice(g: Geometry, img: seq<Byte>, c: nat, p: nat)
    requires ValidImage(g, img) && 2 <= c < g.lim && p == ClusterPos(g, c)
    ensures p + g.cs <= |img| && ClusterOf(g, img, c) == img[p..p + g.cs]
  {
    ClusterInside(g, c);
  }
}
