/** Two-level page tables of 32-bit paging, with every directory, table and descriptor taken from
    the kernel heap, one 4096-byte block each. */
module Paging {
  import opened Bytes
  import opened Heap

  const ENTRIES: nat := 1024
  const PAGE_SIZE: nat := 4096
  const PAGES: nat := 0x10_0000
  const WRITEABLE: nat := 2
  const EINVARG: int := 2

  // ---------------------------------------------------------------- words

  /** Or-ing flags into an aligned address adds them, and masking takes them off again. */
  lemma {:induction false} OrIsAddition(a: bv32, f: bv32)
    requires a & 0xFFF == 0 && f & 0xFFFF_F000 == 0
    ensures a | f == a + f && (a | f) & 0xFFFF_F000 == a && (a | f) & 0xFFF == f
  {
  }

  function Pointer(e: Word32): nat {
    e - e % PAGE_SIZE
  }

  /** flags | PAGING_IS_WRITEABLE. */
  function WithWrite(flags: nat): (f: nat)
    requires flags < PAGE_SIZE
    ensures f < PAGE_SIZE
  {
    if flags / WRITEABLE % 2 == 1 then flags else flags + WRITEABLE
  }

  /** Bit 1 is set and every other bit is that of `flags`. */
  lemma {:induction false} WriteBit(flags: nat)
    requires flags < 4096
    ensures var f := WithWrite(flags); f / 2 % 2 == 1 && f % 2 == flags % 2 && f / 4 == flags / 4
  {
  }

  function AddressOf(saddr: nat, b: nat): nat {
    saddr + b * PAGE_SIZE
  }

  function BlockAt(saddr: nat, addr: nat): int {
    (addr - saddr) / PAGE_SIZE
  }

  lemma {:induction false} BlockOfAddress(saddr: nat, b: nat)
    ensures BlockAt(saddr, AddressOf(saddr, b)) == b
  {
  }

  lemma {:induction false} Tagged(saddr: nat, b: nat, flags: nat)
    requires saddr % PAGE_SIZE == 0 && flags < PAGE_SIZE && AddressOf(saddr, b) + PAGE_SIZE <= TWO32
    ensures Pointer(AddressOf(saddr, b) + flags) == AddressOf(saddr, b)
    ensures (AddressOf(saddr, b) + flags) % PAGE_SIZE == flags
  {
  }

  // ---------------------------------------------------------------- memory

  /** Contents of the blocks in use, 1024 words each, by block number. */
  type Memory = map<nat, seq<Word32>>

  /** A page directory in memory: the blocks of its descriptor, its directory and its tables. */
  datatype Space = Space(chunk: nat, dir: nat, tables: seq<nat>)

  ghost function Elems(ts: seq<nat>): set<nat> {
    if ts == [] then {} else Elems(ts[..|ts| - 1]) + {ts[|ts| - 1]}
  }

  lemma {:induction false} ElemsNext(ts: seq<nat>, b: nat)
    ensures Elems(ts + [b]) == Elems(ts) + {b}
  {
    assert (ts + [b])[..|ts|] == ts;
  }

  lemma {:induction false} ElemsIff(ts: seq<nat>, b: nat)
    ensures b in Elems(ts) <==> b in ts
  {
    if ts != [] {
      ElemsIff(ts[..|ts| - 1], b);
      assert ts == ts[..|ts| - 1] + [ts[|ts| - 1]];
    }
  }

  ghost function Blocks(sp: Space): set<nat> {
    {sp.chunk, sp.dir} + Elems(sp.tables)
  }

  /** The tables are reached from the directory by masking its entries, the directory from the
      descriptor; all blocks are different. */
  ghost predicate IsSpace(mem: Memory, saddr: nat, sp: Space) {
    && |sp.tables| == ENTRIES && Distinct(sp.tables)
    && sp.chunk != sp.dir && sp.chunk !in sp.tables && sp.dir !in sp.tables
    && HasBlock(mem, sp.chunk) && HasBlock(mem, sp.dir)
    && mem[sp.chunk][0] == AddressOf(saddr, sp.dir)
    && forall i :: 0 <= i < ENTRIES ==> TableAt(mem, saddr, sp, i)
  }

  ghost predicate HasBlock(mem: Memory, b: nat) {
    b in mem && |mem[b]| == ENTRIES
  }

  ghost predicate TableAt(mem: Memory, saddr: nat, sp: Space, i: nat)
    requires |sp.tables| == ENTRIES && HasBlock(mem, sp.dir) && i < ENTRIES
  {
    HasBlock(mem, sp.tables[i]) && Pointer(mem[sp.dir][i]) == AddressOf(saddr, sp.tables[i])
  }

  /** The entry that translates page `p`. */
  ghost function EntryOf(mem: Memory, saddr: nat, sp: Space, p: nat): Word32
    requires IsSpace(mem, saddr, sp) && p < PAGES
  {
    assert TableAt(mem, saddr, sp, p / ENTRIES);
    mem[sp.tables[p / ENTRIES]][p % ENTRIES]
  }

  /** Memory with one entry of one table changed. */
  ghost function Changed(mem: Memory, saddr: nat, sp: Space, p: nat, val: Word32): Memory
    requires IsSpace(mem, saddr, sp) && p < PAGES
  {
    assert TableAt(mem, saddr, sp, p / ENTRIES);
    var t: seq<Word32> := mem[sp.tables[p / ENTRIES]][p % ENTRIES := val];
    mem[sp.tables[p / ENTRIES] := t]
  }

  /** Setting a page's entry changes the translation of that page only ... */
  lemma {:induction false} SetOne(mem: Memory, saddr: nat, sp: Space, p: nat, val: Word32, q: nat)
    requires IsSpace(mem, saddr, sp) && p < PAGES && q < PAGES
    ensures IsSpace(Changed(mem, saddr, sp, p, val), saddr, sp)
    ensures EntryOf(Changed(mem, saddr, sp, p, val), saddr, sp, q) == if q == p then val else EntryOf(mem, saddr, sp, q)
  {
    var mem' := Changed(mem, saddr, sp, p, val);
    forall i | 0 <= i < ENTRIES
      ensures TableAt(mem', saddr, sp, i)
    {
      assert TableAt(mem, saddr, sp, i);
    }
    assert TableAt(mem, saddr, sp, q / ENTRIES);
  }

  /** Nothing but the tables of `sp` differs. */
  ghost predicate OnlyTables(mem: Memory, mem': Memory, sp: Space) {
    mem'.Keys == mem.Keys && forall b :: b in mem && b !in sp.tables ==> mem'[b] == mem[b]
  }

  /** ... and no translation of a directory that shares no block with it. */
  lemma {:induction false} Isolated(mem: Memory, mem': Memory, saddr: nat, a: Space, b: Space, q: nat)
    requires IsSpace(mem, saddr, b) && OnlyTables(mem, mem', a) && Blocks(a) !! Blocks(b) && q < PAGES
    ensures IsSpace(mem', saddr, b)
    ensures EntryOf(mem', saddr, b, q) == EntryOf(mem, saddr, b, q)
  {
    forall c | c in Blocks(b)
      ensures c in mem ==> c in mem' && mem'[c] == mem[c]
    {
      ElemsIff(a.tables, c);
      assert c !in Blocks(a);
    }
    assert b.chunk in Blocks(b) && b.dir in Blocks(b);
    forall i | 0 <= i < ENTRIES
      ensures TableAt(mem', saddr, b, i) && mem'[b.tables[i]] == mem[b.tables[i]]
    {
      ElemsIff(b.tables, b.tables[i]);
      assert TableAt(mem, saddr, b, i) && b.tables[i] in Blocks(b);
    }
  }

  /** Putting a saved entry back undoes a temporary mapping. */
  lemma {:induction false} RestoreUndoes(mem: Memory, saddr: nat, sp: Space, p: nat, val: Word32)
    requires IsSpace(mem, saddr, sp) && p < PAGES
    ensures IsSpace(Changed(mem, saddr, sp, p, val), saddr, sp)
    ensures Changed(Changed(mem, saddr, sp, p, val), saddr, sp, p, EntryOf(mem, saddr, sp, p)) == mem
  {
    SetOne(mem, saddr, sp, p, val, p);
    assert TableAt(mem, saddr, sp, p / ENTRIES);
    var t := mem[sp.tables[p / ENTRIES]];
    assert t[p % ENTRIES := val][p % ENTRIES := t[p % ENTRIES]] == t;
  }

  // ---------------------------------------------------------------- ranges

  /** Entry of page `q` after `n` pages from `vp` on were mapped to the frames from `phys` on, page
      numbers and addresses wrapping at 4 GB. */
  ghost function RangeEntry(was: Word32, vp: nat, phys: nat, flags: nat, n: nat, q: nat): Word32
    requires flags < PAGE_SIZE && phys % PAGE_SIZE == 0
  {
    var j := (q - vp) % PAGES;
    if j < n then (phys + j * PAGE_SIZE) % TWO32 + flags else was
  }

  lemma {:induction false} SameResidue(q: nat, vp: nat, n: nat)
    requires q < PAGES
    ensures (q - vp) % PAGES == n % PAGES <==> q == (vp + n) % PAGES
  {
  }

  lemma {:induction false} SameFrame(phys: nat, n: nat)
    ensures (phys + n % PAGES * PAGE_SIZE) % TWO32 == (phys + n * PAGE_SIZE) % TWO32
  {
    assert n == n / PAGES * PAGES + n % PAGES;
    assert n * PAGE_SIZE == n / PAGES * TWO32 + n % PAGES * PAGE_SIZE;
  }

  lemma {:induction false} RangeStep(was: Word32, vp: nat, phys: nat, flags: nat, n: nat, q: nat)
    requires flags < PAGE_SIZE && phys % PAGE_SIZE == 0 && q < PAGES
    ensures RangeEntry(was, vp, phys, flags, n + 1, q) ==
            if q == (vp + n) % PAGES then (phys + n * PAGE_SIZE) % TWO32 + flags
            else RangeEntry(was, vp, phys, flags, n, q)
  {
    SameResidue(q, vp, n);
    SameFrame(phys, n);
  }

  /** `n` pages of `sp` were mapped, and nothing else differs. */
  ghost predicate RangeMapped(mem: Memory, mem': Memory, saddr: nat, sp: Space, vp: nat, phys: nat, flags: nat, n: nat)
    requires flags < PAGE_SIZE && phys % PAGE_SIZE == 0
  {
    && IsSpace(mem, saddr, sp) && OnlyTables(mem, mem', sp) && IsSpace(mem', saddr, sp)
    && forall q :: 0 <= q < PAGES ==>
         EntryOf(mem', saddr, sp, q) == RangeEntry(EntryOf(mem, saddr, sp, q), vp, phys, flags, n, q)
  }

  /** The page and the frame of round `i`. */
  function PageAt(vp: nat, i: nat): (p: nat)
    ensures p < PAGES
  {
    (vp + i) % PAGES
  }

  function FrameAt(phys: nat, i: nat): (r: Word32)
    requires phys % PAGE_SIZE == 0
    ensures r % PAGE_SIZE == 0
  {
    (phys + i * PAGE_SIZE) % TWO32
  }

  lemma {:induction false} NextPage(vp: nat, i: nat)
    ensures (PageAt(vp, i) * PAGE_SIZE + PAGE_SIZE) % TWO32 == PageAt(vp, i + 1) * PAGE_SIZE
  {
    if PageAt(vp, i) + 1 < PAGES {
      assert PageAt(vp, i + 1) == PageAt(vp, i) + 1;
    }
  }

  lemma {:induction false} NextFrame(phys: nat, i: nat)
    requires phys % PAGE_SIZE == 0
    ensures (FrameAt(phys, i) + PAGE_SIZE) % TWO32 == FrameAt(phys, i + 1)
  {
  }

  lemma {:induction false} OnlyTablesNext(mem: Memory, mem': Memory, saddr: nat, sp: Space, p: nat, val: Word32)
    requires OnlyTables(mem, mem', sp) && IsSpace(mem', saddr, sp) && p < PAGES
    ensures OnlyTables(mem, Changed(mem', saddr, sp, p, val), sp)
  {
    assert TableAt(mem', saddr, sp, p / ENTRIES);
  }

  lemma {:induction false} RangeMappedNext(mem: Memory, mem': Memory, saddr: nat, sp: Space,
                                           vp: nat, phys: nat, flags: nat, i: nat, p: nat, val: Word32)
    requires flags < PAGE_SIZE && phys % PAGE_SIZE == 0 && RangeMapped(mem, mem', saddr, sp, vp, phys, flags, i)
    requires p == PageAt(vp, i) && val == FrameAt(phys, i) + flags
    ensures RangeMapped(mem, Changed(mem', saddr, sp, p, val), saddr, sp, vp, phys, flags, i + 1)
  {
    var m := Changed(mem', saddr, sp, p, val);
    SetOne(mem', saddr, sp, p, val, 0);
    OnlyTablesNext(mem, mem', saddr, sp, p, val);
    forall q | 0 <= q < PAGES
      ensures EntryOf(m, saddr, sp, q) == RangeEntry(EntryOf(mem, saddr, sp, q), vp, phys, flags, i + 1, q)
    {
      SetOne(mem', saddr, sp, p, val, q);
      RangeStep(EntryOf(mem, saddr, sp, q), vp, phys, flags, i, q);
    }
  }

  /** Round `i`: the page at `v` was mapped to the frame at `p`, and both move on. */
  lemma {:induction false} Round(mem: Memory, was: Memory, now: Memory, saddr: nat, sp: Space,
                                 vp: nat, phys: nat, flags: nat, i: nat, v: Word32, p: Word32)
    requires flags < PAGE_SIZE && phys % PAGE_SIZE == 0 && RangeMapped(mem, was, saddr, sp, vp, phys, flags, i)
    requires v == PageAt(vp, i) * PAGE_SIZE && p == FrameAt(phys, i)
    requires now == Changed(was, saddr, sp, PageAt(vp, i), p + flags)
    ensures RangeMapped(mem, now, saddr, sp, vp, phys, flags, i + 1)
    ensures (v + PAGE_SIZE) % TWO32 == PageAt(vp, i + 1) * PAGE_SIZE && (p + PAGE_SIZE) % TWO32 == FrameAt(phys, i + 1)
  {
    RangeMappedNext(mem, was, saddr, sp, vp, phys, flags, i, PageAt(vp, i), p + flags);
    NextPage(vp, i);
    NextFrame(phys, i);
  }

  /** In numbers: page j of the range has frame j, wrapping at 4 GB, and every other page its old entry. */
  lemma {:induction false} RangeExplicit(mem: Memory, mem': Memory, saddr: nat, sp: Space, vp: nat, phys: nat, flags: nat, n: nat)
    requires flags < PAGE_SIZE && phys % PAGE_SIZE == 0 && RangeMapped(mem, mem', saddr, sp, vp, phys, flags, n)
    ensures forall j :: 0 <= j < n ==>
              EntryOf(mem', saddr, sp, (vp + j) % 0x10_0000) == (phys + 4096 * j) % 0x1_0000_0000 + flags
    ensures forall q :: 0 <= q < 0x10_0000 && (q - vp) % 0x10_0000 >= n ==>
              EntryOf(mem', saddr, sp, q) == EntryOf(mem, saddr, sp, q)
  {
    forall j | 0 <= j < n
      ensures EntryOf(mem', saddr, sp, (vp + j) % 0x10_0000) == (phys + 4096 * j) % 0x1_0000_0000 + flags
    {
      var q := (vp + j) % 0x10_0000;
      SameResidue(q, vp, j);
      SameFrame(phys, j);
      assert j % PAGES <= j;
    }
  }

  // ---------------------------------------------------------------- free blocks

  ghost function FreeBlocks(t: seq<bv8>): set<nat> {
    set i: nat | i < |t| && IsFree(t[i])
  }

  lemma {:induction false} FreeAfterMark(t: seq<bv8>, b: nat)
    requires b < |t|
    ensures FreeBlocks(Marked(t, b, 1)) == FreeBlocks(t) - {b}
  {
    RunEntryTaken(0, 1);
  }

  lemma {:induction false} ScanFindsFree(t: seq<bv8>, i: nat)
    requires i in FreeBlocks(t)
    ensures Scan(t, 1).Some?
  {
    ScanCorrectIff(t, 1);
    assert Fits(t, i, 1);
  }

  /** A one-block request is served exactly while a block is free. */
  lemma {:induction false} ScanOne(t: seq<bv8>)
    ensures Scan(t, 1).Some? <==> FreeBlocks(t) != {}
    ensures Scan(t, 1).Some? ==> Scan(t, 1).value in FreeBlocks(t) && Fits(t, Scan(t, 1).value, 1)
  {
    ScanCorrectIff(t, 1);
    if FreeBlocks(t) != {} {
      var i :| i in FreeBlocks(t);
      ScanFindsFree(t, i);
    }
    if Scan(t, 1).Some? {
      FitsAt(t, Scan(t, 1).value, 1, Scan(t, 1).value);
      assert Scan(t, 1).value in FreeBlocks(t);
    }
  }

  /** The allocations with one-block runs at `s` added. */
  ghost function WithBlocks(a: Allocs, s: set<nat>): Allocs {
    a + map b | b in s :: 1
  }

  lemma {:induction false} OneMore(a: Allocs, s: set<nat>, b: nat)
    ensures WithBlocks(a, s)[b := 1] == WithBlocks(a, s + {b})
  {
  }

  // ---------------------------------------------------------------- building a directory

  /** Directory `dir` refers to the tables `ts`, as far as they go. */
  ghost predicate Part(mem: Memory, saddr: nat, dir: nat, ts: seq<nat>) {
    && HasBlock(mem, dir) && |ts| <= ENTRIES && dir !in ts && Distinct(ts)
    && forall i :: 0 <= i < |ts| ==> HasBlock(mem, ts[i]) && Pointer(mem[dir][i]) == AddressOf(saddr, ts[i])
  }

  /** Memory with an entry of the directory set. */
  ghost function Entered(mem: Memory, dir: nat, i: nat, val: Word32): Memory
    requires HasBlock(mem, dir) && i < ENTRIES
  {
    var entries: seq<Word32> := mem[dir][i := val];
    mem[dir := entries]
  }

  lemma {:induction false} PartNext(mem: Memory, saddr: nat, dir: nat, ts: seq<nat>, b: nat, val: Word32)
    requires Part(mem, saddr, dir, ts) && |ts| < ENTRIES && b != dir && b !in ts && HasBlock(mem, b)
    requires Pointer(val) == AddressOf(saddr, b)
    ensures Part(Entered(mem, dir, |ts|, val), saddr, dir, ts + [b])
  {
  }

  lemma {:induction false} PartDone(mem: Memory, saddr: nat, sp: Space)
    requires Part(mem, saddr, sp.dir, sp.tables) && |sp.tables| == ENTRIES
    requires sp.chunk != sp.dir && sp.chunk !in sp.tables
    requires HasBlock(mem, sp.chunk) && mem[sp.chunk][0] == AddressOf(saddr, sp.dir)
    ensures IsSpace(mem, saddr, sp)
  {
    forall i | 0 <= i < ENTRIES
      ensures TableAt(mem, saddr, sp, i)
    {
    }
  }

  /** The blocks `s`, all free before, were claimed one block each, and none given back. */
  ghost predicate ClaimedBlocks(a: Allocs, free: set<nat>, a': Allocs, free': set<nat>, s: set<nat>) {
    s <= free && free' == free - s && s !! a.Keys && a' == WithBlocks(a, s)
  }

  /** The same, not unfolded on sight. */
  ghost predicate ClaimedTo(n: nat, a: Allocs, free: set<nat>, a': Allocs, free': set<nat>, s: set<nat>) {
    if n == 0 then ClaimedBlocks(a, free, a', free', s) else ClaimedTo(n - 1, a, free, a', free', s)
  }

  ghost predicate Claimed(a: Allocs, free: set<nat>, a': Allocs, free': set<nat>, s: set<nat>) {
    ClaimedTo(|free|, a, free, a', free', s)
  }

  lemma {:induction false} ClaimedToIff(n: nat, a: Allocs, free: set<nat>, a': Allocs, free': set<nat>, s: set<nat>)
    ensures ClaimedTo(n, a, free, a', free', s) <==> ClaimedBlocks(a, free, a', free', s)
  {
    if n > 0 { ClaimedToIff(n - 1, a, free, a', free', s); }
  }

  lemma {:induction false} ClaimedIff(a: Allocs, free: set<nat>, a': Allocs, free': set<nat>, s: set<nat>)
    ensures Claimed(a, free, a', free', s) <==> ClaimedBlocks(a, free, a', free', s)
  {
    ClaimedToIff(|free|, a, free, a', free', s);
  }

  lemma {:induction false} ClaimNone(a: Allocs, free: set<nat>)
    ensures Claimed(a, free, a, free, {})
  {
    ClaimedIff(a, free, a, free, {});
  }

  lemma {:induction false} ClaimNext(a: Allocs, free: set<nat>, a': Allocs, free': set<nat>, s: set<nat>, b: nat)
    requires Claimed(a, free, a', free', s) && b in free' && b !in a'
    ensures Claimed(a, free, a'[b := 1], free' - {b}, s + {b}) && |s + {b}| == |s| + 1
  {
    ClaimedIff(a, free, a', free', s);
    OneMore(a, s, b);
    ClaimedIff(a, free, a'[b := 1], free' - {b}, s + {b});
  }

  lemma {:induction false} ClaimOwned(a: Allocs, free: set<nat>, a': Allocs, free': set<nat>, s: set<nat>)
    requires Claimed(a, free, a', free', s)
    ensures forall b :: b in s ==> b in a' && a'[b] == 1
  {
    ClaimedIff(a, free, a', free', s);
  }

  lemma {:induction false} ClaimFresh(a: Allocs, free: set<nat>, a': Allocs, free': set<nat>, s: set<nat>)
    requires Claimed(a, free, a', free', s)
    ensures s !! a.Keys
  {
    ClaimedIff(a, free, a', free', s);
  }

  lemma {:induction false} ClaimPair(a: Allocs, free: set<nat>, b: nat, c: nat)
    requires b in free && b !in a && c in free - {b} && c !in a[b := 1]
    ensures Claimed(a, free, a[b := 1][c := 1], free - {b} - {c}, {b, c})
  {
    ClaimNone(a, free);
    ClaimNext(a, free, a, free, {}, b);
    ClaimNext(a, free, a[b := 1], free - {b}, {} + {b}, c);
    assert {} + {b} + {c} == {b, c};
  }

  /** Giving back all that was claimed restores the heap's table, entry by entry. */
  lemma {:induction false} LifeCycle(before: seq<bv8>, after: seq<bv8>, a: Allocs, a': Allocs, free': set<nat>, s: set<nat>)
    requires Encodes(before, a) && Claimed(a, FreeBlocks(before), a', free', s)
    requires Encodes(after, a' - s) && |after| == |before|
    ensures after == before
  {
    ClaimedIff(a, FreeBlocks(before), a', free', s);
    assert a' - s == a;
    EncodesUnique(before, after, a);
  }

  lemma {:induction false} ClaimLeft(a: Allocs, free: set<nat>, a': Allocs, free': set<nat>, s: set<nat>)
    requires Claimed(a, free, a', free', s)
    ensures free' == {} <==> |s| == |free|
    ensures |s| <= |free|
  {
    ClaimedIff(a, free, a', free', s);
    StillFree(free, s);
  }

  lemma {:induction false} StillFree(free: set<nat>, s: set<nat>)
    requires s <= free
    ensures |free - s| == |free| - |s|
  {
    assert free == s + (free - s);
  }

  /** No block outside `s` changed. */
  ghost predicate Kept(mem: Memory, mem': Memory, s: set<nat>) {
    forall b :: b in mem && b !in s ==> b in mem' && mem'[b] == mem[b]
  }

  /** Every block of the heap has its contents. */
  ghost predicate Backed(mem: Memory, n: nat) {
    forall b :: 0 <= b < n ==> b in mem && |mem[b]| == ENTRIES
  }

  /** Since `mem0` only the blocks `s` changed, and they hold part of a directory. */
  ghost predicate Shape(mem: Memory, saddr: nat, mem0: Memory, n: nat, s: set<nat>, dir: nat, ts: seq<nat>) {
    && Part(mem, saddr, dir, ts) && dir in s && (forall b :: b in ts ==> b in s)
    && Kept(mem0, mem, s) && Backed(mem, n)
  }

  lemma {:induction false} ShapeExtra(mem: Memory, saddr: nat, mem0: Memory, n: nat, s: set<nat>, dir: nat, ts: seq<nat>,
                                      b: nat, words: seq<Word32>)
    requires Shape(mem, saddr, mem0, n, s, dir, ts) && b !in s && |words| == ENTRIES
    ensures Shape(mem[b := words], saddr, mem0, n, s + {b}, dir, ts)
  {
  }

  lemma {:induction false} ShapeEntered(mem: Memory, saddr: nat, mem0: Memory, n: nat, s: set<nat>, dir: nat, ts: seq<nat>,
                                        b: nat, val: Word32)
    requires Shape(mem, saddr, mem0, n, s, dir, ts) && |ts| < ENTRIES
    requires b in s && b != dir && b !in ts && HasBlock(mem, b) && Pointer(val) == AddressOf(saddr, b)
    ensures Shape(Entered(mem, dir, |ts|, val), saddr, mem0, n, s, dir, ts + [b])
  {
    PartNext(mem, saddr, dir, ts, b, val);
  }

  /** Memory with the descriptor pointed at the directory. */
  ghost function Headed(mem: Memory, saddr: nat, sp: Space): Memory
    requires HasBlock(mem, sp.chunk) && AddressOf(saddr, sp.dir) < TWO32
  {
    var words: seq<Word32> := mem[sp.chunk][0 := AddressOf(saddr, sp.dir)];
    mem[sp.chunk := words]
  }

  lemma {:induction false} ShapeHeaded(mem: Memory, saddr: nat, mem0: Memory, n: nat, s: set<nat>, sp: Space)
    requires Shape(mem, saddr, mem0, n, s, sp.dir, sp.tables) && |sp.tables| == ENTRIES
    requires sp.chunk in s && sp.chunk != sp.dir && sp.chunk !in sp.tables && HasBlock(mem, sp.chunk)
    requires AddressOf(saddr, sp.dir) < TWO32
    ensures var mem' := Headed(mem, saddr, sp);
            IsSpace(mem', saddr, sp) && Shape(mem', saddr, mem0, n, s, sp.dir, sp.tables)
  {
    PartDone(Headed(mem, saddr, sp), saddr, sp);
  }

  /** The table of the 4 MB at index `i`, mapped to itself. */
  ghost predicate IsIdentity(words: seq<Word32>, i: nat, flags: nat) {
    |words| == ENTRIES && forall k :: 0 <= k < ENTRIES ==> words[k] == (i * ENTRIES + k) * PAGE_SIZE + flags
  }

  /** The tables `ts` map the memory they stand for to itself. */
  ghost predicate IdentityTo(mem: Memory, saddr: nat, dir: nat, ts: seq<nat>, flags: nat)
    requires Part(mem, saddr, dir, ts) && flags < PAGE_SIZE
  {
    forall j :: 0 <= j < |ts| ==> IsIdentity(mem[ts[j]], j, flags) && mem[dir][j] % PAGE_SIZE == WithWrite(flags)
  }

  lemma {:induction false} IdentityNext(mem: Memory, saddr: nat, dir: nat, ts: seq<nat>, flags: nat, b: nat, val: Word32)
    requires flags < PAGE_SIZE && Part(mem, saddr, dir, ts) && IdentityTo(mem, saddr, dir, ts, flags)
    requires |ts| < ENTRIES && b != dir && b !in ts && b in mem && IsIdentity(mem[b], |ts|, flags)
    requires Pointer(val) == AddressOf(saddr, b) && val % PAGE_SIZE == WithWrite(flags)
    ensures Part(Entered(mem, dir, |ts|, val), saddr, dir, ts + [b])
    ensures IdentityTo(Entered(mem, dir, |ts|, val), saddr, dir, ts + [b], flags)
  {
    PartNext(mem, saddr, dir, ts, b, val);
  }

  lemma {:induction false} IdentityKept(mem: Memory, saddr: nat, dir: nat, ts: seq<nat>, flags: nat, b: nat, words: seq<Word32>)
    requires flags < PAGE_SIZE && Part(mem, saddr, dir, ts) && IdentityTo(mem, saddr, dir, ts, flags)
    requires b != dir && b !in ts && |words| == ENTRIES
    ensures Part(mem[b := words], saddr, dir, ts)
    ensures IdentityTo(mem[b := words], saddr, dir, ts, flags)
  {
  }

  /** Every directory entry has bit 1 set and every other flag bit as in `flags`. */
  lemma {:induction false} DirectoryBits(mem: Memory, saddr: nat, dir: nat, ts: seq<nat>, flags: nat)
    requires flags < PAGE_SIZE && Part(mem, saddr, dir, ts) && IdentityTo(mem, saddr, dir, ts, flags)
    ensures forall i :: 0 <= i < |ts| ==>
              var f := mem[dir][i] % 4096; f / 2 % 2 == 1 && f % 2 == flags % 2 && f / 4 == flags / 4
  {
    WriteBit(flags);
  }

  lemma {:induction false} IdentityDone(mem: Memory, saddr: nat, sp: Space, flags: nat, p: nat)
    requires IsSpace(mem, saddr, sp) && flags < PAGE_SIZE && p < PAGES
    requires Part(mem, saddr, sp.dir, sp.tables) && IdentityTo(mem, saddr, sp.dir, sp.tables, flags)
    ensures EntryOf(mem, saddr, sp, p) == p * PAGE_SIZE + flags
  {
    assert IsIdentity(mem[sp.tables[p / ENTRIES]], p / ENTRIES, flags);
    assert p / ENTRIES * ENTRIES + p % ENTRIES == p;
  }

  /** The tables `ts` are copies of the first tables of `src`, entered with the same flags. */
  ghost predicate CopiedTo(mem: Memory, saddr: nat, dir: nat, ts: seq<nat>, mem0: Memory, src: Space)
    requires Part(mem, saddr, dir, ts) && IsSpace(mem0, saddr, src)
  {
    forall j :: 0 <= j < |ts| ==> CopyAt(mem, saddr, dir, ts, mem0, src, j)
  }

  ghost predicate CopyAt(mem: Memory, saddr: nat, dir: nat, ts: seq<nat>, mem0: Memory, src: Space, j: nat)
    requires Part(mem, saddr, dir, ts) && IsSpace(mem0, saddr, src) && j < |ts|
  {
    src.tables[j] in mem0 && mem[ts[j]] == mem0[src.tables[j]] && mem[dir][j] % PAGE_SIZE == mem0[src.dir][j] % PAGE_SIZE
  }

  lemma {:induction false} CopiedKept(mem: Memory, saddr: nat, dir: nat, ts: seq<nat>, mem0: Memory, src: Space,
                                      b: nat, words: seq<Word32>)
    requires Part(mem, saddr, dir, ts) && IsSpace(mem0, saddr, src) && CopiedTo(mem, saddr, dir, ts, mem0, src)
    requires b != dir && b !in ts && |words| == ENTRIES
    ensures Part(mem[b := words], saddr, dir, ts)
    ensures CopiedTo(mem[b := words], saddr, dir, ts, mem0, src)
  {
    var mem' := mem[b := words];
    forall j | 0 <= j < |ts|
      ensures CopyAt(mem', saddr, dir, ts, mem0, src, j)
    {
      assert CopyAt(mem, saddr, dir, ts, mem0, src, j);
    }
  }

  lemma {:induction false} CopiedNext(mem: Memory, saddr: nat, dir: nat, ts: seq<nat>, mem0: Memory, src: Space, b: nat, val: Word32)
    requires Part(mem, saddr, dir, ts) && IsSpace(mem0, saddr, src) && CopiedTo(mem, saddr, dir, ts, mem0, src)
    requires |ts| < ENTRIES && b != dir && b !in ts && HasBlock(mem, b) && Pointer(val) == AddressOf(saddr, b)
    requires src.tables[|ts|] in mem0 && mem[b] == mem0[src.tables[|ts|]]
    requires val % PAGE_SIZE == mem0[src.dir][|ts|] % PAGE_SIZE
    ensures Part(Entered(mem, dir, |ts|, val), saddr, dir, ts + [b])
    ensures CopiedTo(Entered(mem, dir, |ts|, val), saddr, dir, ts + [b], mem0, src)
  {
    PartNext(mem, saddr, dir, ts, b, val);
    var mem' := Entered(mem, dir, |ts|, val);
    forall j | 0 <= j < |ts| + 1
      ensures CopyAt(mem', saddr, dir, ts + [b], mem0, src, j)
    {
      if j < |ts| {
        assert CopyAt(mem, saddr, dir, ts, mem0, src, j);
      }
    }
  }

  lemma {:induction false} CopiedDone(mem: Memory, saddr: nat, sp: Space, mem0: Memory, src: Space, p: nat)
    requires IsSpace(mem, saddr, sp) && IsSpace(mem0, saddr, src) && Part(mem, saddr, sp.dir, sp.tables) && p < PAGES
    requires CopiedTo(mem, saddr, sp.dir, sp.tables, mem0, src)
    ensures EntryOf(mem, saddr, sp, p) == EntryOf(mem0, saddr, src, p)
  {
    assert CopyAt(mem, saddr, sp.dir, sp.tables, mem0, src, p / ENTRIES);
  }

  /** Blocks of `src` that are not in `s` still hold what they held. */
  lemma {:induction false} SourceKept(mem0: Memory, mem: Memory, saddr: nat, s: set<nat>, src: Space, i: nat)
    requires IsSpace(mem0, saddr, src) && Kept(mem0, mem, s) && s !! Blocks(src) && i < ENTRIES
    ensures HasBlock(mem, src.chunk) && HasBlock(mem, src.dir) && HasBlock(mem, src.tables[i])
    ensures mem[src.chunk] == mem0[src.chunk] && mem[src.dir] == mem0[src.dir]
    ensures src.tables[i] in mem0 && mem[src.tables[i]] == mem0[src.tables[i]]
    ensures Pointer(mem[src.dir][i]) == AddressOf(saddr, src.tables[i])
  {
    ElemsIff(src.tables, src.tables[i]);
    assert src.chunk in Blocks(src) && src.dir in Blocks(src) && src.tables[i] in Blocks(src);
    assert TableAt(mem0, saddr, src, i);
  }

  /** The table of round `i` is still live when its turn comes. */
  lemma {:induction false} FreeNext(sp: Space, i: nat, a: Allocs)
    requires i < |sp.tables| && Distinct(sp.tables) && Blocks(sp) <= a.Keys
    ensures sp.tables[i] in a - Elems(sp.tables[..i])
    ensures a - Elems(sp.tables[..i]) - {sp.tables[i]} == a - Elems(sp.tables[..i + 1])
  {
    ElemsIff(sp.tables, sp.tables[i]);
    ElemsIff(sp.tables[..i], sp.tables[i]);
    ElemsNext(sp.tables[..i], sp.tables[i]);
    assert sp.tables[..i] + [sp.tables[i]] == sp.tables[..i + 1];
  }

  lemma {:induction false} KeptSpace(mem0: Memory, mem: Memory, saddr: nat, s: set<nat>, src: Space)
    requires IsSpace(mem0, saddr, src) && Kept(mem0, mem, s) && s !! Blocks(src)
    ensures IsSpace(mem, saddr, src)
    ensures forall q :: 0 <= q < PAGES ==> EntryOf(mem, saddr, src, q) == EntryOf(mem0, saddr, src, q)
  {
    SourceKept(mem0, mem, saddr, s, src, 0);
    forall i | 0 <= i < ENTRIES
      ensures TableAt(mem, saddr, src, i) && src.tables[i] in mem0 && mem[src.tables[i]] == mem0[src.tables[i]]
    {
      SourceKept(mem0, mem, saddr, s, src, i);
    }
  }

  /** Whether the set happened or was refused, both directories stand and the other is as it was. */
  lemma {:induction false} SetSpares(mem: Memory, mem': Memory, saddr: nat, a: Space, b: Space, p: nat, val: Word32)
    requires IsSpace(mem, saddr, a) && IsSpace(mem, saddr, b) && Blocks(a) !! Blocks(b) && p < PAGES
    requires mem' == mem || mem' == Changed(mem, saddr, a, p, val)
    ensures IsSpace(mem', saddr, a) && IsSpace(mem', saddr, b)
    ensures forall q :: 0 <= q < PAGES ==> EntryOf(mem', saddr, b, q) == EntryOf(mem, saddr, b, q)
  {
    SetOne(mem, saddr, a, p, val, p);
    OnlyTablesNext(mem, mem, saddr, a, p, val);
    Isolated(mem, mem', saddr, a, b, 0);
    forall q | 0 <= q < PAGES
      ensures EntryOf(mem', saddr, b, q) == EntryOf(mem, saddr, b, q)
    {
      Isolated(mem, mem', saddr, a, b, q);
    }
  }

  // ---------------------------------------------------------------- memory backed by the heap

  /** The zeroed part of a fresh block: kzalloc clears as many bytes as were asked for. */
  function Zeroed(was: seq<Word32>, words: nat): (r: seq<Word32>)
    ensures |r| == |was| && forall i :: 0 <= i < |was| ==> r[i] == if i < words then 0 else was[i]
  {
    seq(|was|, i requires 0 <= i < |was| => if i < words then 0 else was[i])
  }

  class Kernel {
    const heap: KernelHeap
    var mem: Memory
    ghost var live: Allocs

    /** An empty heap over memory of any contents. */
    constructor (saddr: nat, total: nat, memory: Memory)
      requires saddr % PAGE_SIZE == 0 && saddr > 0 && AddressOf(saddr, total) <= TWO32
      requires Backed(memory, total)
      ensures Valid() && live == map[] && mem == memory && fresh(heap) && fresh(heap.entries)
    {
      heap := new KernelHeap(saddr, total);
      mem := memory;
      live := map[];
    }

    /** The heap's table encodes the live allocations. */
    ghost predicate HeapOk()
      reads this`live, heap.entries
    {
      && Encodes(heap.entries[..], live)
      && heap.saddr % PAGE_SIZE == 0 && heap.saddr > 0 && heap.saddr + heap.entries.Length * PAGE_SIZE <= TWO32
    }

    ghost predicate Valid()
      reads this, heap.entries
    {
      HeapOk() && Backed(mem, heap.entries.Length)
    }

    /** The space is built from live one-block allocations. */
    ghost predicate Owns(sp: Space)
      reads this
    {
      IsSpace(mem, heap.saddr, sp) && forall b :: b in Blocks(sp) ==> b in live && live[b] == 1
    }

    ghost function Free(): set<nat>
      reads heap.entries
    {
      FreeBlocks(heap.entries[..])
    }

    /** kzalloc of at most one block: null exactly if no block is free. */
    method Kzalloc(size: nat) returns (addr: nat, ghost b: nat)
      requires Valid() && 0 < size <= PAGE_SIZE
      modifies this`mem, this`live, heap.entries
      ensures Valid()
      ensures addr == 0 <==> old(Free()) == {}
      ensures addr == 0 ==> mem == old(mem) && live == old(live) && heap.entries[..] == old(heap.entries[..])
      ensures addr != 0 ==>
                && addr == AddressOf(heap.saddr, b) && addr + PAGE_SIZE <= TWO32 && b in old(Free()) && b !in old(live)
                && live == old(live)[b := 1] && Free() == old(Free()) - {b}
                && b in old(mem) && mem == old(mem)[b := Zeroed(old(mem)[b], size / 4)]
    {
      ghost var t := heap.entries[..];
      assert BlocksFor(size) == 1;
      ScanOne(t);
      b := 0;
      addr := heap.MallocBytes(size);
      if addr != 0 {
        b := Scan(t, 1).value;
        MarkEncodes(t, live, b, 1);
        FreeAfterMark(t, b);
        live := live[b := 1];
        assert heap.entries[..] == Marked(t, b, 1);
        var k := BlockAt(heap.saddr, addr);
        assert k == b && HasBlock(mem, b);
        ghost var was := mem;
        mem := mem[k := Zeroed(mem[k], size / 4)];
        assert forall i :: 0 <= i < heap.entries.Length ==> HasBlock(was, i) ==> HasBlock(mem, i);
      }
    }

    method Kfree(addr: nat, ghost b: nat)
      requires Valid() && addr == AddressOf(heap.saddr, b) && b in live
      modifies this`live, heap.entries
      ensures Valid() && live == old(live) - {b}
    {
      ClearEncodes(heap.entries[..], live, b);
      BlockOfAddress(heap.saddr, b);
      heap.FreeAddress(addr);
      live := live - {b};
    }

    // -------------------------------------------------------------- entries

    /** Directory and table index of an aligned address; -EINVARG otherwise, and then both stay 0. */
    static method GetIndexes(virt: Word32) returns (res: int, d: nat, t: nat)
      ensures d < ENTRIES && t < ENTRIES
      ensures virt % PAGE_SIZE == 0 ==> res == 0 && virt == (d * ENTRIES + t) * PAGE_SIZE
      ensures virt % PAGE_SIZE != 0 ==> res == -EINVARG && d == 0 && t == 0
    {
      res, d, t := 0, 0, 0;
      if virt % PAGE_SIZE != 0 {
        return -EINVARG, 0, 0;
      }
      d := virt / (ENTRIES * PAGE_SIZE);
      t := virt % (ENTRIES * PAGE_SIZE) / PAGE_SIZE;
    }

    method Set(directory: nat, virt: Word32, val: Word32, ghost sp: Space) returns (res: int)
      requires IsSpace(mem, heap.saddr, sp) && directory == AddressOf(heap.saddr, sp.dir)
      modifies this`mem
      ensures res == if virt % PAGE_SIZE == 0 then 0 else -EINVARG
      ensures mem == if res == 0 then Changed(old(mem), heap.saddr, sp, virt / PAGE_SIZE, val) else old(mem)
    {
      if virt % PAGE_SIZE != 0 {
        return -EINVARG;
      }
      var d, t;
      res, d, t := GetIndexes(virt);
      if res < 0 {
        return;
      }
      assert TableAt(mem, heap.saddr, sp, d);
      var entry := mem[BlockAt(heap.saddr, directory)][d];
      var table := BlockAt(heap.saddr, Pointer(entry));
      var words: seq<Word32> := mem[table][t := val];
      mem := mem[table := words];
      return 0;
    }

    /** The entry of an aligned address; an unaligned one is answered with the entry of page 0. */
    method Get(directory: nat, virt: Word32, ghost sp: Space) returns (val: Word32)
      requires IsSpace(mem, heap.saddr, sp) && directory == AddressOf(heap.saddr, sp.dir)
      ensures val == EntryOf(mem, heap.saddr, sp, if virt % PAGE_SIZE == 0 then virt / PAGE_SIZE else 0)
    {
      var _, d, t := GetIndexes(virt);
      assert TableAt(mem, heap.saddr, sp, d);
      var entry := mem[BlockAt(heap.saddr, directory)][d];
      var table := BlockAt(heap.saddr, Pointer(entry));
      val := mem[table][t];
    }

    method Map(chunk: nat, virt: Word32, phys: Word32, flags: nat, ghost sp: Space) returns (res: int)
      requires IsSpace(mem, heap.saddr, sp) && chunk == AddressOf(heap.saddr, sp.chunk) && flags < PAGE_SIZE
      modifies this`mem
      ensures res == if virt % PAGE_SIZE == 0 && phys % PAGE_SIZE == 0 then 0 else -EINVARG
      ensures mem == if res == 0 then Changed(old(mem), heap.saddr, sp, virt / PAGE_SIZE, phys + flags) else old(mem)
    {
      if virt % PAGE_SIZE != 0 || phys % PAGE_SIZE != 0 {
        return -EINVARG;
      }
      res := Set(mem[BlockAt(heap.saddr, chunk)][0], virt, phys + flags, sp);
    }

    /** Maps `count` pages; the range may wrap, and a count of zero or less maps nothing. */
    method MapRange(chunk: nat, virt: Word32, phys: Word32, count: int, flags: nat, ghost sp: Space) returns (res: int)
      requires IsSpace(mem, heap.saddr, sp) && chunk == AddressOf(heap.saddr, sp.chunk) && flags < PAGE_SIZE
      modifies this`mem
      ensures res == if count <= 0 || (virt % PAGE_SIZE == 0 && phys % PAGE_SIZE == 0) then 0 else -EINVARG
      ensures count <= 0 || res < 0 ==> mem == old(mem)
      ensures count > 0 && res == 0 ==> RangeMapped(old(mem), mem, heap.saddr, sp, virt / PAGE_SIZE, phys, flags, count)
    {
      res := 0;
      var v, p := virt, phys;
      var i := 0;
      ghost var vp := virt / PAGE_SIZE;
      ghost var aligned := virt % PAGE_SIZE == 0 && phys % PAGE_SIZE == 0;
      while i < count
        invariant 0 <= i && (i > 0 ==> aligned && i <= count) && res == 0
        invariant i == 0 ==> v == virt && p == phys && mem == old(mem)
        invariant aligned ==> v == PageAt(vp, i) * PAGE_SIZE && p == FrameAt(phys, i)
        invariant IsSpace(mem, heap.saddr, sp)
        invariant aligned ==> RangeMapped(old(mem), mem, heap.saddr, sp, vp, phys, flags, i)
      {
        ghost var was := mem;
        res := Map(chunk, v, p, flags, sp);
        if res < 0 {
          return;
        }
        assert v / PAGE_SIZE == PageAt(vp, i);
        Round(old(mem), was, mem, heap.saddr, sp, vp, phys, flags, i, v, p);
        v, p := (v + PAGE_SIZE) % TWO32, (p + PAGE_SIZE) % TWO32;
        i := i + 1;
      }
    }

    /** Maps as many pages as there are frames between `phys` and `end`. */
    method MapTo(chunk: nat, virt: Word32, phys: Word32, end: Word32, flags: nat, ghost sp: Space) returns (res: int)
      requires IsSpace(mem, heap.saddr, sp) && chunk == AddressOf(heap.saddr, sp.chunk) && flags < PAGE_SIZE
      modifies this`mem
      ensures res == 0 <==> virt % PAGE_SIZE == 0 && phys % PAGE_SIZE == 0 && end % PAGE_SIZE == 0 && phys <= end
      ensures res != 0 ==> res == -EINVARG && mem == old(mem)
      ensures res == 0 ==> RangeMapped(old(mem), mem, heap.saddr, sp, virt / PAGE_SIZE, phys, flags, (end - phys) / PAGE_SIZE)
      ensures res == 0 ==> forall j :: 0 <= j < (end - phys) / 4096 ==>
                EntryOf(mem, heap.saddr, sp, (virt / 4096 + j) % 0x10_0000) == phys + 4096 * j + flags
    {
      if virt % PAGE_SIZE != 0 {
        return -EINVARG;
      }
      if phys % PAGE_SIZE != 0 {
        return -EINVARG;
      }
      if end % PAGE_SIZE != 0 {
        return -EINVARG;
      }
      if end < phys {
        return -EINVARG;
      }
      res := MapRange(chunk, virt, phys, (end - phys) / PAGE_SIZE, flags, sp);
      if res == 0 {
        RangeExplicit(old(mem), mem, heap.saddr, sp, virt / PAGE_SIZE, phys, flags, (end - phys) / PAGE_SIZE);
      }
    }

    // -------------------------------------------------------------- directories

    /** Since `live0` and `free0` the blocks `s` were claimed. */
    ghost predicate Holds(live0: Allocs, free0: set<nat>, s: set<nat>)
      reads this`live, heap.entries
    {
      HeapOk() && Claimed(live0, free0, live, Free(), s)
    }

    ghost predicate Shaped(mem0: Memory, s: set<nat>, dir: nat, ts: seq<nat>)
      reads this`mem
    {
      Shape(mem, heap.saddr, mem0, heap.entries.Length, s, dir, ts)
    }

    /** One more block for a directory in the making. */
    method Extra(size: nat, ghost live0: Allocs, ghost free0: set<nat>, ghost mem0: Memory,
                 ghost s: set<nat>, ghost dir: nat, ghost ts: seq<nat>) returns (addr: nat, ghost b: nat)
      requires Holds(live0, free0, s) && Shaped(mem0, s, dir, ts) && 0 < size <= PAGE_SIZE
      modifies this`mem, this`live, heap.entries
      ensures addr == 0 <==> old(Free()) == {}
      ensures addr == 0 ==> Holds(live0, free0, s) && mem == old(mem)
      ensures addr != 0 ==>
                && addr == AddressOf(heap.saddr, b) && addr + PAGE_SIZE <= TWO32
                && b !in s && |s + {b}| == |s| + 1 && HasBlock(mem, b)
                && mem == old(mem)[b := mem[b]] && Holds(live0, free0, s + {b}) && Shaped(mem0, s + {b}, dir, ts)
    {
      ghost var was := mem;
      addr, b := Kzalloc(size);
      if addr != 0 {
        ClaimNext(live0, free0, old(live), old(Free()), s, b);
        ShapeExtra(was, heap.saddr, mem0, heap.entries.Length, s, dir, ts, b, mem[b]);
      }
    }

    /** Fills a table with the 1024 pages from `offset` on. */
    method FillIdentity(table: nat, ghost b: nat, offset: nat, flags: nat, ghost i: nat)
      requires table == AddressOf(heap.saddr, b) && HasBlock(mem, b)
      requires offset == i * ENTRIES * PAGE_SIZE && i < ENTRIES && flags < PAGE_SIZE
      modifies this`mem
      ensures b in mem && mem == old(mem)[b := mem[b]] && IsIdentity(mem[b], i, flags)
    {
      BlockOfAddress(heap.saddr, b);
      for k := 0 to ENTRIES
        invariant HasBlock(mem, b) && mem == old(mem)[b := mem[b]]
        invariant forall j :: 0 <= j < k ==> mem[b][j] == (i * ENTRIES + j) * PAGE_SIZE + flags
      {
        var entry: Word32 := offset + k * PAGE_SIZE + flags;
        var words: seq<Word32> := mem[BlockAt(heap.saddr, table)][k := entry];
        mem := mem[BlockAt(heap.saddr, table) := words];
      }
    }

    /** Enters table `b` at index `i` of the directory. */
    method StoreEntry(directory: nat, i: nat, val: Word32, ghost mem0: Memory,
                      ghost s: set<nat>, ghost dir: nat, ghost ts: seq<nat>, ghost b: nat)
      requires Shaped(mem0, s, dir, ts) && directory == AddressOf(heap.saddr, dir)
      requires |ts| == i < ENTRIES && b in s && b != dir && b !in ts && HasBlock(mem, b)
      requires Pointer(val) == AddressOf(heap.saddr, b)
      modifies this`mem
      ensures mem == Entered(old(mem), dir, i, val) && Shaped(mem0, s, dir, ts + [b])
    {
      ShapeEntered(mem, heap.saddr, mem0, heap.entries.Length, s, dir, ts, b, val);
      BlockOfAddress(heap.saddr, dir);
      var entries: seq<Word32> := mem[BlockAt(heap.saddr, directory)][i := val];
      mem := mem[BlockAt(heap.saddr, directory) := entries];
    }

    method AddIdentity(directory: nat, i: nat, offset: nat, flags: nat, ghost live0: Allocs, ghost free0: set<nat>,
                       ghost mem0: Memory, ghost s: set<nat>, ghost dir: nat, ghost ts: seq<nat>) returns (ghost b: nat)
      requires Holds(live0, free0, s) && Shaped(mem0, s, dir, ts) && directory == AddressOf(heap.saddr, dir) && Free() != {}
      requires |ts| == i < ENTRIES && offset == i * ENTRIES * PAGE_SIZE && flags < 256
      requires IdentityTo(mem, heap.saddr, dir, ts, flags)
      modifies this`mem, this`live, heap.entries
      ensures b !in s && |s + {b}| == |s| + 1 && Holds(live0, free0, s + {b}) && Shaped(mem0, s + {b}, dir, ts + [b])
      ensures IdentityTo(mem, heap.saddr, dir, ts + [b], flags)
    {
      var entry;
      entry, b := Extra(4 * ENTRIES, live0, free0, mem0, s, dir, ts);
      FillIdentity(entry, b, offset, flags, i);
      assert mem == old(mem)[b := mem[b]];
      IdentityKept(old(mem), heap.saddr, dir, ts, flags, b, mem[b]);
      ShapeExtra(old(mem), heap.saddr, mem0, heap.entries.Length, s, dir, ts, b, mem[b]);
      var val: Word32 := entry + WithWrite(flags);
      Tagged(heap.saddr, b, WithWrite(flags));
      IdentityNext(mem, heap.saddr, dir, ts, flags, b, val);
      StoreEntry(directory, i, val, mem0, s + {b}, dir, ts, b);
    }

    method FillTables(directory: nat, flags: nat, ghost live0: Allocs, ghost free0: set<nat>, ghost mem0: Memory, ghost dir: nat)
      returns (ghost s: set<nat>, ghost ts: seq<nat>)
      requires Holds(live0, free0, {dir}) && Shaped(mem0, {dir}, dir, []) && directory == AddressOf(heap.saddr, dir)
      requires flags < 256 && |free0| >= ENTRIES + 1
      modifies this`mem, this`live, heap.entries
      ensures Holds(live0, free0, s) && Shaped(mem0, s, dir, ts) && IdentityTo(mem, heap.saddr, dir, ts, flags)
      ensures s == {dir} + Elems(ts) && |s| == ENTRIES + 1 && |ts| == ENTRIES
    {
      s, ts := {dir}, [];
      var offset := 0;
      for i := 0 to ENTRIES
        invariant Holds(live0, free0, s) && Shaped(mem0, s, dir, ts) && IdentityTo(mem, heap.saddr, dir, ts, flags)
        invariant s == {dir} + Elems(ts) && |s| == i + 1 && |ts| == i
        invariant offset == i * ENTRIES * PAGE_SIZE
      {
        ClaimLeft(live0, free0, live, Free(), s);
        ghost var b := AddIdentity(directory, i, offset, flags, live0, free0, mem0, s, dir, ts);
        ElemsNext(ts, b);
        offset := offset + ENTRIES * PAGE_SIZE;
        s, ts := s + {b}, ts + [b];
      }
    }

    /** Points the descriptor at a finished directory. */
    method SetDirectory(chunk: nat, directory: nat, ghost mem0: Memory, ghost s: set<nat>, ghost sp: Space)
      requires Shaped(mem0, s, sp.dir, sp.tables) && |sp.tables| == ENTRIES
      requires sp.chunk in s && sp.chunk != sp.dir && sp.chunk !in sp.tables && HasBlock(mem, sp.chunk)
      requires chunk == AddressOf(heap.saddr, sp.chunk) && directory == AddressOf(heap.saddr, sp.dir) < TWO32
      modifies this`mem
      ensures mem == Headed(old(mem), heap.saddr, sp)
      ensures IsSpace(mem, heap.saddr, sp) && Shaped(mem0, s, sp.dir, sp.tables)
    {
      ShapeHeaded(mem, heap.saddr, mem0, heap.entries.Length, s, sp);
      BlockOfAddress(heap.saddr, sp.chunk);
      var words: seq<Word32> := mem[BlockAt(heap.saddr, chunk)][0 := directory];
      mem := mem[BlockAt(heap.saddr, chunk) := words];
    }

    /** An empty directory. */
    method NewDirectory() returns (directory: nat, ghost dir: nat)
      requires Valid() && Free() != {}
      modifies this`mem, this`live, heap.entries
      ensures Holds(old(live), old(Free()), {dir}) && Shaped(old(mem), {dir}, dir, [])
      ensures directory == AddressOf(heap.saddr, dir) && directory < TWO32
    {
      ghost var live0, free0 := live, Free();
      directory, dir := Kzalloc(4 * ENTRIES);
      ClaimNone(live0, free0);
      ClaimNext(live0, free0, live0, free0, {}, dir);
      assert {} + {dir} == {dir};
    }

    /** A directory that maps all 2^20 pages to themselves; the heap must have 1026 free blocks. */
    method New4gb(flags: nat) returns (chunk: nat, ghost sp: Space)
      requires Valid() && flags < 256 && |Free()| >= ENTRIES + 2
      modifies this`mem, this`live, heap.entries
      ensures Valid() && Owns(sp) && chunk == AddressOf(heap.saddr, sp.chunk)
      ensures Claimed(old(live), old(Free()), live, Free(), Blocks(sp)) && Kept(old(mem), mem, Blocks(sp))
      ensures forall p :: 0 <= p < PAGES ==> EntryOf(mem, heap.saddr, sp, p) == p * PAGE_SIZE + flags
      ensures forall i :: 0 <= i < 1024 ==>
                var f := mem[sp.dir][i] % 4096; f / 2 % 2 == 1 && f % 2 == flags % 2 && f / 4 == flags / 4
    {
      ghost var live0, free0, mem0 := live, Free(), mem;
      var directory;
      ghost var dir, b, s, ts;
      directory, dir := NewDirectory();
      s, ts := FillTables(directory, flags, live0, free0, mem0, dir);
      ClaimLeft(live0, free0, live, Free(), s);
      ghost var was := mem;
      chunk, b := Extra(4, live0, free0, mem0, s, dir, ts);
      sp := Space(b, dir, ts);
      SetDirectory(chunk, directory, mem0, s + {b}, sp);
      assert s + {b} == Blocks(sp);
      ClaimOwned(live0, free0, live, Free(), Blocks(sp));
      IdentityKept(was, heap.saddr, dir, ts, flags, b, mem[b]);
      forall p | 0 <= p < PAGES
        ensures EntryOf(mem, heap.saddr, sp, p) == p * PAGE_SIZE + flags
      {
        IdentityDone(mem, heap.saddr, sp, flags, p);
      }
      DirectoryBits(mem, heap.saddr, dir, ts, flags);
    }

    /** Copies table `i` of `src`; null, and nothing done, exactly if no block is free. */
    method AddCopy(source: nat, directory: nat, i: nat, ghost live0: Allocs, ghost free0: set<nat>, ghost mem0: Memory,
                   ghost s: set<nat>, ghost dir: nat, ghost ts: seq<nat>, ghost src: Space)
      returns (table: nat, ghost b: nat)
      requires Holds(live0, free0, s) && Shaped(mem0, s, dir, ts) && directory == AddressOf(heap.saddr, dir)
      requires IsSpace(mem0, heap.saddr, src) && source == AddressOf(heap.saddr, src.chunk) && Blocks(src) <= live0.Keys
      requires |ts| == i < ENTRIES && CopiedTo(mem, heap.saddr, dir, ts, mem0, src)
      modifies this`mem, this`live, heap.entries
      ensures table == 0 <==> old(Free()) == {}
      ensures table == 0 ==> Holds(live0, free0, s) && mem == old(mem)
      ensures table != 0 ==>
                && b !in s && |s + {b}| == |s| + 1 && Holds(live0, free0, s + {b}) && Shaped(mem0, s + {b}, dir, ts + [b])
                && CopiedTo(mem, heap.saddr, dir, ts + [b], mem0, src)
                && Kept(old(mem), mem, {b, dir})
    {
      ClaimFresh(live0, free0, live, Free(), s);
      SourceKept(mem0, mem, heap.saddr, s, src, i);
      BlockOfAddress(heap.saddr, src.chunk);
      BlockOfAddress(heap.saddr, src.dir);
      BlockOfAddress(heap.saddr, src.tables[i]);
      var entry := mem[BlockAt(heap.saddr, mem[BlockAt(heap.saddr, source)][0])][i];
      var from := Pointer(entry);
      table, b := Extra(4 * ENTRIES, live0, free0, mem0, s, dir, ts);
      if table == 0 {
        return;
      }
      ClaimFresh(live0, free0, live, Free(), s + {b});
      SourceKept(mem0, mem, heap.saddr, s + {b}, src, i);
      BlockOfAddress(heap.saddr, b);
      var words := mem[BlockAt(heap.saddr, from)];
      mem := mem[BlockAt(heap.saddr, table) := words];
      assert mem == old(mem)[b := words];
      CopiedKept(old(mem), heap.saddr, dir, ts, mem0, src, b, words);
      ShapeExtra(old(mem), heap.saddr, mem0, heap.entries.Length, s, dir, ts, b, words);
      var val: Word32 := table + entry % PAGE_SIZE;
      Tagged(heap.saddr, b, entry % PAGE_SIZE);
      CopiedNext(mem, heap.saddr, dir, ts, mem0, src, b, val);
      StoreEntry(directory, i, val, mem0, s + {b}, dir, ts, b);
    }

    /** The loop over all tables: `ok` exactly if the blocks last. */
    method CopyTables(source: nat, directory: nat, ghost live0: Allocs, ghost free0: set<nat>, ghost mem0: Memory,
                      ghost chunk: nat, ghost dir: nat, ghost src: Space) returns (ok: bool, ghost s: set<nat>, ghost ts: seq<nat>)
      requires Holds(live0, free0, {chunk, dir}) && Shaped(mem0, {chunk, dir}, dir, []) && chunk != dir
      requires HasBlock(mem, chunk)
      requires directory == AddressOf(heap.saddr, dir) && source == AddressOf(heap.saddr, src.chunk)
      requires IsSpace(mem0, heap.saddr, src) && Blocks(src) <= live0.Keys
      modifies this`mem, this`live, heap.entries
      ensures ok <==> |free0| >= ENTRIES + 2
      ensures Holds(live0, free0, s) && Shaped(mem0, s, dir, ts)
      ensures !ok ==> Free() == {}
      ensures ok ==> && s == {chunk, dir} + Elems(ts) && |ts| == ENTRIES && chunk !in ts
                     && CopiedTo(mem, heap.saddr, dir, ts, mem0, src)
                     && chunk in mem && mem[chunk] == old(mem[chunk])
    {
      s, ts := {chunk, dir}, [];
      for i := 0 to ENTRIES
        invariant Holds(live0, free0, s) && Shaped(mem0, s, dir, ts) && CopiedTo(mem, heap.saddr, dir, ts, mem0, src)
        invariant s == {chunk, dir} + Elems(ts) && |s| == i + 2 && |ts| == i && chunk !in ts
        invariant chunk in mem && mem[chunk] == old(mem[chunk])
      {
        ClaimLeft(live0, free0, live, Free(), s);
        var table;
        ghost var b;
        table, b := AddCopy(source, directory, i, live0, free0, mem0, s, dir, ts, src);
        if table == 0 {
          ClaimLeft(live0, free0, live, Free(), s);
          return false, s, ts;
        }
        ElemsNext(ts, b);
        s, ts := s + {b}, ts + [b];
      }
      ClaimLeft(live0, free0, live, Free(), s);
      ok := true;
    }

    /** What a failed copy leaves: the heap as it was with at most one block free, and with more than
        that a heap without a free block. */
    ghost predicate CopyFailed(live0: Allocs, free0: set<nat>)
      reads this`live, heap.entries
    {
      if |free0| <= 1 then live == live0 else Free() == {}
    }

    /** Descriptor and empty directory, the one pointed at the other; null exactly if fewer than two
        blocks are free, and then the heap is as it was. */
    method CopyStart(ghost mem0: Memory) returns (chunk: nat, directory: nat, ghost b: nat, ghost dir: nat)
      requires Valid() && mem0 == mem
      modifies this`mem, this`live, heap.entries
      ensures chunk != 0 <==> |old(Free())| >= 2
      ensures chunk == 0 ==> Valid() && live == old(live)
      ensures chunk != 0 ==>
                && Holds(old(live), old(Free()), {b, dir}) && Shaped(mem0, {b, dir}, dir, []) && b != dir
                && chunk == AddressOf(heap.saddr, b) && directory == AddressOf(heap.saddr, dir)
                && HasBlock(mem, b) && mem[b][0] == directory
    {
      ghost var live0, free0 := live, Free();
      directory, dir := 0, 0;
      chunk, b := Kzalloc(4);
      if chunk == 0 {
        return;
      }
      directory, dir := Kzalloc(4 * ENTRIES);
      if directory == 0 {
        assert free0 == {b};
        Kfree(chunk, b);
        assert live == live0;
        return 0, 0, b, dir;
      }
      assert |free0| >= |{b, dir}| by { StillFree(free0, {b, dir}); }
      ClaimPair(live0, free0, b, dir);
      BlockOfAddress(heap.saddr, b);
      var words: seq<Word32> := mem[BlockAt(heap.saddr, chunk)][0 := directory];
      mem := mem[BlockAt(heap.saddr, chunk) := words];
    }

    /** A directory with the same translations; null exactly if fewer than 1026 blocks are free. */
    method Copy4gb(source: nat, ghost src: Space) returns (chunk: nat, ghost sp: Space)
      requires Valid() && Owns(src) && source == AddressOf(heap.saddr, src.chunk)
      modifies this`mem, this`live, heap.entries
      ensures Valid()
      ensures chunk != 0 <==> |old(Free())| >= ENTRIES + 2
      ensures chunk == 0 ==> CopyFailed(old(live), old(Free()))
      ensures chunk != 0 ==>
                && Owns(sp) && chunk == AddressOf(heap.saddr, sp.chunk)
                && Claimed(old(live), old(Free()), live, Free(), Blocks(sp))
                && Kept(old(mem), mem, Blocks(sp)) && Blocks(sp) !! Blocks(src)
                && (forall p :: 0 <= p < PAGES ==>
                      EntryOf(mem, heap.saddr, sp, p) == EntryOf(old(mem), heap.saddr, src, p))
                && (forall i :: 0 <= i < ENTRIES ==>
                      mem[sp.dir][i] % PAGE_SIZE == old(mem)[src.dir][i] % PAGE_SIZE)
    {
      ghost var live0, free0, mem0 := live, Free(), mem;
      ghost var b, dir, s, ts;
      sp := Space(0, 0, []);
      var directory;
      chunk, directory, b, dir := CopyStart(mem0);
      if chunk == 0 {
        return;
      }
      var ok;
      ok, s, ts := CopyTables(source, directory, live0, free0, mem0, b, dir, src);
      if !ok {
        return 0, sp;
      }
      sp := Space(b, dir, ts);
      PartDone(mem, heap.saddr, sp);
      assert s == Blocks(sp);
      ClaimOwned(live0, free0, live, Free(), s);
      ClaimFresh(live0, free0, live, Free(), s);
      forall p | 0 <= p < PAGES
        ensures EntryOf(mem, heap.saddr, sp, p) == EntryOf(mem0, heap.saddr, src, p)
      {
        CopiedDone(mem, heap.saddr, sp, mem0, src, p);
      }
      forall i | 0 <= i < ENTRIES
        ensures mem[sp.dir][i] % PAGE_SIZE == mem0[src.dir][i] % PAGE_SIZE
      {
        assert CopyAt(mem, heap.saddr, dir, ts, mem0, src, i);
      }
    }

    /** Gives every block of the directory back, and no other. */
    method Free4gb(chunk: nat, ghost sp: Space)
      requires Valid() && Owns(sp) && chunk == AddressOf(heap.saddr, sp.chunk)
      modifies this`live, heap.entries
      ensures Valid() && live == old(live) - Blocks(sp)
    {
      BlockOfAddress(heap.saddr, sp.chunk);
      BlockOfAddress(heap.saddr, sp.dir);
      for i := 0 to ENTRIES
        invariant Valid() && live == old(live) - Elems(sp.tables[..i])
      {
        assert TableAt(mem, heap.saddr, sp, i);
        var entry := mem[BlockAt(heap.saddr, mem[BlockAt(heap.saddr, chunk)][0])][i];
        FreeNext(sp, i, old(live));
        Kfree(Pointer(entry), sp.tables[i]);
      }
      assert sp.tables[..ENTRIES] == sp.tables;
      ElemsIff(sp.tables, sp.dir);
      ElemsIff(sp.tables, sp.chunk);
      Kfree(mem[BlockAt(heap.saddr, chunk)][0], sp.dir);
      Kfree(chunk, sp.chunk);
    }

    // -------------------------------------------------------------- life cycles

    /** A new directory, freed again, leaves the heap's table as it was, entry by entry. */
    method NewThenFree(flags: nat)
      requires Valid() && flags < 256 && |Free()| >= ENTRIES + 2
      modifies this`mem, this`live, heap.entries
      ensures Valid() && heap.entries[..] == old(heap.entries[..])
    {
      var chunk;
      ghost var sp;
      chunk, sp := New4gb(flags);
      ghost var claimed, free := live, Free();
      Free4gb(chunk, sp);
      LifeCycle(old(heap.entries[..]), heap.entries[..], old(live), claimed, free, Blocks(sp));
    }

    /** So does a copy, and the directory it was made from keeps every translation. */
    method CopyThenFree(source: nat, ghost src: Space)
      requires Valid() && Owns(src) && source == AddressOf(heap.saddr, src.chunk) && |Free()| >= ENTRIES + 2
      modifies this`mem, this`live, heap.entries
      ensures Valid() && heap.entries[..] == old(heap.entries[..])
      ensures IsSpace(mem, heap.saddr, src)
      ensures forall q :: 0 <= q < PAGES ==> EntryOf(mem, heap.saddr, src, q) == EntryOf(old(mem), heap.saddr, src, q)
    {
      var chunk;
      ghost var sp;
      chunk, sp := Copy4gb(source, src);
      ghost var claimed, free := live, Free();
      KeptSpace(old(mem), mem, heap.saddr, Blocks(sp), src);
      Free4gb(chunk, sp);
      LifeCycle(old(heap.entries[..]), heap.entries[..], old(live), claimed, free, Blocks(sp));
    }

    /** A later set in either directory leaves the other's translations alone. */
    method CopyThenSet(source: nat, ghost src: Space, virt: Word32, val: Word32, inCopy: bool)
      returns (chunk: nat, ghost sp: Space)
      requires Valid() && Owns(src) && source == AddressOf(heap.saddr, src.chunk) && |Free()| >= ENTRIES + 2
      modifies this`mem, this`live, heap.entries
      ensures IsSpace(mem, heap.saddr, src) && IsSpace(mem, heap.saddr, sp)
      ensures var kept := if inCopy then src else sp;
              forall q :: 0 <= q < PAGES ==> EntryOf(mem, heap.saddr, kept, q) == EntryOf(old(mem), heap.saddr, src, q)
    {
      chunk, sp := Copy4gb(source, src);
      KeptSpace(old(mem), mem, heap.saddr, Blocks(sp), src);
      ghost var was := mem;
      var into := if inCopy then chunk else source;
      ghost var target, other := if inCopy then sp else src, if inCopy then src else sp;
      BlockOfAddress(heap.saddr, target.chunk);
      var _ := Set(mem[BlockAt(heap.saddr, into)][0], virt, val, target);
      SetSpares(was, mem, heap.saddr, target, other, virt / PAGE_SIZE, val);
    }
  }
}
