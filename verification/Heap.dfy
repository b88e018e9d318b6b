/** The kernel heap: a table of one flag byte per 4096-byte block, scanned first-fit. */
module Heap {
  import opened Bytes

  const TAKEN: bv8 := 0x01
  const FREE: bv8 := 0x00
  const HAS_NEXT: bv8 := 0x80
  const IS_FIRST: bv8 := 0x40
  const BLOCK_SIZE: nat := 4096

  predicate IsFree(e: bv8) {
    e & 0x0F == FREE
  }

  // ---------------------------------------------------------------- what the table encodes

  /** The flag byte of block `k` of a run of `len` blocks. */
  function RunEntry(k: nat, len: nat): bv8 {
    if k == 0 then (if len > 1 then TAKEN | IS_FIRST | HAS_NEXT else TAKEN | IS_FIRST)
    else if k + 1 < len then TAKEN | HAS_NEXT else TAKEN
  }

  /** Allocations: start block to length. */
  type Allocs = map<nat, nat>

  ghost predicate InRun(a: Allocs, s: nat, i: nat) {
    s in a && s <= i < s + a[s]
  }

  ghost predicate Covered(a: Allocs, i: nat) {
    exists s: nat :: InRun(a, s, i)
  }

  /** Non-empty runs inside the table, no two overlapping. */
  ghost predicate ValidAllocs(a: Allocs, n: nat) {
    && (forall s :: s in a ==> a[s] >= 1 && s + a[s] <= n)
    && (forall s: nat, u: nat, i: nat :: InRun(a, s, i) && InRun(a, u, i) ==> s == u)
  }

  /** The table is an exact encoding of the allocations. */
  ghost predicate Encodes(t: seq<bv8>, a: Allocs) {
    && ValidAllocs(a, |t|)
    && (forall s: nat, i: nat :: InRun(a, s, i) ==> t[i] == RunEntry(i - s, a[s]))
    && (forall i :: 0 <= i < |t| && !Covered(a, i) ==> t[i] == FREE)
  }

  lemma {:induction false} RunEntryTaken(k: nat, len: nat)
    ensures !IsFree(RunEntry(k, len))
    ensures RunEntry(k, len) & HAS_NEXT == (if k + 1 < len then HAS_NEXT else 0)
  {
  }

  lemma {:induction false} FreeIffUncovered(t: seq<bv8>, a: Allocs, i: nat)
    requires Encodes(t, a) && i < |t|
    ensures IsFree(t[i]) <==> !Covered(a, i)
    ensures IsFree(t[i]) ==> t[i] == FREE
  {
    if s :| InRun(a, s, i) {
      RunEntryTaken(i - s, a[s]);
    }
  }

  /** The allocations determine the table. */
  lemma {:induction false} EncodesUnique(t: seq<bv8>, u: seq<bv8>, a: Allocs)
    requires Encodes(t, a) && Encodes(u, a) && |t| == |u|
    ensures t == u
  {
    forall i | 0 <= i < |t|
      ensures t[i] == u[i]
    {
      if s :| InRun(a, s, i) {
        assert t[i] == RunEntry(i - s, a[s]);
      }
    }
  }

  // ---------------------------------------------------------------- the scan

  /** `n` free blocks from `s` on. */
  ghost predicate Fits(t: seq<bv8>, s: nat, n: nat) {
    s + n <= |t| && forall i :: s <= i < s + n ==> IsFree(t[i])
  }

  /** The scan from block `i` on, in the middle of a run of `bc` free blocks from `bs` on. */
  function ScanFrom(t: seq<bv8>, n: nat, i: nat, bs: Option<nat>, bc: nat): Option<nat>
    requires i <= |t|
    decreases |t| - i
  {
    if i == |t| then bs
    else if !IsFree(t[i]) then ScanFrom(t, n, i + 1, None, 0)
    else
      var s := if bs.None? then i else bs.value;
      if bc + 1 == n then Some(s) else ScanFrom(t, n, i + 1, Some(s), bc + 1)
  }

  function Scan(t: seq<bv8>, n: nat): Option<nat> {
    ScanFrom(t, n, 0, None, 0)
  }

  /** The free run the scan is in has `bc` blocks from `bs` on, and cannot be begun earlier. */
  ghost predicate InScan(t: seq<bv8>, n: nat, i: nat, bs: Option<nat>, bc: nat) {
    && i <= |t| && (n > 0 ==> bc < n)
    && match bs
       case None => bc == 0 && (i == 0 || !IsFree(t[i - 1]))
       case Some(s) => s + bc == i && bc > 0 && Fits(t, s, bc) && (s == 0 || !IsFree(t[s - 1]))
  }

  ghost predicate NoFitBefore(t: seq<bv8>, n: nat, k: nat) {
    forall s :: 0 <= s < k ==> !Fits(t, s, n)
  }

  /** What the scan finds: the first fitting run; if none fits, the free run at the end of the
      table, however short, and nothing if the table does not end in a free block. */
  ghost predicate ScanResult(t: seq<bv8>, n: nat, r: Option<nat>) {
    match r
    case None => NoFitBefore(t, n, |t| + 1) || n == 0
    case Some(s) =>
      if n > 0 && Fits(t, s, n) then NoFitBefore(t, n, s)
      else s < |t| && Fits(t, s, |t| - s) && (n > 0 ==> NoFitBefore(t, n, |t| + 1))
  }

  lemma {:induction false} ScanFromFinds(t: seq<bv8>, n: nat, i: nat, bs: Option<nat>, bc: nat)
    requires InScan(t, n, i, bs, bc)
    requires n > 0 ==> NoFitBefore(t, n, if bs.Some? then bs.value else i)
    ensures ScanResult(t, n, ScanFrom(t, n, i, bs, bc))
    ensures ScanFrom(t, n, i, bs, bc).None? ==> t == [] || !IsFree(t[|t| - 1])
    decreases |t| - i
  {
    if i == |t| {
      if n > 0 { NoRoomAtEnd(t, n, if bs.Some? then bs.value else i); }
    } else if !IsFree(t[i]) {
      if n > 0 { BlockedAt(t, n, if bs.Some? then bs.value else i, i); }
      ScanFromFinds(t, n, i + 1, None, 0);
    } else {
      var s := if bs.None? then i else bs.value;
      if bc + 1 != n {
        ScanFromFinds(t, n, i + 1, Some(s), bc + 1);
      }
    }
  }

  lemma {:induction false} NoRoomAtEnd(t: seq<bv8>, n: nat, s: nat)
    requires NoFitBefore(t, n, s) && n > |t| - s && s <= |t|
    ensures NoFitBefore(t, n, |t| + 1)
  {
  }

  /** A run cannot extend over a taken block. */
  lemma {:induction false} BlockedAt(t: seq<bv8>, n: nat, s: nat, i: nat)
    requires NoFitBefore(t, n, s) && s <= i < |t| && !IsFree(t[i]) && i < s + n
    ensures NoFitBefore(t, n, i + 1)
  {
    forall u | s <= u < i + 1
      ensures !Fits(t, u, n)
    {
      if Fits(t, u, n) { FitsAt(t, u, n, i); }
    }
  }

  lemma {:induction false} FitsAt(t: seq<bv8>, u: nat, n: nat, i: nat)
    requires Fits(t, u, n) && u <= i < u + n
    ensures IsFree(t[i])
  {
  }

  /** The scan answers a request correctly -- the first fitting run, or none if none fits -- exactly
      if some run fits or the table does not end in a free block. */
  lemma {:induction false} ScanCorrectIff(t: seq<bv8>, n: nat)
    requires n > 0
    ensures ScanResult(t, n, Scan(t, n))
    ensures (match Scan(t, n)
             case Some(s) => Fits(t, s, n) && NoFitBefore(t, n, s)
             case None => NoFitBefore(t, n, |t| + 1))
            <==> (exists s :: Fits(t, s, n)) || t == [] || !IsFree(t[|t| - 1])
  {
    ScanFromFinds(t, n, 0, None, 0);
    match Scan(t, n)
    case Some(s) =>
      if !Fits(t, s, n) {
        FitsAt(t, s, |t| - s, |t| - 1);
      }
    case None =>
  }

  /** On a table of one free block, a request for two is given that block. */
  lemma {:induction false} ScanTooShort()
    ensures Scan([FREE], 2) == Some(0) && !Fits([FREE], 0, 2)
  {
    assert ScanFrom([FREE], 2, 0, None, 0) == ScanFrom([FREE], 2, 1, Some(0), 1);
  }

  /** Only the low four bits tell whether a block is free. */
  lemma {:induction false} ScanLowBits()
    ensures Scan([0xC0], 1) == Some(0) && Scan([0x01], 1) == None && Scan([0x08], 1) == None
  {
  }

  // ---------------------------------------------------------------- marking and clearing

  /** The table with a run of `n` blocks marked from `s` on. */
  function Marked(t: seq<bv8>, s: nat, n: nat): (r: seq<bv8>)
    requires s + n <= |t|
    ensures |r| == |t|
    ensures forall i :: 0 <= i < |t| ==> r[i] == if s <= i < s + n then RunEntry(i - s, n) else t[i]
  {
    t[..s] + seq(n, k requires 0 <= k < n => RunEntry(k, n)) + t[s + n..]
  }

  /** The flag bytes of a marked run, in numbers. */
  lemma {:induction false} RunBytes(t: seq<bv8>, s: nat, n: nat)
    requires s + n <= |t|
    ensures n == 1 ==> Marked(t, s, n)[s] == 0x41
    ensures n > 1 ==> Marked(t, s, n)[s] == 0xC1 && Marked(t, s, n)[s + n - 1] == 0x01
    ensures forall i :: s < i < s + n - 1 ==> Marked(t, s, n)[i] == 0x81
  {
  }

  /** The table with the run that starts at `i` cleared, up to the first block without a
      continuation flag. */
  function Cleared(t: seq<bv8>, i: nat): (r: seq<bv8>)
    ensures |r| == |t|
    decreases |t| - i
  {
    if i >= |t| then t
    else if t[i] & HAS_NEXT == 0 then t[i := FREE]
    else Cleared(t[i := FREE], i + 1)
  }

  /** Marking a free run adds exactly that allocation. */
  lemma {:induction false} MarkEncodes(t: seq<bv8>, a: Allocs, s: nat, n: nat)
    requires Encodes(t, a) && n > 0 && Fits(t, s, n)
    ensures s !in a && Encodes(Marked(t, s, n), a[s := n])
  {
    var a', t' := a[s := n], Marked(t, s, n);
    forall u: nat, i: nat | InRun(a, u, i)
      ensures !(s <= i < s + n) && InRun(a', u, i)
    {
      FreeIffUncovered(t, a, i);
      assert InRun(a, s, s) <==> s in a;
      FreeIffUncovered(t, a, s);
    }
    assert s !in a by {
      assert InRun(a, s, s) <==> s in a;
    }
    assert forall u: nat, i: nat :: InRun(a', u, i) <==> InRun(a, u, i) || (u == s && s <= i < s + n);
    forall u: nat, i: nat | InRun(a', u, i)
      ensures t'[i] == RunEntry(i - u, a'[u])
    {
      if u != s {
        assert InRun(a, u, i) && t[i] == RunEntry(i - u, a[u]);
      }
    }
    forall i: nat | i < |t| && !Covered(a', i)
      ensures t'[i] == FREE
    {
      assert !InRun(a', s, i);
      assert forall u: nat :: InRun(a, u, i) ==> InRun(a', u, i);
    }
  }

  /** `r` is `t` with `n` blocks from `s` on free. */
  ghost predicate Blanked(r: seq<bv8>, t: seq<bv8>, s: nat, n: nat) {
    |r| == |t| && forall i :: 0 <= i < |t| ==> r[i] == if s <= i < s + n then FREE else t[i]
  }

  lemma {:induction false} BlankNext(u: seq<bv8>, t: seq<bv8>, s: nat, k: nat)
    requires Blanked(u, t, s, k) && s + k < |t|
    ensures u[s + k] == t[s + k] && Blanked(u[s + k := FREE], t, s, k + 1)
  {
  }

  lemma {:induction false} ClearRun(t: seq<bv8>, a: Allocs, s: nat, k: nat, u: seq<bv8>)
    requires Encodes(t, a) && s in a && k < a[s] && Blanked(u, t, s, k)
    ensures Blanked(Cleared(u, s + k), t, s, a[s])
    decreases a[s] - k
  {
    assert InRun(a, s, s + k);
    RunEntryTaken(k, a[s]);
    BlankNext(u, t, s, k);
    if k + 1 < a[s] {
      ClearRun(t, a, s, k + 1, u[s + k := FREE]);
    }
  }

  lemma {:induction false} StillCovered(a: Allocs, s: nat, u: nat, i: nat)
    requires InRun(a, u, i) && u != s
    ensures Covered(a - {s}, i)
  {
    assert InRun(a - {s}, u, i);
  }

  /** Clearing at the start of an allocation removes exactly that allocation. */
  lemma {:induction false} ClearEncodes(t: seq<bv8>, a: Allocs, s: nat)
    requires Encodes(t, a) && s in a
    ensures Encodes(Cleared(t, s), a - {s})
  {
    var a' := a - {s};
    ClearRun(t, a, s, 0, t);
    assert forall u: nat, i: nat :: InRun(a', u, i) <==> InRun(a, u, i) && u != s;
    forall i: nat | i < |t| && !Covered(a', i)
      ensures Cleared(t, s)[i] == FREE
    {
      if Covered(a, i) {
        var u :| InRun(a, u, i);
        if u != s { StillCovered(a, s, u, i); }
      }
    }
    forall u: nat, i: nat | InRun(a', u, i)
      ensures Cleared(t, s)[i] == RunEntry(i - u, a'[u])
    {
      assert InRun(a, u, i) && !InRun(a, s, i);
    }
  }

  /** Freeing what was just allocated restores the table. */
  lemma {:induction false} FreeUndoesMalloc(t: seq<bv8>, a: Allocs, s: nat, n: nat)
    requires Encodes(t, a) && n > 0 && Fits(t, s, n)
    ensures Cleared(Marked(t, s, n), s) == t
  {
    MarkEncodes(t, a, s, n);
    ClearEncodes(Marked(t, s, n), a[s := n], s);
    assert a[s := n] - {s} == a;
    EncodesUnique(t, Cleared(Marked(t, s, n), s), a);
  }

  // ---------------------------------------------------------------- whole runs

  datatype HeapOp = Malloc(blocks: nat) | Free(start: nat)

  /** A request of at least one block that fits, or the start of a live allocation. */
  ghost predicate Legal(t: seq<bv8>, a: Allocs, op: HeapOp) {
    match op
    case Malloc(n) => n > 0 && exists s :: Fits(t, s, n)
    case Free(s) => s in a
  }

  /** Table and allocations after an operation. */
  ghost function HeapStep(t: seq<bv8>, a: Allocs, op: HeapOp): (r: (seq<bv8>, Allocs))
    requires Encodes(t, a) && Legal(t, a, op)
  {
    match op
    case Malloc(n) =>
      ScanCorrectIff(t, n);
      var s := Scan(t, n).value;
      (Marked(t, s, n), a[s := n])
    case Free(s) => (Cleared(t, s), a - {s})
  }

  /** `tables` and `allocs` follow `ops`, every one of them legal. */
  ghost predicate HeapRun(tables: seq<seq<bv8>>, allocs: seq<Allocs>, ops: seq<HeapOp>) {
    && |tables| == |allocs| == |ops| + 1
    && forall k :: 0 <= k < |ops| ==>
         Legal(tables[k], allocs[k], ops[k]) &&
         (Encodes(tables[k], allocs[k]) ==> (tables[k + 1], allocs[k + 1]) == HeapStep(tables[k], allocs[k], ops[k]))
  }

  /** Every run of allocations and frees keeps the table an exact encoding of the live
      allocations. */
  lemma {:induction false} HeapRunKeeps(tables: seq<seq<bv8>>, allocs: seq<Allocs>, ops: seq<HeapOp>, k: nat)
    requires HeapRun(tables, allocs, ops) && Encodes(tables[0], allocs[0]) && k <= |ops|
    ensures Encodes(tables[k], allocs[k]) && |tables[k]| == |tables[0]|
  {
    if k > 0 {
      HeapRunKeeps(tables, allocs, ops, k - 1);
      var t, a := tables[k - 1], allocs[k - 1];
      assert (tables[k - 1 + 1], allocs[k - 1 + 1]) == HeapStep(t, a, ops[k - 1]);
      match ops[k - 1]
      case Malloc(n) =>
        ScanCorrectIff(t, n);
        MarkEncodes(t, a, Scan(t, n).value, n);
      case Free(s) =>
        ClearEncodes(t, a, s);
    }
  }

  // ---------------------------------------------------------------- the heap object

  function AlignUp(size: Word32): Word32 {
    if size % BLOCK_SIZE == 0 then size else (size - size % BLOCK_SIZE + BLOCK_SIZE) % TWO32
  }

  /** Blocks for a request of `size` bytes; sizes in the last page below 2^32 wrap to none. */
  function BlocksFor(size: Word32): nat {
    AlignUp(size) / BLOCK_SIZE
  }

  lemma {:induction false} BlocksForCeiling(size: Word32)
    ensures BlocksFor(size) == if size > 0xFFFF_F000 then 0 else (size + 4095) / 4096
  {
  }

  class KernelHeap {
    const saddr: nat
    const entries: array<bv8>

    constructor (addr: nat, total: nat)
      ensures saddr == addr && fresh(entries) && entries.Length == total
      ensures Encodes(entries[..], map[])
    {
      saddr := addr;
      entries := new bv8[total](_ => FREE);
    }

    method GetStartBlock(n: nat) returns (r: Option<nat>)
      ensures r == Scan(entries[..], n)
    {
      var bc := 0;
      r := None;
      var i := 0;
      while i < entries.Length
        invariant 0 <= i <= entries.Length
        invariant Scan(entries[..], n) == ScanFrom(entries[..], n, i, r, bc)
      {
        if !IsFree(entries[i]) {
          bc, r := 0, None;
        } else {
          if r.None? {
            r := Some(i);
          }
          bc := bc + 1;
          if bc == n {
            return;
          }
        }
        i := i + 1;
      }
    }

    method MarkBlocksTaken(start: nat, n: nat)
      requires start + n <= entries.Length
      modifies entries
      ensures entries[..] == Marked(old(entries[..]), start, n)
    {
      var end := start + n - 1;
      var entry := TAKEN | IS_FIRST;
      if n > 1 {
        entry := entry | HAS_NEXT;
      }
      var i := start;
      while i <= end
        invariant start <= i <= start + n
        invariant i <= end ==> entry == RunEntry(i - start, n)
        invariant forall j :: 0 <= j < entries.Length ==>
                    entries[j] == if start <= j < i then RunEntry(j - start, n) else old(entries[j])
        decreases end - i
      {
        entries[i] := entry;
        entry := TAKEN;
        if i != end - 1 {
          entry := entry | HAS_NEXT;
        }
        i := i + 1;
      }
    }

    method MarkBlocksFree(start: nat)
      modifies entries
      ensures entries[..] == Cleared(old(entries[..]), start)
    {
      var i := start;
      while i < entries.Length
        invariant start <= i
        invariant Cleared(entries[..], i) == Cleared(old(entries[..]), start)
      {
        var entry := entries[i];
        ghost var t := entries[..];
        entries[i] := FREE;
        assert entries[..] == t[i := FREE];
        if entry & HAS_NEXT == 0 {
          return;
        }
        i := i + 1;
      }
    }

    /** Address of a first-fit run for `size` bytes, or 0. The run must not leave the table. */
    method MallocBytes(size: Word32) returns (addr: nat)
      requires Scan(entries[..], BlocksFor(size)).Some? ==>
                 Scan(entries[..], BlocksFor(size)).value + BlocksFor(size) <= entries.Length
      modifies entries
      ensures match Scan(old(entries[..]), BlocksFor(size))
              case None => addr == 0 && entries[..] == old(entries[..])
              case Some(s) => addr == saddr + s * BLOCK_SIZE && entries[..] == Marked(old(entries[..]), s, BlocksFor(size))
    {
      var n := AlignUp(size) / BLOCK_SIZE;
      var start := GetStartBlock(n);
      if start.None? {
        return 0;
      }
      addr := saddr + start.value * BLOCK_SIZE;
      MarkBlocksTaken(start.value, n);
    }

    method FreeAddress(addr: nat)
      requires addr >= saddr
      modifies entries
      ensures entries[..] == Cleared(old(entries[..]), (addr - saddr) / BLOCK_SIZE)
    {
      MarkBlocksFree((addr - saddr) / BLOCK_SIZE);
    }
  }
}
