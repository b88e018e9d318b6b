/** The file allocation table as a graph of cluster chains: allocation, following or
    extending a chain, freeing it, and what these do to every chain at once.

    A table is a sequence of 16-bit entries; clusters are numbered 2 <= c < lim. */
module FatChains {
  import opened Bytes

  const EOC: nat := 0xFFFF
  const EOC_MIN: nat := 0xFFF8

  /** The driver's end-of-chain test. */
  predicate Ends(e: nat) {
    e < 2 || e >= EOC_MIN
  }

  ghost predicate ValidTable(fat: seq<nat>, lim: nat) {
    2 <= lim <= |fat| && lim <= EOC_MIN
  }

  // ---------------------------------------------------------------- allocation

  /** First free cluster at or above `i`. */
  function FindFree(fat: seq<nat>, lim: nat, i: nat): (r: Option<nat>)
    requires lim <= |fat|
    ensures r.Some? ==> i <= r.value < lim && fat[r.value] == 0 && forall j :: i <= j < r.value ==> fat[j] != 0
    ensures r.None? ==> forall j :: i <= j < lim ==> fat[j] != 0
    decreases lim - i
  {
    if i >= lim then None
    else if fat[i] == 0 then Some(i)
    else FindFree(fat, lim, i + 1)
  }

  /** A scan that met no free entry before `n` has found the first free one, or none. */
  lemma {:induction false} FindFreeIs(fat: seq<nat>, lim: nat, i: nat, n: nat)
    requires i <= n <= lim <= |fat|
    requires forall j :: i <= j < n ==> fat[j] != 0
    ensures n < lim && fat[n] == 0 ==> FindFree(fat, lim, i) == Some(n)
    ensures n == lim ==> FindFree(fat, lim, i) == None
  {
  }

  datatype AllocResult = Full | Allocated(fat: seq<nat>, cluster: nat)

  /** Take the first free cluster as a new end of chain and, when `prev` is a cluster,
      link it from there. */
  function Alloc(fat: seq<nat>, lim: nat, prev: int): (r: AllocResult)
    requires ValidTable(fat, lim)
    requires prev < lim
    ensures r.Allocated? ==> |r.fat| == |fat| && 2 <= r.cluster < lim
  {
    match FindFree(fat, lim, 2)
    case None => Full
    case Some(n) =>
      var marked := fat[n := EOC];
      Allocated(if prev >= 2 then marked[prev := n] else marked, n)
  }

  /** One move along a chain: follow the link, or extend the chain where it ends.
      `Fault` is a link to a cluster the volume does not have. */
  datatype Hop = Moved(fat: seq<nat>, cluster: nat) | NoSpace | Fault

  function NextOrExtend(fat: seq<nat>, lim: nat, c: nat): (r: Hop)
    requires ValidTable(fat, lim)
    requires 2 <= c < lim
    ensures r.Moved? ==> |r.fat| == |fat| && 2 <= r.cluster < lim
  {
    var next := fat[c];
    if Ends(next) then
      match Alloc(fat, lim, c)
      case Full => NoSpace
      case Allocated(f, n) => Moved(f, n)
    else if next < lim then Moved(fat, next)
    else Fault
  }

  datatype WalkResult = Walked(fat: seq<nat>, cluster: nat) | WalkFull(fat: seq<nat>) | WalkFault

  /** `k` moves from cluster `c`. */
  function Walk(fat: seq<nat>, lim: nat, c: nat, k: nat): (r: WalkResult)
    requires ValidTable(fat, lim)
    requires 2 <= c < lim
    ensures r.Walked? ==> |r.fat| == |fat| && 2 <= r.cluster < lim
    ensures r.WalkFull? ==> |r.fat| == |fat|
    decreases k
  {
    if k == 0 then Walked(fat, c)
    else
      match NextOrExtend(fat, lim, c)
      case Moved(f, n) => Walk(f, lim, n, k - 1)
      case NoSpace => WalkFull(fat)
      case Fault => WalkFault
  }

  lemma {:induction false} WalkUnfold(fat: seq<nat>, lim: nat, c: nat, k: nat)
    requires ValidTable(fat, lim) && 2 <= c < lim && k > 0
    ensures Walk(fat, lim, c, k) ==
            match NextOrExtend(fat, lim, c)
            case Moved(f, n) => Walk(f, lim, n, k - 1)
            case NoSpace => WalkFull(fat)
            case Fault => WalkFault
  {
  }

  /** The clusters a walk of `k` moves stands on. */
  ghost function Visit(fat: seq<nat>, lim: nat, c: nat, k: nat): (v: seq<nat>)
    requires ValidTable(fat, lim)
    requires 2 <= c < lim
    ensures |v| <= k + 1 && forall i :: 0 <= i < |v| ==> 2 <= v[i] < lim
    decreases k
  {
    if k == 0 then [c]
    else
      match NextOrExtend(fat, lim, c)
      case Moved(f, n) => [c] + Visit(f, lim, n, k - 1)
      case NoSpace => [c]
      case Fault => [c]
  }

  // ---------------------------------------------------------------- chains

  /** Position `i` of `ch` links to the next position, or ends the chain. */
  ghost predicate LinkAt(fat: seq<nat>, ch: seq<nat>, i: nat) {
    && i < |ch| && ch[i] < |fat|
    && if i + 1 < |ch| then fat[ch[i]] == ch[i + 1] else fat[ch[i]] >= EOC_MIN
  }

  /** `ch` is a complete chain of the table: in range, acyclic, linked, and ended by an
      end-of-chain mark. The empty sequence is the chain of a file without clusters. */
  ghost predicate IsChain(fat: seq<nat>, lim: nat, ch: seq<nat>) {
    && lim <= |fat|
    && (forall i :: 0 <= i < |ch| ==> 2 <= ch[i] < lim)
    && Distinct(ch)
    && (forall i :: 0 <= i < |ch| ==> LinkAt(fat, ch, i))
  }

  lemma {:induction false} ChainEntriesTaken(fat: seq<nat>, lim: nat, ch: seq<nat>)
    requires IsChain(fat, lim, ch)
    ensures forall c :: c in ch ==> 2 <= c < lim && fat[c] != 0
  {
    forall c | c in ch
      ensures 2 <= c < lim && fat[c] != 0
    {
      var i :| 0 <= i < |ch| && ch[i] == c;
      assert LinkAt(fat, ch, i);
    }
  }

  /** A chain is determined by its first cluster. */
  lemma {:induction false} ChainUnique(fat: seq<nat>, lim: nat, a: seq<nat>, b: seq<nat>)
    requires ValidTable(fat, lim)
    requires IsChain(fat, lim, a) && IsChain(fat, lim, b)
    requires a != [] && b != [] && a[0] == b[0]
    ensures a == b
  {
    var k := 0;
    while k + 1 < |a| && k + 1 < |b|
      invariant k < |a| && k < |b|
      invariant forall i :: 0 <= i <= k ==> a[i] == b[i]
    {
      assert LinkAt(fat, a, k) && LinkAt(fat, b, k);
      k := k + 1;
    }
    // Where one chain has ended the shared entry is an end mark, so the other has ended too.
    assert LinkAt(fat, a, k) && LinkAt(fat, b, k);
  }

  /** `f` is `fat` with chain `ch` lengthened by `ext`, all of it formerly free, and no
      other entry touched. */
  ghost predicate Extends(fat: seq<nat>, f: seq<nat>, lim: nat, ch: seq<nat>, ext: seq<nat>) {
    && |f| == |fat|
    && IsChain(fat, lim, ch)
    && IsChain(f, lim, ch + ext)
    && (forall i :: 0 <= i < |ext| ==> ext[i] < |fat| && fat[ext[i]] == 0)
    && (forall c {:trigger f[c]} :: 0 <= c < |fat| && c !in ch && c !in ext ==> f[c] == fat[c])
  }

  lemma {:induction false} ExtendsIsChain(fat: seq<nat>, f: seq<nat>, lim: nat, ch: seq<nat>, ext: seq<nat>)
    requires Extends(fat, f, lim, ch, ext)
    ensures IsChain(f, lim, ch + ext)
    ensures |f| == |fat|
  {
  }

  lemma {:induction false} ExtendsRefl(fat: seq<nat>, lim: nat, ch: seq<nat>)
    requires IsChain(fat, lim, ch)
    ensures Extends(fat, fat, lim, ch, [])
  {
    assert ch + [] == ch;
  }

  lemma {:induction false} ExtendsTrans(f0: seq<nat>, f1: seq<nat>, f2: seq<nat>, lim: nat, ch: seq<nat>, a: seq<nat>, b: seq<nat>)
    requires Extends(f0, f1, lim, ch, a)
    requires Extends(f1, f2, lim, ch + a, b)
    ensures Extends(f0, f2, lim, ch, a + b)
  {
    assert ch + a + b == ch + (a + b);
    var all := ch + a + b;
    forall i | 0 <= i < |a + b|
      ensures (a + b)[i] < |f0| && f0[(a + b)[i]] == 0
    {
      if i >= |a| {
        var c := b[i - |a|];
        assert all[|ch| + i] == c;
        assert forall j :: 0 <= j < |ch| ==> ch[j] == all[j];
        assert forall j :: 0 <= j < |a| ==> a[j] == all[|ch| + j];
        assert c !in ch && c !in a;
        assert f1[c] == 0;
      }
    }
    forall c | 0 <= c < |f0| && c !in ch && c !in a + b
      ensures f2[c] == f0[c]
    {
      assert c !in ch + a && c !in b;
    }
  }

  /** Starting a chain on an unused cluster. */
  lemma {:induction false} AllocFirst(fat: seq<nat>, lim: nat)
    requires ValidTable(fat, lim)
    ensures match Alloc(fat, lim, -1)
            case Full => FreeSet(fat, lim) == {}
            case Allocated(f, n) =>
              Extends(fat, f, lim, [], [n]) && f == fat[n := 0xFFFF] && forall j :: 2 <= j < n ==> fat[j] != 0
  {
    match FindFree(fat, lim, 2)
    case None =>
    case Some(n) =>
      FirstOfChain(fat, lim, n);
  }

  lemma {:induction false} FirstOfChain(fat: seq<nat>, lim: nat, n: nat)
    requires ValidTable(fat, lim) && 2 <= n < lim && fat[n] == 0
    ensures Extends(fat, fat[n := EOC], lim, [], [n])
  {
    assert [] + [n] == [n];
  }

  /** A move in numbers: links from 2 to 0xFFF7 are followed; at any other entry the lowest free cluster
      is marked 0xFFFF and linked, if there is one. */
  lemma {:induction false} HopNumbers(fat: seq<nat>, lim: nat, c: nat, n: nat)
    requires 2 <= c < lim <= |fat| && lim <= 0xFFF8
    ensures 2 <= fat[c] <= 0xFFF7 && fat[c] < lim ==> NextOrExtend(fat, lim, c) == Moved(fat, fat[c])
    ensures (fat[c] < 2 || fat[c] > 0xFFF7) && 2 <= n < lim && fat[n] == 0 && (forall j :: 2 <= j < n ==> fat[j] != 0) ==>
              NextOrExtend(fat, lim, c) == Moved(fat[n := 0xFFFF][c := n], n)
    ensures (fat[c] < 2 || fat[c] > 0xFFF7) && (forall j :: 2 <= j < lim ==> fat[j] != 0) ==>
              NextOrExtend(fat, lim, c) == NoSpace
  {
    if 2 <= n < lim && fat[n] == 0 && forall j :: 2 <= j < n ==> fat[j] != 0 {
      FindFreeIs(fat, lim, 2, n);
    }
  }

  /** A move from inside a chain follows it; a move from its end extends it by the first
      free cluster, or fails because there is none. */
  lemma {:induction false} HopAlongChain(fat: seq<nat>, lim: nat, ch: seq<nat>, i: nat)
    requires ValidTable(fat, lim)
    requires IsChain(fat, lim, ch) && i < |ch|
    ensures i + 1 < |ch| ==> NextOrExtend(fat, lim, ch[i]) == Moved(fat, ch[i + 1])
    ensures i + 1 == |ch| ==>
              match NextOrExtend(fat, lim, ch[i])
              case Moved(f, n) => Extends(fat, f, lim, ch, [n])
              case NoSpace => FreeSet(fat, lim) == {}
              case Fault => false
  {
    if i + 1 == |ch| {
      assert LinkAt(fat, ch, i);
      match NextOrExtend(fat, lim, ch[i]) {
        case Moved(f, n) =>
          ChainEntriesTaken(fat, lim, ch);
          forall j | 0 <= j < |ch + [n]|
            ensures LinkAt(f, ch + [n], j)
          {
            if j < |ch| {
              assert ch[j] in ch && LinkAt(fat, ch, j);
            }
          }
        case NoSpace =>
      }
    } else {
      assert LinkAt(fat, ch, i);
    }
  }

  // ---------------------------------------------------------------- free space

  ghost function FreeSet(fat: seq<nat>, lim: nat): set<nat>
    requires lim <= |fat|
  {
    set c | 2 <= c < lim && fat[c] == 0
  }

  ghost function Members(ch: seq<nat>): set<nat> {
    set c | c in ch
  }

  lemma {:induction false} DistinctCount(ch: seq<nat>)
    requires Distinct(ch)
    ensures |Members(ch)| == |ch|
  {
    if ch != [] {
      var front, last := ch[..|ch| - 1], ch[|ch| - 1];
      DistinctCount(front);
      assert ch == front + [last];
      assert Members(ch) == Members(front) + {last};
    }
  }

  /** Extending a chain takes exactly its new clusters out of the free set. */
  lemma {:induction false} ExtendsFree(fat: seq<nat>, f: seq<nat>, lim: nat, ch: seq<nat>, ext: seq<nat>)
    requires Extends(fat, f, lim, ch, ext)
    ensures FreeSet(f, lim) == FreeSet(fat, lim) - Members(ext)
    ensures Members(ext) <= FreeSet(fat, lim)
    ensures |FreeSet(f, lim)| == |FreeSet(fat, lim)| - |ext|
  {
    ChainEntriesTaken(fat, lim, ch);
    ChainEntriesTaken(f, lim, ch + ext);
    forall c | c in ext
      ensures c in FreeSet(fat, lim)
    {
      assert c in ch + ext;
    }
    forall c | 2 <= c < lim
      ensures c in FreeSet(f, lim) <==> c in FreeSet(fat, lim) && c !in ext
    {
      if c in ch || c in ext {
        assert c in ch + ext;
      }
    }
    assert Distinct(ext) by {
      forall i, j | 0 <= i < j < |ext| ensures ext[i] != ext[j] {
        assert (ch + ext)[|ch| + i] == ext[i] && (ch + ext)[|ch| + j] == ext[j];
      }
    }
    DistinctCount(ext);
  }

  /** What `r`, a walk of `k` moves from position `i` of `ch` over the clusters `v`, amounts to
      when it lengthened the chain by `ext`: it succeeds exactly when the clusters the chain
      lacks are free, and a failed walk has used up every free cluster. */
  ghost predicate WalkOutcome(fat: seq<nat>, lim: nat, ch: seq<nat>, i: nat, k: nat, r: WalkResult, v: seq<nat>, ext: seq<nat>)
    requires lim <= |fat|
  {
    var need := Max(0, i + k + 1 - |ch|);
    match r
    case Walked(f, c) =>
      && need <= |FreeSet(fat, lim)| && |ext| == need && Extends(fat, f, lim, ch, ext)
      && v == (ch + ext)[i..i + k + 1] && c == v[k]
    case WalkFull(f) =>
      && need > |FreeSet(fat, lim)| == |ext| && Extends(fat, f, lim, ch, ext)
      && i < |ch| && v == (ch + ext)[i..]
    case WalkFault => false
  }

  lemma {:induction false} WalkNone(fat: seq<nat>, lim: nat, ch: seq<nat>, i: nat)
    requires ValidTable(fat, lim)
    requires IsChain(fat, lim, ch) && i < |ch|
    ensures WalkOutcome(fat, lim, ch, i, 0, Walk(fat, lim, ch[i], 0), Visit(fat, lim, ch[i], 0), [])
  {
    ExtendsRefl(fat, lim, ch);
    assert ch + [] == ch;
  }

  lemma {:induction false} WalkInside(fat: seq<nat>, lim: nat, ch: seq<nat>, i: nat, k: nat, r: WalkResult, v: seq<nat>, ext: seq<nat>)
    requires lim <= |fat| && i + 1 < |ch| && k > 0
    requires WalkOutcome(fat, lim, ch, i + 1, k - 1, r, v, ext)
    ensures WalkOutcome(fat, lim, ch, i, k, r, [ch[i]] + v, ext)
  {
  }

  lemma {:induction false} WalkStuck(fat: seq<nat>, lim: nat, ch: seq<nat>, k: nat)
    requires ValidTable(fat, lim)
    requires IsChain(fat, lim, ch) && |ch| > 0 && k > 0
    requires FreeSet(fat, lim) == {}
    ensures WalkOutcome(fat, lim, ch, |ch| - 1, k, WalkFull(fat), [ch[|ch| - 1]], [])
  {
    ExtendsRefl(fat, lim, ch);
    assert ch + [] == ch;
  }

  /** Extending by one cluster and walking on from it is one walk. */
  lemma {:induction false} WalkAfterExtend(fat: seq<nat>, f: seq<nat>, lim: nat, ch: seq<nat>, n: nat, k: nat, r: WalkResult,
                                           v: seq<nat>, rest: seq<nat>)
    requires lim <= |fat| && |ch| > 0 && k > 0
    requires Extends(fat, f, lim, ch, [n])
    requires WalkOutcome(f, lim, ch + [n], |ch|, k - 1, r, v, rest)
    ensures WalkOutcome(fat, lim, ch, |ch| - 1, k, r, [ch[|ch| - 1]] + v, [n] + rest)
  {
    ExtendsFree(fat, f, lim, ch, [n]);
    ExtendsTrans(fat, f, r.fat, lim, ch, [n], rest);
    assert ch + ([n] + rest) == ch + [n] + rest;
  }

  lemma {:induction false} WalkAlongChain(fat: seq<nat>, lim: nat, ch: seq<nat>, i: nat, k: nat)
    returns (ext: seq<nat>)
    requires ValidTable(fat, lim)
    requires IsChain(fat, lim, ch) && i < |ch|
    ensures WalkOutcome(fat, lim, ch, i, k, Walk(fat, lim, ch[i], k), Visit(fat, lim, ch[i], k), ext)
    decreases k
  {
    if k == 0 {
      WalkNone(fat, lim, ch, i);
      ext := [];
    } else {
      HopAlongChain(fat, lim, ch, i);
      if i + 1 < |ch| {
        ext := WalkAlongChain(fat, lim, ch, i + 1, k - 1);
        WalkInside(fat, lim, ch, i, k, Walk(fat, lim, ch[i + 1], k - 1), Visit(fat, lim, ch[i + 1], k - 1), ext);
      } else {
        match NextOrExtend(fat, lim, ch[i])
        case Moved(f, n) =>
          ExtendsIsChain(fat, f, lim, ch, [n]);
          var rest := WalkAlongChain(f, lim, ch + [n], i + 1, k - 1);
          WalkAfterExtend(fat, f, lim, ch, n, k, Walk(f, lim, n, k - 1), Visit(f, lim, n, k - 1), rest);
          ext := [n] + rest;
        case NoSpace =>
          WalkStuck(fat, lim, ch, k);
          ext := [];
      }
    }
  }

  // ---------------------------------------------------------------- freeing

  datatype FreeResult = Freed(fat: seq<nat>) | FreeFault

  ghost function NonZero(fat: seq<nat>): set<nat> {
    set c | 0 <= c < |fat| && fat[c] != 0
  }

  /** Zero the entries met from `c` on. No shape of the table is assumed: every pass but the last
      turns a non-zero entry to zero, so the loop ends even on cyclic or crossed links.
      `FreeFault` is a link outside the table. */
  function FreeChain(fat: seq<nat>, c: nat): (r: FreeResult)
    ensures r.Freed? ==> |r.fat| == |fat|
    ensures r.Freed? ==> forall x :: 0 <= x < |fat| ==> r.fat[x] == fat[x] || r.fat[x] == 0
    ensures r.Freed? ==> c < |fat| && r.fat[c] == 0
    decreases NonZero(fat)
  {
    if c >= |fat| then FreeFault
    else
      var next := fat[c];
      var cleared := fat[c := 0];
      if Ends(next) then Freed(cleared)
      else
        assert NonZero(cleared) < NonZero(fat) by { assert c in NonZero(fat) && c !in NonZero(cleared); }
        FreeChain(cleared, next)
  }

  /** On a chain, freeing zeroes that chain's entries and no others. */
  lemma {:induction false} FreeWholeChain(fat: seq<nat>, lim: nat, ch: seq<nat>)
    requires ValidTable(fat, lim)
    requires IsChain(fat, lim, ch) && ch != []
    ensures var r := FreeChain(fat, ch[0]);
            r.Freed? && forall c :: 0 <= c < |fat| ==> r.fat[c] == if c in ch then 0 else fat[c]
  {
    FreeSuffix(fat, fat, lim, ch, 0);
  }

  lemma {:induction false} FreeSuffix(orig: seq<nat>, fat: seq<nat>, lim: nat, ch: seq<nat>, k: nat)
    requires ValidTable(orig, lim) && |fat| == |orig|
    requires IsChain(orig, lim, ch) && k < |ch|
    requires forall c :: 0 <= c < |fat| ==> fat[c] == if c in ch[..k] then 0 else orig[c]
    ensures var r := FreeChain(fat, ch[k]);
            r.Freed? && forall c :: 0 <= c < |fat| ==> r.fat[c] == if c in ch then 0 else orig[c]
    decreases |ch| - k
  {
    var cleared := fat[ch[k] := 0];
    assert ch[..k + 1] == ch[..k] + [ch[k]];
    assert ch[k] !in ch[..k];
    assert LinkAt(orig, ch, k);
    if k + 1 < |ch| {
      FreeSuffix(orig, cleared, lim, ch, k + 1);
    } else {
      assert ch[..k + 1] == ch;
    }
  }

  // ---------------------------------------------------------------- all chains at once

  /** Every chain is a chain and no cluster lies on two of them. */
  ghost predicate WellFormed(fat: seq<nat>, lim: nat, chains: seq<seq<nat>>) {
    && ValidTable(fat, lim)
    && (forall s :: 0 <= s < |chains| ==> IsChain(fat, lim, chains[s]))
    && (forall s, t, c :: 0 <= s < |chains| && 0 <= t < |chains| && c in chains[s] && c in chains[t] ==> s == t)
  }

  ghost predicate OnSome(chains: seq<seq<nat>>, c: nat) {
    exists s :: 0 <= s < |chains| && c in chains[s]
  }

  /** Lost clusters: neither free nor on any chain. */
  ghost function Orphans(fat: seq<nat>, lim: nat, chains: seq<seq<nat>>): set<nat>
    requires lim <= |fat|
  {
    set c | 2 <= c < lim && fat[c] != 0 && !OnSome(chains, c)
  }

  lemma {:induction false} OnSomeUpdate(chains: seq<seq<nat>>, s: nat, ch: seq<nat>, c: nat)
    requires s < |chains|
    ensures c in ch ==> OnSome(chains[s := ch], c)
    ensures c !in ch && c !in chains[s] ==> (OnSome(chains[s := ch], c) <==> OnSome(chains, c))
  {
    var chains' := chains[s := ch];
    if c in ch {
      assert c in chains'[s];
    } else if c !in chains[s] {
      if t :| 0 <= t < |chains| && c in chains[t] {
        assert c in chains'[t];
      }
      if t :| 0 <= t < |chains| && c in chains'[t] {
        assert c in chains[t];
      }
    }
  }

  /** A chain survives any change of the table that misses its entries. */
  lemma {:induction false} ChainFrame(fat: seq<nat>, f: seq<nat>, lim: nat, ch: seq<nat>)
    requires IsChain(fat, lim, ch) && |f| == |fat|
    requires forall c :: c in ch ==> 0 <= c < |fat| && f[c] == fat[c]
    ensures IsChain(f, lim, ch)
  {
    forall i | 0 <= i < |ch|
      ensures LinkAt(f, ch, i)
    {
      assert ch[i] in ch && LinkAt(fat, ch, i);
    }
  }

  /** A chain apart from the one being lengthened is not touched by it. */
  lemma {:induction false} ExtendMisses(fat: seq<nat>, f: seq<nat>, lim: nat, ch: seq<nat>, ext: seq<nat>, other: seq<nat>)
    requires Extends(fat, f, lim, ch, ext)
    requires IsChain(fat, lim, other)
    requires forall c :: c in other ==> c !in ch
    ensures IsChain(f, lim, other)
    ensures forall c :: c in other ==> c !in ch + ext
  {
    ChainEntriesTaken(fat, lim, other);
    ChainFrame(fat, f, lim, other);
  }

  /** Lengthening one chain leaves the others chains of the table, still disjoint. */
  lemma {:induction false} ExtendOne(fat: seq<nat>, f: seq<nat>, lim: nat, chains: seq<seq<nat>>, s: nat, ext: seq<nat>)
    requires WellFormed(fat, lim, chains) && s < |chains|
    requires Extends(fat, f, lim, chains[s], ext)
    ensures WellFormed(f, lim, chains[s := chains[s] + ext])
  {
    forall t | 0 <= t < |chains| && t != s
      ensures IsChain(f, lim, chains[t])
      ensures forall c :: c in chains[t] ==> c !in chains[s] + ext
    {
      ExtendMisses(fat, f, lim, chains[s], ext, chains[t]);
    }
  }

  /** ... and loses no cluster. */
  lemma {:induction false} ExtendOrphans(fat: seq<nat>, f: seq<nat>, lim: nat, chains: seq<seq<nat>>, s: nat, ext: seq<nat>)
    requires WellFormed(fat, lim, chains) && s < |chains|
    requires Extends(fat, f, lim, chains[s], ext)
    ensures Orphans(f, lim, chains[s := chains[s] + ext]) == Orphans(fat, lim, chains)
  {
    var ch := chains[s];
    ExtendsFree(fat, f, lim, ch, ext);
    forall c | 2 <= c < lim
      ensures c in Orphans(f, lim, chains[s := ch + ext]) <==> c in Orphans(fat, lim, chains)
    {
      OnSomeUpdate(chains, s, ch + ext, c);
      if c in ext {
        assert c in FreeSet(fat, lim);
      }
    }
  }

  /** Emptying one chain leaves the others chains of the table. */
  lemma {:induction false} DropOne(fat: seq<nat>, f: seq<nat>, lim: nat, chains: seq<seq<nat>>, s: nat)
    requires WellFormed(fat, lim, chains) && s < |chains|
    requires |f| == |fat|
    requires forall c :: 0 <= c < |fat| ==> f[c] == if c in chains[s] then 0 else fat[c]
    ensures WellFormed(f, lim, chains[s := []])
  {
    forall t | 0 <= t < |chains| && t != s
      ensures IsChain(f, lim, chains[t])
    {
      assert forall c :: c in chains[t] ==> 0 <= c < |fat| && c !in chains[s];
      ChainFrame(fat, f, lim, chains[t]);
    }
  }

  /** ... and loses no cluster: what the chain owned is free. */
  lemma {:induction false} DropOrphans(fat: seq<nat>, f: seq<nat>, lim: nat, chains: seq<seq<nat>>, s: nat)
    requires WellFormed(fat, lim, chains) && s < |chains|
    requires |f| == |fat|
    requires forall c :: 0 <= c < |fat| ==> f[c] == if c in chains[s] then 0 else fat[c]
    ensures Orphans(f, lim, chains[s := []]) == Orphans(fat, lim, chains)
    ensures FreeSet(f, lim) == FreeSet(fat, lim) + Members(chains[s])
  {
    ChainEntriesTaken(fat, lim, chains[s]);
    forall c | 2 <= c < lim
      ensures c in Orphans(f, lim, chains[s := []]) <==> c in Orphans(fat, lim, chains)
    {
      OnSomeUpdate(chains, s, [], c);
    }
  }

  // ---------------------------------------------------------------- accounting

  ghost function TotalLength(chains: seq<seq<nat>>): nat {
    if chains == [] then 0 else TotalLength(chains[..|chains| - 1]) + |chains[|chains| - 1]|
  }

  ghost function OwnedSet(lim: nat, chains: seq<seq<nat>>): set<nat> {
    set c | 2 <= c < lim && OnSome(chains, c)
  }

  lemma {:induction false} WellFormedFront(fat: seq<nat>, lim: nat, chains: seq<seq<nat>>)
    requires WellFormed(fat, lim, chains) && chains != []
    ensures WellFormed(fat, lim, chains[..|chains| - 1])
    ensures IsChain(fat, lim, chains[|chains| - 1])
    ensures Members(chains[|chains| - 1]) <= ClusterSet(lim)
    ensures OwnedSet(lim, chains[..|chains| - 1]) !! Members(chains[|chains| - 1])
  {
    var n := |chains| - 1;
    assert forall t :: 0 <= t < n ==> chains[..n][t] == chains[t];
    forall c | OnSome(chains[..n], c)
      ensures c !in chains[n]
    {
      var t :| 0 <= t < n && c in chains[..n][t];
      assert c in chains[t];
    }
  }

  lemma {:induction false} OwnedCount(fat: seq<nat>, lim: nat, chains: seq<seq<nat>>)
    requires WellFormed(fat, lim, chains)
    ensures |OwnedSet(lim, chains)| == TotalLength(chains)
  {
    if chains == [] {
      assert OwnedSet(lim, chains) == {};
    } else {
      var n := |chains| - 1;
      var front, last := chains[..n], chains[n];
      WellFormedFront(fat, lim, chains);
      OwnedCount(fat, lim, front);
      DistinctCount(last);
      OnSomeFront(chains, lim);
    }
  }

  lemma {:induction false} OnSomeFront(chains: seq<seq<nat>>, lim: nat)
    requires chains != []
    requires Members(chains[|chains| - 1]) <= ClusterSet(lim)
    ensures OwnedSet(lim, chains) == OwnedSet(lim, chains[..|chains| - 1]) + Members(chains[|chains| - 1])
  {
    var n := |chains| - 1;
    forall c
      ensures OnSome(chains, c) <==> OnSome(chains[..n], c) || c in chains[n]
    {
      if t :| 0 <= t < n && c in chains[..n][t] {
        assert c in chains[t];
      }
      if t :| 0 <= t < |chains| && c in chains[t] {
        assert t == n || c in chains[..n][t];
      }
    }
  }

  ghost function ClusterSet(lim: nat): set<nat> {
    set c: nat {:trigger IsCluster(c, lim)} | 2 <= c < lim && IsCluster(c, lim)
  }

  ghost predicate IsCluster(c: nat, lim: nat) {
    2 <= c < lim
  }

  lemma {:induction false} ClusterSetCount(lim: nat)
    requires 2 <= lim
    ensures |ClusterSet(lim)| == lim - 2
  {
    if lim > 2 {
      ClusterSetCount(lim - 1);
      assert ClusterSet(lim) == ClusterSet(lim - 1) + {lim - 1};
    } else {
      assert ClusterSet(lim) == {};
    }
  }

  /** Conservation: every cluster is free, on exactly one chain, or lost. */
  lemma {:induction false} ClusterAccounting(fat: seq<nat>, lim: nat, chains: seq<seq<nat>>)
    requires WellFormed(fat, lim, chains)
    ensures |FreeSet(fat, lim)| + TotalLength(chains) + |Orphans(fat, lim, chains)| == lim - 2
  {
    var free, owned, lost := FreeSet(fat, lim), OwnedSet(lim, chains), Orphans(fat, lim, chains);
    OwnedCount(fat, lim, chains);
    ClusterSetCount(lim);
    forall c | c in owned
      ensures c !in free
    {
      var s :| 0 <= s < |chains| && c in chains[s];
      ChainEntriesTaken(fat, lim, chains[s]);
    }
    assert forall c: nat :: IsCluster(c, lim) <==> c in free + owned + lost;
    assert ClusterSet(lim) == free + owned + lost;
    assert free !! owned && (free + owned) !! lost;
  }
}
