/** Bytes, little-endian words and in-place splices: the vocabulary every layer shares. */
module Bytes {

  type Byte = b: int | 0 <= b < 256

  const TWO16: int := 0x1_0000
  const TWO32: int := 0x1_0000_0000

  type Word16 = w: int | 0 <= w < 0x1_0000
  type Word32 = w: int | 0 <= w < 0x1_0000_0000

  /** The longest path and name buffer of the kernel. */
  const MAX_PATH: nat := 108

  datatype Option<+T> = None | Some(value: T)

  ghost predicate Distinct(s: seq<nat>) {
    forall i, j :: 0 <= i < j < |s| ==> s[i] != s[j]
  }

  function Min(a: int, b: int): int {
    if a < b then a else b
  }

  /** 32-bit addition. */
  function Add32(a: nat, b: nat): Word32 {
    (a + b) % TWO32
  }

  function Max(a: int, b: int): int {
    if a < b then b else a
  }

  function Encode16(w: Word16): (s: seq<Byte>)
    ensures |s| == 2
  {
    [w % 256, w / 256]
  }

  function Decode16(s: seq<Byte>): (w: Word16)
    requires |s| == 2
  {
    (s[0] as int) + 256 * (s[1] as int)
  }

  function Encode32(w: Word32): (s: seq<Byte>)
    ensures |s| == 4
  {
    Encode16(w % TWO16) + Encode16(w / TWO16)
  }

  function Decode32(s: seq<Byte>): (w: Word32)
    requires |s| == 4
  {
    (Decode16(s[..2]) as int) + TWO16 * (Decode16(s[2..]) as int)
  }

  lemma {:induction false} Word16RoundTrip(w: Word16, s: seq<Byte>)
    requires |s| == 2
    ensures Decode16(Encode16(w)) == w
    ensures Encode16(Decode16(s)) == s
  {
  }

  lemma {:induction false} Word32RoundTrip(w: Word32)
    ensures Decode32(Encode32(w)) == w
  {
    var e := Encode32(w);
    assert e[..2] == Encode16(w % TWO16) && e[2..] == Encode16(w / TWO16);
    Word16RoundTrip(w % TWO16, e[..2]);
    Word16RoundTrip(w / TWO16, e[2..]);
  }

  lemma {:induction false} Bytes32RoundTrip(s: seq<Byte>)
    requires |s| == 4
    ensures Encode32(Decode32(s)) == s
  {
    var lo, hi := Decode16(s[..2]), Decode16(s[2..]);
    assert Decode32(s) % TWO16 == lo && Decode32(s) / TWO16 == hi;
    Word16RoundTrip(lo, s[..2]);
    Word16RoundTrip(hi, s[2..]);
    assert s == s[..2] + s[2..];
  }

  /** `s` with `d` laid over it from index `p` on. */
  function Splice<T>(s: seq<T>, p: nat, d: seq<T>): (r: seq<T>)
    requires p + |d| <= |s|
    ensures |r| == |s|
    ensures forall i :: 0 <= i < |s| ==> r[i] == if p <= i < p + |d| then d[i - p] else s[i]
  {
    s[..p] + d + s[p + |d|..]
  }

  /** Consecutive splices are one splice of the concatenation. */
  lemma {:induction false} SpliceSplice<T>(s: seq<T>, p: nat, a: seq<T>, b: seq<T>)
    requires p + |a| + |b| <= |s|
    ensures Splice(Splice(s, p, a), p + |a|, b) == Splice(s, p, a + b)
  {
  }

  lemma {:induction false} SpliceRest<T>(s: seq<T>, p: nat, d: seq<T>, n: nat)
    requires n <= |d| && p + |d| <= |s|
    ensures Splice(Splice(s, p, d[..n]), p + n, d[n..]) == Splice(s, p, d)
    ensures n == |d| ==> Splice(s, p, d[..n]) == Splice(s, p, d)
  {
    SpliceSplice(s, p, d[..n], d[n..]);
    assert d[..n] + d[n..] == d;
  }

  /** Writing back a slice with `d` laid over it lays `d` over the whole. */
  lemma {:induction false} SpliceThrough<T>(s: seq<T>, a: nat, n: nat, o: nat, d: seq<T>)
    requires a + n <= |s| && o + |d| <= n
    ensures Splice(s, a, Splice(s[a..a + n], o, d)) == Splice(s, a + o, d)
  {
  }

  lemma {:induction false} SliceOfSlice<T>(s: seq<T>, a: nat, n: nat, i: nat, m: nat)
    requires a + n <= |s| && i + m <= n
    ensures s[a..a + n][i..i + m] == s[a + i..a + i + m]
  {
    var t := s[a..a + n];
    var x, y := t[i..i + m], s[a + i..a + i + m];
    forall j | 0 <= j < m
      ensures x[j] == y[j]
    {
      assert x[j] == t[i + j] == s[a + (i + j)];
    }
  }

  /** A splice is invisible to every slice it does not meet. */
  lemma {:induction false} SpliceMisses<T>(s: seq<T>, p: nat, d: seq<T>, a: nat, n: nat)
    requires p + |d| <= |s|
    requires a + n <= |s|
    requires a + n <= p || p + |d| <= a
    ensures Splice(s, p, d)[a..a + n] == s[a..a + n]
  {
  }

  /** A splice inside a slice is a splice of that slice. */
  lemma {:induction false} SpliceInside<T>(s: seq<T>, p: nat, d: seq<T>, a: nat, n: nat)
    requires p + |d| <= |s|
    requires a <= p && p + |d| <= a + n <= |s|
    ensures Splice(s, p, d)[a..a + n] == Splice(s[a..a + n], p - a, d)
  {
  }

  lemma {:induction false} MultipleIsFar(n: int, cs: nat)
    ensures n == 0 || n * cs >= cs || n * cs <= -(cs as int)
  {
    if n > 0 {
      MulAtLeast(n, cs);
    } else if n < 0 {
      MulAtLeast(-n, cs);
      assert n * cs == -(-n * cs);
    }
  }

  lemma {:induction false} MulAtLeast(n: nat, cs: nat)
    requires n > 0
    ensures n * cs >= cs
  {
    assert n * cs == (n - 1) * cs + cs;
  }
}
