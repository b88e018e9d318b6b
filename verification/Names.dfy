/** 8.3 names: the two name fields of a directory entry, the file name they show, and the
    case-insensitive comparison used by every lookup. Names are C strings without the
    terminator: sequences of non-zero bytes. */
module Names {
  import opened Bytes

  const DOT: Byte := 0x2E
  const SPACE: Byte := 0x20

  ghost predicate CString(s: seq<Byte>) {
    forall i :: 0 <= i < |s| ==> s[i] != 0
  }

  function ToLower(b: Byte): Byte {
    if 65 <= b <= 90 then b + 32 else b
  }

  function ToUpper(b: Byte): Byte {
    if 97 <= b <= 122 then b - 32 else b
  }

  /** Equal up to case. */
  ghost predicate SameName(a: seq<Byte>, b: seq<Byte>) {
    |a| == |b| && forall i :: 0 <= i < |a| ==> ToLower(a[i]) == ToLower(b[i])
  }

  /** istrncmp on two terminated strings: zero exactly when they agree up to case over their
      first `n` bytes, terminators included. */
  method CompareNames(s1: seq<Byte>, s2: seq<Byte>, n: nat) returns (r: int)
    requires CString(s1) && CString(s2)
    ensures |s1| < n ==> (r == 0 <==> SameName(s1, s2))
    ensures |s1| >= n ==> (r == 0 <==> |s2| >= n && SameName(s1[..n], s2[..n]))
  {
    var i := 0;
    while i < n
      invariant 0 <= i <= n && i <= |s1| && i <= |s2|
      invariant SameName(s1[..i], s2[..i])
    {
      var u1: Byte := if i < |s1| then s1[i] else 0;
      var u2: Byte := if i < |s2| then s2[i] else 0;
      if u1 != u2 && ToLower(u1) != ToLower(u2) {
        assert i < n && (i < |s1| && i < |s2| ==> ToLower(s1[i]) != ToLower(s2[i]));
        return u1 - u2;
      }
      if u1 == 0 {
        assert s1[..i] == s1 && s2[..i] == s2;
        return 0;
      }
      assert s1[..i + 1] == s1[..i] + [s1[i]] && s2[..i + 1] == s2[..i] + [s2[i]];
      i := i + 1;
    }
    return 0;
  }

  /** Two bytes compare equal exactly if they are the same or the two cases of one letter. */
  lemma {:induction false} SameLetterIff(a: Byte, b: Byte)
    ensures ToLower(a) == ToLower(b) <==> a == b || (65 <= a <= 90 && b == a + 32) || (65 <= b <= 90 && a == b + 32)
  {
  }

  // ---------------------------------------------------------------- fields to name

  /** A field up to its padding or terminator. */
  function Trim(f: seq<Byte>): (r: seq<Byte>)
    ensures r <= f
    ensures 0 !in r && SPACE !in r
    ensures |r| < |f| ==> f[|r|] == 0 || f[|r|] == SPACE
  {
    if f == [] || f[0] == 0 || f[0] == SPACE then [] else [f[0]] + Trim(f[1..])
  }

  /** The name shown for an entry: the base, then the extension after a dot if there is one. */
  function FullName(base: seq<Byte>, ext: seq<Byte>): seq<Byte> {
    if Trim(ext) == [] then Trim(base) else Trim(base) + [DOT] + Trim(ext)
  }

  // ---------------------------------------------------------------- name to fields

  function Upper(s: seq<Byte>): (r: seq<Byte>)
    ensures |r| == |s| && forall i :: 0 <= i < |s| ==> r[i] == ToUpper(s[i])
  {
    seq(|s|, i requires 0 <= i < |s| => ToUpper(s[i]))
  }

  function Pad(s: seq<Byte>, n: nat): (r: seq<Byte>)
    requires |s| <= n
    ensures |r| == n
  {
    s + seq(n - |s|, _ => SPACE)
  }

  /** Length of the part before the first dot, counted up to `max`. */
  function BaseLength(name: seq<Byte>, max: nat): (n: nat)
    ensures n <= |name| && n <= max
    ensures forall i :: 0 <= i < n ==> name[i] != DOT
    ensures n < |name| && n < max ==> name[n] == DOT
  {
    if name == [] || name[0] == DOT || max == 0 then 0
    else
      BaseLength(name[1..], max - 1) + 1
  }

  lemma {:induction false} BaseLengthIs(name: seq<Byte>, max: nat, n: nat)
    requires n <= |name| && n <= max
    requires forall k :: 0 <= k < n ==> name[k] != DOT
    requires n == |name| || n == max || name[n] == DOT
    ensures BaseLength(name, max) == n
  {
  }

  /** Where the extension is read from: after the first eight base bytes, less one dot. */
  function ExtStart(name: seq<Byte>): (i: nat)
    ensures i <= |name|
  {
    var n := BaseLength(name, 8);
    if n < |name| && name[n] == DOT then n + 1 else n
  }

  function ExtPart(name: seq<Byte>): (r: seq<Byte>)
    ensures |r| == Min(3, |name| - ExtStart(name))
    ensures forall i :: 0 <= i < |r| ==> r[i] == name[ExtStart(name) + i]
  {
    name[ExtStart(name)..ExtStart(name) + Min(3, |name| - ExtStart(name))]
  }

  function BaseField(name: seq<Byte>): (f: seq<Byte>)
    ensures |f| == 8
  {
    Pad(Upper(name[..BaseLength(name, 8)]), 8)
  }

  function ExtField(name: seq<Byte>): (f: seq<Byte>)
    ensures |f| == 3
  {
    Pad(Upper(ExtPart(name)), 3)
  }

  /** `f` holds the bytes of `s` with small letters made capital, then spaces. */
  ghost predicate StoredAs(f: seq<Byte>, s: seq<Byte>) {
    && |s| <= |f|
    && (forall k :: 0 <= k < |s| ==> f[k] == if 97 <= s[k] <= 122 then s[k] - 32 else s[k])
    && (forall k :: |s| <= k < |f| ==> f[k] == 0x20)
  }

  /** The bytes stored for a name: up to eight before the first dot, up to three after it or after those
      eight, no small letter among them. */
  lemma {:induction false} FieldBytes(name: seq<Byte>, n: nat)
    requires n <= |name| && n <= 8 && (forall k :: 0 <= k < n ==> name[k] != 0x2E)
    requires n == |name| || n == 8 || name[n] == 0x2E
    ensures StoredAs(BaseField(name), name[..n])
    ensures var rest := if n < |name| && name[n] == 0x2E then name[n + 1..] else name[n..];
            StoredAs(ExtField(name), if |rest| <= 3 then rest else rest[..3])
    ensures forall k :: 0 <= k < 8 ==> !(97 <= BaseField(name)[k] <= 122)
    ensures forall k :: 0 <= k < 3 ==> !(97 <= ExtField(name)[k] <= 122)
  {
    BaseLengthIs(name, 8, n);
    var rest := if n < |name| && name[n] == 0x2E then name[n + 1..] else name[n..];
    assert ExtPart(name) == if |rest| <= 3 then rest else rest[..3];
  }

  /** fat16_name_to_83: one pass over the name, filling two space-padded fields. */
  method NameTo83(name: seq<Byte>) returns (base: seq<Byte>, ext: seq<Byte>)
    ensures base == BaseField(name) && ext == ExtField(name)
  {
    base, ext := seq(8, _ => SPACE), seq(3, _ => SPACE);
    var p, i := 0, 0;
    while p < |name| && name[p] != DOT && i < 8
      invariant 0 <= p == i <= 8 && p <= |name| && |base| == 8
      invariant forall k :: 0 <= k < p ==> name[k] != DOT
      invariant forall k :: 0 <= k < 8 ==> base[k] == if k < i then ToUpper(name[k]) else SPACE
    {
      base := base[i := ToUpper(name[p])];
      p, i := p + 1, i + 1;
    }
    BaseLengthIs(name, 8, p);
    assert base == BaseField(name);
    if p < |name| && name[p] == DOT {
      p := p + 1;
    }
    ghost var start := p;
    assert start == ExtStart(name);
    var j := 0;
    while p < |name| && j < 3
      invariant 0 <= j <= 3 && p == start + j <= |name| && |ext| == 3
      invariant forall k :: 0 <= k < 3 ==> ext[k] == if k < j then ToUpper(name[start + k]) else SPACE
    {
      ext := ext[j := ToUpper(name[p])];
      p, j := p + 1, j + 1;
    }
    assert ext == ExtField(name);
  }

  // ---------------------------------------------------------------- round trip

  /** The names that survive conversion: a base of at most eight bytes and, after a dot, one
      to three more, without spaces in either. */
  predicate Representable(name: seq<Byte>) {
    var n := BaseLength(name, 9);
    && n <= 8
    && SPACE !in name[..n]
    && (n < |name| ==> 1 <= |name| - n - 1 <= 3 && SPACE !in name[n + 1..])
  }

  /** Trimming a padded field gives the text back exactly when it holds no space; otherwise
      it stops at the first one. */
  lemma {:induction false} TrimPad(s: seq<Byte>, n: nat)
    requires CString(s) && |s| <= n
    ensures SPACE !in s ==> Trim(Pad(Upper(s), n)) == Upper(s)
    ensures SPACE in s ==> |Trim(Pad(Upper(s), n))| < |s| && s[|Trim(Pad(Upper(s), n))|] == SPACE
    decreases n
  {
    var f := Pad(Upper(s), n);
    if s == [] {
      assert n > 0 ==> f[0] == SPACE;
    } else if s[0] != SPACE {
      TrimPad(s[1..], n - 1);
      assert f[1..] == Pad(Upper(s[1..]), n - 1);
      assert f[0] == ToUpper(s[0]) != SPACE;
      assert Upper(s) == [ToUpper(s[0])] + Upper(s[1..]);
      assert SPACE in s <==> SPACE in s[1..];
    }
  }

  lemma {:induction false} BaseLength9(name: seq<Byte>, max: nat)
    ensures var n := BaseLength(name, max);
            BaseLength(name, max + 1) == if n == max < |name| && name[max] != DOT then max + 1 else n
  {
    if name != [] && name[0] != DOT && max > 0 {
      BaseLength9(name[1..], max - 1);
    }
  }

  /** Conversion to fields and back is the identity up to case on exactly the representable
      names. */
  lemma {:induction false} RoundTripIff(name: seq<Byte>)
    requires CString(name)
    ensures SameName(FullName(BaseField(name), ExtField(name)), name) <==> Representable(name)
  {
    var n := BaseLength(name, 8);
    var base, ext := name[..n], ExtPart(name);
    BaseLength9(name, 8);
    TrimPad(base, 8);
    TrimPad(ext, 3);
    if Representable(name) {
      RoundTripOf(name, n);
    } else {
      NoRoundTrip(name, n, base, ext);
    }
  }

  /** The shown parts of a representable name's fields. */
  lemma {:induction false} ShownParts(name: seq<Byte>, n: nat)
    requires CString(name) && Representable(name) && n == BaseLength(name, 8) == BaseLength(name, 9)
    ensures Trim(BaseField(name)) == Upper(name[..n])
    ensures Trim(ExtField(name)) == Upper(if n < |name| then name[n + 1..] else [])
  {
    TrimPad(name[..n], 8);
    TrimPad(ExtPart(name), 3);
    assert ExtPart(name) == if n < |name| then name[n + 1..] else [];
  }

  lemma {:induction false} SameDotted(name: seq<Byte>, n: nat)
    requires n < |name| && name[n] == DOT
    ensures SameName(Upper(name[..n]) + [DOT] + Upper(name[n + 1..]), name)
  {
  }

  lemma {:induction false} RoundTripOf(name: seq<Byte>, n: nat)
    requires CString(name) && Representable(name) && n == BaseLength(name, 8) == BaseLength(name, 9)
    ensures SameName(FullName(BaseField(name), ExtField(name)), name)
  {
    ShownParts(name, n);
    if n < |name| {
      SameDotted(name, n);
    } else {
      assert name[..n] == name;
    }
  }

  lemma {:induction false} NoRoundTrip(name: seq<Byte>, n: nat, base: seq<Byte>, ext: seq<Byte>)
    requires CString(name) && !Representable(name)
    requires n == BaseLength(name, 8) && base == name[..n] && ext == ExtPart(name)
    ensures !SameName(FullName(BaseField(name), ExtField(name)), name)
  {
    BaseLength9(name, 8);
    if SPACE in base {
      NoRoundTripSpace(name, n, base);
    } else if n < |name| && name[n] != DOT {
      NoRoundTripLong(name, n, base);
    } else if n < |name| {
      NoRoundTripExt(name, n, base, ext);
    }
  }

  /** The name goes on where the shown name ends or has its dot. */
  lemma {:induction false} NoRoundTripLong(name: seq<Byte>, n: nat, base: seq<Byte>)
    requires CString(name) && n == BaseLength(name, 8) < |name| && name[n] != DOT
    requires base == name[..n] && SPACE !in base
    ensures !SameName(FullName(BaseField(name), ExtField(name)), name)
  {
    var full := FullName(BaseField(name), ExtField(name));
    TrimPad(base, 8);
    assert |full| == n || full[n] == DOT;
  }

  /** The extension is empty, too long or has a space: the shown name is shorter. */
  lemma {:induction false} NoRoundTripExt(name: seq<Byte>, n: nat, base: seq<Byte>, ext: seq<Byte>)
    requires CString(name) && n == BaseLength(name, 8) < |name| && name[n] == DOT
    requires base == name[..n] && SPACE !in base && ext == ExtPart(name)
    requires n == |name| - 1 || |name| - n - 1 > 3 || SPACE in name[n + 1..]
    ensures !SameName(FullName(BaseField(name), ExtField(name)), name)
  {
    TrimPad(base, 8);
    TrimPad(ext, 3);
    var rest := name[n + 1..];
    assert |rest| <= 3 ==> ext == rest;
    assert |FullName(BaseField(name), ExtField(name))| < |name|;
  }

  /** The name goes on with a space where the shown name ends or has its dot. */
  lemma {:induction false} NoRoundTripSpace(name: seq<Byte>, n: nat, base: seq<Byte>)
    requires CString(name) && n == BaseLength(name, 8) && base == name[..n] && SPACE in base
    ensures !SameName(FullName(BaseField(name), ExtField(name)), name)
  {
    var full, b := FullName(BaseField(name), ExtField(name)), Trim(BaseField(name));
    TrimPad(base, 8);
    assert name[|b|] == SPACE && (|full| == |b| || full[|b|] == DOT);
  }

  /** Names equal up to case get the same fields. */
  lemma {:induction false} SameBaseLength(a: seq<Byte>, b: seq<Byte>, max: nat)
    requires SameName(a, b)
    ensures BaseLength(a, max) == BaseLength(b, max)
    decreases |a|
  {
    if a != [] && max > 0 {
      SameBaseLength(a[1..], b[1..], max - 1);
    }
  }

  lemma {:induction false} SameFields(a: seq<Byte>, b: seq<Byte>)
    requires SameName(a, b)
    ensures BaseField(a) == BaseField(b) && ExtField(a) == ExtField(b)
  {
    SameBaseLength(a, b, 8);
    var n := BaseLength(a, 8);
    assert forall i :: 0 <= i < |a| ==> ToUpper(a[i]) == ToUpper(b[i]);
    assert Upper(a[..n]) == Upper(b[..n]);
    assert ExtStart(a) == ExtStart(b) by {
      assert n < |a| ==> (a[n] == DOT <==> b[n] == DOT);
    }
    assert Upper(ExtPart(a)) == Upper(ExtPart(b));
  }

  /** Representable names collide on disk exactly when they are equal up to case. */
  lemma {:induction false} FieldsIffSameName(a: seq<Byte>, b: seq<Byte>)
    requires CString(a) && CString(b) && Representable(a) && Representable(b)
    ensures BaseField(a) == BaseField(b) && ExtField(a) == ExtField(b) <==> SameName(a, b)
  {
    if SameName(a, b) {
      SameFields(a, b);
    }
    RoundTripIff(a);
    RoundTripIff(b);
  }
}
