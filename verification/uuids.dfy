/**
 * The 128-bit UUID that every identifier of the message store wraps, with the
 * two encodings the code relies on: the 16 big-endian bytes of `as_bytes()`
 * (written as the BSON `_id` binary) and the hyphenated lower-case hexadecimal
 * form of `Display` (used inside error messages).
 */
module Uuids {
  import opened Wrappers

  function Pow(b: nat, n: nat): nat
  {
    if n == 0 then 1 else b * Pow(b, n - 1)
  }

  const UuidBound: nat := 0x1_0000_0000_0000_0000_0000_0000_0000_0000

  /** A UUID is its 128-bit value. */
  type Uuid = x: nat | x < UuidBound

  type Byte = x: nat | x < 256

  /** The `n` base-`b` digits of `v`, most significant first. */
  function Digits(v: nat, n: nat, b: nat): (ds: seq<nat>)
    requires b >= 2
    ensures |ds| == n
    ensures forall i :: 0 <= i < n ==> ds[i] < b
  {
    if n == 0 then [] else Digits(v / b, n - 1, b) + [v % b]
  }

  /** The number that the big-endian digit sequence `ds` denotes in base `b`. */
  function ValueOf(ds: seq<nat>, b: nat): nat
  {
    if |ds| == 0 then 0 else ValueOf(ds[..|ds| - 1], b) * b + ds[|ds| - 1]
  }

  lemma MulMonotone(b: nat, x: nat, y: nat)
    requires x <= y
    ensures b * x <= b * y
  {
  }

  lemma DivMod(v: nat, b: nat)
    requires b >= 1
    ensures (v / b) * b + v % b == v
  {
  }

  lemma QuotientBound(v: nat, b: nat, n: nat)
    requires b >= 2 && n >= 1 && v < Pow(b, n)
    ensures v / b < Pow(b, n - 1)
  {
    var q, p := v / b, Pow(b, n - 1);
    DivMod(v, b);
    if q >= p {
      MulMonotone(b, p, q);
      assert false;
    }
  }

  lemma ValueOfLast(ds: seq<nat>, b: nat)
    requires |ds| > 0
    ensures ValueOf(ds, b) == ValueOf(ds[..|ds| - 1], b) * b + ds[|ds| - 1]
  {
  }

  /** Reading back the digits of a number that fits gives the number. */
  lemma {:induction false} DigitsRoundTrip(v: nat, n: nat, b: nat)
    requires b >= 2 && v < Pow(b, n)
    ensures ValueOf(Digits(v, n, b), b) == v
    decreases n
  {
    if n > 0 {
      var ds, q, r := Digits(v, n, b), v / b, v % b;
      assert ds == Digits(q, n - 1, b) + [r];
      assert ds[..n - 1] == Digits(q, n - 1, b);
      QuotientBound(v, b, n);
      DigitsRoundTrip(q, n - 1, b);
      ValueOfLast(ds, b);
      DivMod(v, b);
    }
  }

  /** Two numbers below `b^n` with the same `n` digits are equal. */
  lemma DigitsInjective(u: nat, v: nat, n: nat, b: nat)
    requires b >= 2 && u < Pow(b, n) && v < Pow(b, n)
    requires Digits(u, n, b) == Digits(v, n, b)
    ensures u == v
  {
    DigitsRoundTrip(u, n, b);
    DigitsRoundTrip(v, n, b);
  }

  lemma {:induction false} PowAdd(b: nat, m: nat, n: nat)
    ensures Pow(b, m + n) == Pow(b, m) * Pow(b, n)
  {
    if m > 0 {
      PowAdd(b, m - 1, n);
      assert Pow(b, m + n) == b * Pow(b, m - 1 + n);
    }
  }

  lemma {:induction false} PowSquareBase(n: nat)
    ensures Pow(256, n) == Pow(16, 2 * n)
  {
    if n > 0 {
      PowSquareBase(n - 1);
      assert Pow(16, 2 * n) == 16 * (16 * Pow(16, 2 * n - 2));
    }
  }

  lemma UuidBoundIsPow()
    ensures Pow(256, 16) == UuidBound && Pow(16, 32) == UuidBound
  {
    assert Pow(16, 4) == 65536;
    PowAdd(16, 4, 4);
    PowAdd(16, 8, 8);
    PowAdd(16, 16, 16);
    PowSquareBase(16);
  }

  /** `Uuid::as_bytes`: the sixteen bytes of the value, most significant first. */
  function AsBytes(u: Uuid): (bytes: seq<Byte>)
    ensures |bytes| == 16
    ensures ValueOf(bytes, 256) == u
  {
    UuidBoundIsPow();
    DigitsRoundTrip(u, 16, 256);
    Digits(u, 16, 256)
  }

  /** Distinct UUIDs have distinct byte encodings. */
  lemma AsBytesInjective(u: Uuid, v: Uuid)
    ensures AsBytes(u) == AsBytes(v) <==> u == v
  {
  }

  const HexAlphabet: string := "0123456789abcdef"

  function HexDigitValue(c: char): nat
  {
    if '0' <= c <= '9' then (c as int - '0' as int) as nat
    else if 'a' <= c <= 'f' then (c as int - 'a' as int + 10) as nat
    else 0
  }

  lemma HexAlphabetRoundTrip(d: nat)
    requires d < 16
    ensures HexDigitValue(HexAlphabet[d]) == d
  {
  }

  /** The 32 lower-case hexadecimal digits of `u`, without separators. */
  function Hex32(u: Uuid): (h: string)
    ensures |h| == 32
    ensures forall i :: 0 <= i < 32 ==> h[i] in HexAlphabet
  {
    var ds := Digits(u, 32, 16);
    seq(32, i requires 0 <= i < 32 => HexAlphabet[ds[i]])
  }

  /** `Display for Uuid`: 8-4-4-4-12 lower-case hexadecimal digit groups. */
  function Hyphenated(u: Uuid): (s: string)
    ensures |s| == 36
    ensures s[8] == '-' && s[13] == '-' && s[18] == '-' && s[23] == '-'
    ensures s[..8] + s[9..13] + s[14..18] + s[19..23] + s[24..] == Hex32(u)
  {
    var h := Hex32(u);
    var s := h[..8] + "-" + h[8..12] + "-" + h[12..16] + "-" + h[16..20] + "-" + h[20..];
    assert s[..8] == h[..8] && s[9..13] == h[8..12] && s[14..18] == h[12..16];
    assert s[19..23] == h[16..20] && s[24..] == h[20..];
    assert h == h[..8] + h[8..12] + h[12..16] + h[16..20] + h[20..];
    s
  }

  lemma Hex32Injective(u: Uuid, v: Uuid)
    requires Hex32(u) == Hex32(v)
    ensures u == v
  {
    var du, dv := Digits(u, 32, 16), Digits(v, 32, 16);
    forall i | 0 <= i < 32
      ensures du[i] == dv[i]
    {
      HexAlphabetRoundTrip(du[i]);
      HexAlphabetRoundTrip(dv[i]);
      assert Hex32(u)[i] == HexAlphabet[du[i]];
      assert Hex32(v)[i] == HexAlphabet[dv[i]];
    }
    assert du == dv;
    UuidBoundIsPow();
    DigitsInjective(u, v, 32, 16);
  }

  /** The displayed form identifies the UUID: distinct UUIDs print differently. */
  lemma HyphenatedInjective(u: Uuid, v: Uuid)
    ensures Hyphenated(u) == Hyphenated(v) <==> u == v
  {
    if Hyphenated(u) == Hyphenated(v) {
      Hex32Injective(u, v);
    }
  }
}
