/** Decimal text as produced by `printf` with `%d` and `%.*f`, and read back.
    Numbers are mathematical integers and reals; the C integer widths the
    driver relies on are written out explicitly below. */
module Decimal {
  import opened Wrappers
  import opened Strings

  predicate IsDigit(c: char) {
    '0' <= c <= '9'
  }

  predicate AllDigits(s: string) {
    forall i :: 0 <= i < |s| ==> IsDigit(s[i])
  }

  function DigitChar(d: nat): (c: char)
    requires d < 10
    ensures IsDigit(c)
  {
    ('0' as int + d) as char
  }

  function DigitValue(c: char): (d: nat)
    requires IsDigit(c)
    ensures d < 10 && DigitChar(d) == c
  {
    c as int - '0' as int
  }

  function Pow10(d: nat): (p: nat)
    ensures p >= 1
  {
    if d == 0 then 1 else 10 * Pow10(d - 1)
  }

  /** `%u` of a natural number: its shortest decimal numeral. */
  function NatToString(n: nat): (s: string)
    ensures |s| >= 1 && AllDigits(s)
    decreases n
  {
    if n < 10 then [DigitChar(n)] else NatToString(n / 10) + [DigitChar(n % 10)]
  }

  /** `%d`: an optional minus sign followed by the numeral of the magnitude. */
  function IntToString(n: int): (s: string)
    ensures |s| >= 1
    ensures n >= 0 ==> s == NatToString(n)
    ensures n < 0 ==> s == "-" + NatToString(-n)
  {
    if n < 0 then "-" + NatToString(-n) else NatToString(n)
  }

  /** The value of a digit string, leading zeros allowed. */
  function DigitsValue(s: string): nat
    requires AllDigits(s)
  {
    if s == [] then 0 else DigitsValue(s[..|s| - 1]) * 10 + DigitValue(s[|s| - 1])
  }

  lemma {:induction false} NatToStringValue(n: nat)
    ensures DigitsValue(NatToString(n)) == n
    decreases n
  {
    if n >= 10 {
      var s := NatToString(n / 10) + [DigitChar(n % 10)];
      assert s[..|s| - 1] == NatToString(n / 10);
      NatToStringValue(n / 10);
    }
  }

  /** A numeral has at most `d` digits exactly when its value is below 10^d. */
  lemma {:induction false} NatToStringLength(n: nat, d: nat)
    requires d >= 1 && n < Pow10(d)
    ensures |NatToString(n)| <= d
    decreases d
  {
    if n >= 10 {
      assert d >= 2;
      assert n / 10 < Pow10(d - 1);
      NatToStringLength(n / 10, d - 1);
    }
  }

  lemma {:induction false} DigitsValueAppend(a: string, b: string)
    requires AllDigits(a) && AllDigits(b)
    ensures AllDigits(a + b)
    ensures DigitsValue(a + b) == DigitsValue(a) * Pow10(|b|) + DigitsValue(b)
    decreases |b|
  {
    assert AllDigits(a + b) by {
      forall i | 0 <= i < |a + b| ensures IsDigit((a + b)[i]) {
        if i < |a| { assert (a + b)[i] == a[i]; } else { assert (a + b)[i] == b[i - |a|]; }
      }
    }
    if b == [] {
      assert a + b == a;
    } else {
      var b' := b[..|b| - 1];
      var last := DigitValue(b[|b| - 1]);
      assert (a + b)[..|a + b| - 1] == a + b';
      assert (a + b)[|a + b| - 1] == b[|b| - 1];
      assert AllDigits(b');
      DigitsValueAppend(a, b');
      var va := DigitsValue(a);
      var p' := Pow10(|b'|);
      assert DigitsValue(a + b) == DigitsValue(a + b') * 10 + last;
      assert DigitsValue(a + b') == va * p' + DigitsValue(b');
      assert DigitsValue(b) == DigitsValue(b') * 10 + last;
      assert Pow10(|b|) == 10 * p';
      ShiftDigit(va, p', DigitsValue(b'));
    }
  }

  lemma ShiftDigit(a: int, p: int, c: int)
    ensures (a * p + c) * 10 == a * (10 * p) + c * 10
  {
  }

  function Zeros(k: nat): (z: string)
    ensures |z| == k && AllDigits(z)
    ensures forall i :: 0 <= i < k ==> z[i] == '0'
  {
    seq(k, i => '0')
  }

  lemma {:induction false} ZerosValue(k: nat)
    ensures DigitsValue(Zeros(k)) == 0
    decreases k
  {
    if k > 0 {
      assert Zeros(k)[..k - 1] == Zeros(k - 1);
      ZerosValue(k - 1);
    }
  }

  /** Left-pad a numeral with zeros to `width` characters, as `%.*f` does for
      the fraction digits. */
  function PadDigits(s: string, width: nat): (p: string)
    requires AllDigits(s)
    ensures AllDigits(p)
    ensures |s| <= width ==> |p| == width
  {
    if |s| < width then Zeros(width - |s|) + s else s
  }

  lemma PadDigitsValue(s: string, width: nat)
    requires AllDigits(s)
    ensures DigitsValue(PadDigits(s, width)) == DigitsValue(s)
  {
    if |s| < width {
      var z := Zeros(width - |s|);
      DigitsValueAppend(z, s);
      ZerosValue(width - |s|);
      assert DigitsValue(z + s) == 0 * Pow10(|s|) + DigitsValue(s);
    }
  }

  // ---- Integer widths -------------------------------------------------------

  const TWO32: int := 0x1_0000_0000
  const TWO31: int := 0x8000_0000

  /** C conversion of a real to an integer: truncation toward zero. */
  function Trunc(x: real): (t: int)
    ensures x >= 0.0 ==> t as real <= x < t as real + 1.0
    ensures x < 0.0 ==> t as real - 1.0 < x <= t as real
  {
    if x >= 0.0 then x.Floor else -((-x).Floor)
  }

  /** `static_cast<epicsUInt32>` of a double: truncation toward zero, reduced
      modulo 2^32 as the conversion behaves on the driver's targets for
      values outside the unsigned range. */
  function ToUInt32(x: real): (u: int)
    ensures 0 <= u < TWO32
    ensures (u - Trunc(x)) % TWO32 == 0
  {
    Trunc(x) % TWO32
  }

  /** What `%d` prints for a 32-bit value: its two's-complement reading. */
  function AsInt32(u: int): (v: int)
    requires 0 <= u < TWO32
    ensures -TWO31 <= v < TWO31
    ensures (v - u) % TWO32 == 0
  {
    if u >= TWO31 then u - TWO32 else u
  }

  /** A position within the signed 32-bit range survives the unsigned cast
      followed by `%d` unchanged. */
  lemma UInt32PrintRoundTrip(x: real)
    requires -TWO31 <= Trunc(x) < TWO31
    ensures AsInt32(ToUInt32(x)) == Trunc(x)
  {
  }

  // ---- Fixed-point formatting (%.*f) ---------------------------------------

  /** Nearest integer to a non-negative real, ties to even (the IEEE default
      rounding printf uses). */
  function RoundNearest(y: real): (r: nat)
    requires y >= 0.0
    ensures -0.5 <= r as real - y <= 0.5
  {
    var f := y.Floor;
    var frac := y - f as real;
    if frac < 0.5 then f
    else if frac > 0.5 then f + 1
    else if f % 2 == 0 then f
    else f + 1
  }

  /** `%.*f` with a negative precision behaves as if no precision were given. */
  function Precision(digits: int): nat {
    if digits < 0 then 6 else digits
  }

  function Abs(x: real): (a: real)
    ensures a >= 0.0
  {
    if x < 0.0 then -x else x
  }

  /** The magnitude of `x` in units of the last printed decimal. */
  function Scaled(x: real, d: nat): (y: real)
    ensures y >= 0.0
    ensures y == Abs(x) * Pow10(d) as real
  {
    var a := Abs(x);
    var p := Pow10(d) as real;
    assert a * p >= 0.0 by { assert p >= 1.0; }
    a * p
  }

  /** The digits `%.*f` prints for a magnitude already rounded to `q` units
      of 10^-d: the numeral of `q`, zero-padded so that at least one digit
      precedes the point, with a point inserted before the last `d` digits
      (no point at all when `d` is zero). */
  function FixedDigits(q: nat, d: nat): (s: string)
    ensures |s| >= 1
  {
    var t := PadDigits(NatToString(q), d + 1);
    if d == 0 then t else t[..|t| - d] + "." + t[|t| - d..]
  }

  /** `%.*f` of `x` with `digits` decimals: the magnitude rounded to that many
      decimals, with a leading minus sign for negative `x`. */
  function FormatFixed(x: real, digits: int): (s: string)
    ensures |s| >= 1
  {
    var d := Precision(digits);
    (if x < 0.0 then "-" else "") + FixedDigits(RoundNearest(Scaled(x, d)), d)
  }

  /** A fixed-point value read back from text: `units` of 10^-`decimals`. */
  datatype Fixed = Fixed(units: int, decimals: nat)

  /** Read back an unsigned fixed-point numeral: digits, optionally a point
      and at least one more digit. */
  function ParseUnsigned(s: string): Option<Fixed> {
    match FindChar(s, '.')
    case None =>
      if |s| > 0 && AllDigits(s) then Some(Fixed(DigitsValue(s), 0)) else None
    case Some(k) =>
      var whole := s[..k];
      var frac := s[k + 1..];
      if |whole| > 0 && AllDigits(whole) && |frac| > 0 && AllDigits(frac) then
        Some(Fixed(DigitsValue(whole + frac), |frac|))
      else None
  }

  /** Read back a fixed-point numeral with an optional leading minus sign. */
  function ParseFixed(s: string): Option<Fixed> {
    if |s| > 0 && s[0] == '-' then
      match ParseUnsigned(s[1..])
      case Some(v) => Some(v.(units := -v.units))
      case None => None
    else ParseUnsigned(s)
  }

  lemma DigitsHaveNoPoint(s: string)
    requires AllDigits(s)
    ensures FindChar(s, '.') == None
  {
    assert Free(s, '.');
    FindCharNone(s, '.');
  }

  /** The unsigned numeral built from a rounded magnitude `q` reads back as
      `q` units of 10^-d. */
  lemma ParseFixedDigits(q: nat, d: nat)
    ensures ParseUnsigned(FixedDigits(q, d)) == Some(Fixed(q, d))
  {
    var t := PadDigits(NatToString(q), d + 1);
    PadDigitsValue(NatToString(q), d + 1);
    NatToStringValue(q);
    if d == 0 {
      ParseWholeDigits(t);
    } else {
      var whole := t[..|t| - d];
      var frac := t[|t| - d..];
      assert whole + frac == t;
      ParseUnsignedSplit(whole, frac);
    }
  }

  /** A non-empty digit string without a point is a whole number. */
  lemma ParseWholeDigits(s: string)
    requires |s| > 0 && AllDigits(s)
    ensures ParseUnsigned(s) == Some(Fixed(DigitsValue(s), 0))
  {
    DigitsHaveNoPoint(s);
  }

  /** A point between two non-empty digit strings splits integer and fraction. */
  lemma ParseUnsignedSplit(whole: string, frac: string)
    requires |whole| > 0 && AllDigits(whole) && |frac| > 0 && AllDigits(frac)
    ensures ParseUnsigned(whole + "." + frac) == Some(Fixed(DigitsValue(whole + frac), |frac|))
  {
    var s := whole + "." + frac;
    assert s[..|whole|] == whole;
    assert Free(whole, '.');
    FindCharAt(s, '.', |whole|);
    assert s[|whole| + 1..] == frac;
  }

  /** The printed numeral reads back as the signed rounded magnitude. */
  lemma FormatFixedParse(x: real, digits: int)
    ensures var d := Precision(digits);
            var q: int := RoundNearest(Scaled(x, d));
            ParseFixed(FormatFixed(x, digits)) == Some(Fixed(if x < 0.0 then -q else q, d))
  {
    var d := Precision(digits);
    var q := RoundNearest(Scaled(x, d));
    var body := FixedDigits(q, d);
    ParseFixedDigits(q, d);
    if x < 0.0 {
      var s := "-" + body;
      assert s[1..] == body;
    } else {
      assert body[0] != '-';
      assert "" + body == body;
    }
  }

  /** Giving the rounded magnitude `q` of `x * p` the sign of `x` keeps it
      within one half of `x * p`. */
  lemma SignedRounding(x: real, p: real, y: real, q: int)
    requires y == Abs(x) * p
    requires -0.5 <= q as real - y <= 0.5
    ensures var u := if x < 0.0 then -q else q;
            -0.5 <= u as real - x * p <= 0.5
  {
    if x < 0.0 {
      assert Abs(x) * p == -(x * p);
    }
  }

  /** `v` is within half a unit of its last decimal of `x`. */
  predicate Approximates(v: Fixed, x: real) {
    -0.5 <= v.units as real - x * Pow10(v.decimals) as real <= 0.5
  }

  /** The signed rounded magnitude of `x` approximates `x` at `d` decimals. */
  lemma RoundedApproximates(x: real, d: nat)
    ensures var q: int := RoundNearest(Scaled(x, d));
            Approximates(Fixed(if x < 0.0 then -q else q, d), x)
  {
    var y := Scaled(x, d);
    SignedRounding(x, Pow10(d) as real, y, RoundNearest(y));
  }

  /** Formatting with `%.*f` and reading the numeral back yields the original
      value to within half a unit of the last printed decimal: the units read
      back differ from `x * 10^d` by at most one half, where `d` is the
      effective precision. */
  lemma FormatFixedRoundTrip(x: real, digits: int)
    ensures ParseFixed(FormatFixed(x, digits)).Some?
    ensures ParseFixed(FormatFixed(x, digits)).value.decimals == Precision(digits)
    ensures Approximates(ParseFixed(FormatFixed(x, digits)).value, x)
  {
    RoundedApproximates(x, Precision(digits));
    FormatFixedParse(x, digits);
  }
}
