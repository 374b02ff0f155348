/** The parts of `sscanf` the driver uses to read replies: `%d`, `%s` and
    literal characters of the format, which must match the input exactly. */
module Scan {
  import opened Wrappers
  import opened Decimal

  /** The characters `isspace` accepts in the C locale. */
  predicate IsSpace(c: char) {
    c == ' ' || '\t' <= c <= '\r'
  }

  /** A value converted by one directive and the input left after it. */
  datatype Scanned<T> = Scanned(value: T, rest: string)

  /** Leading white space, which `%d` and `%s` skip before converting. */
  function SkipSpace(s: string): (r: string)
    ensures |r| <= |s| && r == s[|s| - |r|..]
    ensures forall i :: 0 <= i < |s| - |r| ==> IsSpace(s[i])
    ensures r == [] || !IsSpace(r[0])
  {
    if |s| > 0 && IsSpace(s[0]) then SkipSpace(s[1..]) else s
  }

  /** The length of the longest prefix of `s` made of digits. */
  function DigitRun(s: string): (n: nat)
    ensures n <= |s| && AllDigits(s[..n])
    ensures n < |s| ==> !IsDigit(s[n])
  {
    if |s| > 0 && IsDigit(s[0]) then
      var n := 1 + DigitRun(s[1..]);
      assert s[..n] == [s[0]] + s[1..][..n - 1];
      n
    else 0
  }

  /** The length of the longest prefix of `s` without white space. */
  function WordRun(s: string): (n: nat)
    ensures n <= |s|
    ensures forall i :: 0 <= i < n ==> !IsSpace(s[i])
    ensures n < |s| ==> IsSpace(s[n])
  {
    if |s| > 0 && !IsSpace(s[0]) then 1 + WordRun(s[1..]) else 0
  }

  /** The unsigned part of `%d`: at least one decimal digit, as many as follow. */
  function ScanDigits(u: string): (r: Option<Scanned<nat>>)
    ensures r.Some? <==> |u| > 0 && IsDigit(u[0])
  {
    var n := DigitRun(u);
    if n == 0 then None else Some(Scanned(DigitsValue(u[..n]), u[n..]))
  }

  /** `%d`: skip white space, accept an optional sign, then read the digits. */
  function ScanInt(s: string): Option<Scanned<int>> {
    var t := SkipSpace(s);
    if |t| > 0 && t[0] == '-' then
      match ScanDigits(t[1..])
      case None => None
      case Some(m) => Some(Scanned(-(m.value as int), m.rest))
    else
      var u := if |t| > 0 && t[0] == '+' then t[1..] else t;
      match ScanDigits(u)
      case None => None
      case Some(m) => Some(Scanned(m.value as int, m.rest))
  }

  /** Ordinary characters of a format: the input must continue with `lit`. */
  function ScanLiteral(s: string, lit: string): (r: Option<string>)
    ensures r.Some? <==> lit <= s
    ensures r.Some? ==> s == lit + r.value
  {
    if lit <= s then Some(s[|lit|..]) else None
  }

  /** `%s`: skip white space, then read a non-empty run of other characters. */
  function ScanWord(s: string): (r: Option<Scanned<string>>)
    ensures r.Some? ==> |r.value.value| > 0
    ensures r.Some? ==> forall i :: 0 <= i < |r.value.value| ==> !IsSpace(r.value.value[i])
    ensures r.Some? ==> r.value.rest == [] || IsSpace(r.value.rest[0])
  {
    var t := SkipSpace(s);
    var n := WordRun(t);
    if n == 0 then None else Some(Scanned(t[..n], t[n..]))
  }

  /** The integer `sscanf(s, "%d<mnem>%d", &axis, &val)` stores into `val`;
      `None` when the scan stops before the second conversion, leaving `val`
      as it was. */
  function ScanIndexedInt(s: string, mnem: string): Option<int> {
    match ScanInt(s)
    case None => None
    case Some(axis) =>
      match ScanLiteral(axis.rest, mnem)
      case None => None
      case Some(r) =>
        match ScanInt(r)
        case None => None
        case Some(v) => Some(v.value)
  }

  /** The word `sscanf(s, "%d<mnem>%s", &axis, word)` stores into `word`. */
  function ScanIndexedWord(s: string, mnem: string): Option<string> {
    match ScanInt(s)
    case None => None
    case Some(axis) =>
      match ScanLiteral(axis.rest, mnem)
      case None => None
      case Some(r) =>
        match ScanWord(r)
        case None => None
        case Some(w) => Some(w.value)
  }

  /** The word `sscanf(s, "<prefix>%s", word)` stores into `word`. */
  function ScanPrefixedWord(s: string, prefix: string): Option<string> {
    match ScanLiteral(s, prefix)
    case None => None
    case Some(r) =>
      match ScanWord(r)
      case None => None
      case Some(w) => Some(w.value)
  }

  // ---- Round trips with the formatting side ---------------------------------

  /** A numeral followed by a non-digit is exactly one digit run. */
  lemma {:induction false} DigitRunOfNumeral(d: string, rest: string)
    requires AllDigits(d)
    requires rest == [] || !IsDigit(rest[0])
    ensures DigitRun(d + rest) == |d|
    decreases |d|
  {
    if |d| > 0 {
      assert (d + rest)[1..] == d[1..] + rest;
      DigitRunOfNumeral(d[1..], rest);
    } else {
      assert d + rest == rest;
    }
  }

  /** A numeral followed by a non-digit is read back whole. */
  lemma ScanDigitsRoundTrip(d: string, rest: string)
    requires |d| > 0 && AllDigits(d)
    requires rest == [] || !IsDigit(rest[0])
    ensures ScanDigits(d + rest) == Some(Scanned(DigitsValue(d), rest))
  {
    DigitRunOfNumeral(d, rest);
    assert (d + rest)[0] == d[0];
    assert (d + rest)[..|d|] == d;
    assert (d + rest)[|d|..] == rest;
  }

  /** A white-space-free start is not skipped. */
  lemma SkipNoSpace(s: string)
    requires |s| > 0 && !IsSpace(s[0])
    ensures SkipSpace(s) == s
  {
  }

  /** The numeral of a natural number followed by a non-digit reads back. */
  lemma NumeralRoundTrip(m: nat, rest: string)
    requires rest == [] || !IsDigit(rest[0])
    ensures ScanDigits(NatToString(m) + rest) == Some(Scanned(m, rest))
    ensures (NatToString(m) + rest)[0] == NatToString(m)[0]
  {
    NatToStringValue(m);
    ScanDigitsRoundTrip(NatToString(m), rest);
  }

  /** `%d` reads back what `%d` printed, provided no digit follows. */
  lemma ScanIntRoundTrip(n: int, rest: string)
    requires rest == [] || !IsDigit(rest[0])
    ensures ScanInt(IntToString(n) + rest) == Some(Scanned(n, rest))
  {
    if n < 0 {
      NegativeRoundTrip(n, rest);
    } else {
      NonNegativeRoundTrip(n, rest);
    }
  }

  /** `%d` reads back a printed negative number. */
  lemma NegativeRoundTrip(n: int, rest: string)
    requires n < 0 && (rest == [] || !IsDigit(rest[0]))
    ensures ScanInt(IntToString(n) + rest) == Some(Scanned(n, rest))
  {
    var u := NatToString(-n) + rest;
    NumeralRoundTrip(-n, rest);
    var s := "-" + u;
    assert IntToString(n) + rest == s;
    SkipNoSpace(s);
    assert s[1..] == u;
  }

  /** `%d` reads back a printed non-negative number. */
  lemma NonNegativeRoundTrip(n: int, rest: string)
    requires n >= 0 && (rest == [] || !IsDigit(rest[0]))
    ensures ScanInt(IntToString(n) + rest) == Some(Scanned(n, rest))
  {
    var u := NatToString(n) + rest;
    assert IntToString(n) + rest == u;
    NumeralRoundTrip(n, rest);
    assert IsDigit(u[0]);
    SkipNoSpace(u);
  }

  /** A word without white space followed by white space or the end of the
      input is exactly one word run. */
  lemma {:induction false} WordRunOfWord(w: string, rest: string)
    requires forall i :: 0 <= i < |w| ==> !IsSpace(w[i])
    requires rest == [] || IsSpace(rest[0])
    ensures WordRun(w + rest) == |w|
    decreases |w|
  {
    if |w| > 0 {
      assert (w + rest)[1..] == w[1..] + rest;
      WordRunOfWord(w[1..], rest);
    } else {
      assert w + rest == rest;
    }
  }

  /** `%s` reads back a non-empty word without white space. */
  lemma ScanWordRoundTrip(w: string, rest: string)
    requires |w| > 0 && forall i :: 0 <= i < |w| ==> !IsSpace(w[i])
    requires rest == [] || IsSpace(rest[0])
    ensures ScanWord(w + rest) == Some(Scanned(w, rest))
  {
    WordRunOfWord(w, rest);
    assert (w + rest)[0] == w[0];
    assert SkipSpace(w + rest) == w + rest;
    assert (w + rest)[..|w|] == w;
    assert (w + rest)[|w|..] == rest;
  }

  /** A reply `<axis><mnem><value>` gives back `value` when the mnemonic
      does not start with a digit. */
  lemma ScanIndexedIntRoundTrip(axis: int, mnem: string, v: int)
    requires |mnem| > 0 && !IsDigit(mnem[0])
    ensures ScanIndexedInt(IntToString(axis) + mnem + IntToString(v), mnem) == Some(v)
  {
    var tail := mnem + IntToString(v);
    assert IntToString(axis) + mnem + IntToString(v) == IntToString(axis) + tail;
    ScanIntRoundTrip(axis, tail);
    assert ScanLiteral(tail, mnem) == Some(IntToString(v));
    ScanIntRoundTrip(v, []);
    assert IntToString(v) + [] == IntToString(v);
  }

  /** A reply `<axis><mnem><word>` gives back `word`. */
  lemma ScanIndexedWordRoundTrip(axis: int, mnem: string, w: string)
    requires |mnem| > 0 && !IsDigit(mnem[0])
    requires |w| > 0 && forall i :: 0 <= i < |w| ==> !IsSpace(w[i])
    ensures ScanIndexedWord(IntToString(axis) + mnem + w, mnem) == Some(w)
  {
    var tail := mnem + w;
    assert IntToString(axis) + mnem + w == IntToString(axis) + tail;
    ScanIntRoundTrip(axis, tail);
    assert ScanLiteral(tail, mnem) == Some(w);
    ScanWordRoundTrip(w, []);
    assert w + [] == w;
  }

  /** A reply `<prefix><word>` gives back `word`. */
  lemma ScanPrefixedWordRoundTrip(prefix: string, w: string)
    requires |w| > 0 && forall i :: 0 <= i < |w| ==> !IsSpace(w[i])
    ensures ScanPrefixedWord(prefix + w, prefix) == Some(w)
  {
    assert ScanLiteral(prefix + w, prefix) == Some(w);
    ScanWordRoundTrip(w, []);
    assert w + [] == w;
  }

  /** A reply that does not start with the prefix stores nothing. */
  lemma ScanPrefixedWordMismatch(s: string, prefix: string)
    requires !(prefix <= s)
    ensures ScanPrefixedWord(s, prefix) == None
  {
  }
}
