/**
 * The decimal conversions the transcoder relies on: `fmt.Sprint` of an integer,
 * `strconv.Atoi` and `strconv.ParseInt(s, 10, 64)`. Go's `int` is taken to be
 * 64 bits wide, as on every platform the bot is built for.
 */
module Strconv {
  import opened Bytes
  import opened Wrappers

  const MinInt64: int := -0x8000_0000_0000_0000
  const MaxInt64: int := 0x7FFF_FFFF_FFFF_FFFF

  predicate InInt64(n: int) {
    MinInt64 <= n <= MaxInt64
  }

  const Zero: byte := 0x30
  const Minus: byte := 0x2D
  const Plus: byte := 0x2B

  predicate IsDigit(b: byte) {
    Zero <= b <= Zero + 9
  }

  predicate AllDigits(s: Bytes) {
    forall i :: 0 <= i < |s| ==> IsDigit(s[i])
  }

  /** Decimal digits of a natural number, most significant first, no leading zero. */
  function Digits(n: nat): (r: Bytes)
    ensures |r| > 0 && AllDigits(r)
    ensures n > 0 ==> r[0] != Zero
    decreases n
  {
    if n < 10 then [Zero + n] else Digits(n / 10) + [Zero + n % 10]
  }

  /** The value of a string of decimal digits, read most significant first. */
  function DigitsValue(s: Bytes): nat
    requires AllDigits(s)
  {
    if s == [] then 0 else DigitsValue(s[..|s| - 1]) * 10 + (s[|s| - 1] - Zero)
  }

  lemma {:induction false} DigitsRoundTrip(n: nat)
    ensures DigitsValue(Digits(n)) == n
    decreases n
  {
    if n >= 10 {
      var d := Digits(n);
      assert d[..|d| - 1] == Digits(n / 10);
      DigitsRoundTrip(n / 10);
    }
  }

  /** `fmt.Sprint(n)` for an integer: an optional minus sign, then the digits. */
  function Decimal(n: int): (r: Bytes)
    ensures |r| > 0
    ensures r[0] == Minus <==> n < 0
    ensures n >= 0 ==> AllDigits(r)
    ensures n < 0 ==> AllDigits(r[1..])
  {
    if n < 0 then [Minus] + Digits(-n) else Digits(n)
  }

  /**
   * The syntax `strconv.ParseInt(s, 10, _)` accepts: an optional sign followed
   * by at least one decimal digit. The unbounded value is returned.
   */
  function ParseSigned(s: Bytes): (r: Option<int>)
    ensures r.Some? ==> |s| > 0
  {
    if |s| > 0 && (s[0] == Plus || s[0] == Minus) then
      var body := s[1..];
      if |body| > 0 && AllDigits(body) then
        var v: int := if s[0] == Minus then -(DigitsValue(body) as int) else DigitsValue(body);
        Some(v)
      else None
    else if |s| > 0 && AllDigits(s) then Some(DigitsValue(s))
    else None
  }

  /**
   * The decimal syntax read character by character: not empty, and every byte
   * is a digit, except that the first may be a sign when more follows.
   */
  predicate DecimalSyntax(s: Bytes) {
    |s| > 0 && forall i :: 0 <= i < |s| ==> IsDigit(s[i]) || (i == 0 && |s| > 1 && (s[0] == Plus || s[0] == Minus))
  }

  /** `ParseSigned` accepts exactly the decimal syntax. */
  lemma ParseSignedSyntax(s: Bytes)
    ensures ParseSigned(s).Some? <==> DecimalSyntax(s)
  {
    if |s| > 0 && (s[0] == Plus || s[0] == Minus) {
      assert forall i :: 1 <= i < |s| ==> s[1..][i - 1] == s[i];
      if DecimalSyntax(s) {
        assert forall i :: 0 <= i < |s| - 1 ==> s[1..][i] == s[i + 1] && IsDigit(s[i + 1]);
      }
    }
  }

  /** `strconv.Atoi`: the value, or nothing on a syntax or range error. */
  function Atoi(s: Bytes): (r: Option<int>)
    ensures !DecimalSyntax(s) ==> r.None?
    ensures DecimalSyntax(s) ==> (r.Some? <==> InInt64(ParseSigned(s).value))
    ensures r.Some? ==> r == ParseSigned(s) && InInt64(r.value)
  {
    ParseSignedSyntax(s);
    match ParseSigned(s)
    case Some(v) => if InInt64(v) then Some(v) else None
    case None => None
  }

  const MaxUint64: int := 0xFFFF_FFFF_FFFF_FFFF

  /** The run of decimal digits a string starts with. */
  function LeadingDigits(s: Bytes): (r: Bytes)
    ensures AllDigits(r) && |r| <= |s| && r == s[..|r|]
    ensures |r| < |s| ==> !IsDigit(s[|r|])
    ensures AllDigits(s) ==> r == s
  {
    if s == [] || !IsDigit(s[0]) then [] else [s[0]] + LeadingDigits(s[1..])
  }

  /** A string without its leading sign, if it has one. */
  function Unsigned(s: Bytes): Bytes {
    if |s| > 0 && (s[0] == Plus || s[0] == Minus) then s[1..] else s
  }

  /**
   * The string's leading digit run, after the sign, is worth more than
   * 2^64 - 1, whatever follows it.
   */
  predicate DigitRunOverflows(s: Bytes) {
    |s| > 0 && DigitsValue(LeadingDigits(Unsigned(s))) > MaxUint64
  }

  /** How `strconv.ParseUint(s, 10, 64)` ends. */
  datatype UintResult = UintOk(n: nat) | SyntaxError | RangeError

  /**
   * The digit loop of `strconv.ParseUint` in base 10, from accumulated value
   * `n`: a non-digit is a syntax error, and a digit that takes the value past
   * 2^64 - 1 is a range error reported at once, before the rest is read.
   */
  function ScanDigits(s: Bytes, n: nat): UintResult
    requires n <= MaxUint64
  {
    if s == [] then UintOk(n)
    else if !IsDigit(s[0]) then SyntaxError
    else
      var n1 := n * 10 + (s[0] - Zero) as nat;
      if n1 > MaxUint64 then RangeError else ScanDigits(s[1..], n1)
  }

  /** `strconv.ParseUint(s, 10, 64)`: the empty string is a syntax error. */
  function ParseUint64(s: Bytes): UintResult {
    if s == [] then SyntaxError else ScanDigits(s, 0)
  }

  /** Appending digits never makes a digit string worth less. */
  lemma {:induction false} DigitsValueGrows(a: Bytes, b: Bytes)
    requires AllDigits(a) && AllDigits(b)
    ensures AllDigits(a + b) && DigitsValue(a + b) >= DigitsValue(a)
    decreases |b|
  {
    assert forall i :: 0 <= i < |a + b| ==> (a + b)[i] == if i < |a| then a[i] else b[i - |a|];
    if b != [] {
      var b' := b[..|b| - 1];
      assert (a + b)[..|a + b| - 1] == a + b';
      DigitsValueGrows(a, b');
      var x := DigitsValue(a + b');
      assert DigitsValue(a + b) == x * 10 + (b[|b| - 1] - Zero) as nat;
      assert x * 10 >= x;
    } else {
      assert a + b == a;
    }
  }

  /** One more digit multiplies the value by ten and adds the digit. */
  lemma DigitsValueSnoc(q: Bytes, b: byte)
    requires AllDigits(q) && IsDigit(b)
    ensures AllDigits(q + [b])
    ensures DigitsValue(q + [b]) == DigitsValue(q) * 10 + (b - Zero) as nat
  {
    assert (q + [b])[..|q|] == q;
  }

  /** The value of digits `d` read after the value `n`, most significant first. */
  function Accumulate(n: nat, d: Bytes): nat
    requires AllDigits(d)
    decreases |d|
  {
    if d == [] then n else Accumulate(n * 10 + (d[0] - Zero) as nat, d[1..])
  }

  /** Reading on from the value of `q` gives the value of `q` and `d` together. */
  lemma {:induction false} AccumulateIsDigitsValue(q: Bytes, d: Bytes)
    requires AllDigits(q) && AllDigits(d)
    ensures AllDigits(q + d) && Accumulate(DigitsValue(q), d) == DigitsValue(q + d)
    decreases |d|
  {
    if d == [] {
      assert q + d == q;
    } else {
      var q1 := q + [d[0]];
      DigitsValueSnoc(q, d[0]);
      AccumulateIsDigitsValue(q1, d[1..]);
      assert q1 + d[1..] == q + d;
    }
  }

  /** Reading more digits never lowers the value. */
  lemma {:induction false} AccumulateGrows(n: nat, d: Bytes)
    requires AllDigits(d)
    ensures Accumulate(n, d) >= n
    decreases |d|
  {
    if d != [] {
      AccumulateGrows(n * 10 + (d[0] - Zero) as nat, d[1..]);
    }
  }

  /**
   * Scanning `s` from the value `n` ends in a range error exactly when `n`
   * followed by the leading digit run of `s` exceeds 2^64 - 1; otherwise it
   * gives the value when `s` is all digits, and a syntax error when it is not.
   */
  lemma {:induction false} ScanDigitsMeaning(n: nat, s: Bytes)
    requires n <= MaxUint64
    ensures Accumulate(n, LeadingDigits(s)) > MaxUint64 ==> ScanDigits(s, n) == RangeError
    ensures Accumulate(n, LeadingDigits(s)) <= MaxUint64 && LeadingDigits(s) == s ==>
      ScanDigits(s, n) == UintOk(Accumulate(n, s))
    ensures Accumulate(n, LeadingDigits(s)) <= MaxUint64 && LeadingDigits(s) != s ==>
      ScanDigits(s, n) == SyntaxError
    decreases |s|
  {
    if s == [] || !IsDigit(s[0]) {
      assert LeadingDigits(s) == [];
    } else {
      var n1 := n * 10 + (s[0] - Zero) as nat;
      var p1 := LeadingDigits(s[1..]);
      assert LeadingDigits(s) == [s[0]] + p1;
      assert Accumulate(n, LeadingDigits(s)) == Accumulate(n1, p1) by {
        assert LeadingDigits(s)[0] == s[0] && LeadingDigits(s)[1..] == p1;
      }
      AccumulateGrows(n1, p1);
      if n1 <= MaxUint64 {
        ScanDigitsMeaning(n1, s[1..]);
        assert LeadingDigits(s) == s <==> p1 == s[1..];
      }
    }
  }

  /**
   * The scan of the unsigned part in terms of the decimal syntax: a range
   * error exactly for an overflowing leading run, the magnitude for a string
   * in the syntax, and a syntax error otherwise.
   */
  lemma ScanUnsigned(s: Bytes)
    requires |s| > 0
    ensures DigitRunOverflows(s) ==> ParseUint64(Unsigned(s)) == RangeError
    ensures !DigitRunOverflows(s) && !DecimalSyntax(s) ==> ParseUint64(Unsigned(s)) == SyntaxError
    ensures DecimalSyntax(s) ==> AllDigits(Unsigned(s))
    ensures DecimalSyntax(s) ==>
      ParseSigned(s) == Some(if s[0] == Minus then -(DigitsValue(Unsigned(s)) as int) else DigitsValue(Unsigned(s)))
    ensures DecimalSyntax(s) ==> (DigitRunOverflows(s) <==> DigitsValue(Unsigned(s)) > MaxUint64)
    ensures DecimalSyntax(s) && !DigitRunOverflows(s) ==> ParseUint64(Unsigned(s)) == UintOk(DigitsValue(Unsigned(s)))
  {
    var body := Unsigned(s);
    UnsignedSyntax(s);
    ScanDigitsMeaning(0, body);
    assert Accumulate(0, LeadingDigits(body)) == DigitsValue(LeadingDigits(body)) by {
      AccumulateIsDigitsValue([], LeadingDigits(body));
      assert [] + LeadingDigits(body) == LeadingDigits(body);
    }
    if LeadingDigits(body) == body {
      assert Accumulate(0, body) == DigitsValue(body);
    }
  }

  /** A string in the decimal syntax is a sign, if any, then all digits. */
  lemma UnsignedSyntax(s: Bytes)
    requires |s| > 0
    ensures DecimalSyntax(s) <==> |Unsigned(s)| > 0 && AllDigits(Unsigned(s))
    ensures DecimalSyntax(s) ==>
      ParseSigned(s) == Some(if s[0] == Minus then -(DigitsValue(Unsigned(s)) as int) else DigitsValue(Unsigned(s)))
  {
    ParseSignedSyntax(s);
  }

  /**
   * `strconv.ParseInt(s, 10, 64)` with its error discarded: 0 on a syntax
   * error, the nearest 64-bit bound on a range error.
   */
  function ParseInt64Lenient(s: Bytes): (r: int)
    ensures InInt64(r)
    ensures DecimalSyntax(s) && InInt64(ParseSigned(s).value) ==> r == ParseSigned(s).value
    ensures DecimalSyntax(s) && ParseSigned(s).value > MaxInt64 ==> r == MaxInt64
    ensures DecimalSyntax(s) && ParseSigned(s).value < MinInt64 ==> r == MinInt64
    ensures DigitRunOverflows(s) ==> r == if s[0] == Minus then MinInt64 else MaxInt64
    ensures !DecimalSyntax(s) && !DigitRunOverflows(s) ==> r == 0
  {
    if s == [] then 0
    else
      var neg := s[0] == Minus;
      ScanUnsigned(s);
      match ParseUint64(Unsigned(s))
      case SyntaxError => 0
      case RangeError => if neg then MinInt64 else MaxInt64
      case UintOk(u) =>
        if !neg && u > MaxInt64 then MaxInt64
        else if neg && u > -MinInt64 then MinInt64
        else if neg then -(u as int) else u
  }

  /**
   * A digit run worth more than 2^64 - 1 is a range error even when a byte
   * that is not a digit follows it: the scan stops before reaching that byte.
   */
  lemma RangeErrorBeforeSyntaxError(digits: Bytes, rest: Bytes)
    requires AllDigits(digits) && DigitsValue(digits) > MaxUint64
    ensures ParseInt64Lenient(digits + rest) == MaxInt64
  {
    DigitRunOfDigitsOverflows(digits, rest);
  }

  /** The same with a minus sign in front clamps to the lower bound. */
  lemma NegativeRangeErrorBeforeSyntaxError(digits: Bytes, rest: Bytes)
    requires AllDigits(digits) && DigitsValue(digits) > MaxUint64
    ensures ParseInt64Lenient([Minus] + (digits + rest)) == MinInt64
  {
    var s := digits + rest;
    DigitRunOfDigitsOverflows(digits, rest);
    SignedDigitRunOverflows([Minus] + s, s);
  }

  /** A minus sign in front of an unsigned overflowing run clamps to the lower bound. */
  lemma SignedDigitRunOverflows(m: Bytes, s: Bytes)
    requires m == [Minus] + s
    requires DigitRunOverflows(s) && Unsigned(s) == s
    ensures ParseInt64Lenient(m) == MinInt64
  {
    assert m[1..] == s;
    assert Unsigned(m) == s;
  }

  /** Digits worth more than 2^64 - 1, whatever follows them, overflow the leading run. */
  lemma DigitRunOfDigitsOverflows(digits: Bytes, rest: Bytes)
    requires AllDigits(digits) && DigitsValue(digits) > MaxUint64
    ensures |digits + rest| > 0 && IsDigit((digits + rest)[0])
    ensures Unsigned(digits + rest) == digits + rest
    ensures DigitRunOverflows(digits + rest)
  {
    LeadingDigitsAppend(digits, rest);
    DigitsValueGrows(digits, LeadingDigits(rest));
  }

  /** The leading digit run of digits followed by more is those digits and more. */
  lemma {:induction false} LeadingDigitsAppend(digits: Bytes, rest: Bytes)
    requires AllDigits(digits)
    ensures LeadingDigits(digits + rest) == digits + LeadingDigits(rest)
    decreases |digits|
  {
    if digits != [] {
      assert (digits + rest)[1..] == digits[1..] + rest;
      LeadingDigitsAppend(digits[1..], rest);
    } else {
      assert digits + rest == rest;
    }
  }

  /** Atoi reads back every 64-bit integer that Sprint writes. */
  lemma AtoiDecimal(n: int)
    requires InInt64(n)
    ensures Atoi(Decimal(n)) == Some(n)
  {
    var s := Decimal(n);
    if n < 0 {
      assert s[1..] == Digits(-n);
      DigitsRoundTrip(-n);
    } else {
      DigitsRoundTrip(n);
    }
    assert ParseSigned(s) == Some(n);
  }

  /** Where Atoi succeeds, the lenient ParseInt gives the same value. */
  lemma AtoiAgreesWithParseInt(s: Bytes)
    requires Atoi(s).Some?
    ensures ParseInt64Lenient(s) == Atoi(s).value
  {
  }
}
