/**
 * Unicode text as the transcoder sees it: a sequence of scalar values whose
 * bytes are their UTF-8 encoding (section 3 of RFC 3629) and whose positions,
 * as Telegram reports them, count UTF-16 code units (section 2.1 of RFC 2781:
 * a value above U+FFFF takes a surrogate pair, two units).
 */
module Unicode {
  import opened Bytes
  import opened Wrappers

  /** A Unicode scalar value: a code point that is not a surrogate. */
  type Scalar = c: int | 0 <= c < 0xD800 || 0xE000 <= c < 0x11_0000

  type Text = seq<Scalar>

  /** U+FFFD, what Go's decoder returns for bytes it cannot decode. */
  const RuneError: Scalar := 0xFFFD

  /** Number of UTF-8 bytes that encode `c` (RFC 3629, section 3). */
  function Utf8Width(c: Scalar): (w: nat)
    ensures 1 <= w <= 4
    ensures w == 1 <==> c < 0x80
  {
    if c < 0x80 then 1 else if c < 0x800 then 2 else if c < 0x1_0000 then 3 else 4
  }

  /**
   * Number of UTF-16 code units that encode `c` (RFC 2781, section 2.1); this
   * is `len(utf16.Encode([]rune{c}))`. Never more than its UTF-8 width, and two
   * exactly for the values that take four UTF-8 bytes.
   */
  function Utf16Width(c: Scalar): (w: nat)
    ensures w == 1 || w == 2
    ensures w <= Utf8Width(c)
    ensures w == 2 <==> Utf8Width(c) == 4
  {
    if c < 0x1_0000 then 1 else 2
  }

  function Utf8Len(t: Text): nat {
    if t == [] then 0 else Utf8Width(t[0]) + Utf8Len(t[1..])
  }

  function Utf16Len(t: Text): nat {
    if t == [] then 0 else Utf16Width(t[0]) + Utf16Len(t[1..])
  }

  const Cont: byte := 0x80

  /** The UTF-8 encoding of one scalar value (RFC 3629, section 3). */
  function EncodeScalar(c: Scalar): (r: Bytes)
    ensures |r| == Utf8Width(c)
    ensures c < 0x80 ==> r == [c]
  {
    if c < 0x80 then [c]
    else if c < 0x800 then [0xC0 + c / 64, Cont + c % 64]
    else if c < 0x1_0000 then [0xE0 + c / 4096, Cont + (c / 64) % 64, Cont + c % 64]
    else [0xF0 + c / 262144, Cont + (c / 4096) % 64, Cont + (c / 64) % 64, Cont + c % 64]
  }

  /** The UTF-8 encoding of a text: the bytes of the Go string holding it. */
  function Encode(t: Text): (r: Bytes)
    ensures |r| == Utf8Len(t)
  {
    if t == [] then [] else EncodeScalar(t[0]) + Encode(t[1..])
  }

  /** What `utf8.DecodeRuneInString` returns: a scalar value and the bytes it used. */
  datatype Decoded = Decoded(rune: Scalar, width: nat)

  predicate IsCont(b: byte) {
    0x80 <= b <= 0xBF
  }

  /** Lowest byte allowed after `lead`; above it only shortest forms remain. */
  function SecondLow(lead: byte): byte {
    if lead == 0xE0 then 0xA0 else if lead == 0xF0 then 0x90 else 0x80
  }

  /** Highest byte allowed after `lead`; below it no surrogate and nothing past U+10FFFF. */
  function SecondHigh(lead: byte): byte {
    if lead == 0xED then 0x9F else if lead == 0xF4 then 0x8F else 0xBF
  }

  /**
   * Go's `utf8.DecodeRuneInString`: the first scalar value of `s` and its
   * width; (U+FFFD, 0) on empty input and (U+FFFD, 1) on an invalid,
   * overlong, surrogate or truncated sequence.
   */
  function DecodeRune(s: Bytes): (r: Decoded)
    ensures r.width <= |s| && r.width <= 4
    ensures |s| > 0 <==> r.width >= 1
    ensures r.width > 1 ==> r.width == Utf8Width(r.rune)
  {
    if |s| == 0 then Decoded(RuneError, 0)
    else
      var b0 := s[0];
      if b0 < 0x80 then Decoded(b0, 1)
      else if b0 < 0xC2 || b0 > 0xF4 then Decoded(RuneError, 1)
      else
        var n := if b0 < 0xE0 then 2 else if b0 < 0xF0 then 3 else 4;
        if |s| < n || !(SecondLow(b0) <= s[1] <= SecondHigh(b0)) then Decoded(RuneError, 1)
        else if n == 2 then Decoded((b0 - 0xC0) * 64 + (s[1] - Cont), 2)
        else if !IsCont(s[2]) then Decoded(RuneError, 1)
        else if n == 3 then Decoded((b0 - 0xE0) * 4096 + (s[1] - Cont) * 64 + (s[2] - Cont), 3)
        else if !IsCont(s[3]) then Decoded(RuneError, 1)
        else Decoded((b0 - 0xF0) * 262144 + (s[1] - Cont) * 4096 + (s[2] - Cont) * 64 + (s[3] - Cont), 4)
  }

  /** Splitting a number into its base-64 digits: `c == hi * 64 + lo`. */
  lemma Base64Split(c: nat, hi: nat, lo: nat)
    requires hi == c / 64 && lo == c % 64
    ensures c == hi * 64 + lo && lo < 64
  {
  }

  /** Decoding the encoding of `c`, whatever follows it, gives back `c` and its width. */
  lemma DecodeEncodeScalar(c: Scalar, rest: Bytes)
    ensures DecodeRune(EncodeScalar(c) + rest) == Decoded(c, Utf8Width(c))
  {
    if c < 0x80 {
    } else if c < 0x800 {
      Base64Split(c, c / 64, c % 64);
    } else if c < 0x1_0000 {
      DecodeThree(c, rest);
    } else {
      DecodeFour(c, rest);
    }
  }

  lemma DecodeThree(c: Scalar, rest: Bytes)
    requires 0x800 <= c < 0x1_0000
    ensures DecodeRune(EncodeScalar(c) + rest) == Decoded(c, 3)
  {
    var s := EncodeScalar(c) + rest;
    var q := c / 64;
    Base64Split(c, q, c % 64);
    Base64Split(q, q / 64, q % 64);
    assert c / 4096 == q / 64;
    assert s[0] == 0xE0 + q / 64 && s[1] == Cont + q % 64 && s[2] == Cont + c % 64;
  }

  lemma DecodeFour(c: Scalar, rest: Bytes)
    requires 0x1_0000 <= c
    ensures DecodeRune(EncodeScalar(c) + rest) == Decoded(c, 4)
  {
    var s := EncodeScalar(c) + rest;
    var q := c / 64;
    var q2 := q / 64;
    Base64Split(c, q, c % 64);
    Base64Split(q, q2, q % 64);
    Base64Split(q2, q2 / 64, q2 % 64);
    assert c / 4096 == q2;
    assert c / 262144 == q2 / 64;
    assert s[0] == 0xF0 + q2 / 64 && s[1] == Cont + q2 % 64;
    assert s[2] == Cont + q % 64 && s[3] == Cont + c % 64;
  }

  lemma {:induction false} EncodeAppend(a: Text, b: Text)
    ensures Encode(a + b) == Encode(a) + Encode(b)
    ensures Utf8Len(a + b) == Utf8Len(a) + Utf8Len(b)
    ensures Utf16Len(a + b) == Utf16Len(a) + Utf16Len(b)
  {
    if a == [] {
      assert a + b == b;
    } else {
      assert (a + b)[0] == a[0];
      assert (a + b)[1..] == a[1..] + b;
      EncodeAppend(a[1..], b);
    }
  }

  /** Extending a prefix by one scalar adds that scalar's widths. */
  lemma PrefixStep(t: Text, k: nat)
    requires k < |t|
    ensures Utf8Len(t[..k + 1]) == Utf8Len(t[..k]) + Utf8Width(t[k])
    ensures Utf16Len(t[..k + 1]) == Utf16Len(t[..k]) + Utf16Width(t[k])
  {
    assert t[..k + 1] == t[..k] + [t[k]];
    EncodeAppend(t[..k], [t[k]]);
  }

  /** UTF-16 positions of prefixes grow strictly with the prefix. */
  lemma {:induction false} PrefixMonotone(t: Text, j: nat, k: nat)
    requires j < k <= |t|
    ensures Utf16Len(t[..j]) < Utf16Len(t[..k])
    ensures Utf8Len(t[..j]) < Utf8Len(t[..k])
    decreases k - j
  {
    PrefixStep(t, k - 1);
    if j < k - 1 {
      PrefixMonotone(t, j, k - 1);
    }
  }

  /** Decoding the Go string at the byte position of prefix `k` yields `t[k]`. */
  lemma DecodeAt(t: Text, k: nat)
    requires k < |t|
    ensures Utf8Len(t[..k]) <= |Encode(t)|
    ensures DecodeRune(Encode(t)[Utf8Len(t[..k])..]) == Decoded(t[k], Utf8Width(t[k]))
  {
    var pre, post := t[..k], t[k..];
    assert t == pre + post;
    EncodeAppend(pre, post);
    assert Encode(t)[Utf8Len(pre)..] == Encode(post);
    assert post[0] == t[k] && post[1..] == t[k + 1..];
    assert Encode(post) == EncodeScalar(t[k]) + Encode(t[k + 1..]);
    DecodeEncodeScalar(t[k], Encode(t[k + 1..]));
  }

  /**
   * The UTF-8 byte position of UTF-16 position `u` in `t`, when `u` is the
   * UTF-16 length of some prefix of `t`; nothing when `u` falls inside a
   * surrogate pair or past the end.
   */
  function ByteOffsetOf(t: Text, u: nat): (r: Option<nat>)
    ensures r.Some? ==> u <= r.value <= Utf8Len(t)
    ensures r.Some? ==> u <= Utf16Len(t)
  {
    if u == 0 then Some(0)
    else if t == [] || u < Utf16Width(t[0]) then None
    else
      match ByteOffsetOf(t[1..], u - Utf16Width(t[0]))
      case None => None
      case Some(b) => Some(b + Utf8Width(t[0]))
  }

  /** Every prefix boundary is found, at the prefix's UTF-8 length. */
  lemma {:induction false} BoundaryAt(t: Text, k: nat)
    requires k <= |t|
    ensures ByteOffsetOf(t, Utf16Len(t[..k])) == Some(Utf8Len(t[..k]))
  {
    if k > 0 {
      assert t[..k] == [t[0]] + t[1..][..k - 1];
      EncodeAppend([t[0]], t[1..][..k - 1]);
      BoundaryAt(t[1..], k - 1);
    }
  }

  /** A UTF-16 position strictly inside the units of `t[k]` is not found. */
  lemma {:induction false} InsideNotBoundary(t: Text, k: nat, u: nat)
    requires k < |t|
    requires Utf16Len(t[..k]) < u < Utf16Len(t[..k + 1])
    ensures ByteOffsetOf(t, u) == None
    ensures Utf16Width(t[k]) == 2
  {
    PrefixStep(t, k);
    if k > 0 {
      assert t[..k] == [t[0]] + t[1..][..k - 1];
      assert t[..k + 1] == [t[0]] + t[1..][..k];
      EncodeAppend([t[0]], t[1..][..k - 1]);
      EncodeAppend([t[0]], t[1..][..k]);
      InsideNotBoundary(t[1..], k - 1, u - Utf16Width(t[0]));
    }
  }

  /**
   * Within the text, a UTF-16 position has no byte position exactly when it
   * falls strictly inside a scalar value encoded as a surrogate pair.
   */
  lemma {:induction false} ByteOffsetNoneIff(t: Text, u: nat)
    requires u <= Utf16Len(t)
    ensures ByteOffsetOf(t, u).None? <==> InsidePair(t, u)
  {
    if ByteOffsetOf(t, u).None? {
      var k := Straddle(t, u);
    } else if k :| 0 <= k < |t| && Utf16Len(t[..k]) < u < Utf16Len(t[..k + 1]) {
      InsideNotBoundary(t, k, u);
    }
  }

  /** A UTF-16 position falls strictly inside some scalar value (one taking a surrogate pair). */
  predicate InsidePair(t: Text, u: nat) {
    exists k :: 0 <= k < |t| && Utf16Len(t[..k]) < u < Utf16Len(t[..k + 1])
  }

  /** An unfound position within the text lies inside some scalar value `t[k]`. */
  lemma {:induction false} Straddle(t: Text, u: nat) returns (k: nat)
    requires u <= Utf16Len(t)
    requires ByteOffsetOf(t, u).None?
    ensures k < |t| && Utf16Len(t[..k]) < u < Utf16Len(t[..k + 1])
  {
    assert u != 0 && t != [];
    if u < Utf16Width(t[0]) {
      k := 0;
      assert t[..1] == [t[0]];
    } else {
      var k' := Straddle(t[1..], u - Utf16Width(t[0]));
      k := k' + 1;
      assert t[..k] == [t[0]] + t[1..][..k'];
      assert t[..k + 1] == [t[0]] + t[1..][..k' + 1];
      EncodeAppend([t[0]], t[1..][..k']);
      EncodeAppend([t[0]], t[1..][..k' + 1]);
    }
  }

  /** A found position is the boundary of some prefix, with that prefix's UTF-8 length. */
  lemma {:induction false} BoundaryWitness(t: Text, u: nat) returns (k: nat)
    requires ByteOffsetOf(t, u).Some?
    ensures k <= |t| && Utf16Len(t[..k]) == u && Utf8Len(t[..k]) == ByteOffsetOf(t, u).value
  {
    if u == 0 {
      k := 0;
    } else {
      var k' := BoundaryWitness(t[1..], u - Utf16Width(t[0]));
      k := k' + 1;
      assert t[..k] == [t[0]] + t[1..][..k'];
      EncodeAppend([t[0]], t[1..][..k']);
    }
  }

  /** The bytes between the positions of two prefixes encode the scalars between them. */
  lemma EncodeSlice(t: Text, i: nat, j: nat)
    requires i <= j <= |t|
    ensures Utf8Len(t[..i]) <= Utf8Len(t[..j]) <= |Encode(t)|
    ensures Encode(t)[Utf8Len(t[..i])..Utf8Len(t[..j])] == Encode(t[i..j])
  {
    assert t == t[..i] + t[i..j] + t[j..];
    assert t[..j] == t[..i] + t[i..j];
    EncodeAppend(t[..i], t[i..j]);
    EncodeAppend(t[..i] + t[i..j], t[j..]);
  }

  predicate IsAsciiText(t: Text) {
    forall i :: 0 <= i < |t| ==> t[i] < 0x80
  }

  /** An ASCII text is its own UTF-8 encoding and counts the same in both units. */
  lemma {:induction false} AsciiEncoding(t: Text)
    requires IsAsciiText(t)
    ensures Encode(t) == t
    ensures Utf8Len(t) == |t| && Utf16Len(t) == |t|
  {
    if t != [] {
      AsciiEncoding(t[1..]);
    }
  }

  /** Within an ASCII tail, every position is a boundary, as many bytes past the head's as units past it. */
  lemma {:induction false} AsciiTailBoundary(head: Text, tail: Text, k: nat)
    requires IsAsciiText(tail) && k <= |tail|
    ensures ByteOffsetOf(head + tail, Utf16Len(head) + k) == Some(Utf8Len(head) + k)
    decreases |head|
  {
    if head == [] {
      assert head + tail == tail;
      AsciiBoundary(tail, k);
    } else {
      assert (head + tail)[0] == head[0] && (head + tail)[1..] == head[1..] + tail;
      AsciiTailBoundary(head[1..], tail, k);
    }
  }

  /** In ASCII text every position up to the end is a boundary, at the same byte offset. */
  lemma AsciiBoundary(t: Text, u: nat)
    requires IsAsciiText(t) && u <= |t|
    ensures ByteOffsetOf(t, u) == Some(u)
  {
    assert IsAsciiText(t[..u]);
    AsciiEncoding(t[..u]);
    BoundaryAt(t, u);
  }
}
