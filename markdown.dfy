/**
 * Escaping of text for Telegram's MarkdownV2 parse mode, as `markdownEscaped`
 * does it: a chain of `strings.ReplaceAll` calls, one per reserved character,
 * each putting a backslash in front of that character.
 */
module Markdown {
  import opened Bytes

  const Star: byte := 0x2A
  const Underscore: byte := 0x5F
  const Tilde: byte := 0x7E
  const Backtick: byte := 0x60
  const OpenBracket: byte := 0x5B
  const CloseBracket: byte := 0x5D
  const OpenParen: byte := 0x28
  const CloseParen: byte := 0x29

  /** `strings.ReplaceAll(s, old, new)` for a one-byte `old`: every occurrence is replaced. */
  function ReplaceByte(s: Bytes, target: byte, replacement: Bytes): (r: Bytes)
    ensures target !in s ==> r == s
  {
    if s == [] then []
    else (if s[0] == target then replacement else [s[0]]) + ReplaceByte(s[1..], target, replacement)
  }

  /** The characters in the order `markdownEscaped` replaces them, backslash first. */
  const EscapeOrder: seq<byte> :=
    [Backslash, Star, Underscore, Tilde, Backtick, OpenBracket, CloseBracket, OpenParen, CloseParen]

  /** The characters `markdownEscaped` escapes: \ * _ ~ ` [ ] ( ) */
  predicate IsReserved(b: byte) {
    b in EscapeOrder
  }

  /** Apply `strings.ReplaceAll(data, c, "\" + c)` for each `c` of `targets`, in order. */
  function ReplaceChain(s: Bytes, targets: seq<byte>): Bytes
    decreases |targets|
  {
    if targets == [] then s
    else ReplaceChain(ReplaceByte(s, targets[0], [Backslash, targets[0]]), targets[1..])
  }

  /** `markdownEscaped`: the replacement chain in the order the source applies it. */
  function MarkdownEscaped(s: Bytes): Bytes {
    ReplaceChain(s, EscapeOrder)
  }

  /**
   * The reserved characters of Telegram's MarkdownV2 plain text, as the Bot API
   * documentation ("Formatting options", MarkdownV2 style) lists them: outside
   * markup each must follow a backslash.
   */
  const V2Reserved: seq<byte> :=
    [Underscore, Star, OpenBracket, CloseBracket, OpenParen, CloseParen, Tilde, Backtick,
     0x3E, 0x23, 0x2B, 0x2D, 0x3D, 0x7C, 0x7B, 0x7D, 0x2E, 0x21]

  /** The MarkdownV2 reserved characters that `markdownEscaped` leaves alone: > # + - = | { } . ! */
  predicate MissedReserved(b: byte) {
    b in V2Reserved && b !in EscapeOrder
  }

  /**
   * Telegram's acceptance of MarkdownV2 plain text: a backslash escapes the byte
   * after it, and no reserved character stands on its own.
   */
  predicate ValidV2Text(s: Bytes)
    decreases |s|
  {
    if s == [] then true
    else if s[0] == Backslash then |s| >= 2 && ValidV2Text(s[2..])
    else s[0] !in V2Reserved && ValidV2Text(s[1..])
  }

  /** A replacement order that escapes the backslash first and names each character once. */
  predicate ProperOrder(targets: seq<byte>) {
    |targets| > 0 && targets[0] == Backslash &&
    forall i, j :: 0 <= i < j < |targets| ==> targets[i] != targets[j]
  }

  /** The escape of a single byte: backslash + byte when it is one of `targets`, the byte otherwise. */
  function EscapeByte(b: byte, targets: seq<byte>): (r: Bytes)
    ensures b in targets ==> r == [Backslash, b]
    ensures b !in targets ==> r == [b]
  {
    if b in targets then [Backslash, b] else [b]
  }

  /** The per-byte reading of a replacement chain: each byte escaped on its own. */
  function EscapeEach(s: Bytes, targets: seq<byte>): Bytes {
    if s == [] then [] else EscapeByte(s[0], targets) + EscapeEach(s[1..], targets)
  }

  /**
   * Telegram's reading of MarkdownV2 text: a backslash makes the byte after it
   * an ordinary character and is itself dropped.
   */
  function Unescape(s: Bytes): Bytes {
    if s == [] then []
    else if s[0] == Backslash && |s| >= 2 then [s[1]] + Unescape(s[2..])
    else [s[0]] + Unescape(s[1..])
  }

  lemma {:induction false} ReplaceByteAppend(a: Bytes, b: Bytes, target: byte, replacement: Bytes)
    ensures ReplaceByte(a + b, target, replacement)
         == ReplaceByte(a, target, replacement) + ReplaceByte(b, target, replacement)
  {
    if a == [] {
      assert a + b == b;
    } else {
      assert (a + b)[0] == a[0];
      assert (a + b)[1..] == a[1..] + b;
      ReplaceByteAppend(a[1..], b, target, replacement);
    }
  }

  lemma {:induction false} ReplaceChainAppend(a: Bytes, b: Bytes, targets: seq<byte>)
    ensures ReplaceChain(a + b, targets) == ReplaceChain(a, targets) + ReplaceChain(b, targets)
    decreases |targets|
  {
    if targets != [] {
      var r := [Backslash, targets[0]];
      ReplaceByteAppend(a, b, targets[0], r);
      ReplaceChainAppend(ReplaceByte(a, targets[0], r), ReplaceByte(b, targets[0], r), targets[1..]);
    }
  }

  lemma {:induction false} ReplaceChainSplit(s: Bytes, xs: seq<byte>, ys: seq<byte>)
    ensures ReplaceChain(s, xs + ys) == ReplaceChain(ReplaceChain(s, xs), ys)
    decreases |xs|
  {
    if xs == [] {
      assert xs + ys == ys;
    } else {
      assert (xs + ys)[0] == xs[0];
      assert (xs + ys)[1..] == xs[1..] + ys;
      ReplaceChainSplit(ReplaceByte(s, xs[0], [Backslash, xs[0]]), xs[1..], ys);
    }
  }

  /** A chain none of whose targets occurs in `s` leaves it unchanged. */
  lemma {:induction false} ReplaceChainUnchanged(s: Bytes, targets: seq<byte>)
    requires forall i :: 0 <= i < |targets| ==> targets[i] !in s
    ensures ReplaceChain(s, targets) == s
    decreases |targets|
  {
    if targets != [] {
      ReplaceChainUnchanged(s, targets[1..]);
    }
  }

  /** A byte reached by its own step, and by no other, ends up behind one backslash. */
  lemma EscapedOnce(b: byte, pre: seq<byte>, post: seq<byte>)
    requires b !in pre && b !in post && Backslash !in post
    ensures ReplaceChain([b], pre + [b] + post) == [Backslash, b]
  {
    ReplaceChainSplit([b], pre + [b], post);
    ReplaceChainSplit([b], pre, [b]);
    ReplaceChainUnchanged([b], pre);
    assert [b][1..] == [];
    assert ReplaceChain([b], [b]) == [Backslash, b];
    ReplaceChainUnchanged([Backslash, b], post);
  }

  /** On one byte a proper chain escapes it at its own step and leaves it alone at every other. */
  lemma EscapedSingle(b: byte, targets: seq<byte>)
    requires ProperOrder(targets)
    ensures ReplaceChain([b], targets) == EscapeByte(b, targets)
  {
    if b in targets {
      var i :| 0 <= i < |targets| && targets[i] == b;
      assert targets == targets[..i] + [b] + targets[i + 1..];
      assert Backslash !in targets[i + 1..] by {
        assert forall j :: i + 1 <= j < |targets| ==> targets[0] != targets[j];
      }
      EscapedOnce(b, targets[..i], targets[i + 1..]);
    } else {
      ReplaceChainUnchanged([b], targets);
    }
  }

  /** A proper replacement chain equals the per-byte escape (backslash first makes this so). */
  lemma {:induction false} ChainIsPerByte(s: Bytes, targets: seq<byte>)
    requires ProperOrder(targets)
    ensures ReplaceChain(s, targets) == EscapeEach(s, targets)
  {
    if s != [] {
      assert s == [s[0]] + s[1..];
      ReplaceChainAppend([s[0]], s[1..], targets);
      EscapedSingle(s[0], targets);
      ChainIsPerByte(s[1..], targets);
    } else {
      ReplaceChainUnchanged(s, targets);
    }
  }

  lemma {:induction false} UnescapeEscapeEach(s: Bytes, targets: seq<byte>)
    requires Backslash in targets
    ensures Unescape(EscapeEach(s, targets)) == s
  {
    if s != [] {
      var e := EscapeEach(s, targets);
      assert e == EscapeByte(s[0], targets) + EscapeEach(s[1..], targets);
      if s[0] in targets {
        assert e[2..] == EscapeEach(s[1..], targets);
      } else {
        assert e[1..] == EscapeEach(s[1..], targets);
      }
      UnescapeEscapeEach(s[1..], targets);
    }
  }

  lemma {:induction false} EscapeEachIdentity(s: Bytes, targets: seq<byte>)
    requires forall i :: 0 <= i < |s| ==> s[i] !in targets
    ensures EscapeEach(s, targets) == s
  {
    if s != [] {
      EscapeEachIdentity(s[1..], targets);
    }
  }

  lemma {:induction false} EscapeEachLength(s: Bytes, targets: seq<byte>)
    ensures |EscapeEach(s, targets)| >= |s|
    ensures |EscapeEach(s, targets)| == |s| <==> forall i :: 0 <= i < |s| ==> s[i] !in targets
  {
    if s != [] {
      EscapeEachLength(s[1..], targets);
      assert forall i :: 1 <= i < |s| ==> s[i] == s[1..][i - 1];
    }
  }

  /** The per-byte escape is accepted exactly when no byte outside `targets` is reserved. */
  lemma {:induction false} EscapeEachValid(s: Bytes, targets: seq<byte>)
    requires Backslash in targets
    ensures ValidV2Text(EscapeEach(s, targets))
        <==> forall i :: 0 <= i < |s| ==> !(s[i] in V2Reserved && s[i] !in targets)
  {
    if s != [] {
      var e := EscapeEach(s, targets);
      assert e == EscapeByte(s[0], targets) + EscapeEach(s[1..], targets);
      if s[0] in targets {
        assert e[2..] == EscapeEach(s[1..], targets);
      } else {
        assert e[1..] == EscapeEach(s[1..], targets);
      }
      EscapeEachValid(s[1..], targets);
      assert forall i :: 1 <= i < |s| ==> s[i] == s[1..][i - 1];
    }
  }

  lemma EscapeOrderProper()
    ensures ProperOrder(EscapeOrder)
  {
  }

  /** The replacement chain equals the per-byte escape of the reserved characters. */
  lemma EscapedIsPerByte(s: Bytes)
    ensures MarkdownEscaped(s) == EscapeEach(s, EscapeOrder)
  {
    EscapeOrderProper();
    ChainIsPerByte(s, EscapeOrder);
  }

  /** Telegram's un-escaping recovers exactly the text that was escaped. */
  lemma UnescapeEscaped(s: Bytes)
    ensures Unescape(MarkdownEscaped(s)) == s
  {
    EscapedIsPerByte(s);
    UnescapeEscapeEach(s, EscapeOrder);
  }

  /** Text without reserved characters passes through unchanged. */
  lemma EscapedIdentity(s: Bytes)
    requires forall i :: 0 <= i < |s| ==> !IsReserved(s[i])
    ensures MarkdownEscaped(s) == s
  {
    EscapedIsPerByte(s);
    EscapeEachIdentity(s, EscapeOrder);
  }

  /** Escaping never shrinks the text and grows it exactly when a reserved byte is present. */
  lemma EscapedLength(s: Bytes)
    ensures |MarkdownEscaped(s)| >= |s|
    ensures |MarkdownEscaped(s)| == |s| <==> forall i :: 0 <= i < |s| ==> !IsReserved(s[i])
  {
    EscapedIsPerByte(s);
    EscapeEachLength(s, EscapeOrder);
  }

  /** Telegram accepts the escaped text exactly when the text holds none of > # + - = | { } . ! */
  lemma EscapedValidIff(s: Bytes)
    ensures ValidV2Text(MarkdownEscaped(s)) <==> forall i :: 0 <= i < |s| ==> !MissedReserved(s[i])
  {
    EscapedIsPerByte(s);
    EscapeEachValid(s, EscapeOrder);
  }

  /** "ok." is escaped to itself, which Telegram refuses because of the bare '.'. */
  lemma EscapedRejectsDot()
    ensures MarkdownEscaped([0x6F, 0x6B, 0x2E]) == [0x6F, 0x6B, 0x2E]
    ensures !ValidV2Text(MarkdownEscaped([0x6F, 0x6B, 0x2E]))
  {
    var s: Bytes := [0x6F, 0x6B, 0x2E];
    EscapedIdentity(s);
    EscapedValidIff(s);
    assert MissedReserved(s[2]);
  }

  /** Every MarkdownV2 reserved character, backslash first. */
  const FullEscapeOrder: seq<byte> := [Backslash] + V2Reserved

  /** The escape with every MarkdownV2 reserved character in the chain. */
  function MarkdownEscapedFull(s: Bytes): Bytes {
    ReplaceChain(s, FullEscapeOrder)
  }

  lemma FullEscapeOrderProper()
    ensures ProperOrder(FullEscapeOrder)
  {
  }

  /** The full escape is always accepted, reads back to its input, and agrees with the source's escape where that one is accepted. */
  lemma EscapedFullProperties(s: Bytes)
    ensures ValidV2Text(MarkdownEscapedFull(s))
    ensures Unescape(MarkdownEscapedFull(s)) == s
    ensures (forall i :: 0 <= i < |s| ==> !MissedReserved(s[i])) ==> MarkdownEscapedFull(s) == MarkdownEscaped(s)
  {
    FullEscapeOrderProper();
    ChainIsPerByte(s, FullEscapeOrder);
    assert Backslash in FullEscapeOrder;
    EscapeEachValid(s, FullEscapeOrder);
    UnescapeEscapeEach(s, FullEscapeOrder);
    if forall i :: 0 <= i < |s| ==> !MissedReserved(s[i]) {
      EscapedIsPerByte(s);
      EscapeEachAgree(s, FullEscapeOrder, EscapeOrder);
    }
  }

  /** Two escapes agree on text whose bytes each belong to both target lists or to neither. */
  lemma {:induction false} EscapeEachAgree(s: Bytes, xs: seq<byte>, ys: seq<byte>)
    requires forall i :: 0 <= i < |s| ==> (s[i] in xs <==> s[i] in ys)
    ensures EscapeEach(s, xs) == EscapeEach(s, ys)
  {
    if s != [] {
      EscapeEachAgree(s[1..], xs, ys);
    }
  }
}
