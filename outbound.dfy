/**
 * The outbound direction, `sendChatMessage`: a host message is turned into a
 * list of Telegram packets and the packets are sent in order.
 *
 * Text, mentions and unsupported entities accumulate in one MarkdownV2 buffer;
 * an image first flushes the buffer as a text packet and then becomes a photo
 * upload of the bytes fetched from its URL. Whatever is left in the buffer at
 * the end is flushed too. Delivery stops at the first packet the Bot API
 * refuses.
 */
module Outbound {
  import opened Bytes
  import opened Wrappers
  import opened Unicode
  import opened Strconv
  import opened Markdown
  import opened Ubot
  import opened Telegram

  /** What one call works with: the chat, the target user and the oracles it consults. */
  datatype Context = Context(source: Bytes, target: Bytes, fetch: Fetch, member: Lookup)

  const MarkdownV2: Bytes := FromAscii("MarkdownV2")
  const PhotoName: Bytes := FromAscii("ubot_image.png")
  const LinkMiddle: Bytes := FromAscii("](tg://user?id=")

  /**
   * The placeholder for an entity type the transcoder does not know: the UTF-8
   * bytes of "[不支持的消息类型]", one group per character.
   */
  const Unsupported: Bytes :=
    [0x5B] + [0xE4, 0xB8, 0x8D] + [0xE6, 0x94, 0xAF] + [0xE6, 0x8C, 0x81] + [0xE7, 0x9A, 0x84]
    + [0xE6, 0xB6, 0x88] + [0xE6, 0x81, 0xAF] + [0xE7, 0xB1, 0xBB] + [0xE5, 0x9E, 0x8B] + [0x5D]

  /** The MarkdownV2 inline mention of a user: `[first name](tg://user?id=<id>)`. */
  function MentionLink(u: ChatUser): Bytes {
    [OpenBracket] + u.firstName + LinkMiddle + Decimal(u.id) + [CloseParen]
  }

  /**
   * What a non-image entity adds to the text buffer. Text is escaped; a mention
   * whose data starts with '@' is copied as it is; any other mention names the
   * call's target user (its own data is not looked at) and adds nothing when the
   * target is not a number or the member lookup fails; an unknown type adds the
   * placeholder.
   */
  function Fragment(e: MsgEntity, ctx: Context): Bytes
    requires !e.kind.ImageOnline?
  {
    match e.kind
    case Text => MarkdownEscaped(e.data)
    case At =>
      if |e.data| > 0 && e.data[0] == AtSign then e.data
      else
        (match Atoi(ctx.target)
         case None => []
         case Some(uid) =>
           (match ctx.member(ctx.source, uid)
            case None => []
            case Some(u) => MentionLink(u)))
    case Other(_) => Unsupported
  }

  /** The text packet a flush produces: none when the buffer is empty. */
  function TextIfAny(source: Bytes, buffer: Bytes): (r: seq<Packet>)
    ensures |r| <= 1
  {
    if buffer == [] then [] else [TextPacket(source, buffer, MarkdownV2)]
  }

  /** The photo upload for a fetch: none when the fetch failed. */
  function PhotoIfAny(source: Bytes, body: Option<Bytes>): (r: seq<Packet>)
    ensures |r| <= 1
  {
    match body
    case None => []
    case Some(b) => [PhotoPacket(ParseInt64Lenient(source), PhotoName, b)]
  }

  /**
   * The packets the rest `es` of a message produces when `buffer` holds the
   * text accumulated so far.
   */
  function Expected(es: Message, buffer: Bytes, ctx: Context): seq<Packet>
    decreases |es|
  {
    if es == [] then TextIfAny(ctx.source, buffer)
    else if es[0].kind.ImageOnline? then
      TextIfAny(ctx.source, buffer) + PhotoIfAny(ctx.source, ctx.fetch(es[0].data)) + Expected(es[1..], [], ctx)
    else Expected(es[1..], buffer + Fragment(es[0], ctx), ctx)
  }

  /** The packets a whole message produces. */
  function Packets(es: Message, ctx: Context): seq<Packet> {
    Expected(es, [], ctx)
  }

  // ---------------------------------------------------------------------------
  // Independent readings of the packet list
  // ---------------------------------------------------------------------------

  /** All the text a message renders to, ignoring where images split it. */
  function Rendered(es: Message, ctx: Context): Bytes {
    if es == [] then []
    else (if es[0].kind.ImageOnline? then [] else Fragment(es[0], ctx)) + Rendered(es[1..], ctx)
  }

  /** The bodies of the images that could be fetched, in message order. */
  function Fetched(es: Message, fetch: Fetch): seq<Bytes> {
    if es == [] then []
    else
      (if es[0].kind.ImageOnline? && fetch(es[0].data).Some? then [fetch(es[0].data).value] else [])
      + Fetched(es[1..], fetch)
  }

  function ImageCount(es: Message): nat {
    if es == [] then 0 else (if es[0].kind.ImageOnline? then 1 else 0) + ImageCount(es[1..])
  }

  /** The texts of the text packets laid end to end. */
  function TextOf(ps: seq<Packet>): Bytes {
    if ps == [] then [] else (if ps[0].TextPacket? then ps[0].text else []) + TextOf(ps[1..])
  }

  /** The photo bodies of the photo packets, in order. */
  function Photos(ps: seq<Packet>): seq<Bytes> {
    if ps == [] then [] else (if ps[0].PhotoPacket? then [ps[0].photo] else []) + Photos(ps[1..])
  }

  function TextCount(ps: seq<Packet>): nat {
    if ps == [] then 0 else (if ps[0].TextPacket? then 1 else 0) + TextCount(ps[1..])
  }

  /**
   * A packet as the source builds it: a non-empty MarkdownV2 text to the source
   * channel, or a photo named `ubot_image.png` to the chat whose number the
   * source identifier parses to.
   */
  predicate WellFormed(p: Packet, source: Bytes) {
    match p
    case TextPacket(chat, text, mode) => chat == source && text != [] && mode == MarkdownV2
    case PhotoPacket(chatId, name, _) => chatId == ParseInt64Lenient(source) && name == PhotoName
  }

  // ---------------------------------------------------------------------------
  // The operations
  // ---------------------------------------------------------------------------

  /**
   * The image branch of the loop body of `sendChatMessage`: flush a non-empty
   * buffer as a text packet, then upload the fetched picture if the fetch worked.
   */
  method AddImage(url: Bytes, ctx: Context, iSource: int, packets: seq<Packet>, rawMsg: Bytes)
    returns (packets': seq<Packet>)
    requires iSource == ParseInt64Lenient(ctx.source)
    ensures packets' == packets + TextIfAny(ctx.source, rawMsg) + PhotoIfAny(ctx.source, ctx.fetch(url))
  {
    packets' := packets;
    if |rawMsg| != 0 {
      packets' := packets' + [TextPacket(ctx.source, rawMsg, MarkdownV2)];
    }
    var body := ctx.fetch(url);
    if body.Some? {
      packets' := packets' + [PhotoPacket(iSource, PhotoName, body.value)];
    }
  }

  /** The other branches of the loop body: add the entity's fragment to the buffer. */
  method AddFragment(e: MsgEntity, ctx: Context, rawMsg: Bytes) returns (rawMsg': Bytes)
    requires !e.kind.ImageOnline?
    ensures rawMsg' == rawMsg + Fragment(e, ctx)
  {
    var piece: Bytes := [];
    match e.kind {
      case Text =>
        piece := MarkdownEscaped(e.data);
      case At =>
        if |e.data| > 0 && e.data[0] == AtSign {
          piece := e.data;
        } else {
          var atUser := Atoi(ctx.target);
          if atUser.Some? {
            var cm := ctx.member(ctx.source, atUser.value);
            if cm.Some? {
              piece := MentionLink(cm.value);
            }
          }
        }
      case Other(_) =>
        piece := Unsupported;
    }
    rawMsg' := rawMsg + piece;
  }

  /**
   * One pass of the loop body of `sendChatMessage`: an image flushes the buffer
   * and adds its photo; every other entity adds its fragment to the buffer.
   */
  method AddEntity(e: MsgEntity, ctx: Context, iSource: int, packets: seq<Packet>, rawMsg: Bytes)
    returns (packets': seq<Packet>, rawMsg': Bytes)
    requires iSource == ParseInt64Lenient(ctx.source)
    ensures e.kind.ImageOnline? ==>
      rawMsg' == [] && packets' == packets + TextIfAny(ctx.source, rawMsg) + PhotoIfAny(ctx.source, ctx.fetch(e.data))
    ensures !e.kind.ImageOnline? ==> packets' == packets && rawMsg' == rawMsg + Fragment(e, ctx)
  {
    if e.kind.ImageOnline? {
      packets' := AddImage(e.data, ctx, iSource, packets, rawMsg);
      rawMsg' := [];
    } else {
      packets' := packets;
      rawMsg' := AddFragment(e, ctx, rawMsg);
    }
  }

  /** One step of `Expected`: the entity at `i` either flushes and adds its photo, or extends the buffer. */
  lemma ExpectedUnfold(es: Message, i: nat, buffer: Bytes, ctx: Context)
    requires i < |es|
    ensures es[i].kind.ImageOnline? ==>
      Expected(es[i..], buffer, ctx)
      == TextIfAny(ctx.source, buffer) + PhotoIfAny(ctx.source, ctx.fetch(es[i].data)) + Expected(es[i + 1..], [], ctx)
    ensures !es[i].kind.ImageOnline? ==>
      Expected(es[i..], buffer, ctx)
      == Expected(es[i + 1..], buffer + Fragment(es[i], ctx), ctx)
  {
    assert es[i..][0] == es[i] && es[i..][1..] == es[i + 1..];
  }

  /** The loop invariant of `BuildPackets` survives one entity. */
  lemma BuildStep(es: Message, i: nat, ctx: Context, before: seq<Packet>, buffer: Bytes, packets: seq<Packet>, rawMsg: Bytes)
    requires i < |es|
    requires es[i].kind.ImageOnline? ==>
      rawMsg == [] && packets == before + TextIfAny(ctx.source, buffer) + PhotoIfAny(ctx.source, ctx.fetch(es[i].data))
    requires !es[i].kind.ImageOnline? ==> packets == before && rawMsg == buffer + Fragment(es[i], ctx)
    ensures packets + Expected(es[i + 1..], rawMsg, ctx) == before + Expected(es[i..], buffer, ctx)
  {
    ExpectedUnfold(es, i, buffer, ctx);
    if es[i].kind.ImageOnline? {
      ImageStep(TextIfAny(ctx.source, buffer) + PhotoIfAny(ctx.source, ctx.fetch(es[i].data)),
        Expected(es[i + 1..], [], ctx), before, packets);
    }
  }

  /** The image case of `BuildStep`: appending the flush, then the rest, is associative. */
  lemma ImageStep(flush: seq<Packet>, tail: seq<Packet>, before: seq<Packet>, packets: seq<Packet>)
    requires packets == before + flush
    ensures packets + tail == before + (flush + tail)
  {
  }

  /** The packet-building loop of `sendChatMessage`. */
  method BuildPackets(es: Message, ctx: Context) returns (packets: seq<Packet>)
    ensures packets == Packets(es, ctx)
  {
    var iSource := ParseInt64Lenient(ctx.source);
    var rawMsg: Bytes := [];
    packets := [];
    var i := 0;
    while i < |es|
      invariant 0 <= i <= |es|
      invariant packets + Expected(es[i..], rawMsg, ctx) == Packets(es, ctx)
    {
      ghost var before, buffer := packets, rawMsg;
      packets, rawMsg := AddEntity(es[i], ctx, iSource, packets, rawMsg);
      BuildStep(es, i, ctx, before, buffer, packets, rawMsg);
      i := i + 1;
    }
    assert es[|es|..] == [];
    if |rawMsg| != 0 {
      packets := packets + [TextPacket(ctx.source, rawMsg, MarkdownV2)];
    }
  }

  /**
   * The delivery loop: packets are sent in order and the first error ends the
   * call. `sent` packets went out before it; none is taken back.
   */
  method Deliver(packets: seq<Packet>, send: Sender) returns (err: Option<Bytes>, sent: nat)
    ensures sent <= |packets|
    ensures forall j :: 0 <= j < sent ==> send(j, packets[j]).None?
    ensures err.None? <==> sent == |packets|
    ensures err.Some? ==> sent < |packets| && send(sent, packets[sent]) == err
  {
    sent := 0;
    while sent < |packets|
      invariant sent <= |packets|
      invariant forall j :: 0 <= j < sent ==> send(j, packets[j]).None?
    {
      var result := send(sent, packets[sent]);
      if result.Some? {
        return result, sent;
      }
      sent := sent + 1;
    }
    return None, sent;
  }

  /**
   * `sendChatMessage` on a parsed message: build the packets, then deliver
   * them. The message type the host passes in is not used by the source.
   */
  method SendChatMessage(source: Bytes, target: Bytes, message: Message, fetch: Fetch, member: Lookup, send: Sender)
    returns (err: Option<Bytes>, packets: seq<Packet>, sent: nat)
    ensures packets == Packets(message, Context(source, target, fetch, member))
    ensures sent <= |packets|
    ensures forall j :: 0 <= j < sent ==> send(j, packets[j]).None?
    ensures err.None? <==> sent == |packets|
    ensures err.Some? ==> sent < |packets| && send(sent, packets[sent]) == err
  {
    packets := BuildPackets(message, Context(source, target, fetch, member));
    err, sent := Deliver(packets, send);
  }

  // ---------------------------------------------------------------------------
  // Properties of the packet list
  // ---------------------------------------------------------------------------

  /** Every packet is well formed; in particular no text packet is empty. */
  lemma {:induction false} ExpectedWellFormed(es: Message, buffer: Bytes, ctx: Context)
    ensures forall p :: p in Expected(es, buffer, ctx) ==> WellFormed(p, ctx.source)
    decreases |es|
  {
    if es != [] {
      if es[0].kind.ImageOnline? {
        ExpectedWellFormed(es[1..], [], ctx);
      } else {
        ExpectedWellFormed(es[1..], buffer + Fragment(es[0], ctx), ctx);
      }
    }
  }

  lemma {:induction false} TextOfAppend(a: seq<Packet>, b: seq<Packet>)
    ensures TextOf(a + b) == TextOf(a) + TextOf(b)
  {
    if a == [] {
      assert a + b == b;
    } else {
      assert (a + b)[0] == a[0];
      assert (a + b)[1..] == a[1..] + b;
      TextOfAppend(a[1..], b);
    }
  }

  lemma {:induction false} PhotosAppend(a: seq<Packet>, b: seq<Packet>)
    ensures Photos(a + b) == Photos(a) + Photos(b)
  {
    if a == [] {
      assert a + b == b;
    } else {
      assert (a + b)[0] == a[0];
      assert (a + b)[1..] == a[1..] + b;
      PhotosAppend(a[1..], b);
    }
  }

  lemma {:induction false} TextCountAppend(a: seq<Packet>, b: seq<Packet>)
    ensures TextCount(a + b) == TextCount(a) + TextCount(b)
  {
    if a == [] {
      assert a + b == b;
    } else {
      assert (a + b)[0] == a[0];
      assert (a + b)[1..] == a[1..] + b;
      TextCountAppend(a[1..], b);
    }
  }

  /** The text packets together carry the buffer and then every fragment of the message, in order. */
  lemma {:induction false} ExpectedText(es: Message, buffer: Bytes, ctx: Context)
    ensures TextOf(Expected(es, buffer, ctx)) == buffer + Rendered(es, ctx)
    decreases |es|
  {
    if es == [] {
      assert buffer + [] == buffer;
    } else if es[0].kind.ImageOnline? {
      var head := TextIfAny(ctx.source, buffer) + PhotoIfAny(ctx.source, ctx.fetch(es[0].data));
      ExpectedText(es[1..], [], ctx);
      TextOfAppend(head, Expected(es[1..], [], ctx));
      TextOfAppend(TextIfAny(ctx.source, buffer), PhotoIfAny(ctx.source, ctx.fetch(es[0].data)));
      assert [] + Rendered(es[1..], ctx) == Rendered(es[1..], ctx);
    } else {
      ExpectedText(es[1..], buffer + Fragment(es[0], ctx), ctx);
    }
  }

  /** The photo packets carry exactly the fetched images, in message order. */
  lemma {:induction false} ExpectedPhotos(es: Message, buffer: Bytes, ctx: Context)
    ensures Photos(Expected(es, buffer, ctx)) == Fetched(es, ctx.fetch)
    decreases |es|
  {
    if es != [] {
      if es[0].kind.ImageOnline? {
        var head := TextIfAny(ctx.source, buffer) + PhotoIfAny(ctx.source, ctx.fetch(es[0].data));
        ExpectedPhotos(es[1..], [], ctx);
        PhotosAppend(head, Expected(es[1..], [], ctx));
        PhotosAppend(TextIfAny(ctx.source, buffer), PhotoIfAny(ctx.source, ctx.fetch(es[0].data)));
      } else {
        ExpectedPhotos(es[1..], buffer + Fragment(es[0], ctx), ctx);
      }
    }
  }

  /** Text is split only at images: there is at most one more text packet than there are images. */
  lemma {:induction false} ExpectedTextCount(es: Message, buffer: Bytes, ctx: Context)
    ensures TextCount(Expected(es, buffer, ctx)) <= ImageCount(es) + 1
    decreases |es|
  {
    if es != [] {
      if es[0].kind.ImageOnline? {
        var head := TextIfAny(ctx.source, buffer) + PhotoIfAny(ctx.source, ctx.fetch(es[0].data));
        ExpectedTextCount(es[1..], [], ctx);
        TextCountAppend(head, Expected(es[1..], [], ctx));
        TextCountAppend(TextIfAny(ctx.source, buffer), PhotoIfAny(ctx.source, ctx.fetch(es[0].data)));
      } else {
        ExpectedTextCount(es[1..], buffer + Fragment(es[0], ctx), ctx);
      }
    }
  }

  /** Without images everything becomes one text packet, or none when it renders to nothing. */
  lemma {:induction false} NoImagesOnePacket(es: Message, buffer: Bytes, ctx: Context)
    requires ImageCount(es) == 0
    ensures Expected(es, buffer, ctx) == TextIfAny(ctx.source, buffer + Rendered(es, ctx))
    decreases |es|
  {
    if es == [] {
      assert buffer + [] == buffer;
    } else {
      NoImagesOnePacket(es[1..], buffer + Fragment(es[0], ctx), ctx);
      assert buffer + Fragment(es[0], ctx) + Rendered(es[1..], ctx) == buffer + Rendered(es, ctx);
    }
  }

  /**
   * An image splits the packet list in place: the packets of what precedes it
   * (ending with their flush), its photo, then the packets of what follows, in
   * that order.
   */
  lemma {:induction false} ExpectedImageSplit(a: Message, url: Bytes, b: Message, buffer: Bytes, ctx: Context)
    ensures Expected(a + [MsgEntity(ImageOnline, url)] + b, buffer, ctx)
      == Expected(a, buffer, ctx) + PhotoIfAny(ctx.source, ctx.fetch(url)) + Expected(b, [], ctx)
    decreases |a|
  {
    var image := MsgEntity(ImageOnline, url);
    var es := a + [image] + b;
    if a == [] {
      assert es == [image] + b && es[1..] == b;
    } else {
      assert es[0] == a[0] && es[1..] == a[1..] + [image] + b;
      if a[0].kind.ImageOnline? {
        ExpectedImageSplit(a[1..], url, b, [], ctx);
      } else {
        ExpectedImageSplit(a[1..], url, b, buffer + Fragment(a[0], ctx), ctx);
      }
    }
  }

  /** The packets of a message with an image are those of the part before it, its photo, and those of the part after it. */
  lemma PacketsImageSplit(a: Message, url: Bytes, b: Message, ctx: Context)
    ensures Packets(a + [MsgEntity(ImageOnline, url)] + b, ctx)
      == Packets(a, ctx) + PhotoIfAny(ctx.source, ctx.fetch(url)) + Packets(b, ctx)
  {
    ExpectedImageSplit(a, url, b, [], ctx);
  }

  /** What the packets of a whole message carry, read independently of how they were built. */
  lemma PacketsSummary(es: Message, ctx: Context)
    ensures forall p :: p in Packets(es, ctx) ==> WellFormed(p, ctx.source)
    ensures TextOf(Packets(es, ctx)) == Rendered(es, ctx)
    ensures Photos(Packets(es, ctx)) == Fetched(es, ctx.fetch)
    ensures TextCount(Packets(es, ctx)) <= ImageCount(es) + 1
  {
    ExpectedWellFormed(es, [], ctx);
    ExpectedText(es, [], ctx);
    assert [] + Rendered(es, ctx) == Rendered(es, ctx);
    ExpectedPhotos(es, [], ctx);
    ExpectedTextCount(es, [], ctx);
  }

  /** The text Telegram reads out of an escaped text entity is the entity's own text. */
  lemma TextFragmentReadsBack(data: Bytes, ctx: Context)
    ensures Unescape(Fragment(MsgEntity(Text, data), ctx)) == data
  {
    UnescapeEscaped(data);
  }

  /**
   * A mention without a leading '@' renders the same whatever its data: the
   * user it names is the call's target.
   */
  lemma MentionIgnoresData(d1: Bytes, d2: Bytes, ctx: Context)
    requires !(|d1| > 0 && d1[0] == AtSign) && !(|d2| > 0 && d2[0] == AtSign)
    ensures Fragment(MsgEntity(At, d1), ctx) == Fragment(MsgEntity(At, d2), ctx)
  {
  }

  /** A mention of a target that is a decimal user id renders as the link of the member found. */
  lemma MentionOfTarget(data: Bytes, uid: int, u: ChatUser, ctx: Context)
    requires !(|data| > 0 && data[0] == AtSign)
    requires InInt64(uid) && ctx.target == Decimal(uid) && ctx.member(ctx.source, uid) == Some(u)
    ensures Fragment(MsgEntity(At, data), ctx) == MentionLink(u)
  {
    AtoiDecimal(uid);
  }

  /** The link reads back: the name sits between the brackets and the id after `?id=`. */
  lemma MentionLinkReadsBack(u: ChatUser)
    requires InInt64(u.id)
    ensures var r := MentionLink(u);
      var n := |u.firstName|;
      |r| == n + |LinkMiddle| + |Decimal(u.id)| + 2 &&
      r[0] == OpenBracket && r[1..n + 1] == u.firstName && r[|r| - 1] == CloseParen &&
      Atoi(r[n + 1 + |LinkMiddle|..|r| - 1]) == Some(u.id)
  {
    var r := MentionLink(u);
    var n := |u.firstName|;
    assert r[n + 1 + |LinkMiddle|..|r| - 1] == Decimal(u.id);
    AtoiDecimal(u.id);
  }

  /** A message whose only entity is a mention that cannot be resolved produces no packet at all. */
  lemma UnresolvedMentionAlone(data: Bytes, ctx: Context)
    requires !(|data| > 0 && data[0] == AtSign)
    requires Atoi(ctx.target).None? || ctx.member(ctx.source, Atoi(ctx.target).value).None?
    ensures Packets([MsgEntity(At, data)], ctx) == []
  {
    var es := [MsgEntity(At, data)];
    assert es[1..] == [];
    assert Fragment(es[0], ctx) == [];
    assert Expected(es, [], ctx) == Expected(es[1..], [] + Fragment(es[0], ctx), ctx);
    assert [] + Fragment(es[0], ctx) == [];
  }

  /** Every unknown entity type becomes the placeholder, whatever its data. */
  lemma UnknownBecomesPlaceholder(name: Bytes, data: Bytes, ctx: Context)
    ensures Fragment(MsgEntity(Other(name), data), ctx) == Unsupported
    ensures |Unsupported| == 26 && Unsupported[0] == OpenBracket && Unsupported[25] == CloseBracket
  {
  }

  /**
   * Text "a", an image that can be fetched and text "b" give a text packet, the
   * photo and another text packet, in that order.
   */
  lemma TextImageText(url: Bytes, body: Bytes, ctx: Context)
    requires ctx.fetch(url) == Some(body)
    ensures var a, b := [0x61], [0x62];
      Packets([MsgEntity(Text, a), MsgEntity(ImageOnline, url), MsgEntity(Text, b)], ctx)
      == [TextPacket(ctx.source, a, MarkdownV2),
          PhotoPacket(ParseInt64Lenient(ctx.source), PhotoName, body),
          TextPacket(ctx.source, b, MarkdownV2)]
  {
    var a: Bytes, b: Bytes := [0x61], [0x62];
    var es := [MsgEntity(Text, a), MsgEntity(ImageOnline, url), MsgEntity(Text, b)];
    EscapedIdentity(a);
    EscapedIdentity(b);
    assert es[0..] == es && es[3..] == [];
    ExpectedUnfold(es, 0, [], ctx);
    assert [] + a == a;
    ExpectedUnfold(es, 1, a, ctx);
    ExpectedUnfold(es, 2, [], ctx);
    assert [] + b == b;
  }

}
