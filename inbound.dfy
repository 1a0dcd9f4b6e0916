/**
 * Inbound transcoding (`receiveTGMessage`): a Telegram message, whose text is
 * UTF-8 and whose entities are located by UTF-16 offsets, becomes a UBot
 * message. The entity walk rebases every entity onto byte positions, the kept
 * ones become `at` entities, and the text is rebuilt around them.
 */
module Inbound {
  import opened Bytes
  import opened Wrappers
  import opened Unicode
  import opened Strconv
  import opened Ubot

  /**
   * The Telegram entity types the walk distinguishes; the rest keep their name.
   * `OtherKind` never carries "mention" or "text_mention": decoding the update
   * gives those types their own constructors, as Go's string switch does.
   */
  datatype WireKind = Mention | TextMention | OtherKind(name: Bytes)

  /** A Telegram `MessageEntity`: type, UTF-16 offset and length, and the user of a `text_mention`. */
  datatype WireEntity = WireEntity(kind: WireKind, offset: nat, length: nat, user: Option<int>)

  /** `tgEntitiesInUTF8`: a UBot entity with the `[start, end)` range it replaces in the message bytes. */
  datatype SpanEntity = SpanEntity(entity: MsgEntity, start: nat, end: nat)

  /** `message.Text`, or `message.Caption` when the text is empty. */
  function MessageText(text: Text, caption: Text): (t: Text)
    ensures text != [] ==> t == text
    ensures text == [] ==> t == caption
  {
    if text == [] then caption else text
  }

  /** Every entity ends within the text, counted in UTF-16 units. */
  predicate WithinText(t: Text, entities: seq<WireEntity>) {
    forall i :: 0 <= i < |entities| ==> entities[i].offset + entities[i].length <= Utf16Len(t)
  }

  /** The wire types that become an `at` entity. */
  predicate Produces(e: WireEntity) {
    e.kind.Mention? || (e.kind.TextMention? && e.user.Some?)
  }

  /**
   * What the walk makes of one entity, as the source writes it: kept when both
   * of its ends are scalar boundaries, with `start` set to the UTF-16 offset
   * (main.go:237) and `end` to the byte position of its UTF-16 end.
   */
  function Convert(t: Text, e: WireEntity): (r: Option<SpanEntity>)
    ensures r.Some? ==> r.value.start == e.offset <= r.value.end <= |Encode(t)|
    ensures r.Some? ==> r.value.entity.kind == At
    ensures r.Some? ==> ByteOffsetOf(t, e.offset + e.length) == Some(r.value.end)
  {
    match (ByteOffsetOf(t, e.offset), ByteOffsetOf(t, e.offset + e.length))
    case (Some(_), Some(end)) =>
      (match e.kind
       case Mention => Some(SpanEntity(MsgEntity(At, Encode(t)[e.offset..end]), e.offset, end))
       case TextMention =>
         if e.user.Some? then Some(SpanEntity(MsgEntity(At, Decimal(e.user.value)), e.offset, end))
         else None
       case OtherKind(_) => None)
    case _ => None
  }

  function AsList(r: Option<SpanEntity>): seq<SpanEntity> {
    if r.Some? then [r.value] else []
  }

  /** The entities the walk keeps, in the order Telegram listed them. */
  function KeptEntities(t: Text, entities: seq<WireEntity>): seq<SpanEntity> {
    if entities == [] then []
    else KeptEntities(t, entities[..|entities| - 1]) + AsList(Convert(t, entities[|entities| - 1]))
  }

  /** The image entity for a fetched photo link, at bytes [0, 0). */
  function PhotoSpans(photo: Option<Bytes>): seq<SpanEntity> {
    if photo.Some? then [SpanEntity(MsgEntity(ImageOnline, photo.value), 0, 0)] else []
  }

  /** Spans that each lie within `n` bytes, start no earlier than `from`, and follow one another. */
  predicate Ordered(spans: seq<SpanEntity>, from: nat, n: nat) {
    && from <= n
    && (forall i :: 0 <= i < |spans| ==> spans[i].start <= spans[i].end <= n)
    && (|spans| > 0 ==> from <= spans[0].start)
    && (forall i :: 0 < i < |spans| ==> spans[i - 1].end <= spans[i].start)
  }

  /** Consecutive spans do not go backwards: what the assembly loop needs of them. */
  predicate Increasing(spans: seq<SpanEntity>) {
    forall i :: 0 < i < |spans| ==> spans[i - 1].end <= spans[i].start
  }

  /** The entities the spans carry, in order. */
  function SpanEntities(spans: seq<SpanEntity>): (r: Message)
    ensures |r| == |spans|
  {
    if spans == [] then [] else [spans[0].entity] + SpanEntities(spans[1..])
  }

  /** What follows the first of ordered spans is ordered from the first one's end. */
  lemma OrderedTail(spans: seq<SpanEntity>, from: nat, n: nat)
    requires Ordered(spans, from, n) && spans != []
    ensures Ordered(spans[1..], spans[0].end, n)
  {
    var tail := spans[1..];
    assert forall i :: 0 <= i < |tail| ==> tail[i] == spans[i + 1];
  }

  /**
   * The message the builder receives: for each span, the text since the last
   * span, then the span's entity; then the rest of the text.
   */
  function Interleave(bytes: Bytes, spans: seq<SpanEntity>, from: nat): Message
    requires Ordered(spans, from, |bytes|)
    decreases |spans|
  {
    if spans == [] then TextRun(bytes[from..])
    else
      TextRun(bytes[from..spans[0].start]) + [spans[0].entity]
      + Interleave(bytes, spans[1..], spans[0].end)
  }

  /** The UBot message `receiveTGMessage` emits, or nothing when the message is empty. */
  function Received(text: Text, caption: Text, entities: seq<WireEntity>, photo: Option<Bytes>): Option<Message>
    requires Increasing(KeptEntities(MessageText(text, caption), entities))
  {
    var t := MessageText(text, caption);
    KeptWithinText(t, entities, photo);
    var spans := PhotoSpans(photo) + KeptEntities(t, entities);
    var m := Interleave(Encode(t), spans, 0);
    if m == [] then None else Some(m)
  }

  // ----- The walk -----

  /**
   * One of the two inner loops of the walk: decode scalar after scalar from the
   * cursor until its UTF-16 position reaches `target`. The cursor lands on
   * `target` exactly when `target` is a scalar boundary, and then sits at its
   * byte position.
   */
  method Advance(t: Text, bytes: Bytes, cur16: nat, curByte: nat, ghost k: nat, target: nat)
    returns (next16: nat, nextByte: nat, ghost k': nat)
    requires bytes == Encode(t)
    requires k <= |t| && cur16 == Utf16Len(t[..k]) && curByte == Utf8Len(t[..k])
    requires cur16 <= target <= Utf16Len(t)
    ensures k' <= |t| && next16 == Utf16Len(t[..k']) && nextByte == Utf8Len(t[..k'])
    ensures next16 >= target
    ensures next16 == target <==> ByteOffsetOf(t, target).Some?
    ensures next16 == target ==> nextByte == ByteOffsetOf(t, target).value
  {
    next16, nextByte, k' := cur16, curByte, k;
    assert t[..|t|] == t;
    while next16 < target
      invariant k <= k' <= |t| && next16 == Utf16Len(t[..k']) && nextByte == Utf8Len(t[..k'])
      invariant k' > k ==> Utf16Len(t[..k' - 1]) < target
      decreases target - next16
    {
      DecodeAt(t, k');
      PrefixStep(t, k');
      var d := DecodeRune(bytes[nextByte..]);
      nextByte := nextByte + d.width;
      next16 := next16 + Utf16Width(d.rune);
      k' := k' + 1;
    }
    if next16 == target {
      BoundaryAt(t, k');
    } else {
      assert t[..k' - 1 + 1] == t[..k'];
      InsideNotBoundary(t, k' - 1, target);
    }
  }

  /**
   * The body of the entity loop of `receiveTGMessage` for one entity: reset
   * the cursor when the entity lies behind it, advance to the entity's start
   * and then to its end, and make the `at` entity when both were reached
   * exactly and the type makes a mention.
   */
  method WalkEntity(t: Text, bytes: Bytes, e: WireEntity, cur16: nat, curByte: nat, ghost k: nat)
    returns (next16: nat, nextByte: nat, ghost k': nat, made: Option<SpanEntity>)
    requires bytes == Encode(t)
    requires k <= |t| && cur16 == Utf16Len(t[..k]) && curByte == Utf8Len(t[..k])
    requires e.offset + e.length <= Utf16Len(t)
    ensures k' <= |t| && next16 == Utf16Len(t[..k']) && nextByte == Utf8Len(t[..k'])
    ensures made == Convert(t, e)
  {
    next16, nextByte, k' := cur16, curByte, k;
    made := None;
    if next16 > e.offset {
      next16, nextByte, k' := 0, 0, 0;
    }
    next16, nextByte, k' := Advance(t, bytes, next16, nextByte, k', e.offset);
    if next16 > e.offset {
      assert ByteOffsetOf(t, e.offset).None?;
      return;
    }
    var start := next16;
    var endInUtf16 := e.offset + e.length;
    next16, nextByte, k' := Advance(t, bytes, next16, nextByte, k', endInUtf16);
    if next16 > endInUtf16 {
      assert ByteOffsetOf(t, endInUtf16).None?;
      return;
    }
    var end := nextByte;
    ConvertFound(t, e, end);
    match e.kind {
      case Mention =>
        made := Some(SpanEntity(MsgEntity(At, bytes[start..end]), start, end));
      case TextMention =>
        if e.user.None? {
          return;
        }
        made := Some(SpanEntity(MsgEntity(At, Decimal(e.user.value)), start, end));
      case OtherKind(_) =>
    }
  }

  /** Once both ends of an entity are boundaries, its type alone decides what it makes. */
  lemma ConvertFound(t: Text, e: WireEntity, end: nat)
    requires ByteOffsetOf(t, e.offset).Some? && ByteOffsetOf(t, e.offset + e.length) == Some(end)
    ensures e.kind.Mention? ==> Convert(t, e) == Some(SpanEntity(MsgEntity(At, Encode(t)[e.offset..end]), e.offset, end))
    ensures e.kind.TextMention? && e.user.Some? ==>
      Convert(t, e) == Some(SpanEntity(MsgEntity(At, Decimal(e.user.value)), e.offset, end))
    ensures e.kind.OtherKind? || (e.kind.TextMention? && e.user.None?) ==> Convert(t, e).None?
  {
  }

  /**
   * The entity loop of `receiveTGMessage`: walk the entities in the order
   * given with one cursor, keeping what each step makes.
   */
  method MapEntities(t: Text, entities: seq<WireEntity>) returns (kept: seq<SpanEntity>)
    requires WithinText(t, entities)
    ensures kept == KeptEntities(t, entities)
  {
    var bytes := Encode(t);
    var cur16, curByte := 0, 0;
    ghost var k: nat := 0;
    kept := [];
    for i := 0 to |entities|
      invariant k <= |t| && cur16 == Utf16Len(t[..k]) && curByte == Utf8Len(t[..k])
      invariant kept == KeptEntities(t, entities[..i])
    {
      assert entities[..i + 1][..i] == entities[..i];
      var made;
      cur16, curByte, k, made := WalkEntity(t, bytes, entities[i], cur16, curByte, k);
      if made.Some? {
        kept := kept + [made.value];
      }
    }
    assert entities[..|entities|] == entities;
  }

  /**
   * The assembly loop of `receiveTGMessage`: write the text since the last
   * entity, then the entity, and finally the rest of the text.
   */
  method Assemble(bytes: Bytes, spans: seq<SpanEntity>) returns (m: Message)
    requires Ordered(spans, 0, |bytes|)
    ensures m == Interleave(bytes, spans, 0)
  {
    var lastFinished := 0;
    m := [];
    for i := 0 to |spans|
      invariant lastFinished <= |bytes|
      invariant i == 0 ==> lastFinished == 0
      invariant i > 0 ==> lastFinished == spans[i - 1].end
      invariant Ordered(spans[i..], lastFinished, |bytes|)
      invariant m + Interleave(bytes, spans[i..], lastFinished) == Interleave(bytes, spans, 0)
    {
      assert spans[i..][0] == spans[i] && spans[i..][1..] == spans[i + 1..];
      m := m + TextRun(bytes[lastFinished..spans[i].start]) + [spans[i].entity];
      lastFinished := spans[i].end;
    }
    m := m + TextRun(bytes[lastFinished..]);
  }

  /**
   * `receiveTGMessage` for a chat message from another user: the photo link
   * (the result of `GetFile` and `Link`, nothing when there is no photo or the
   * lookup fails), the walk, the assembly, and the emptiness test.
   */
  method ReceiveMessage(text: Text, caption: Text, entities: seq<WireEntity>, photo: Option<Bytes>)
    returns (msg: Option<Message>)
    requires WithinText(MessageText(text, caption), entities)
    requires Increasing(KeptEntities(MessageText(text, caption), entities))
    ensures msg == Received(text, caption, entities, photo)
  {
    var msgText := text;
    if msgText == [] {
      msgText := caption;
    }
    var myEntities := PhotoSpans(photo);
    var kept := MapEntities(msgText, entities);
    myEntities := myEntities + kept;
    assert msgText == MessageText(text, caption);
    KeptWithinText(msgText, entities, photo);
    var m := Assemble(Encode(msgText), myEntities);
    if m == [] {
      msg := None;
    } else {
      msg := Some(m);
    }
  }

  // ----- Properties -----

  /** Spans of `at` entities that each lie within `n` bytes, with no span ending before it starts. */
  predicate AtSpansWithin(spans: seq<SpanEntity>, n: nat) {
    forall i :: 0 <= i < |spans| ==> spans[i].start <= spans[i].end <= n && spans[i].entity.kind == At
  }

  lemma {:induction false} KeptBounds(t: Text, entities: seq<WireEntity>)
    ensures AtSpansWithin(KeptEntities(t, entities), |Encode(t)|)
  {
    if entities != [] {
      var prefix := entities[..|entities| - 1];
      KeptBounds(t, prefix);
      var c := Convert(t, entities[|entities| - 1]);
      var prev := KeptEntities(t, prefix);
      assert KeptEntities(t, entities) == prev + AsList(c);
      forall i | 0 <= i < |prev + AsList(c)|
        ensures (prev + AsList(c))[i].start <= (prev + AsList(c))[i].end <= |Encode(t)|
        ensures (prev + AsList(c))[i].entity.kind == At
      {
        if i >= |prev| {
          assert (prev + AsList(c))[i] == c.value;
        }
      }
    }
  }

  /** Bounded increasing spans stay ordered with the photo's empty span, if any, in front. */
  lemma OrderedWithPhoto(spans: seq<SpanEntity>, n: nat, photo: Option<Bytes>)
    requires AtSpansWithin(spans, n) && Increasing(spans)
    ensures Ordered(PhotoSpans(photo) + spans, 0, n)
  {
    assert Ordered(spans, 0, n);
    if photo.None? {
      assert PhotoSpans(photo) + spans == spans;
    } else {
      OrderedCons(PhotoSpans(photo)[0], spans, 0, n);
      assert PhotoSpans(photo) == [PhotoSpans(photo)[0]];
    }
  }

  /** A span in front of spans ordered from its end keeps them ordered. */
  lemma OrderedCons(p: SpanEntity, spans: seq<SpanEntity>, from: nat, n: nat)
    requires from <= p.start <= p.end <= n && Ordered(spans, p.end, n)
    ensures Ordered([p] + spans, from, n)
  {
    var all := [p] + spans;
    assert forall i :: 1 <= i < |all| ==> all[i] == spans[i - 1];
  }

  /**
   * Kept spans are `at` entities within the text bytes, starting no later
   * than they end; in increasing order they stay ordered behind the photo.
   */
  lemma KeptWithinText(t: Text, entities: seq<WireEntity>, photo: Option<Bytes>)
    ensures forall s :: s in KeptEntities(t, entities) ==> s.start <= s.end <= |Encode(t)|
    ensures forall s :: s in KeptEntities(t, entities) ==> s.entity.kind == At
    ensures Increasing(KeptEntities(t, entities)) ==>
      Ordered(PhotoSpans(photo) + KeptEntities(t, entities), 0, |Encode(t)|)
  {
    var kept := KeptEntities(t, entities);
    var n := |Encode(t)|;
    KeptBounds(t, entities);
    forall s | s in kept
      ensures s.start <= s.end <= n && s.entity.kind == At
    {
      var i :| 0 <= i < |kept| && kept[i] == s;
    }
    if Increasing(kept) {
      OrderedWithPhoto(kept, n, photo);
    }
  }

  /**
   * An entity within the text is dropped exactly when one of its ends falls
   * strictly inside a scalar value taking two UTF-16 units, or its type makes
   * no mention.
   */
  lemma ConvertDropsIff(t: Text, e: WireEntity)
    requires e.offset + e.length <= Utf16Len(t)
    ensures Convert(t, e).None? <==>
      InsidePair(t, e.offset) || InsidePair(t, e.offset + e.length) || !Produces(e)
  {
    ConvertNoneIff(t, e);
    ByteOffsetNoneIff(t, e.offset);
    ByteOffsetNoneIff(t, e.offset + e.length);
  }

  lemma ConvertNoneIff(t: Text, e: WireEntity)
    ensures Convert(t, e).None? <==>
      ByteOffsetOf(t, e.offset).None? || ByteOffsetOf(t, e.offset + e.length).None? || !Produces(e)
  {
  }

  /**
   * A kept entity spans whole scalar values `t[ks..ke]`: its UTF-16 ends are
   * those of prefixes `ks` and `ke`, its `end` is the byte length of prefix `ke`.
   */
  lemma KeptSpansScalars(t: Text, e: WireEntity) returns (ks: nat, ke: nat)
    requires Convert(t, e).Some?
    ensures ks <= ke <= |t|
    ensures Utf16Len(t[..ks]) == e.offset && Utf16Len(t[..ke]) == e.offset + e.length
    ensures Convert(t, e).value.end == Utf8Len(t[..ke])
  {
    ks := BoundaryWitness(t, e.offset);
    ke := BoundaryWitness(t, e.offset + e.length);
    if ke < ks {
      PrefixMonotone(t, ke, ks);
    }
  }

  /** The walk drops no kept entity and adds none: appending an entity appends its conversion. */
  lemma KeptAppend(t: Text, entities: seq<WireEntity>, e: WireEntity)
    ensures KeptEntities(t, entities + [e]) == KeptEntities(t, entities) + AsList(Convert(t, e))
  {
    assert (entities + [e])[..|entities|] == entities;
  }

  lemma {:induction false} InterleaveNonText(bytes: Bytes, spans: seq<SpanEntity>, from: nat)
    requires Ordered(spans, from, |bytes|)
    requires forall i :: 0 <= i < |spans| ==> !spans[i].entity.kind.Text?
    ensures NonText(Interleave(bytes, spans, from)) == SpanEntities(spans)
    decreases |spans|
  {
    var m := Interleave(bytes, spans, from);
    if spans == [] {
      if bytes[from..] != [] {
        assert m[1..] == [];
      }
    } else {
      var run := TextRun(bytes[from..spans[0].start]);
      OrderedTail(spans, from, |bytes|);
      var rest := Interleave(bytes, spans[1..], spans[0].end);
      NonTextAppend(run, [spans[0].entity]);
      NonTextAppend(run + [spans[0].entity], rest);
      if run != [] {
        assert run[1..] == [];
      }
      assert [spans[0].entity][1..] == [];
      InterleaveNonText(bytes, spans[1..], spans[0].end);
    }
  }

  lemma {:induction false} NonTextAppend(a: Message, b: Message)
    ensures NonText(a + b) == NonText(a) + NonText(b)
  {
    if a == [] {
      assert a + b == b;
    } else {
      assert (a + b)[0] == a[0];
      assert (a + b)[1..] == a[1..] + b;
      NonTextAppend(a[1..], b);
    }
  }

  /**
   * The emitted message holds every span's entity, in span order, and no other
   * non-text entity: the photo first when there is one, then the kept entities.
   */
  lemma ReceivedEntities(text: Text, caption: Text, entities: seq<WireEntity>, photo: Option<Bytes>)
    requires Increasing(KeptEntities(MessageText(text, caption), entities))
    requires Received(text, caption, entities, photo).Some?
    ensures var spans := PhotoSpans(photo) + KeptEntities(MessageText(text, caption), entities);
      NonText(Received(text, caption, entities, photo).value)
      == SpanEntities(spans)
  {
    var t := MessageText(text, caption);
    var kept := KeptEntities(t, entities);
    KeptWithinText(t, entities, photo);
    var spans := PhotoSpans(photo) + kept;
    assert forall i :: 0 <= i < |kept| ==> kept[i] in kept;
    InterleaveNonText(Encode(t), spans, 0);
  }

  /** A fetched photo always becomes the first entity of the emitted message. */
  lemma PhotoFirst(text: Text, caption: Text, entities: seq<WireEntity>, url: Bytes)
    requires Increasing(KeptEntities(MessageText(text, caption), entities))
    ensures Received(text, caption, entities, Some(url)).Some?
    ensures Received(text, caption, entities, Some(url)).value[0] == MsgEntity(ImageOnline, url)
  {
    var t := MessageText(text, caption);
    KeptWithinText(t, entities, Some(url));
    var spans := PhotoSpans(Some(url)) + KeptEntities(t, entities);
    assert spans[0].start == 0;
    assert TextRun(Encode(t)[0..0]) == [];
  }

  /**
   * No event is emitted exactly when there is no photo, no kept entity and no
   * text.
   */
  lemma ReceivedNoneIff(text: Text, caption: Text, entities: seq<WireEntity>, photo: Option<Bytes>)
    requires Increasing(KeptEntities(MessageText(text, caption), entities))
    ensures Received(text, caption, entities, photo).None? <==>
      photo.None? && KeptEntities(MessageText(text, caption), entities) == [] && MessageText(text, caption) == []
  {
    var t := MessageText(text, caption);
    KeptWithinText(t, entities, photo);
    var spans := PhotoSpans(photo) + KeptEntities(t, entities);
    if t == [] {
      assert Encode(t) == [];
    } else {
      assert |Encode(t)| > 0;
      if spans == [] {
        assert Encode(t)[0..] == Encode(t);
      }
    }
  }

  /** Text without entities or photo arrives as a single text entity holding all of it. */
  lemma PlainText(text: Text, caption: Text)
    requires MessageText(text, caption) != []
    ensures Received(text, caption, [], None) == Some([MsgEntity(Text, Encode(MessageText(text, caption)))])
  {
    var t := MessageText(text, caption);
    assert |Encode(t)| > 0;
    assert Encode(t)[0..] == Encode(t);
    assert PhotoSpans(None) + KeptEntities(t, []) == [];
  }

  /** In ASCII text a mention keeps exactly the characters its offsets cover. */
  lemma AsciiMention(t: Text, offset: nat, length: nat, user: Option<int>)
    requires IsAsciiText(t) && offset + length <= |t|
    ensures Convert(t, WireEntity(Mention, offset, length, user))
      == Some(SpanEntity(MsgEntity(At, t[offset..offset + length]), offset, offset + length))
  {
    AsciiEncoding(t);
    AsciiBoundary(t, offset);
    AsciiBoundary(t, offset + length);
  }

  /**
   * ASCII text with one mention arrives as the text before it, the mention,
   * and the text after it, leaving out empty runs.
   */
  lemma AsciiSingleMention(t: Text, offset: nat, length: nat)
    requires IsAsciiText(t) && offset + length <= |t|
    ensures Received(t, [], [WireEntity(Mention, offset, length, None)], None)
      == Some(TextRun(t[..offset]) + [MsgEntity(At, t[offset..offset + length])] + TextRun(t[offset + length..]))
  {
    var e := WireEntity(Mention, offset, length, None);
    var span := SpanEntity(MsgEntity(At, t[offset..offset + length]), offset, offset + length);
    assert MessageText(t, []) == t;
    KeptSingle(t, e);
    AsciiMention(t, offset, length, None);
    AsciiEncoding(t);
    assert PhotoSpans(None) + [span] == [span];
    InterleaveSingle(t, span);
  }

  /** A list of one entity keeps exactly that entity's conversion. */
  lemma KeptSingle(t: Text, e: WireEntity)
    ensures KeptEntities(t, [e]) == AsList(Convert(t, e))
  {
    KeptAppend(t, [], e);
    assert [] + [e] == [e];
  }

  /** One span within the bytes: the text before it, its entity, the text after it. */
  lemma InterleaveSingle(bytes: Bytes, span: SpanEntity)
    requires span.start <= span.end <= |bytes|
    ensures Ordered([span], 0, |bytes|)
    ensures Interleave(bytes, [span], 0)
      == TextRun(bytes[..span.start]) + [span.entity] + TextRun(bytes[span.end..])
    ensures Interleave(bytes, [span], 0) != []
  {
    assert [span][1..] == [];
    assert bytes[0..span.start] == bytes[..span.start];
  }

  const HiText: Text := [0x68, 0x69, 0x20, 0x40, 0x62, 0x6F, 0x62]

  lemma HiTextPieces()
    ensures IsAsciiText(HiText) && |HiText| == 7
    ensures HiText[..3] == [0x68, 0x69, 0x20] && HiText[3..7] == [0x40, 0x62, 0x6F, 0x62] && HiText[7..] == []
  {
  }

  /** "hi @bob" with a mention at UTF-16 offsets 3 to 7 becomes the text "hi " and the mention. */
  lemma HiBob()
    ensures Received(HiText, [], [WireEntity(Mention, 3, 4, None)], None)
      == Some([MsgEntity(Text, [0x68, 0x69, 0x20]), MsgEntity(At, [0x40, 0x62, 0x6F, 0x62])])
  {
    HiTextPieces();
    AsciiSingleMention(HiText, 3, 4);
    assert TextRun(HiText[..3]) == [MsgEntity(Text, [0x68, 0x69, 0x20])];
    assert TextRun(HiText[7..]) == [];
    assert TextRun(HiText[..3]) + [MsgEntity(At, HiText[3..3 + 4])] + TextRun(HiText[3 + 4..])
        == [MsgEntity(Text, [0x68, 0x69, 0x20]), MsgEntity(At, [0x40, 0x62, 0x6F, 0x62])];
  }

  lemma {:induction false} InterleaveReconstructs(bytes: Bytes, spans: seq<SpanEntity>, from: nat)
    requires Ordered(spans, from, |bytes|)
    requires CarriesOwnBytes(bytes, spans)
    ensures Flatten(Interleave(bytes, spans, from)) == bytes[from..]
    decreases |spans|
  {
    if spans == [] {
      if bytes[from..] != [] {
        assert TextRun(bytes[from..])[1..] == [];
      }
    } else {
      var s0 := spans[0];
      var run := TextRun(bytes[from..s0.start]);
      OrderedTail(spans, from, |bytes|);
      var rest := Interleave(bytes, spans[1..], s0.end);
      assert CarriesOwnBytes(bytes, spans[1..]) by {
        assert forall i :: 0 <= i < |spans| - 1 ==> spans[1..][i] == spans[i + 1];
      }
      InterleaveReconstructs(bytes, spans[1..], s0.end);
      FlattenOfStep(run, s0.entity, rest);
      assert Flatten(run) == bytes[from..s0.start] by {
        if run != [] {
          assert run[1..] == [];
        }
      }
      SliceSplit(bytes, from, s0.start, s0.end);
    }
  }

  lemma FlattenOfStep(run: Message, e: MsgEntity, rest: Message)
    ensures Flatten(run + [e] + rest) == Flatten(run) + e.data + Flatten(rest)
  {
    FlattenAppend(run, [e]);
    FlattenAppend(run + [e], rest);
    assert [e][1..] == [];
  }

  lemma SliceSplit(bytes: Bytes, i: nat, j: nat, k: nat)
    requires i <= j <= k <= |bytes|
    ensures bytes[i..] == bytes[i..j] + bytes[j..k] + bytes[k..]
  {
  }

  /** Every span lies within the bytes and carries exactly the bytes it replaces. */
  predicate CarriesOwnBytes(bytes: Bytes, spans: seq<SpanEntity>) {
    forall i :: 0 <= i < |spans| ==>
      spans[i].start <= spans[i].end <= |bytes| && spans[i].entity.data == bytes[spans[i].start..spans[i].end]
  }

  lemma {:induction false} KeptMentionsCarryOwnBytes(t: Text, entities: seq<WireEntity>)
    requires forall i :: 0 <= i < |entities| ==> entities[i].kind.Mention?
    ensures CarriesOwnBytes(Encode(t), KeptEntities(t, entities))
  {
    if entities != [] {
      var prefix := entities[..|entities| - 1];
      KeptMentionsCarryOwnBytes(t, prefix);
      var c := Convert(t, entities[|entities| - 1]);
      var prev := KeptEntities(t, prefix);
      assert KeptEntities(t, entities) == prev + AsList(c);
      forall i | 0 <= i < |prev + AsList(c)|
        ensures (prev + AsList(c))[i].start <= (prev + AsList(c))[i].end <= |Encode(t)|
        ensures (prev + AsList(c))[i].entity.data
             == Encode(t)[(prev + AsList(c))[i].start..(prev + AsList(c))[i].end]
      {
        if i >= |prev| {
          assert (prev + AsList(c))[i] == c.value;
        }
      }
    }
  }

  /**
   * When every entity is a `mention`, laying the emitted message's payloads end
   * to end gives back the message text: no byte is lost or repeated.
   */
  lemma MentionsReconstruct(text: Text, caption: Text, entities: seq<WireEntity>)
    requires forall i :: 0 <= i < |entities| ==> entities[i].kind.Mention?
    requires Increasing(KeptEntities(MessageText(text, caption), entities))
    requires Received(text, caption, entities, None).Some?
    ensures Flatten(Received(text, caption, entities, None).value) == Encode(MessageText(text, caption))
  {
    var t := MessageText(text, caption);
    KeptWithinText(t, entities, None);
    KeptMentionsCarryOwnBytes(t, entities);
    var spans := PhotoSpans(None) + KeptEntities(t, entities);
    assert spans == KeptEntities(t, entities);
    InterleaveReconstructs(Encode(t), spans, 0);
  }

  // ----- The start position at main.go:237 -----

  /** Byte positions of boundaries grow with their UTF-16 positions. */
  lemma ByteOffsetMonotone(t: Text, u: nat, v: nat)
    requires u <= v && ByteOffsetOf(t, u).Some? && ByteOffsetOf(t, v).Some?
    ensures ByteOffsetOf(t, u).value <= ByteOffsetOf(t, v).value
  {
    var ku := BoundaryWitness(t, u);
    var kv := BoundaryWitness(t, v);
    if kv < ku {
      PrefixMonotone(t, kv, ku);
    } else if ku < kv {
      PrefixMonotone(t, ku, kv);
    }
  }

  /**
   * The conversion with `start` taken from the byte cursor, as the rest of
   * the walk evidently intends: the same as `Convert` but for the start.
   */
  function ConvertCorrected(t: Text, e: WireEntity): (r: Option<SpanEntity>)
    ensures r.Some? ==> r.value.start <= r.value.end <= |Encode(t)|
    ensures r.Some? <==> Convert(t, e).Some?
    ensures r.Some? ==> r.value.end == Convert(t, e).value.end
  {
    match (ByteOffsetOf(t, e.offset), ByteOffsetOf(t, e.offset + e.length))
    case (Some(start), Some(end)) =>
      ByteOffsetMonotone(t, e.offset, e.offset + e.length);
      (match e.kind
       case Mention => Some(SpanEntity(MsgEntity(At, Encode(t)[start..end]), start, end))
       case TextMention =>
         if e.user.Some? then Some(SpanEntity(MsgEntity(At, Decimal(e.user.value)), start, end))
         else None
       case OtherKind(_) => None)
    case _ => None
  }

  /**
   * With the corrected start, a kept mention carries exactly the UTF-8 bytes
   * of the scalar values its UTF-16 range covers.
   */
  lemma CorrectedMentionCovers(t: Text, e: WireEntity) returns (ks: nat, ke: nat)
    requires e.kind.Mention? && ConvertCorrected(t, e).Some?
    ensures ks <= ke <= |t|
    ensures Utf16Len(t[..ks]) == e.offset && Utf16Len(t[..ke]) == e.offset + e.length
    ensures ConvertCorrected(t, e).value.entity.data == Encode(t[ks..ke])
  {
    ks := BoundaryWitness(t, e.offset);
    ke := BoundaryWitness(t, e.offset + e.length);
    if ke < ks {
      PrefixMonotone(t, ke, ks);
    }
    EncodeSlice(t, ks, ke);
  }

  /** When the text before the entity is ASCII, the source's start is the right one. */
  lemma AsWrittenAgreesOnAsciiPrefix(t: Text, e: WireEntity, ks: nat)
    requires ks <= |t| && IsAsciiText(t[..ks]) && Utf16Len(t[..ks]) == e.offset
    ensures Convert(t, e) == ConvertCorrected(t, e)
  {
    AsciiEncoding(t[..ks]);
    BoundaryAt(t, ks);
  }

  const QuirkText: Text := [0xE9, 0x20, 0x40, 0x62, 0x6F, 0x62]

  /** "é @bob" is C3 A9 20 40 62 6F 62; UTF-16 positions 2 and 6 are bytes 3 and 7. */
  lemma QuirkTextPositions()
    ensures Encode(QuirkText) == [0xC3, 0xA9, 0x20, 0x40, 0x62, 0x6F, 0x62]
    ensures ByteOffsetOf(QuirkText, 2) == Some(3) && ByteOffsetOf(QuirkText, 6) == Some(7)
    ensures Encode(QuirkText[2..6]) == [0x40, 0x62, 0x6F, 0x62]
  {
    QuirkEncoding();
    QuirkStart();
    QuirkEnd();
    var tail := QuirkText[1..];
    assert QuirkText[2..6] == tail[1..];
    AsciiEncoding(tail[1..]);
  }

  lemma QuirkEncoding()
    ensures Encode(QuirkText) == [0xC3, 0xA9, 0x20, 0x40, 0x62, 0x6F, 0x62]
  {
    var tail := QuirkText[1..];
    assert QuirkText == [0xE9] + tail;
    EncodeAppend([0xE9], tail);
    AsciiEncoding(tail);
  }

  lemma QuirkStart()
    ensures ByteOffsetOf(QuirkText, 2) == Some(3)
  {
    var t := QuirkText;
    assert t[..2] == [0xE9] + [0x20];
    EncodeAppend([0xE9], [0x20]);
    BoundaryAt(t, 2);
  }

  lemma QuirkEnd()
    ensures ByteOffsetOf(QuirkText, 6) == Some(7)
  {
    var t := QuirkText;
    var tail := t[1..];
    assert t == [0xE9] + tail;
    EncodeAppend([0xE9], tail);
    AsciiEncoding(tail);
    assert Utf8Len([0xE9]) == 2 && Utf16Len([0xE9]) == 1;
    assert Utf8Len(t) == 7 && Utf16Len(t) == 6;
    assert t[..6] == t;
    BoundaryAt(t, 6);
  }

  /**
   * "é @bob" with a mention at UTF-16 offsets 2 to 6 ("@bob"): the source's
   * start (2) is a byte position one byte early, so the mention takes the
   * space before it, while the corrected start (3) gives "@bob", the
   * encoding of the four scalars the entity covers.
   */
  lemma QuirkShiftsMention()
    ensures Convert(QuirkText, WireEntity(Mention, 2, 4, None))
      == Some(SpanEntity(MsgEntity(At, [0x20, 0x40, 0x62, 0x6F, 0x62]), 2, 7))
    ensures ConvertCorrected(QuirkText, WireEntity(Mention, 2, 4, None))
      == Some(SpanEntity(MsgEntity(At, Encode(QuirkText[2..6])), 3, 7))
    ensures Encode(QuirkText[2..6]) == [0x40, 0x62, 0x6F, 0x62]
  {
    QuirkTextPositions();
    var bytes := Encode(QuirkText);
    assert bytes[2..7] == [0x20, 0x40, 0x62, 0x6F, 0x62];
    assert bytes[3..7] == [0x40, 0x62, 0x6F, 0x62];
  }

  // ----- Overlapping spans at main.go:269 -----

  /** With the corrected start, entities in increasing UTF-16 order give spans in increasing byte order. */
  lemma CorrectedSpansIncreasing(t: Text, e1: WireEntity, e2: WireEntity)
    requires e1.offset + e1.length <= e2.offset
    requires ConvertCorrected(t, e1).Some? && ConvertCorrected(t, e2).Some?
    ensures ConvertCorrected(t, e1).value.end <= ConvertCorrected(t, e2).value.start
  {
    ByteOffsetMonotone(t, e1.offset + e1.length, e2.offset);
  }

  /** "éé", then " @alice @bobby" in ASCII. */
  const Accents: Text := [0xE9, 0xE9]
  const MentionsTail: Text := [0x20, 0x40, 0x61, 0x6C, 0x69, 0x63, 0x65, 0x20, 0x40, 0x62, 0x6F, 0x62, 0x62, 0x79]
  const OverlapText: Text := Accents + MentionsTail

  /** The accented letters take four bytes and two UTF-16 units; the tail is ASCII. */
  lemma OverlapPieces()
    ensures IsAsciiText(MentionsTail) && |MentionsTail| == 14
    ensures Utf8Len(Accents) == 4 && Utf16Len(Accents) == 2
  {
    assert Accents[1..] == [0xE9] && Accents[1..][1..] == [];
  }

  /** The mentions of "@alice" (UTF-16 3 to 9) and "@bobby" (10 to 16) in that text. */
  const Alice: WireEntity := WireEntity(Mention, 3, 6, None)
  const Bobby: WireEntity := WireEntity(Mention, 10, 6, None)

  /** In that text every UTF-16 position from 2 on is a boundary, two bytes further on. */
  lemma OverlapPosition(t: Text, k: nat)
    requires t == OverlapText && 2 <= k <= 16
    ensures ByteOffsetOf(t, k) == Some(k + 2)
  {
    var head, tail := Accents, MentionsTail;
    OverlapPieces();
    AsciiTailBoundary(head, tail, k - 2);
    assert t == head + tail;
  }

  /** Where those positions are boundaries, both mentions are kept, and the first ends past the second's start. */
  lemma OverlapSpans(t: Text)
    requires ByteOffsetOf(t, 3) == Some(5) && ByteOffsetOf(t, 9) == Some(11)
    requires ByteOffsetOf(t, 10) == Some(12) && ByteOffsetOf(t, 16) == Some(18)
    ensures Convert(t, Alice).Some? && Convert(t, Alice).value.end == 11
    ensures Convert(t, Bobby).Some? && Convert(t, Bobby).value.start == 10
    ensures ConvertCorrected(t, Alice).Some? && ConvertCorrected(t, Bobby).Some?
  {
    ConvertFound(t, Alice, 11);
    ConvertFound(t, Bobby, 18);
  }

  /**
   * "éé @alice @bobby" with both mentions: as written the first span ends at
   * byte 11 and the second starts at byte 10, so the assembly slices from 11
   * to 10, which panics in Go. With the corrected starts (bytes 5 and 12) the
   * spans follow one another.
   */
  lemma OverlapCrashes(t: Text)
    requires t == OverlapText
    ensures var kept := KeptEntities(t, [Alice, Bobby]);
      |kept| == 2 && kept[0].end == 11 && kept[1].start == 10 && !Increasing(kept)
    ensures ConvertCorrected(t, Alice).Some? && ConvertCorrected(t, Bobby).Some?
    ensures ConvertCorrected(t, Alice).value.end <= ConvertCorrected(t, Bobby).value.start
  {
    OverlapPosition(t, 3);
    OverlapPosition(t, 9);
    OverlapPosition(t, 10);
    OverlapPosition(t, 16);
    OverlapSpans(t);
    KeptSingle(t, Alice);
    KeptAppend(t, [Alice], Bobby);
    assert [Alice] + [Bobby] == [Alice, Bobby];
    var kept := KeptEntities(t, [Alice, Bobby]);
    assert kept == [Convert(t, Alice).value, Convert(t, Bobby).value];
    assert kept[1 - 1].end > kept[1].start;
    CorrectedSpansIncreasing(t, Alice, Bobby);
  }
}
