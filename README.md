# UBot Telegram account: message transcoding

UBot.Account.Telegram connects a Telegram bot to the UBot host. This project
models the part of `main.go` that translates messages between the two.

- **Receiving (`receiveTGMessage`).** A Telegram message has UTF-8 text (or a
  caption), a list of entities located by UTF-16 offsets, and an optional photo.
  It becomes a UBot message: an ordered list of `text`, `at` and
  `image_online` entities. The entity walk moves a cursor through the text one
  scalar value at a time, keeping its position in UTF-16 units and in bytes.
  Each `mention` entity, and each `text_mention` entity with a user, whose two
  ends fall on scalar boundaries becomes an `at` entity. The message is then rebuilt as the text
  between the entities interleaved with the entities, with the photo first.
- **Sending (`sendChatMessage`).** A UBot message becomes a list of Telegram
  packets. Text entities are escaped for MarkdownV2. A mention becomes a
  `tg://user` link to the call's target user, or is copied as given when its
  data starts with `@`. Unknown entity types become a placeholder. All of these
  go into one text buffer. An image flushes the buffer as a text packet and
  becomes a photo upload of the fetched bytes. The packets are sent in order
  until the first error.
- **Member names (`getMemberName`).** The display name of a chat member is the
  first name, plus a space and the last name when there is one.

Go strings are byte sequences (`Bytes.Bytes`). Text that Telegram guarantees to
be valid UTF-8 is a sequence of Unicode scalar values (`Unicode.Text`); it
becomes bytes through UTF-8 encoding (RFC 3629, section 3), and its UTF-16
length counts surrogate pairs as two units (RFC 2781, section 2.1). The model
spells out the Go library functions the code relies on:
`utf8.DecodeRuneInString` (including its answers on bytes it cannot decode),
the UTF-16 width of a rune, `strings.ReplaceAll`, `strconv.Atoi`,
`strconv.ParseInt` with its error ignored (down to the digit-by-digit scan of
`strconv.ParseUint`, which reports a range error before it reaches a later
bad byte), and `fmt.Sprint` of an integer. Go's
`int` is taken to be 64 bits wide.

The Bot API calls become function parameters whose answers the model takes as
given:

- `GetFile` with `Link`, on the receive side, becomes the photo link.
- `http.Get` with `ioutil.ReadAll`, on the send side, becomes `Telegram.Fetch`.
- `GetChatMember` becomes `Telegram.Lookup`.
- `bot.Send` becomes `Telegram.Sender`.

Modules:

- `Bytes`, `Wrappers`: the byte-string and option types.
- `Unicode`: UTF-8 and UTF-16 widths, encoding, Go's rune decoder, and the reference mapping from UTF-16 positions to byte positions.
- `Strconv`: Go's number formatting and parsing.
- `Markdown`: `markdownEscaped` and Telegram's reading of MarkdownV2 plain text.
- `Ubot`: the host's message entities.
- `Telegram`: packets, chat users and the Bot API oracles.
- `Inbound`: `receiveTGMessage`.
- `Outbound`: `sendChatMessage`.
- `Members`: `getMemberName`.

The entity walk, the assembly loop, the packet-building loop and the delivery
loop are methods with loops. Each is proved equal to a specification function
(`Inbound.KeptEntities`, `Inbound.Interleave`, `Outbound.Packets`) or is
specified outright (`Outbound.Deliver`). The lemmas state what those functions
guarantee.

## Model

| member | source | states |
|---|---|---|
| Unicode.EncodeScalar | main.go:230-232 | The UTF-8 bytes of one scalar: as many as its UTF-8 width, and the scalar itself when it is ASCII. `DecodeEncodeScalar` shows Go's decoder reads them back. |
| Unicode.Encode | main.go:216-250 | The Go string holding a text has the text's UTF-8 length. `EncodeAppend`, `DecodeAt` and `EncodeSlice` give its structure. |
| Unicode.Utf8Width | main.go:230-231 | A scalar takes 1 to 4 UTF-8 bytes, and 1 exactly when it is ASCII. |
| Unicode.Utf16Width | main.go:232 | A scalar takes 1 or 2 UTF-16 units, never more than its UTF-8 bytes, and 2 exactly when it takes 4 bytes. |
| Unicode.DecodeRune | main.go:230 | Go's decoder uses at most 4 bytes and no more than it is given. It uses at least one byte exactly when the input is not empty. A multi-byte rune uses exactly its UTF-8 width. |
| Unicode.DecodeEncodeScalar | main.go:230-232 | Decoding the encoding of a scalar, whatever follows it, gives back that scalar and its width. |
| Unicode.DecodeAt | main.go:230-232 | Decoding the Go string at the byte position of the prefix `t[..k]` yields `t[k]` and its width. |
| Unicode.EncodeAppend | main.go:229-243 | Encoding, byte length and UTF-16 length all distribute over concatenation. |
| Unicode.ByteOffsetOf | main.go:229-247 | The byte position of a UTF-16 position, when one exists, is no smaller than it and within the text. |
| Unicode.BoundaryAt | main.go:229-233 | Every scalar boundary is found, at the byte length of its prefix. |
| Unicode.ByteOffsetNoneIff | main.go:234-236 | A UTF-16 position up to the text's length has no byte position exactly when it falls strictly inside a surrogate pair. |
| Unicode.BoundaryWitness | main.go:247 | A found position is the end of some prefix, and its byte position is that prefix's UTF-8 length. |
| Unicode.EncodeSlice | main.go:250 | The bytes between two prefix boundaries are the encoding of the scalars between them. |
| Unicode.AsciiEncoding | main.go:221-247 | ASCII text is its own encoding and has the same length in bytes, in UTF-16 units and in scalars. |
| Strconv.Decimal | main.go:93 | `fmt.Sprint` of an integer is non-empty, starts with '-' exactly when the number is negative, and is otherwise digits. |
| Strconv.ParseSignedSyntax | main.go:50 | The parser accepts exactly a non-empty string of decimal digits with at most a leading sign: every other string is refused. |
| Strconv.Atoi | main.go:83 | A string outside the decimal syntax is refused. A string in it is accepted exactly when its value fits in 64 bits, and then gives that value. |
| Strconv.ParseInt64Lenient | main.go:50 | `strconv.ParseInt(s, 10, 64)` with its error ignored. A string in the decimal syntax gives its value when that fits in 64 bits, and `MaxInt64` or `MinInt64` when it is above or below that range. A string whose leading digit run, after the sign, is worth more than 2^64 - 1 gives `MaxInt64`, or `MinInt64` after a minus sign, whatever follows the run. Every other string gives 0. |
| Strconv.ScanDigitsMeaning | main.go:50 | The digit loop of `strconv.ParseUint` reports a range error exactly when the leading digit run exceeds 2^64 - 1, before it reads the byte after the run. Otherwise it gives the value for an all-digit string and a syntax error for any other. |
| Strconv.RangeErrorBeforeSyntaxError | main.go:50 | Digits worth more than 2^64 - 1 give `MaxInt64` even when a byte that is not a digit follows them. |
| Strconv.NegativeRangeErrorBeforeSyntaxError | main.go:50 | The same after a minus sign gives `MinInt64`. |
| Strconv.AtoiDecimal | main.go:82-93 | `Atoi` reads back every 64-bit integer that `fmt.Sprint` writes. |
| Strconv.DigitsRoundTrip | main.go:93 | The decimal digits of a natural number read back to that number. |
| Markdown.MarkdownEscaped | main.go:37-48 | The nine `strings.ReplaceAll` calls in the source's order, backslash first. What that means is given by `EscapedIsPerByte`, `UnescapeEscaped`, `EscapedLength` and `EscapedValidIff`. |
| Markdown.ReplaceByte | main.go:38 | `strings.ReplaceAll` leaves a string without the target unchanged. |
| Markdown.ChainIsPerByte | main.go:37-48 | A chain of replacements that escapes the backslash first and each character once equals escaping each byte on its own. |
| Markdown.EscapedIsPerByte | main.go:37-48 | The nine replacements equal escaping each byte on its own: `\ * _ ~ `` ` `` [ ] ( )` get one backslash each and every other byte is kept. No backslash is escaped twice. |
| Markdown.UnescapeEscaped | main.go:37-48 | Telegram's un-escaping of the escaped text gives back the original text. |
| Markdown.EscapedIdentity | main.go:37-48 | Text without those nine characters is left unchanged. |
| Markdown.EscapedLength | main.go:37-48 | Escaping never shrinks the text, and grows it exactly when one of the nine characters is present. |
| Markdown.EscapedValidIff | main.go:37-48 | Telegram accepts the escaped text as MarkdownV2 plain text exactly when the text has none of `> # + - = \| { } . !`. |
| Markdown.EscapedRejectsDot | main.go:37-48 | "ok." is escaped to itself, which Telegram does not accept. |
| Markdown.EscapedFullProperties | main.go:37-48 | Escaping every MarkdownV2 reserved character gives text Telegram always accepts. It un-escapes back to the input, and it equals `markdownEscaped` wherever that one is accepted. |
| Ubot.TextRun | main.go:269 | Writing a string adds at most one text entity, and none exactly when the string is empty. |
| Ubot.NonText | main.go:266-273 | The non-text entities of a message are no more than its entities and include no text entity. |
| Inbound.MessageText | main.go:216-220 | The text is used when it is non-empty, and otherwise the caption. |
| Inbound.KeptEntities | main.go:221-265 | The reference list of the entity loop: the conversions of the entities, in Telegram's order. `KeptAppend`, `KeptWithinText` and `KeptSpansScalars` state its properties. |
| Inbound.Interleave | main.go:266-273 | The reference assembly: the text run before each span, then its entity, then the rest. `InterleaveNonText` and `InterleaveReconstructs` state what it keeps. |
| Inbound.Received | main.go:201-277 | The reference result of receiving: the photo span and the kept spans interleaved with the text, or nothing when that is empty. `ReceivedEntities`, `PhotoFirst` and `ReceivedNoneIff` state its properties. |
| Inbound.Convert | main.go:225-263 | A kept entity is an `at` entity. Its start is the UTF-16 offset (main.go:237), its end is the byte position of the entity's UTF-16 end, and both lie within the text bytes. |
| Inbound.Advance | main.go:229-233 | An inner loop keeps the cursor on a scalar boundary, with matching UTF-16 and byte positions. It stops at or past the target. It lands on the target exactly when the target is a boundary, and then at the target's byte position. |
| Inbound.WalkEntity | main.go:225-263 | One pass of the entity loop (reset, advance to the start, advance to the end, type switch) makes exactly `Convert`'s result and leaves the cursor on a boundary. |
| Inbound.MapEntities | main.go:221-265 | The entity loop keeps exactly the conversions of the entities, in Telegram's order. |
| Inbound.Assemble | main.go:266-273 | The builder loop produces the interleaving of text runs and entities. |
| Inbound.ReceiveMessage | main.go:201-277 | Receiving gives exactly `Received`: the photo entity first, then the kept entities interleaved with the text, or nothing for an empty result. |
| Inbound.KeptWithinText | main.go:237-247 | Kept spans are `at` entities that end no earlier than they start, within the text bytes. When the kept spans are in increasing order, the photo span (empty, at 0) and the kept spans together meet the ordering the assembly loop needs. |
| Inbound.ConvertDropsIff | main.go:234-263 | An entity within the text is dropped exactly when one of its ends falls inside a surrogate pair, or its type is neither `mention` nor `text_mention` with a user. |
| Inbound.KeptSpansScalars | main.go:229-247 | A kept entity covers whole scalars `t[ks..ke]`, and its end is the byte length of `t[..ke]`. |
| Inbound.KeptAppend | main.go:224-264 | Adding an entity to the list adds its conversion to the kept list and changes nothing before it. |
| Inbound.InterleaveNonText | main.go:266-273 | The assembled message's non-text entities are exactly the spans' entities, in order. |
| Inbound.ReceivedEntities | main.go:206-273 | The emitted message's non-text entities are the photo, when there is one, and then the kept entities, in order. |
| Inbound.PhotoFirst | main.go:206-215 | A message with a photo link is always emitted, and its first entity is the image. |
| Inbound.ReceivedNoneIff | main.go:274-277 | Nothing is emitted exactly when there is no photo, no entity is kept and the text is empty. |
| Inbound.PlainText | main.go:273 | Non-empty text without entities or photo arrives as one text entity holding all of it. |
| Inbound.AsciiMention | main.go:249-254 | In ASCII text, a mention carries exactly the characters its offsets cover. |
| Inbound.AsciiSingleMention | main.go:266-273 | ASCII text with one mention arrives as the text before it, the mention and the text after it, without empty runs. |
| Inbound.HiBob | main.go:249-273 | "hi @bob" with a mention at offsets 3 to 7 arrives as the text "hi " and the mention "@bob". |
| Inbound.InterleaveReconstructs | main.go:266-273 | When every span carries the bytes it replaces, the payloads laid end to end give back the text. |
| Inbound.KeptMentionsCarryOwnBytes | main.go:249-254 | Each kept mention lies within the text and carries exactly the bytes between its start and end. |
| Inbound.MentionsReconstruct | main.go:201-277 | When every entity is a mention, the emitted payloads laid end to end are exactly the message text. |
| Inbound.ByteOffsetMonotone | main.go:239-247 | Byte positions of boundaries grow with their UTF-16 positions. |
| Inbound.ConvertCorrected | main.go:237 | With the start taken from the byte cursor, the same entities are kept with the same ends, and start ≤ end. |
| Inbound.CorrectedMentionCovers | main.go:237-254 | With the corrected start, a mention carries exactly the UTF-8 encoding of the scalars its UTF-16 range covers. |
| Inbound.AsWrittenAgreesOnAsciiPrefix | main.go:237 | When the text before the entity is ASCII, the start as written is the correct one. |
| Inbound.QuirkTextPositions | main.go:229-247 | In "é @bob", UTF-16 positions 2 and 6 are bytes 3 and 7. |
| Inbound.CorrectedSpansIncreasing | main.go:237-271 | With the corrected start, entities that follow one another in UTF-16 give spans that follow one another in bytes, so the slicing at main.go:269 cannot panic. |
| Inbound.OverlapCrashes | main.go:237-271 | In "éé @alice @bobby" with mentions at UTF-16 3 to 9 and 10 to 16, the spans as written are (3, 11) and (10, 18): not increasing, so main.go:269 slices from 11 to 10 and panics. The corrected spans follow one another. |
| Inbound.QuirkShiftsMention | main.go:237 | In "é @bob", a mention of "@bob" as written starts at byte 2 and carries " @bob". Corrected, it starts at byte 3 and carries "@bob". |
| Outbound.MentionLink | main.go:93-97 | The MarkdownV2 inline link to a user. `MentionLinkReadsBack` shows the first name and the id read back out of it. |
| Outbound.Fragment | main.go:76-99 | What a non-image entity adds to the buffer. `TextFragmentReadsBack`, `MentionIgnoresData`, `MentionOfTarget` and `UnknownBecomesPlaceholder` state each case. |
| Outbound.Expected | main.go:54-106 | The reference packet list, built entity by entity from a buffer. `ExpectedImageSplit`, `ExpectedText`, `ExpectedPhotos` and `ExpectedWellFormed` state its properties. |
| Outbound.Packets | main.go:54-106 | The packets of a whole message: `Expected` from an empty buffer, as `BuildPackets` computes them. |
| Outbound.TextIfAny | main.go:57-62 | A flush adds at most one packet. |
| Outbound.PhotoIfAny | main.go:63-74 | An image adds at most one photo packet. |
| Outbound.AddImage | main.go:56-74 | An image flushes a non-empty buffer as one MarkdownV2 text packet to the source channel, then adds a photo packet exactly when the fetch succeeds. |
| Outbound.AddFragment | main.go:75-99 | A text, mention or unknown entity appends exactly its fragment to the buffer, and nothing for a mention that cannot be resolved. |
| Outbound.AddEntity | main.go:55-100 | An image flushes a non-empty buffer as a text packet, then adds a photo when the fetch succeeds, and empties the buffer. Every other entity leaves the packets alone and adds its fragment to the buffer. |
| Outbound.BuildPackets | main.go:50-106 | The packet-building loop and the final flush produce exactly `Packets` of the message. |
| Outbound.Deliver | main.go:107-113 | Packets go out in order. Every packet before `sent` was accepted. The call succeeds exactly when all were sent, and otherwise returns the error of the first refused packet. |
| Outbound.SendChatMessage | main.go:49-113 | Sending builds exactly `Packets` and delivers them as `Deliver` does. |
| Outbound.ExpectedWellFormed | main.go:57-74 | Every text packet is non-empty MarkdownV2 to the source channel. Every photo is `ubot_image.png` sent to the number the source parses to. |
| Outbound.ExpectedText | main.go:57-106 | The text packets together carry every text, mention and placeholder fragment in message order: nothing lost or repeated. |
| Outbound.ExpectedPhotos | main.go:63-74 | The photo packets carry exactly the images that could be fetched, in message order. |
| Outbound.ExpectedTextCount | main.go:56-62 | Text is split only at images: there is at most one more text packet than there are images. |
| Outbound.NoImagesOnePacket | main.go:102-106 | Without images the message becomes one text packet holding all its fragments, or none when they are empty. |
| Outbound.ExpectedImageSplit | main.go:54-106 | An image splits the packets in place: those of everything before it, ending with its flush, then its photo, then those of everything after it. |
| Outbound.PacketsImageSplit | main.go:54-106 | The packets of `a`, an image and `b` are the packets of `a`, the photo, then the packets of `b`, in that order. |
| Outbound.PacketsSummary | main.go:49-106 | For a whole message, every packet is well formed, the text packets carry the rendered text, the photos are the fetched images, and text packets are at most the images plus one. |
| Outbound.TextFragmentReadsBack | main.go:76-77 | Telegram reads a text entity's escaped fragment back as the entity's own text. |
| Outbound.MentionIgnoresData | main.go:78-97 | A mention without a leading '@' renders the same whatever its data: the user named is always the call's target. |
| Outbound.MentionOfTarget | main.go:82-97 | When the target is the decimal id of a member, the mention renders as that member's link. |
| Outbound.MentionLinkReadsBack | main.go:93-97 | The link has the first name between its brackets, and the user id reads back from between `?id=` and the closing parenthesis. |
| Outbound.UnresolvedMentionAlone | main.go:82-90 | A message whose only entity is a mention that cannot be resolved produces no packet and no error. |
| Outbound.UnknownBecomesPlaceholder | main.go:98-99 | Every unknown entity type becomes the placeholder, whatever its data: 26 bytes between '[' and ']'. |
| Outbound.TextImageText | main.go:54-106 | Text "a", a fetchable image and text "b" give a text packet, the photo and a text packet, in that order. |
| Members.DisplayName | main.go:148-151 | The name starts with the first name. It is exactly the first name when there is no last name, and otherwise a space and the last name follow. |
| Members.GetMemberName | main.go:139-151 | It fails for a non-numeric target and for a failed lookup. Otherwise it is the member's display name. |
| Members.NameOfDecimalId | main.go:139-151 | A target written as a member's decimal id yields that member's display name. |
| Members.DisplayNameSplits | main.go:147-148 | When the first name has no space, the display name splits back into the first and last names at its first space. |

## Left out

- The Bot API calls are not modelled. `GetFile` with `Link`, `GetChatMember`, `bot.Send` and the HTTP fetch are parameters whose answers are taken as given. `Telegram.Sender` also receives the number of packets already sent, so its answers may change from one packet to the next.
- The update loop, its goroutines, `main` and `HostAccount` are left out.
- The event calls (`OnReceiveChatMessage`, member joined/left) and the early returns for join, leave and the bot's own messages (main.go:188-200) are left out. The model stops at the message that would be emitted.
- The private/group message type (main.go:202-205) is left out: it only labels the event. The unused `msgType` parameter of `sendChatMessage` is dropped.
- The UBot library's `MsgBuilder` and `ParseMsg` are not part of this model. A UBot message is a list of entities. Writing an empty string adds nothing, so an empty result string is an empty entity list.
- Inbound.ReceiveMessage requires the message text to be valid UTF-8, since it takes it as scalar values. Telegram sends only valid UTF-8. Go's decoder is still modelled on every input.
- Inbound.ReceiveMessage requires every entity to end within the text. Past the end, Go's decoder returns width 0, and the slicing that follows may panic.
- Inbound.ReceiveMessage requires the kept spans to be in increasing order. The source's slicing at main.go:269 panics otherwise, and nothing recovers the panic in the goroutine of main.go:294, so the process exits. The start taken at main.go:237 brings this about for ordinary input (`Inbound.OverlapCrashes`); see Findings.
- Inbound.ReceiveMessage takes the photo link as given. The source indexes the last photo size, which assumes Telegram never sends an empty list of sizes.
- Outbound.Fragment copies the member's first name into the link without escaping it, and writes the placeholder `[不支持的消息类型]` unescaped, both as the source does.
- Closing HTTP response bodies (`defer resp.Body.Close()`) is resource handling, not behaviour, and is left out.
- `login`, `logout`, `shutupMember` and `shutupAllMember` only return "not supported", and are left out.
- `removeMember`, `getUserAvatar`, `getSelfID`, `getGroupName` and the remaining plumbing of `main.go` are not part of this model.
- Strconv.Atoi: the error value Go returns is not modelled, only that there is one. The same holds for the Bot API errors in `Members.GetMemberName`.

## Findings

| source | as written | input that shows it | evidently intended | confidence | as-written member | corrected member |
|---|---|---|---|---|---|---|
| main.go:237 | The mention's start is the UTF-16 cursor, but it is used as a byte index into the UTF-8 text. | Text "é @bob" with a mention at UTF-16 offsets 2 to 6: the mention carries " @bob" (bytes 2 to 7), and the text before it loses its space. | The start is the byte cursor's position (3), so the mention carries "@bob". | high; not executed | Inbound.QuirkShiftsMention | Inbound.ConvertCorrected |
| main.go:269 | The assembly slices the text from the previous span's end to the next span's start. With the start taken at main.go:237, the next start can lie before the previous end, and the slice panics in a goroutine nothing recovers. | Text "éé @alice @bobby" with mentions at UTF-16 offsets 3 to 9 and 10 to 16: the spans are (3, 11) and (10, 18), so the text is sliced from 11 to 10. | Starts are byte positions, so spans of entities in order follow one another and the message is assembled. | high; not executed | Inbound.OverlapCrashes | Inbound.CorrectedSpansIncreasing |
| main.go:37-48 | The escape handles `\ * _ ~ `` ` `` [ ] ( )` only. MarkdownV2 also reserves `> # + - = \| { } . !` in plain text. | Text "ok." is sent unchanged with parse mode MarkdownV2, which Telegram refuses because of the bare '.'. | Every MarkdownV2 reserved character is escaped. | medium (rests on the Bot API's MarkdownV2 rules); not executed | Markdown.EscapedRejectsDot | Markdown.EscapedFullProperties |

The transcoder itself (`Inbound.Convert`, `Outbound.Fragment`) follows the
code as written. The corrected definitions (`Inbound.ConvertCorrected`,
`Markdown.MarkdownEscapedFull`) stand beside it, with their intended
properties proved.
