/**
 * The host framework's rich message: an ordered list of typed entities. Text
 * runs are entities of type `text`; the transcoder also produces and consumes
 * `at` (a mention) and `image_online` (an image given by URL).
 */
module Ubot {
  import opened Bytes

  /**
   * The entity types the transcoder distinguishes; every other type keeps its
   * name. `Other` never carries "text", "at" or "image_online": the message
   * parser gives those types their own constructors, as Go's string switch does.
   */
  datatype EntityType = Text | At | ImageOnline | Other(name: Bytes)

  datatype MsgEntity = MsgEntity(kind: EntityType, data: Bytes)

  type Message = seq<MsgEntity>

  /** What `MsgBuilder.WriteString` adds: a text entity, or nothing for an empty string. */
  function TextRun(s: Bytes): (r: Message)
    ensures |r| <= 1
    ensures r == [] <==> s == []
  {
    if s == [] then [] else [MsgEntity(Text, s)]
  }

  /** The payloads of a message laid end to end. */
  function Flatten(m: Message): Bytes {
    if m == [] then [] else m[0].data + Flatten(m[1..])
  }

  lemma {:induction false} FlattenAppend(a: Message, b: Message)
    ensures Flatten(a + b) == Flatten(a) + Flatten(b)
  {
    if a == [] {
      assert a + b == b;
    } else {
      assert (a + b)[0] == a[0];
      assert (a + b)[1..] == a[1..] + b;
      FlattenAppend(a[1..], b);
    }
  }

  /** The entities of a message that are not text runs, in order. */
  function NonText(m: Message): (r: Message)
    ensures |r| <= |m|
    ensures forall i :: 0 <= i < |r| ==> !r[i].kind.Text?
  {
    if m == [] then []
    else (if m[0].kind.Text? then [] else [m[0]]) + NonText(m[1..])
  }
}
