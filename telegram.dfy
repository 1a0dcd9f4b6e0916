/**
 * The Telegram side of the transcoder: the requests the bot hands to the Bot
 * API and the calls it makes there. The calls are not modelled; each becomes
 * a function parameter (an oracle) whose answers the model takes as given.
 */
module Telegram {
  import opened Bytes
  import opened Wrappers

  /** A chat member as `GetChatMember` reports it. */
  datatype ChatUser = ChatUser(id: int, firstName: Bytes, lastName: Bytes)

  /**
   * A request for `bot.Send`: a text message to a channel given by name, with
   * a parse mode, or a photo upload to a chat given by number.
   */
  datatype Packet =
    | TextPacket(chat: Bytes, text: Bytes, parseMode: Bytes)
    | PhotoPacket(chatId: int, fileName: Bytes, photo: Bytes)

  /** `http.Get` of a URL followed by `ioutil.ReadAll` of the body; `None` when either fails. */
  type Fetch = Bytes -> Option<Bytes>

  /** `bot.GetChatMember` for a chat and a user id; `None` when the call fails. */
  type Lookup = (Bytes, int) -> Option<ChatUser>

  /**
   * `bot.Send` of a packet; the first argument is how many packets this call
   * has already sent, so that the outcome may differ from call to call.
   * `Some(e)` is the error the Bot API returned.
   */
  type Sender = (nat, Packet) -> Option<Bytes>
}
