/** The line a chat message is relayed as: carriage return, space, the sender's name, a colon, a space, the text. */
module ChatMessages {
  import opened Wrappers
  import opened Wire

  datatype ChatMessage = ChatMessage(chatId: Option<int16>, message: Bytes)

  const Lead: Bytes := [0x0d, 0x20]
  const Colon: Bytes := [0x3a, 0x20]

  /** `Chat` into `ChatMessage`: never addressed to a room. */
  function FromChat(username: Bytes, text: Bytes): (r: ChatMessage)
    ensures r.chatId.None? && |r.message| == |username| + |text| + 4
    ensures r.message[..2] == Lead && r.message[2..2 + |username|] == username
    ensures r.message[2 + |username|..4 + |username|] == Colon && r.message[4 + |username|..] == text
  {
    ChatMessage(None, Lead + username + Colon + text)
  }

  /** Reading the line back, given the sender's name length. */
  function Split(message: Bytes, nameLength: nat): (r: (Bytes, Bytes))
    requires |message| >= nameLength + 4
  {
    (message[2..2 + nameLength], message[4 + nameLength..])
  }

  /** The sender and the text come back out of the line unchanged. */
  lemma SplitFromChat(username: Bytes, text: Bytes)
    ensures Split(FromChat(username, text).message, |username|) == (username, text)
  {
  }

  /** Two lines from senders with names of one length are equal only for the same sender and text. */
  lemma FromChatInjective(u1: Bytes, t1: Bytes, u2: Bytes, t2: Bytes)
    requires |u1| == |u2| && FromChat(u1, t1) == FromChat(u2, t2)
    ensures u1 == u2 && t1 == t2
  {
    SplitFromChat(u1, t1);
    SplitFromChat(u2, t2);
  }

  /** Without the name length the line is ambiguous: a name may itself end in the separator. */
  lemma NameLengthNeeded(a: uint8, b: uint8)
    ensures FromChat([a], Colon + [b]) == FromChat([a] + Colon, [b])
  {
    assert Lead + [a] + Colon + (Colon + [b]) == Lead + ([a] + Colon) + Colon + [b];
  }
}
