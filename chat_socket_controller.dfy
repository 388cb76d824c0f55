/**
 * The real-time send handler: stamps the client's message with the server
 * time and status SENT, stores it, logs one MESSAGE_SENT row and hands the
 * stored message back for broadcast on the message topic.
 */
module ChatSocketController {
  import opened Wrappers
  import opened Records
  import opened Store
  import Text

  const MESSAGE_SENT: string := "MESSAGE_SENT"
  const DETAILS_PREFIX: string := "Message to user "

  /** The details text of the history row a send writes. */
  function SentDetails(receiverId: int): (details: string) {
    DETAILS_PREFIX + Text.IntToString(receiverId)
  }

  /** The details of a MESSAGE_SENT row name the receiver: the text after the prefix reads back as its id. */
  lemma SentDetailsNameReceiver(receiverId: int)
    ensures |SentDetails(receiverId)| > |DETAILS_PREFIX|
    ensures SentDetails(receiverId)[..|DETAILS_PREFIX|] == DETAILS_PREFIX
    ensures Text.ParseInt(SentDetails(receiverId)[|DETAILS_PREFIX|..]) == Some(receiverId)
  {
    Text.PrefixedIntReadsBack(DETAILS_PREFIX, receiverId);
  }

  /**
   * sendMessage: whatever time and status the client supplied, the message is
   * stored with time `now` and status SENT under a fresh id, sender, receiver
   * and content as given; exactly one history row is appended. There is no
   * failure path. `now` and `loggedAt` are the two clock readings the handler
   * takes.
   */
  method SendMessage(store: ChatStore, msg: Message, now: int, loggedAt: int) returns (sent: Message)
    requires store.Valid()
    modifies store
    ensures store.Valid()
    ensures sent.time == now && sent.status == SENT
    ensures sent.senderId == msg.senderId && sent.receiverId == msg.receiverId && sent.content == msg.content
    ensures sent.id == old(store.nextMessageId)
    ensures store.messages == old(store.messages) + [sent]
    ensures store.nextMessageId == old(store.nextMessageId) + 1
    ensures store.history == old(store.history) +
      [History(old(store.nextHistoryId), msg.senderId, MESSAGE_SENT, SentDetails(msg.receiverId), loggedAt)]
    ensures store.nextHistoryId == old(store.nextHistoryId) + 1
    ensures store.users == old(store.users) && store.nextUserId == old(store.nextUserId)
    ensures MessageStatusesKnown(old(store.messages)) ==> MessageStatusesKnown(store.messages)
  {
    var stamped := msg.(time := now, status := SENT);
    sent := store.InsertMessage(stamped);
    store.AppendHistory(sent.senderId, MESSAGE_SENT, SentDetails(sent.receiverId), loggedAt);
  }
}
