/**
 * The message endpoints: the conversation between two users, the inbox of one
 * user, and marking one message as seen.
 */
module MessageController {
  import opened Wrappers
  import opened Records
  import opened Store
  import opened MessageRepo

  const MARKED_SEEN: string := "Marked as Seen"
  const MESSAGE_NOT_FOUND: string := "Message Not Found"

  /** getChatHistory(user1, user2): hands back the repository's conversation query. */
  method GetChatHistory(store: ChatStore, user1: int, user2: int) returns (r: seq<Message>)
    ensures r == FindChatHistory(store.messages, user1, user2)
    ensures forall m :: m in r <==> m in store.messages && InChat(m, user1, user2)
    ensures SortedByTime(r)
  {
    r := FindChatHistory(store.messages, user1, user2);
  }

  /** getUserMessages(userId): hands back the repository's receiver-only query. */
  method GetUserMessages(store: ChatStore, userId: int) returns (r: seq<Message>)
    ensures r == FindByReceiverId(store.messages, userId)
    ensures forall m :: m in r <==> m in store.messages && m.receiverId == userId
  {
    r := FindByReceiverId(store.messages, userId);
  }

  /**
   * markAsSeen as a function of the messages table: the table afterwards and
   * the reply. Only the addressed message's status can change.
   */
  function MarkSeen(ms: seq<Message>, id: int): (r: (seq<Message>, string))
    ensures |r.0| == |ms|
    ensures r.1 == MARKED_SEEN <==> exists i :: 0 <= i < |ms| && ms[i].id == id
    ensures r.1 != MARKED_SEEN ==> r.1 == MESSAGE_NOT_FOUND && r.0 == ms
    ensures forall i :: 0 <= i < |ms| ==> r.0[i] == ms[i] || (ms[i].id == id && r.0[i] == ms[i].(status := SEEN))
  {
    match FindMessageById(ms, id)
    case None => (ms, MESSAGE_NOT_FOUND)
    case Some(k) => (ms[k := ms[k].(status := SEEN)], MARKED_SEEN)
  }

  /**
   * In a table with generated ids, markAsSeen sets the status of the one
   * message with that id to SEEN; its content, sender, receiver and time, and
   * every other message, stay as they were.
   */
  lemma MarkSeenChangesOnlyAddressed(ms: seq<Message>, next: int, id: int)
    requires IdsGenerated(ms, MessageId, next)
    ensures forall i :: 0 <= i < |ms| ==>
      MarkSeen(ms, id).0[i] == if ms[i].id == id then ms[i].(status := SEEN) else ms[i]
  {
  }

  /** Marking twice gives the same table and the same reply as marking once. */
  lemma MarkSeenIdempotent(ms: seq<Message>, id: int)
    ensures MarkSeen(MarkSeen(ms, id).0, id) == MarkSeen(ms, id)
  {
    match FindMessageById(ms, id)
    case None =>
    case Some(k) =>
      var once := ms[k := ms[k].(status := SEEN)];
      var again := FindMessageById(once, id);
      assert once[k].id == id;
      assert forall j :: 0 <= j < k ==> once[j] == ms[j];
      assert again == Some(k);
      assert once[k := once[k].(status := SEEN)] == once;
  }

  /**
   * markAsSeen(id): a stored message is set to SEEN; an unknown id is answered
   * "Message Not Found" and nothing changes. No history row is written.
   */
  method MarkAsSeen(store: ChatStore, id: int) returns (reply: string)
    requires store.Valid()
    modifies store
    ensures store.Valid()
    ensures (store.messages, reply) == MarkSeen(old(store.messages), id)
    ensures store.users == old(store.users) && store.history == old(store.history)
    ensures store.nextUserId == old(store.nextUserId) && store.nextMessageId == old(store.nextMessageId)
    ensures store.nextHistoryId == old(store.nextHistoryId)
    ensures MessageStatusesKnown(old(store.messages)) ==> MessageStatusesKnown(store.messages)
  {
    var found := FindMessageById(store.messages, id);
    if found.None? {
      return MESSAGE_NOT_FOUND;
    }
    var k := found.value;
    var msg := store.messages[k];
    store.UpdateMessage(k, msg.(status := SEEN));
    reply := MARKED_SEEN;
  }
}
