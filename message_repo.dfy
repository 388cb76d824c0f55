/**
 * The two queries of the message repository, as total functions over the
 * messages table: the conversation between two users ordered by time, and the
 * inbox of one receiver.
 */
module MessageRepo {
  import opened Records

  /** The conversation filter: `m` went from one of the two users to the other. */
  predicate InChat(m: Message, user1: int, user2: int) {
    (m.senderId == user1 && m.receiverId == user2) || (m.senderId == user2 && m.receiverId == user1)
  }

  predicate SortedByTime(ms: seq<Message>) {
    forall i, j :: 0 <= i < j < |ms| ==> ms[i].time <= ms[j].time
  }

  /** A message no later than the head of a sorted sequence can go in front of it. */
  lemma PrependSorted(m: Message, ms: seq<Message>)
    requires SortedByTime(ms)
    requires |ms| > 0 ==> m.time <= ms[0].time
    ensures SortedByTime([m] + ms)
  {
  }

  /** Puts `m` before the first message of `ms` that is not earlier than it. */
  function InsertByTime(m: Message, ms: seq<Message>): (r: seq<Message>)
    requires SortedByTime(ms)
    ensures SortedByTime(r)
    ensures |r| > 0 && (r[0] == m || (|ms| > 0 && r[0] == ms[0]))
    ensures multiset(r) == multiset(ms) + multiset{m}
  {
    if |ms| == 0 then [m]
    else if m.time <= ms[0].time then
      PrependSorted(m, ms);
      [m] + ms
    else
      var rest := InsertByTime(m, ms[1..]);
      PrependSorted(ms[0], rest);
      assert ms == [ms[0]] + ms[1..];
      [ms[0]] + rest
  }

  /**
   * ORDER BY time. The order the database gives to messages with equal times
   * is unspecified; this one keeps table order among them.
   */
  function SortByTime(ms: seq<Message>): (r: seq<Message>)
    ensures SortedByTime(r)
    ensures multiset(r) == multiset(ms)
  {
    if |ms| == 0 then []
    else
      assert ms == [ms[0]] + ms[1..];
      InsertByTime(ms[0], SortByTime(ms[1..]))
  }

  /**
   * findChatHistory(user1, user2): every stored message between the two users,
   * in either direction, and nothing else, ordered by time.
   */
  function FindChatHistory(ms: seq<Message>, user1: int, user2: int): (r: seq<Message>)
    ensures forall m :: m in r <==> m in ms && InChat(m, user1, user2)
    ensures forall m :: multiset(r)[m] == if InChat(m, user1, user2) then multiset(ms)[m] else 0
    ensures SortedByTime(r)
  {
    var between := Filter(ms, (m: Message) => InChat(m, user1, user2));
    var r := SortByTime(between);
    assert forall m :: m in r <==> m in between by {
      forall m ensures m in r <==> m in between {
        assert m in r <==> m in multiset(r);
      }
    }
    r
  }

  /** findByReceiverId(u): the stored messages addressed to `u`, in table order; those `u` sent elsewhere are left out. */
  function FindByReceiverId(ms: seq<Message>, receiverId: int): (r: seq<Message>)
    ensures forall m :: m in r <==> m in ms && m.receiverId == receiverId
    ensures forall m :: multiset(r)[m] == if m.receiverId == receiverId then multiset(ms)[m] else 0
  {
    Filter(ms, (m: Message) => m.receiverId == receiverId)
  }

  /**
   * The conversation does not depend on the order the two users are named in:
   * the same messages, and, with ties kept in table order, the same sequence.
   */
  lemma ChatHistorySymmetric(ms: seq<Message>, user1: int, user2: int)
    ensures multiset(FindChatHistory(ms, user1, user2)) == multiset(FindChatHistory(ms, user2, user1))
    ensures FindChatHistory(ms, user1, user2) == FindChatHistory(ms, user2, user1)
  {
    FilterCongruent(ms, (m: Message) => InChat(m, user1, user2), (m: Message) => InChat(m, user2, user1));
  }
}
