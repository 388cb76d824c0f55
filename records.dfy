/**
 * The rows of the three tables: users (the `User` entity), messages and the
 * append-only history log, together with the constraints the schema puts on
 * them and the two table scans every repository query is built from.
 */
module Records {
  import opened Wrappers

  const ROLE_USER: string := "USER"
  const ONLINE: string := "ONLINE"
  const OFFLINE: string := "OFFLINE"
  const SENT: string := "SENT"
  const SEEN: string := "SEEN"

  /**
   * A row of the users table. `id` comes from the store's identity generator;
   * username, password and role are NOT NULL columns, which `string` (never
   * null) captures; status is free text whose intended values are ONLINE and
   * OFFLINE.
   */
  datatype User = User(id: int, username: string, password: string, role: string, status: string)

  /** A row of the messages table; `time` is the timestamp as an integer. */
  datatype Message = Message(id: int, senderId: int, receiverId: int, content: string, time: int, status: string)

  /** A row of the history log. */
  datatype History = History(id: int, userId: int, action: string, details: string, timestamp: int)

  function UserId(u: User): int { u.id }
  function MessageId(m: Message): int { m.id }
  function HistoryId(h: History): int { h.id }

  /**
   * The ids of `rows` were handed out, in insertion order, by an identity
   * generator that starts at 1 and whose next value is `next`: each lies in
   * [1, next) and they
   * ascend, so no two rows share an id and a fresh id is never in use.
   */
  predicate IdsGenerated<T>(rows: seq<T>, id: T -> int, next: int) {
    && 1 <= next
    && (forall i :: 0 <= i < |rows| ==> 1 <= id(rows[i]) < next)
    && (forall i, j :: 0 <= i < j < |rows| ==> id(rows[i]) < id(rows[j]))
  }

  /** The UNIQUE constraint on the username column. */
  predicate UsernamesUnique(us: seq<User>) {
    forall i, j :: 0 <= i < j < |us| ==> us[i].username != us[j].username
  }

  /** What the controllers write into the role and status columns: role USER, status ONLINE or OFFLINE. */
  predicate AccountsWritten(us: seq<User>) {
    forall i :: 0 <= i < |us| ==> us[i].role == ROLE_USER && (us[i].status == ONLINE || us[i].status == OFFLINE)
  }

  /** What the controllers write into a message's status column: SENT or SEEN. */
  predicate MessageStatusesKnown(ms: seq<Message>) {
    forall i :: 0 <= i < |ms| ==> ms[i].status == SENT || ms[i].status == SEEN
  }

  /** Generated ids are distinct: the id is a key of the table. */
  lemma GeneratedIdsDistinct<T>(rows: seq<T>, id: T -> int, next: int, i: int, j: int)
    requires IdsGenerated(rows, id, next)
    requires 0 <= i < |rows| && 0 <= j < |rows| && i != j
    ensures id(rows[i]) != id(rows[j])
  {
  }

  /** Inserting a row with the generator's next value keeps the ids generated. */
  lemma AppendKeepsIdsGenerated<T>(rows: seq<T>, id: T -> int, next: int, row: T)
    requires IdsGenerated(rows, id, next) && id(row) == next
    ensures IdsGenerated(rows + [row], id, next + 1)
  {
  }

  /** The first row satisfying `p`: a point lookup over a table scan. */
  function FirstIndex<T>(rows: seq<T>, p: T -> bool): (r: Option<nat>)
    ensures r.Some? ==> r.value < |rows| && p(rows[r.value])
    ensures r.Some? ==> forall j :: 0 <= j < r.value ==> !p(rows[j])
    ensures r.None? ==> forall j :: 0 <= j < |rows| ==> !p(rows[j])
  {
    if |rows| == 0 then None
    else if p(rows[0]) then Some(0)
    else match FirstIndex(rows[1..], p)
      case None => None
      case Some(k) => Some(k + 1)
  }

  /**
   * The rows satisfying `p`, in table order: every such row exactly as often
   * as it is stored, and no other row.
   */
  function Filter<T(!new)>(rows: seq<T>, p: T -> bool): (r: seq<T>)
    ensures forall x :: multiset(r)[x] == if p(x) then multiset(rows)[x] else 0
    ensures forall x :: x in r <==> x in rows && p(x)
  {
    if |rows| == 0 then []
    else
      assert rows == [rows[0]] + rows[1..];
      if p(rows[0]) then [rows[0]] + Filter(rows[1..], p) else Filter(rows[1..], p)
  }

  /** Filters by two predicates that agree on every row give the same rows. */
  lemma {:induction false} FilterCongruent<T(!new)>(rows: seq<T>, p: T -> bool, q: T -> bool)
    requires forall x :: p(x) == q(x)
    ensures Filter(rows, p) == Filter(rows, q)
  {
    if |rows| > 0 {
      FilterCongruent(rows[1..], p, q);
    }
  }
}
