/**
 * The record store behind the three repositories: the users, messages and
 * history tables, each with its own identity generator, and the `save`
 * operations the controllers use (insert with a fresh id, update by id).
 * The user lookups are the derived queries `findByUsername`,
 * `findByUsernameAndPassword` and `findById`, all exact matches.
 */
module Store {
  import opened Wrappers
  import opened Records

  /** findByUsername: the row holding this username, if any. */
  function FindByUsername(us: seq<User>, username: string): (r: Option<nat>)
    ensures r.Some? ==> r.value < |us| && us[r.value].username == username
    ensures r.None? ==> forall i :: 0 <= i < |us| ==> us[i].username != username
  {
    FirstIndex(us, (u: User) => u.username == username)
  }

  /** The exact (username, password) match of `findByUsernameAndPassword`. */
  predicate Matches(u: User, username: string, password: string) {
    u.username == username && u.password == password
  }

  /** findByUsernameAndPassword: the row holding both, if any. */
  function FindByCredentials(us: seq<User>, username: string, password: string): (r: Option<nat>)
    ensures r.Some? ==> r.value < |us| && Matches(us[r.value], username, password)
    ensures r.None? ==> forall i :: 0 <= i < |us| ==> !Matches(us[i], username, password)
  {
    FirstIndex(us, (u: User) => Matches(u, username, password))
  }

  /** findById on the users table. */
  function FindUserById(us: seq<User>, id: int): (r: Option<nat>)
    ensures r.Some? ==> r.value < |us| && us[r.value].id == id
    ensures r.None? ==> forall i :: 0 <= i < |us| ==> us[i].id != id
  {
    FirstIndex(us, (u: User) => u.id == id)
  }

  /** findById on the messages table. */
  function FindMessageById(ms: seq<Message>, id: int): (r: Option<nat>)
    ensures r.Some? ==> r.value < |ms| && ms[r.value].id == id
    ensures r.None? ==> forall i :: 0 <= i < |ms| ==> ms[i].id != id
  {
    FirstIndex(ms, (m: Message) => m.id == id)
  }

  /**
   * Under the UNIQUE username constraint at most one row matches a
   * (username, password) pair, so the login lookup is unambiguous.
   */
  lemma CredentialsMatchAtMostOne(us: seq<User>, username: string, password: string, i: int, j: int)
    requires UsernamesUnique(us)
    requires 0 <= i < |us| && 0 <= j < |us|
    requires Matches(us[i], username, password) && Matches(us[j], username, password)
    ensures i == j
  {
  }

  /** The schema accepts a new user row: both NOT NULL columns given, the username not yet taken. */
  predicate UserInsertable(us: seq<User>, username: Option<string>, password: Option<string>) {
    username.Some? && password.Some? && FindByUsername(us, username.value).None?
  }

  /** The whole content of the store at one moment. */
  datatype Tables = Tables(
    users: seq<User>, messages: seq<Message>, history: seq<History>,
    nextUserId: int, nextMessageId: int, nextHistoryId: int)

  class ChatStore {
    var users: seq<User>
    var messages: seq<Message>
    var history: seq<History>
    var nextUserId: int
    var nextMessageId: int
    var nextHistoryId: int

    /** The schema's constraints: generated keys on every table, unique usernames. */
    ghost predicate Valid()
      reads this
    {
      && IdsGenerated(users, UserId, nextUserId)
      && IdsGenerated(messages, MessageId, nextMessageId)
      && IdsGenerated(history, HistoryId, nextHistoryId)
      && UsernamesUnique(users)
    }

    function Contents(): (t: Tables)
      reads this
    {
      Tables(users, messages, history, nextUserId, nextMessageId, nextHistoryId)
    }

    constructor ()
      ensures Valid()
      ensures users == [] && messages == [] && history == []
      ensures nextUserId == 1 && nextMessageId == 1 && nextHistoryId == 1
    {
      users, messages, history := [], [], [];
      nextUserId, nextMessageId, nextHistoryId := 1, 1, 1;
    }

    /**
     * userRepo.save on a new user. The schema refuses a null username or
     * password and a username already stored (a constraint violation, here
     * `None`, with nothing written); otherwise the row gets the next id.
     */
    method InsertUser(username: Option<string>, password: Option<string>, role: string, status: string)
      returns (id: Option<int>)
      requires Valid()
      modifies this
      ensures Valid()
      ensures messages == old(messages) && history == old(history)
      ensures nextMessageId == old(nextMessageId) && nextHistoryId == old(nextHistoryId)
      ensures UserInsertable(old(users), username, password) ==>
        && id == Some(old(nextUserId))
        && users == old(users) + [User(old(nextUserId), username.value, password.value, role, status)]
        && nextUserId == old(nextUserId) + 1
      ensures !UserInsertable(old(users), username, password) ==>
        id == None && users == old(users) && nextUserId == old(nextUserId)
    {
      if !UserInsertable(users, username, password) {
        return None;
      }
      var row := User(nextUserId, username.value, password.value, role, status);
      AppendKeepsIdsGenerated(users, UserId, nextUserId, row);
      users := users + [row];
      id := Some(nextUserId);
      nextUserId := nextUserId + 1;
    }

    /** userRepo.save on a row read from the table: replaces the row with the same id. */
    method UpdateUser(k: nat, u: User)
      requires Valid()
      requires k < |users| && u.id == users[k].id && u.username == users[k].username
      modifies this
      ensures Valid()
      ensures users == old(users)[k := u]
      ensures messages == old(messages) && history == old(history)
      ensures nextUserId == old(nextUserId) && nextMessageId == old(nextMessageId) && nextHistoryId == old(nextHistoryId)
    {
      users := users[k := u];
    }

    /** messageRepo.save on a new message: it is stored, and handed back, with the next id. */
    method InsertMessage(m: Message) returns (saved: Message)
      requires Valid()
      modifies this
      ensures Valid()
      ensures saved == m.(id := old(nextMessageId))
      ensures messages == old(messages) + [saved]
      ensures nextMessageId == old(nextMessageId) + 1
      ensures users == old(users) && history == old(history)
      ensures nextUserId == old(nextUserId) && nextHistoryId == old(nextHistoryId)
    {
      saved := m.(id := nextMessageId);
      AppendKeepsIdsGenerated(messages, MessageId, nextMessageId, saved);
      messages := messages + [saved];
      nextMessageId := nextMessageId + 1;
    }

    /** messageRepo.save on a message read from the table: replaces the row with the same id. */
    method UpdateMessage(k: nat, m: Message)
      requires Valid()
      requires k < |messages| && m.id == messages[k].id
      modifies this
      ensures Valid()
      ensures messages == old(messages)[k := m]
      ensures users == old(users) && history == old(history)
      ensures nextUserId == old(nextUserId) && nextMessageId == old(nextMessageId) && nextHistoryId == old(nextHistoryId)
    {
      messages := messages[k := m];
    }

    /** historyRepo.save: appends one row with the next id; no row is ever changed. */
    method AppendHistory(userId: int, action: string, details: string, timestamp: int)
      requires Valid()
      modifies this
      ensures Valid()
      ensures history == old(history) + [History(old(nextHistoryId), userId, action, details, timestamp)]
      ensures nextHistoryId == old(nextHistoryId) + 1
      ensures users == old(users) && messages == old(messages)
      ensures nextUserId == old(nextUserId) && nextMessageId == old(nextMessageId)
    {
      var row := History(nextHistoryId, userId, action, details, timestamp);
      AppendKeepsIdsGenerated(history, HistoryId, nextHistoryId, row);
      history := history + [row];
      nextHistoryId := nextHistoryId + 1;
    }
  }
}
