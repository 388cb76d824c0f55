/**
 * The session state machine: registration, login and logout. Login and
 * logout flip one user's status and append one row to the history log;
 * registration never writes history.
 */
module AuthController {
  import opened Wrappers
  import opened Records
  import opened Store
  import Text

  const REGISTERED: string := "Registration Successful"
  const USERNAME_TAKEN: string := "Username already exists"
  const LOGIN_PREFIX: string := "Login Success - User ID: "
  const INVALID_CREDENTIALS: string := "Invalid Credentials"
  const LOGGED_OUT: string := "Logout Successful"
  const USER_NOT_FOUND: string := "User Not Found"

  const LOGIN: string := "LOGIN"
  const LOGIN_DETAILS: string := "User logged in"
  const LOGOUT: string := "LOGOUT"
  const LOGOUT_DETAILS: string := "User logged out"

  /** The request body of /register: a `User` whose fields the client may leave null. */
  datatype UserDraft = UserDraft(username: Option<string>, password: Option<string>, role: Option<string>, status: Option<string>)

  /**
   * The answer to /register: a reply body, or the constraint violation the
   * store raises when a NOT NULL column is missing, which escapes the
   * controller as a server error.
   */
  datatype Response = Body(text: string) | ConstraintViolation

  /** findByUsername(name).isPresent(); a null name matches no row, since the column is NOT NULL. */
  predicate UsernameTaken(us: seq<User>, username: Option<string>) {
    username.Some? && FindByUsername(us, username.value).Some?
  }

  /** The reply to a successful login. */
  function LoginReply(id: int): (reply: string) {
    LOGIN_PREFIX + Text.IntToString(id)
  }

  /**
   * The login reply carries the user's id: it starts with the fixed prefix,
   * the rest reads back as the id, and it never equals the failure reply.
   */
  lemma LoginReplyNamesUser(id: int)
    ensures |LoginReply(id)| > |LOGIN_PREFIX| && LoginReply(id)[..|LOGIN_PREFIX|] == LOGIN_PREFIX
    ensures Text.ParseInt(LoginReply(id)[|LOGIN_PREFIX|..]) == Some(id)
    ensures LoginReply(id) != INVALID_CREDENTIALS
  {
    Text.PrefixedIntReadsBack(LOGIN_PREFIX, id);
    assert LoginReply(id)[0] != INVALID_CREDENTIALS[0];
  }

  /**
   * register: a taken username is refused with nothing written; otherwise the
   * user is stored with role USER and status OFFLINE, whatever the request
   * carried in those fields. No history row is written either way.
   */
  method Register(store: ChatStore, draft: UserDraft) returns (response: Response)
    requires store.Valid()
    modifies store
    ensures store.Valid()
    ensures store.messages == old(store.messages) && store.history == old(store.history)
    ensures store.nextMessageId == old(store.nextMessageId) && store.nextHistoryId == old(store.nextHistoryId)
    ensures AccountsWritten(old(store.users)) ==> AccountsWritten(store.users)
    ensures UsernameTaken(old(store.users), draft.username) ==>
      response == Body(USERNAME_TAKEN) && store.Contents() == old(store.Contents())
    ensures !UsernameTaken(old(store.users), draft.username) && draft.username.Some? && draft.password.Some? ==>
      && response == Body(REGISTERED)
      && store.users == old(store.users) + [User(old(store.nextUserId), draft.username.value, draft.password.value, ROLE_USER, OFFLINE)]
      && store.nextUserId == old(store.nextUserId) + 1
    ensures !UsernameTaken(old(store.users), draft.username) && (draft.username.None? || draft.password.None?) ==>
      response == ConstraintViolation && store.Contents() == old(store.Contents())
  {
    if UsernameTaken(store.users, draft.username) {
      return Body(USERNAME_TAKEN);
    }
    var id := store.InsertUser(draft.username, draft.password, ROLE_USER, OFFLINE);
    if id.None? {
      return ConstraintViolation;
    }
    response := Body(REGISTERED);
  }

  /**
   * login: the user holding exactly this (username, password) pair goes
   * ONLINE and one LOGIN row is appended; with no such user (a wrong password
   * included) nothing changes.
   */
  method Login(store: ChatStore, username: string, password: string, now: int) returns (reply: string)
    requires store.Valid()
    modifies store
    ensures store.Valid()
    ensures store.messages == old(store.messages)
    ensures store.nextUserId == old(store.nextUserId) && store.nextMessageId == old(store.nextMessageId)
    ensures AccountsWritten(old(store.users)) ==> AccountsWritten(store.users)
    ensures forall i :: 0 <= i < |old(store.users)| && Matches(old(store.users)[i], username, password) ==>
      && reply == LoginReply(old(store.users)[i].id)
      && store.users == old(store.users)[i := old(store.users)[i].(status := ONLINE)]
      && store.history == old(store.history) + [History(old(store.nextHistoryId), old(store.users)[i].id, LOGIN, LOGIN_DETAILS, now)]
      && store.nextHistoryId == old(store.nextHistoryId) + 1
    ensures (forall i :: 0 <= i < |old(store.users)| ==> !Matches(old(store.users)[i], username, password)) ==>
      reply == INVALID_CREDENTIALS && store.Contents() == old(store.Contents())
  {
    var found := FindByCredentials(store.users, username, password);
    if found.None? {
      return INVALID_CREDENTIALS;
    }
    var k := found.value;
    var u := store.users[k];
    forall i | 0 <= i < |store.users| && Matches(store.users[i], username, password) ensures i == k {
      CredentialsMatchAtMostOne(store.users, username, password, i, k);
    }
    store.UpdateUser(k, u.(status := ONLINE));
    store.AppendHistory(u.id, LOGIN, LOGIN_DETAILS, now);
    reply := LoginReply(u.id);
  }

  /**
   * logout(id): the user with this id goes OFFLINE and one LOGOUT row is
   * appended; an unknown id is answered "User Not Found" with nothing written.
   */
  method Logout(store: ChatStore, id: int, now: int) returns (reply: string)
    requires store.Valid()
    modifies store
    ensures store.Valid()
    ensures store.messages == old(store.messages)
    ensures store.nextUserId == old(store.nextUserId) && store.nextMessageId == old(store.nextMessageId)
    ensures AccountsWritten(old(store.users)) ==> AccountsWritten(store.users)
    ensures forall i :: 0 <= i < |old(store.users)| && old(store.users)[i].id == id ==>
      && reply == LOGGED_OUT
      && store.users == old(store.users)[i := old(store.users)[i].(status := OFFLINE)]
      && store.history == old(store.history) + [History(old(store.nextHistoryId), id, LOGOUT, LOGOUT_DETAILS, now)]
      && store.nextHistoryId == old(store.nextHistoryId) + 1
    ensures (forall i :: 0 <= i < |old(store.users)| ==> old(store.users)[i].id != id) ==>
      reply == USER_NOT_FOUND && store.Contents() == old(store.Contents())
  {
    var found := FindUserById(store.users, id);
    if found.None? {
      return USER_NOT_FOUND;
    }
    var k := found.value;
    var u := store.users[k];
    forall i | 0 <= i < |store.users| && store.users[i].id == id ensures i == k {
      if i != k {
        GeneratedIdsDistinct(store.users, UserId, store.nextUserId, i, k);
      }
    }
    store.UpdateUser(k, u.(status := OFFLINE));
    store.AppendHistory(id, LOGOUT, LOGOUT_DETAILS, now);
    reply := LOGGED_OUT;
  }
}
