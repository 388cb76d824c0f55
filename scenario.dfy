/**
 * Clients of the controllers: short sessions whose outcomes follow from the
 * controllers' contracts alone.
 */
module Scenario {
  import opened Wrappers
  import opened Records
  import opened Store
  import opened AuthController
  import opened MessageController
  import opened ChatSocketController

  method RegisterTwice() {
    var store := new ChatStore();
    var first := Register(store, UserDraft(Some("alice"), Some("pw1"), None, Some(ONLINE)));
    assert first == Body(REGISTERED);
    assert store.users == [User(1, "alice", "pw1", ROLE_USER, OFFLINE)];
    var second := Register(store, UserDraft(Some("alice"), Some("pw2"), None, None));
    assert second == Body(USERNAME_TAKEN);
    assert store.users == [User(1, "alice", "pw1", ROLE_USER, OFFLINE)];
  }

  method RegisterThenLogin() {
    var store := new ChatStore();
    var registered := Register(store, UserDraft(Some("alice"), Some("pw1"), None, None));
    assert Matches(store.users[0], "alice", "pw1");
    var login := Login(store, "alice", "pw1", 10);
    assert login == LoginReply(1);
    assert store.users[0].status == ONLINE;
    assert store.history == [History(1, 1, LOGIN, LOGIN_DETAILS, 10)];
  }

  method SendThenMarkSeen() {
    var store := new ChatStore();
    var sent := SendMessage(store, Message(7, 1, 2, "hi", 0, SEEN), 11, 11);
    assert sent == Message(1, 1, 2, "hi", 11, SENT);
    var seen := MarkAsSeen(store, sent.id);
    assert seen == MARKED_SEEN;
    var missing := MarkAsSeen(store, 5);
    assert missing == MESSAGE_NOT_FOUND;
  }
}
