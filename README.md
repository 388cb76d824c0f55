# Chat backend record store — a Dafny model

This project models the core of a small real-time chat backend written in Java
with Spring. The backend keeps three tables: users, messages and an append-only
history log. Each table has a generated integer key. The controllers act on
these tables:

- the session state machine (`AuthController`): register, login, logout;
- the message endpoints (`MessageController`): the conversation between two
  users, a user's inbox, and marking a message as seen;
- the real-time send handler (`ChatSocketController.sendMessage`).

The two declared queries of the message repository are modelled as total
functions: the conversation filter ordered by time, and the receiver filter.

Layout, one module per file:

| file | module | models |
|---|---|---|
| `wrappers.dfy` | `Wrappers` | `Option`, standing for `Optional` and for null |
| `text.dfy` | `Text` | how Java writes an `int` inside a string concatenation, with a parser as its inverse |
| `records.dfy` | `Records` | the `User`, `Message` and `History` rows; the schema's constraints; the table scans behind every query |
| `message_repo.dfy` | `MessageRepo` | `findChatHistory` and `findByReceiverId` |
| `store.dfy` | `Store` | the store class with its three tables and identity generators; `save` as insert-with-fresh-id or update-by-id; the user lookups |
| `auth_controller.dfy` | `AuthController` | `register`, `login`, `logout` |
| `message_controller.dfy` | `MessageController` | `getChatHistory`, `getUserMessages`, `markAsSeen` |
| `chat_socket_controller.dfy` | `ChatSocketController` | `sendMessage` |
| `scenario.dfy` | `Scenario` | short client sessions whose outcomes follow from the controllers' contracts alone |

Design of the model:

- `Store.ChatStore` is a class whose fields are the three tables (as
  sequences, in insertion order) and the three next-id counters.
- `Valid()` holds the schema's constraints. Every id is generated: ids lie in
  `[1, next)` and ascend, so they are distinct. Usernames are unique.
- The controllers' policy is kept as separate predicates, which each
  controller preserves:
  - `Records.AccountsWritten`: every role is USER and every status is ONLINE
    or OFFLINE;
  - `Records.MessageStatusesKnown`: every message status is SENT or SEEN.
- A controller is a module-level method that takes the store as an explicit
  parameter (`modifies store`). Its postcondition gives the reply string and
  the complete new state of every table.
- `LocalDateTime.now()` is an integer parameter. `sendMessage` reads the
  clock twice, once for the message and once for the history row, so it takes
  two parameters (`now`, `loggedAt`). No order between them is assumed.
- The body of a `register` request is a `User` whose fields the client may
  leave null (`AuthController.UserDraft`, with `Option` fields).
  - A null username matches no stored row, because the column is NOT NULL.
  - A null username or password makes the store's insert fail with a
    constraint violation. That exception escapes the controller, so the model
    returns `ConstraintViolation` and writes nothing.
- The text of the replies is modelled exactly. This includes
  `"Login Success - User ID: " + id` and the history details
  `"Message to user " + receiverId`. `Text.IntToString` renders an integer as
  Java does, and `Text.ParseInt` reads it back.

## Model

| member | source | states |
|---|---|---|
| `Store.ChatStore.Valid` | demo/src/main/java/com/chatapp/demo/models/User.java:12-17 | the store invariant: in every table the ids are generated (in [1, next), ascending, hence distinct) and usernames are unique; the constructor establishes it and every store operation and controller preserves it |
| `Records.AccountsWritten` | demo/src/main/java/com/chatapp/demo/models/User.java:22-25 | every stored user has role USER and status ONLINE or OFFLINE; the empty table satisfies it and `Register`, `Login` and `Logout` preserve it, since they write only those values |
| `Records.MessageStatusesKnown` | demo/src/main/java/com/chatapp/demo/websocket/ChatSocketController.java:27 | every stored message has status SENT or SEEN; the empty table satisfies it and `SendMessage` (SENT) and `MarkAsSeen` (SEEN) preserve it |
| `Records.GeneratedIdsDistinct` | demo/src/main/java/com/chatapp/demo/models/User.java:12-14 | rows whose ids come from the identity generator never share an id |
| `Records.AppendKeepsIdsGenerated` | demo/src/main/java/com/chatapp/demo/models/User.java:12-14 | inserting a row under the generator's next value keeps every id in range, ascending and distinct |
| `Store.ChatStore.InsertUser` | demo/src/main/java/com/chatapp/demo/models/User.java:12-20 | saving a new user: a null username, a null password or a username already stored is refused with nothing written; otherwise exactly one row is added, under the next generated id; the other tables are unchanged |
| `Store.FindByUsername` | demo/src/main/java/com/chatapp/demo/controller/AuthController.java:28 | the lookup returns a row holding exactly that username, and returns none only when no row holds it |
| `Store.FindByCredentials` | demo/src/main/java/com/chatapp/demo/controller/AuthController.java:40 | the lookup returns a row matching both username and password exactly, and returns none only when no row matches both |
| `Store.CredentialsMatchAtMostOne` | demo/src/main/java/com/chatapp/demo/models/User.java:16 | because usernames are unique, at most one stored user matches a (username, password) pair |
| `Store.FindUserById` | demo/src/main/java/com/chatapp/demo/controller/AuthController.java:63 | the lookup returns the row with that id, and returns none only when no row has it |
| `Store.FindMessageById` | demo/src/main/java/com/chatapp/demo/controller/MessageController.java:32 | the lookup returns the message with that id, and returns none only when no message has it |
| `Store.ChatStore.UpdateUser` | demo/src/main/java/com/chatapp/demo/controller/AuthController.java:44-45 | saving a user read from the table replaces that one row; ids and unique usernames are kept; nothing else changes |
| `Store.ChatStore.InsertMessage` | demo/src/main/java/com/chatapp/demo/websocket/ChatSocketController.java:28 | saving a new message appends exactly one row, the given message under the next id, and hands that row back |
| `Store.ChatStore.UpdateMessage` | demo/src/main/java/com/chatapp/demo/controller/MessageController.java:34-35 | saving a message read from the table replaces that one row and nothing else |
| `Store.ChatStore.AppendHistory` | demo/src/main/java/com/chatapp/demo/controller/AuthController.java:48-53 | the history log only grows: exactly one row (userId, action, details, timestamp) is appended under the next id; existing rows and the other tables are unchanged |
| `MessageRepo.SortByTime` | demo/src/main/java/com/chatapp/demo/repositories/MessageRepo.java:13 | ORDER BY time: the result is non-decreasing in time and is a permutation of the input |
| `MessageRepo.FindChatHistory` | demo/src/main/java/com/chatapp/demo/repositories/MessageRepo.java:13-14 | sound (every result went from one of the two users to the other), complete (every such stored message is there, as often as stored) and sorted by time |
| `MessageRepo.ChatHistorySymmetric` | demo/src/main/java/com/chatapp/demo/repositories/MessageRepo.java:13 | the conversation of (a, b) and of (b, a) hold the same multiset of messages; with ties kept in table order they are the same sequence |
| `MessageRepo.FindByReceiverId` | demo/src/main/java/com/chatapp/demo/repositories/MessageRepo.java:16 | exactly the stored messages whose receiver is the user, each as often as stored; messages the user sent to someone else are not included |
| `AuthController.Register` | demo/src/main/java/com/chatapp/demo/controller/AuthController.java:27-35 | a taken username gives "Username already exists" and the store is unchanged; otherwise exactly one user is added, with role USER and status OFFLINE, and the reply is "Registration Successful"; a null username or password is refused by the store with nothing written; no history row in any case |
| `AuthController.Login` | demo/src/main/java/com/chatapp/demo/controller/AuthController.java:39-58 | for the user with exactly this (username, password), only that user's status changes, to ONLINE; exactly one row {userId, LOGIN, "User logged in", now} is appended and the reply is "Login Success - User ID: " + id; with no match (a wrong password included) the reply is "Invalid Credentials" and the store is unchanged |
| `AuthController.LoginReplyNamesUser` | demo/src/main/java/com/chatapp/demo/controller/AuthController.java:55 | the success reply starts with "Login Success - User ID: ", the rest reads back as the user's id, and it is never equal to "Invalid Credentials" |
| `AuthController.Logout` | demo/src/main/java/com/chatapp/demo/controller/AuthController.java:62-79 | for an existing id, only that user's status changes, to OFFLINE; exactly one row {id, LOGOUT, "User logged out", now} is appended and the reply is "Logout Successful"; an unknown id gives "User Not Found" and the store is unchanged |
| `MessageController.GetChatHistory` | demo/src/main/java/com/chatapp/demo/controller/MessageController.java:19-21 | returns the repository's conversation query unchanged: the messages between the two users, sorted by time |
| `MessageController.GetUserMessages` | demo/src/main/java/com/chatapp/demo/controller/MessageController.java:25-27 | returns the repository's receiver query unchanged: exactly the messages addressed to the user |
| `MessageController.MarkSeen` | demo/src/main/java/com/chatapp/demo/controller/MessageController.java:32-38 | the reply is "Marked as Seen" exactly when a message with that id is stored, and "Message Not Found" otherwise; in that case the table is unchanged; a row changes only if it has that id, and then only its status, which becomes SEEN |
| `MessageController.MarkSeenChangesOnlyAddressed` | demo/src/main/java/com/chatapp/demo/controller/MessageController.java:33-35 | with generated ids, the one message with that id gets status SEEN; its content, sender, receiver and time are unchanged, and so is every other message |
| `MessageController.MarkSeenIdempotent` | demo/src/main/java/com/chatapp/demo/controller/MessageController.java:33-36 | marking twice gives the same table and the same reply as marking once |
| `MessageController.MarkAsSeen` | demo/src/main/java/com/chatapp/demo/controller/MessageController.java:31-39 | the new messages table and the reply are those of `MarkSeen`; users, history and the id counters are unchanged; message statuses stay SENT or SEEN |
| `ChatSocketController.SendMessage` | demo/src/main/java/com/chatapp/demo/websocket/ChatSocketController.java:25-39 | always succeeds. The stored and returned message has time `now` and status SENT, whatever the client supplied. Sender, receiver and content are as supplied. It gets a fresh id, and exactly one message row is added. Exactly one history row {senderId, MESSAGE_SENT, "Message to user " + receiverId} is appended. The users table is unchanged |
| `Text.PrefixedIntReadsBack` | demo/src/main/java/com/chatapp/demo/controller/AuthController.java:55 | a fixed prefix followed by a rendered integer starts with that prefix, and the rest reads back as the integer |
| `ChatSocketController.SentDetailsNameReceiver` | demo/src/main/java/com/chatapp/demo/websocket/ChatSocketController.java:34 | the details of a MESSAGE_SENT row start with "Message to user " and the rest reads back as the receiver's id |
| `Text.IntToString` | demo/src/main/java/com/chatapp/demo/websocket/ChatSocketController.java:34 | the rendering of an int in a concatenation is non-empty and starts with '-' exactly for negative values |
| `Text.ParseIntToString` | demo/src/main/java/com/chatapp/demo/controller/AuthController.java:55 | parsing the rendering of any integer gives the integer back |
| `Text.IntToStringInjective` | demo/src/main/java/com/chatapp/demo/websocket/ChatSocketController.java:34 | two different integers are never rendered as the same text |

## Left out

- The modelled controllers have no delete handler, no typing relay, no `messageType`/`IMAGE_SENT`, no read flag and no deletion flags, so none of these is modelled.
- `sendMessage` stamps only time and status; it sets no other field, and neither does the model.
- Client-supplied ids are not modelled. A `register` body or a `sendMessage` payload with an id would make `save` merge the request into the existing row with that id, and overwrite it. The model assumes every new row gets a fresh id, so the request's id is ignored.
- `Login` takes the username and password as strings. A null field in the login body matches no row, because the columns are NOT NULL. That gives the same "Invalid Credentials" outcome, so null is not modelled separately there.
- Message.java, History.java, LoginDto.java, UserRepo.java and HistoryRepo.java are not part of this model. Their fields and the exact-match lookups are inferred from how the controllers use them. A message's content is a non-null string here.
- Ids and user ids are unbounded integers. The 32-bit range of Java's `int`, and overflow of the identity generator, are not modelled.
- Ids that a database skips after a failed insert are not modelled. A refused insert leaves the generator where it was.
- Timestamps are integers supplied by the caller. Nothing is claimed about clock monotonicity.
- `MessageRepo.SortByTime`: the order among messages with equal time is unspecified in the query. The model keeps table order among them. Only sortedness and the permutation property describe the source.
- `MessageRepo.FindByReceiverId` returns rows in table order. The query itself promises no order.
- Transactions, concurrent requests and the read-then-write races between them are not modelled. The store is sequential.
- The `@SendTo` broadcast is modelled only as the handler's return value. Fan-out to subscribers belongs to the transport.
- The web client (app.js) is not modelled. It does DOM rendering, HTTP, the socket connection and local storage. Its message-relevance test repeats the conversation filter `MessageRepo.InChat`.
- Spring wiring, HTTP routing and password hashing are not modelled. Passwords are compared exactly, as the lookup does.
