# FluxChat message delivery, modelled in Dafny

FluxChat is a small direct-messaging application: an Express + socket.io
backend over SQLite, and a React page. This project models its core as
a few state machines and proves what each handler does:

- **Store** (`db.dfy`, module `Db`). The `users` and `messages` tables are sequences of rows. The model covers:
  - AUTOINCREMENT ids, with a per-table "last id handed out";
  - the NOT NULL columns and the UNIQUE e-mail;
  - `CREATE TABLE IF NOT EXISTS`.
- **Backend** (`backend.dfy`, module `Backend`). It holds:
  - the handshake middleware (`Authenticate`, `Server.Admit`);
  - the presence table `socketsByUser`, a `map<string, Socket>` keyed by `String(userId)`;
  - the `connection`, `private_message` and `disconnect` handlers, as methods of the `Server` class;
  - the history query `History`, a pair filter followed by `ORDER BY timestamp`;
  - the register and login decisions (`Register`, `Login`, `Server.HandleRegister`).

  Each socket is a `Socket` object whose `outbox` receives the emitted `private_message` payloads.
- **Page** (`client.dfy`, module `Client`). The `ChatClient` class holds the component state (`view`, `user`, `users`, `selectedUser`, `messages`, `inputMsg`) and what the page emitted. The model covers:
  - the `sendMessage` guard, with JavaScript's `trim`;
  - the incoming-message append and the history reload;
  - the `popstate` fallback;
  - the pure filters `currentChatMessages` and the self-exclusion of the user list.

  Lemmas tie the page's conversation filter to the server's history query.
- **Support modules.** These are `js.dfy` (JavaScript truthiness and `String(n)` on integers), `seqs.dfy` (an order-preserving `Filter` and `Map` with their laws) and `wrappers.dfy` (`Option`, where `None` is `undefined` or `null`).
- **Scenarios** (`scenarios.dfy`). These are runs of several handlers in a row, proved from the handlers' contracts alone.

Each handler is one atomic step. The clock (`Date.now()`) is a parameter `now`. bcrypt and JWT are the uninterpreted function fields of `Backend.Crypto`.

Where the code behaves differently from what a reader might expect of a chat server, the model follows the code:
- `disconnect` deletes the user's key unconditionally, even when a newer socket of the same user holds it. A compare-and-delete would keep the newer socket.
- The server does not check for empty content. Only the page does.
- The message insert is fire-and-forget. The payload is emitted to the recipient and echoed to the sender even when the insert fails, for example when `to` or `content` is missing. Nothing waits for the row to be written before delivering.
- A missing token and a refused token both give the same `auth error`.
- Rows with equal timestamps come back in an order the query does not fix. Nothing breaks ties by id.

## Model

| member | source | states |
|---|---|---|
| Backend.Authenticate | backend/index.js:72-82 | Rejection happens exactly when the token is missing, empty or refused by the verifier. When admitted, the connection's id is the verified token's payload id. |
| Backend.Server.Admit | backend/index.js:72-85 | The middleware followed by `connection`. A refused socket gets no `userId` and the presence table is unchanged. An admitted socket carries the payload id and is stored under `String(id)`. |
| Backend.Server.Connect | backend/index.js:85 | `socketsByUser[String(userId)]` becomes the new socket, replacing any earlier one. All other entries are unchanged and the invariant is kept. |
| Backend.Server.PrivateMessage | backend/index.js:86-108 | A missing event throws a TypeError before anything is stored or emitted. Otherwise at most one row `{from = socket.userId, to, content, timestamp = now}` is appended, exactly when the NOT NULL columns are present. The presence table and the users table are unchanged. The registered recipient gets the payload if and only if `String(to)` is a key. The sender always gets the echo, so a self-addressed message arrives twice. No other socket gets anything. A rejected insert ends the run with an unhandled database error, after the emits. |
| Backend.Server.Recipient | backend/index.js:104 | The lookup finds a socket exactly when `String(to)` is a key of the presence table, and then it is the socket stored under that key. |
| Backend.Server.RecipientIsAddressee | backend/index.js:104 | Under the table's invariant, a found recipient socket belongs to the addressed user, and a missing `to` finds none. |
| Backend.Socket.constructor | backend/index.js:72-73 | A new connection carries its handshake token, no `userId` and an empty outbox. |
| Backend.Socket.Emit | backend/index.js:105-107 | `emit('private_message', out)` queues the payload at the end of that connection's outbox and changes nothing else. |
| Backend.Server.Disconnect | backend/index.js:110-112 | Removes the key `String(socket.userId)` whatever socket it holds, and nothing else. |
| Backend.Server.constructor | backend/index.js:70 | The tables exist (created or kept) and the presence table is empty. |
| Backend.Server.HandleRegister | backend/index.js:16-30 | The users table changes exactly as `Register` says. The messages table and the invariants are kept. |
| Backend.InsertByTimestamp | backend/index.js:58 | Inserting a row into a timestamp-sorted list keeps it sorted and adds exactly that row. |
| Backend.SortByTimestamp | backend/index.js:58 | `ORDER BY timestamp ASC` gives a sorted permutation of its input. |
| Backend.History | backend/index.js:55-64 | Sorted by timestamp, and a permutation of the stored rows whose (from, to) is (A, B) or (B, A). |
| Backend.HistoryExact | backend/index.js:57-59 | A row is in the history of (A, B) if and only if it is stored and belongs to the pair, and it appears as often as it was stored. |
| Backend.HistorySymmetric | backend/index.js:57-59 | The history of (A, B) equals the history of (B, A). |
| Backend.HistoryAfterAppend | backend/index.js:89-94 | A newly stored row joins the history of its own pair and of no other pair. |
| Backend.Register | backend/index.js:16-30 | A missing or empty name, e-mail or password gives 400 `missing`. A taken e-mail gives 400 `exists`. In both cases the table is unchanged. Otherwise exactly one row `{name, email, hash(password)}` with the next id is added, that id becomes the last one handed out, and the response carries that id and its signed token. |
| Backend.Login | backend/index.js:33-44 | A missing field gives 400 `missing`. An unknown e-mail gives 404 `not_found`, and no account is ever created. For a registered e-mail, the login succeeds if and only if bcrypt accepts the password, and otherwise gives 401 `invalid`. Success returns the stored row's id, name and e-mail with a token for that id. |
| Backend.LoginRightPassword | backend/index.js:36-42 | The right password for a registered e-mail logs in as that user, with a token for its id. |
| Backend.RegisteredTokenAdmits | backend/index.js:26-27 | When JWT verification inverts signing, the token a registration answers with admits its holder over the socket as the new user. |
| Backend.LoginWrongPassword | backend/index.js:38-40 | A wrong password for a registered e-mail gives 401 `invalid`. |
| Backend.RegisterThenLogin | backend/index.js:19-42 | After a successful registration, logging in with the same credentials answers with the same id, name, e-mail and token. |
| Backend.PayloadMatchesRow | backend/index.js:88-101 | The stored row and the emitted payload agree on from, to, content and timestamp. The timestamp is the server's `now`, never the client's. |
| Backend.BlankContentIsStored | backend/index.js:86-94 | The server stores any present content with its text unchanged, the empty string and whitespace-only text included, because it has no empty-content check. |
| Db.AppendKeepsIdsIncreasing | backend/db.js:15 | An AUTOINCREMENT id is larger than every earlier id, so ids stay unique and strictly increasing. |
| Db.InsertMessage | backend/db.js:14-20 | An insert is rejected with a NOT NULL violation exactly when from, to, content or timestamp is missing. Otherwise it appends one row with id `lastId + 1`, and that id becomes the table's last id handed out. |
| Db.InsertUser | backend/db.js:7-12 | An insert is rejected exactly when a column is missing or the e-mail is already taken. Otherwise it appends one row with the next id, which becomes the table's last id handed out. |
| Db.InsertMessageKeepsValid | backend/db.js:14-20 | Accepted message inserts keep the table invariants. |
| Db.InsertUserKeepsValid | backend/db.js:7-12 | Accepted user inserts keep the ids increasing and the e-mails unique (at most one user per e-mail). |
| Db.FindByEmail | backend/index.js:36 | The lookup returns a stored row with that e-mail, and it returns none exactly when no row has that e-mail. |
| Db.FindByEmailUnique | backend/db.js:10 | With unique e-mails, the lookup returns the one row with that address. |
| Db.Initialize | backend/db.js:6-21 | Each existing table is kept unchanged. Each missing table is created empty, with no id handed out yet. |
| Db.CreateIfNotExists | backend/db.js:7 | An existing table is kept unchanged. A missing one is created empty. |
| Db.InitializeSound | backend/db.js:6-21 | A fresh schema is empty and satisfies the invariants. Re-running the creation keeps every row. |
| Js.IntToString | backend/index.js:85 | `String(n)` is non-empty and starts with `-` exactly for negative `n`; `IntToStringValue` carries its decimal value. |
| Js.NatToStringValue | backend/index.js:85 | The digits written for a natural number, read most significant first, denote that number. |
| Js.IntToStringValue | backend/index.js:85 | `String(n)` reads back as `n`: the decimal digits of `n`, preceded by `-` exactly when `n` is negative. |
| Js.IntToStringInjective | backend/index.js:85 | Distinct user ids give distinct presence keys `String(id)`. |
| Js.KeyOf | backend/index.js:104 | For a present id, the key is `String(id)`. |
| Js.MissingKeyIsNoUserKey | backend/index.js:104 | `String(undefined)` never equals a user's key. |
| Client.TrimStart | frontend/src/App.jsx:125 | Drops the leading white space of `trim`: the result is a suffix of the input, every dropped character is white space or a line terminator, and the result does not start with one. |
| Client.TrimEnd | frontend/src/App.jsx:125 | Drops the trailing white space of `trim`: the result is a prefix of the input, every dropped character is white space or a line terminator, and the result does not end with one. |
| Client.Trim | frontend/src/App.jsx:125 | `inputMsg.trim()`: a middle slice of the input whose cut-off front and back consist only of white space and line terminators, and which neither starts nor ends with such a character. |
| Client.BlankIffAllWhitespace | frontend/src/App.jsx:125 | `inputMsg.trim()` is empty if and only if every character is white space or a line terminator. |
| Client.ChatClient.SendMessage | frontend/src/App.jsx:124-133 | A blank input, no selected user or no socket means nothing is emitted and the input is kept. Otherwise exactly one `{to: selectedUser.id, content: inputMsg}` is emitted, with the untrimmed text, and the input is cleared. |
| Client.ChatClient.ReceiveMessage | frontend/src/App.jsx:29-31 | An incoming payload is appended at the end and earlier messages keep their order. The shown conversation grows by that payload exactly when it belongs to the open pair. |
| Client.ChatClient.UsersFetched | frontend/src/App.jsx:42-44 | The user list becomes the fetched list without one's own entries. |
| Client.OtherUsersSpec | frontend/src/App.jsx:44 | The displayed users are the fetched users minus exactly those whose id equals one's own, in the fetched order and with their multiplicities. |
| Client.ChatClient.SelectUser | frontend/src/App.jsx:52-54 | Selecting a user sets the selection. When the selection actually changes and a user is logged in, the message list is emptied; clicking the already-selected user keeps it. |
| Client.ChatClient.HistoryFetched | frontend/src/App.jsx:56 | The fetched history replaces the list and is not appended to it. |
| Client.ChatClient.PopState | frontend/src/App.jsx:66-72 | A state with a truthy `view` sets that view. Anything else sets `'login'`. |
| Client.ChatClient.constructor | frontend/src/App.jsx:5-10 | The initial component state. |
| Client.CurrentChat | frontend/src/App.jsx:135-138 | `currentChatMessages`: every kept message is one of `messages` and belongs to the pair (me, selected). |
| Client.OtherUsers | frontend/src/App.jsx:44 | The self-exclusion filter: every kept entry is a fetched one whose id differs from one's own. |
| Client.IsOwn | frontend/src/App.jsx:318 | A message is drawn as one's own exactly when its `from_id` equals the user's id. |
| Client.CurrentChatSpec | frontend/src/App.jsx:135-138 | The shown conversation is an order-preserving subsequence of `messages`. It keeps each message of the pair (including `undefined` ids compared with `===`) as often as it arrived, and nothing else. |
| Client.ChatSides | frontend/src/App.jsx:318 | In the open chat, one's own messages are addressed to the selected user. Every other message comes from the selected user to oneself. |
| Client.InChatIffInPair | frontend/src/App.jsx:135-138 | On stored rows, the page's conversation test and the server's pair test agree. |
| Client.CurrentChatMatchesServerPair | frontend/src/App.jsx:135-138 | Filtering stored rows on the page selects the same messages, in the same order, as the server's `WHERE` clause. |
| Client.FetchedHistoryFullyShown | frontend/src/App.jsx:54-56 | Everything the history endpoint returns for (me, selected) is shown, in the returned order. |
| Client.EmittedMessageIsStored | frontend/src/App.jsx:127-130 | What the page emits always passes the server's NOT NULL checks. It is stored with the untrimmed text and echoed with the same fields. |
| Scenarios.OfflineCatchUp | backend/index.js:86-108 | A message to an offline user reaches only the sender's echo, and later appears in the pair's history. |
| Scenarios.SupersededDisconnect | backend/index.js:110-112 | After a user's older connection closes, the user counts as offline although a newer connection is open, so a message to them has no recipient socket. |
| Scenarios.SelfMessage | backend/index.js:103-107 | A self-addressed message arrives twice on the sender's socket. |
| Scenarios.AuthGate | backend/index.js:73-80 | A missing, empty or forged token is refused and registers nothing. |
| Scenarios.MissingRecipient | backend/index.js:89-107 | A message without `to` is echoed but not stored, and the rejected insert is left unhandled. |
| Scenarios.MissingEvent | backend/index.js:86-87 | An event without a message object throws before anything is stored or emitted. |

## Left out

- JSX markup, styling and React rendering. Only the component state and its handlers are modelled.
- socket.io, Express, `fetch`, CORS and `server.listen`. Emits are appends to a socket's `outbox` or to the page's `emitted`. HTTP calls are function or method calls, and status codes are numbers.
- bcrypt and JWT are uninterpreted function fields of `Backend.Crypto`. bcrypt's random salt is not modelled.
- SQLite I/O errors are not modelled. This covers the 500 `db` answers of login, users and history, and register's catch-all of any insert error as `exists`. Only NOT NULL and UNIQUE rejections are modelled.
- Async callback timing and concurrency between connections are not modelled. Each handler is one atomic step. The page's `messages` reset and history reload are two separate steps, so a message that arrives between them is replaced by the fetched list, which holds it only if it was stored before the query ran (`ChatClient.HistoryFetched`).
- The `GET /api/users` endpoint is not modelled. It only passes rows through. Its self-exclusion is modelled on the page.
- JavaScript's dynamic typing is not modelled:
  - `to` is either an integer or missing. `undefined` and `null` are both `None`; both keys are absent from the table.
  - Numeric strings and other JSON values for `to` or `content` are not modelled.
  - The history endpoint's URL parameters are integers, which stands in for SQLite's type affinity.
- `Backend.History`: equal timestamps come out in the order of a stable insertion sort. The contract promises only sortedness and the exact multiset, because SQLite does not fix that order.
- The page's `handleRegister`, `handleLogin` and `changeView` are not modelled. They are `fetch`, `alert` and `pushState` plumbing; the decisions they show are the server's `Register` and `Login`.
- Backend.Server.PrivateMessage: what follows an uncaught exception is not modelled. Both the TypeError on a missing event and the database's unhandled `'error'` event may terminate the Node process. The model only reports them as the run's `SendOutcome` and keeps the server state.
- Client.ChatClient.SelectUser: the selection is compared by value, where React compares object references. Clicking an entry equal to, but not identical with, the selected one (after a user-list refetch) would in React re-run the effect and empty the list.
- The page's socket set-up and teardown on user change is not modelled. `connected` stands for `socketRef.current`.
