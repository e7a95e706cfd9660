/** The chat backend: the socket handshake, the presence table `socketsByUser`,
    the `private_message` and `disconnect` handlers, the conversation-history
    query, and the register/login decisions. Each handler runs as one atomic
    step; emits are appends to a socket's outbox. */
module Backend {
  import opened Wrappers
  import opened Seqs
  import Js
  import Db

  type UserId = Db.UserId
  type Token = string
  type MessageRow = Db.MessageRow

  /** The foreign capabilities: bcrypt and JWT, as uninterpreted functions. */
  datatype Crypto = Crypto(
    hash: string -> string,               // bcrypt.hash(password, 10)
    compare: (string, string) -> bool,    // bcrypt.compare(password, hash)
    sign: UserId -> Token,                // jwt.sign({ id }, SECRET)
    verify: Token -> Option<UserId>)      // jwt.verify(token, SECRET).id, or a throw

  /** The `private_message` event a client sends. Any field may be absent;
      `timestamp` stands for whatever time the client claims, which the
      server never reads. */
  datatype ClientMessage = ClientMessage(to: Option<UserId>, content: Option<string>, timestamp: Option<int>)

  /** The `private_message` payload the server emits. */
  datatype Payload = Payload(fromId: UserId, toId: Option<UserId>, content: Option<string>, timestamp: int)

  datatype AuthOutcome = Admitted(userId: UserId) | AuthError

  /** How a `private_message` handler run ends: normally, with a TypeError
      from destructuring a missing event (nothing happened), or with the
      emits done and the rejected insert's error left unhandled. */
  datatype SendOutcome = Completed | ThrewTypeError | UnhandledInsertError

  /** HTTP answer of the account endpoints. */
  datatype Response = Ok(id: nat, name: string, email: string, token: Token) | Error(status: nat, error: string)

  // ---------------------------------------------------------------- handshake

  /** The `io.use` middleware: a missing or empty token, or one the verifier
      refuses, is an `auth error`; otherwise the connection carries the id in
      the token's payload. */
  function Authenticate(token: Option<Token>, crypto: Crypto): (r: AuthOutcome)
    ensures r.AuthError? <==> !Js.Truthy(token) || crypto.verify(token.value).None?
    ensures r.Admitted? ==> crypto.verify(token.value) == Some(r.userId)
  {
    if !Js.Truthy(token) then AuthError
    else match crypto.verify(token.value)
      case Some(id) => Admitted(id)
      case None => AuthError
  }

  // ---------------------------------------------------------------- history

  predicate InPair(m: MessageRow, a: UserId, b: UserId) {
    (m.fields.fromId == a && m.fields.toId == b) || (m.fields.fromId == b && m.fields.toId == a)
  }

  ghost predicate SortedByTimestamp(s: seq<MessageRow>) {
    forall i, j :: 0 <= i < j < |s| ==> s[i].fields.timestamp <= s[j].fields.timestamp
  }

  /** Insert `m` before the first row that is not earlier than it. */
  function InsertByTimestamp(m: MessageRow, s: seq<MessageRow>): (r: seq<MessageRow>)
    requires SortedByTimestamp(s)
    ensures SortedByTimestamp(r)
    ensures multiset(r) == multiset(s) + multiset{m}
    ensures r[0] == m || (s != [] && r[0] == s[0])
  {
    if s == [] || m.fields.timestamp <= s[0].fields.timestamp then
      SortedCons(m, s);
      [m] + s
    else
      SortedTail(s);
      var rest := InsertByTimestamp(m, s[1..]);
      assert s == [s[0]] + s[1..];
      SortedCons(s[0], rest);
      [s[0]] + rest
  }

  /** A row no later than the head of a sorted list can go in front of it. */
  lemma SortedCons(x: MessageRow, t: seq<MessageRow>)
    requires SortedByTimestamp(t)
    requires t == [] || x.fields.timestamp <= t[0].fields.timestamp
    ensures SortedByTimestamp([x] + t)
  {
    var r := [x] + t;
    forall i, j | 0 <= i < j < |r| ensures r[i].fields.timestamp <= r[j].fields.timestamp {
      if i == 0 {
        assert r[j] == t[j - 1];
        assert t[0].fields.timestamp <= t[j - 1].fields.timestamp;
      } else {
        assert r[i] == t[i - 1] && r[j] == t[j - 1];
      }
    }
  }

  lemma SortedTail(s: seq<MessageRow>)
    requires SortedByTimestamp(s) && s != []
    ensures SortedByTimestamp(s[1..])
  {
    forall i, j | 0 <= i < j < |s| - 1 ensures s[1..][i].fields.timestamp <= s[1..][j].fields.timestamp {
      assert s[1..][i] == s[i + 1] && s[1..][j] == s[j + 1];
    }
  }

  /** `ORDER BY timestamp ASC`: a sorted permutation of the selected rows. */
  function SortByTimestamp(s: seq<MessageRow>): (r: seq<MessageRow>)
    ensures SortedByTimestamp(r)
    ensures multiset(r) == multiset(s)
  {
    if s == [] then []
    else
      assert s == [s[0]] + s[1..];
      InsertByTimestamp(s[0], SortByTimestamp(s[1..]))
  }

  /** `GET /api/messages/:userA/:userB`: the messages of the unordered pair,
      oldest first. */
  function History(rows: seq<MessageRow>, a: UserId, b: UserId): (r: seq<MessageRow>)
    ensures SortedByTimestamp(r)
    ensures multiset(r) == multiset(Filter(rows, m => InPair(m, a, b)))
  {
    SortByTimestamp(Filter(rows, m => InPair(m, a, b)))
  }

  /** The history of (a, b) holds exactly the pair's messages, each as often as
      it was stored. */
  lemma HistoryExact(rows: seq<MessageRow>, a: UserId, b: UserId, m: MessageRow)
    ensures multiset(History(rows, a, b))[m] == if InPair(m, a, b) then multiset(rows)[m] else 0
    ensures m in History(rows, a, b) <==> m in rows && InPair(m, a, b)
  {
    FilterCount(rows, m => InPair(m, a, b), m);
  }

  /** Swapping the two users gives the same conversation. */
  lemma HistorySymmetric(rows: seq<MessageRow>, a: UserId, b: UserId)
    ensures History(rows, a, b) == History(rows, b, a)
  {
    FilterCongruent(rows, m => InPair(m, a, b), m => InPair(m, b, a));
  }

  /** A stored message joins the history of its pair and no other. */
  lemma HistoryAfterAppend(rows: seq<MessageRow>, m: MessageRow, a: UserId, b: UserId)
    ensures multiset(History(rows + [m], a, b))
         == multiset(History(rows, a, b)) + (if InPair(m, a, b) then multiset{m} else multiset{})
  {
    FilterAppend(rows, [m], x => InPair(x, a, b));
  }

  // ---------------------------------------------------------------- accounts

  datatype RegisterOutcome = RegisterOutcome(response: Response, users: Db.Table<Db.UserFields>)

  /** `POST /api/register`. */
  function Register(users: Db.Table<Db.UserFields>, name: Option<string>, email: Option<string>,
                    password: Option<string>, crypto: Crypto): (r: RegisterOutcome)
    ensures !Js.Truthy(name) || !Js.Truthy(email) || !Js.Truthy(password) ==>
              r == RegisterOutcome(Error(400, "missing"), users)
    ensures Js.Truthy(name) && Js.Truthy(email) && Js.Truthy(password) && Db.EmailTaken(users, email.value) ==>
              r == RegisterOutcome(Error(400, "exists"), users)
    ensures r.response.Ok? <==>
              Js.Truthy(name) && Js.Truthy(email) && Js.Truthy(password) && !Db.EmailTaken(users, email.value)
    ensures r.response.Ok? ==>
              && r.response == Ok(users.lastId + 1, name.value, email.value, crypto.sign(users.lastId + 1))
              && r.users.lastId == users.lastId + 1
              && r.users.rows == users.rows + [Db.Row(r.response.id, Db.UserFields(name.value, email.value, crypto.hash(password.value)))]
  {
    if !Js.Truthy(name) || !Js.Truthy(email) || !Js.Truthy(password) then
      RegisterOutcome(Error(400, "missing"), users)
    else
      var hash := crypto.hash(password.value);
      match Db.InsertUser(users, name, email, Some(hash))
      case Rejected(_) => RegisterOutcome(Error(400, "exists"), users)
      case Inserted(t, id) => RegisterOutcome(Ok(id, name.value, email.value, crypto.sign(id)), t)
  }

  /** `POST /api/login`. Despite its comment, it never creates an account:
      the result is only a response. */
  function Login(users: Db.Table<Db.UserFields>, email: Option<string>, password: Option<string>,
                 crypto: Crypto): (r: Response)
    ensures !Js.Truthy(email) || !Js.Truthy(password) ==> r == Error(400, "missing")
    ensures Js.Truthy(email) && Js.Truthy(password) ==>
              (r == Error(404, "not_found") <==> !Db.EmailTaken(users, email.value))
    ensures Js.Truthy(email) && Js.Truthy(password) && Db.FindByEmail(users.rows, email.value).Some? ==>
              var row := Db.FindByEmail(users.rows, email.value).value;
              && (r.Ok? <==> crypto.compare(password.value, row.fields.password))
              && (!r.Ok? ==> r == Error(401, "invalid"))
    ensures r.Ok? ==>
              exists i :: && 0 <= i < |users.rows|
                          && users.rows[i].fields.email == email.value
                          && crypto.compare(password.value, users.rows[i].fields.password)
                          && r == Ok(users.rows[i].id, users.rows[i].fields.name, email.value, crypto.sign(users.rows[i].id))
  {
    if !Js.Truthy(email) || !Js.Truthy(password) then Error(400, "missing")
    else match Db.FindByEmail(users.rows, email.value)
      case None => Error(404, "not_found")
      case Some(row) =>
        if !crypto.compare(password.value, row.fields.password) then Error(401, "invalid")
        else Ok(row.id, row.fields.name, row.fields.email, crypto.sign(row.id))
  }

  /** A wrong password for an existing e-mail is `invalid`. */
  lemma LoginWrongPassword(users: Db.Table<Db.UserFields>, k: nat, password: string, crypto: Crypto)
    requires Db.EmailsUnique(users)
    requires k < |users.rows| && users.rows[k].fields.email != "" && password != ""
    requires !crypto.compare(password, users.rows[k].fields.password)
    ensures Login(users, Some(users.rows[k].fields.email), Some(password), crypto) == Error(401, "invalid")
  {
    Db.FindByEmailUnique(users.rows, k);
  }

  /** The right password for a registered e-mail logs in as that user. */
  lemma LoginRightPassword(users: Db.Table<Db.UserFields>, k: nat, password: string, crypto: Crypto)
    requires Db.EmailsUnique(users)
    requires k < |users.rows| && users.rows[k].fields.email != "" && password != ""
    requires crypto.compare(password, users.rows[k].fields.password)
    ensures Login(users, Some(users.rows[k].fields.email), Some(password), crypto)
         == Ok(users.rows[k].id, users.rows[k].fields.name, users.rows[k].fields.email, crypto.sign(users.rows[k].id))
  {
    Db.FindByEmailUnique(users.rows, k);
  }

  /** The token a registration answers with admits its holder as the new
      user, when JWT verification inverts signing. */
  lemma RegisteredTokenAdmits(users: Db.Table<Db.UserFields>, name: Option<string>, email: Option<string>,
                              password: Option<string>, crypto: Crypto)
    requires forall id :: crypto.sign(id) != "" && crypto.verify(crypto.sign(id)) == Some(id)
    requires Register(users, name, email, password, crypto).response.Ok?
    ensures var resp := Register(users, name, email, password, crypto).response;
            Authenticate(Some(resp.token), crypto) == Admitted(resp.id)
  {
  }

  /** Registering and then logging in with the same credentials answers with
      the same account and token, when bcrypt accepts its own hash. */
  lemma RegisterThenLogin(db: Db.Database, name: string, email: string, password: string, crypto: Crypto)
    requires Db.Valid(db)
    requires crypto.compare(password, crypto.hash(password))
    requires Register(db.users, Some(name), Some(email), Some(password), crypto).response.Ok?
    ensures var reg := Register(db.users, Some(name), Some(email), Some(password), crypto);
            Login(reg.users, Some(email), Some(password), crypto) == reg.response
  {
    var reg := Register(db.users, Some(name), Some(email), Some(password), crypto);
    Db.InsertUserKeepsValid(db, Some(name), Some(email), Some(crypto.hash(password)));
    assert reg.users == Db.InsertUser(db.users, Some(name), Some(email), Some(crypto.hash(password))).table;
    Db.FindByEmailUnique(reg.users.rows, |reg.users.rows| - 1);
  }

  // ---------------------------------------------------------------- sockets

  /** One socket.io connection: the handshake token, the `userId` the
      middleware attaches, and the `private_message` payloads emitted to it. */
  class Socket {
    const token: Option<Token>
    var userId: Option<UserId>
    var outbox: seq<Payload>

    /** `socket.emit('private_message', p)`: the payload is queued on this
        connection. */
    method Emit(p: Payload)
      modifies this`outbox
      ensures outbox == old(outbox) + [p]
    {
      outbox := outbox + [p];
    }

    constructor (token: Option<Token>)
      ensures this.token == token && userId == None && outbox == []
    {
      this.token := token;
      userId := None;
      outbox := [];
    }
  }

  /** The database and the presence table `socketsByUser`. */
  class Server {
    var db: Db.Database
    var socketsByUser: map<string, Socket>

    /** The database invariants, and every presence entry is keyed by
        `String(userId)` of its own socket. */
    ghost predicate Valid()
      reads this, socketsByUser.Values`userId
    {
      Db.Valid(db) && Keyed()
    }

    /** Every presence entry is keyed by `String(userId)` of its own socket. */
    ghost predicate Keyed()
      reads this`socketsByUser, socketsByUser.Values`userId
    {
      forall k :: k in socketsByUser ==>
        socketsByUser[k].userId.Some? && k == Js.IntToString(socketsByUser[k].userId.value)
    }

    /** Start-up: the tables are created, nobody is online. */
    constructor (users: Option<Db.Table<Db.UserFields>>, messages: Option<Db.Table<Db.MessageFields>>)
      requires users.Some? ==> Db.IdsIncreasing(users.value) && Db.EmailsUnique(users.value)
      requires messages.Some? ==> Db.IdsIncreasing(messages.value)
      ensures Valid()
      ensures db == Db.Initialize(users, messages) && socketsByUser == map[]
    {
      db := Db.Initialize(users, messages);
      socketsByUser := map[];
    }

    /** The `connection` handler: last writer wins for the user's key. */
    method Connect(socket: Socket)
      requires Valid() && socket.userId.Some?
      modifies this`socketsByUser
      ensures Valid()
      ensures socketsByUser == old(socketsByUser)[Js.IntToString(socket.userId.value) := socket]
    {
      socketsByUser := socketsByUser[Js.IntToString(socket.userId.value) := socket];
    }

    /** The handshake middleware followed, on success, by `connection`.
        A refused socket gets no `userId` and never reaches the table. */
    method Admit(socket: Socket, crypto: Crypto) returns (outcome: AuthOutcome)
      requires Valid() && socket.userId.None? && socket !in socketsByUser.Values
      modifies this`socketsByUser, socket`userId
      ensures Valid()
      ensures outcome == Authenticate(socket.token, crypto)
      ensures outcome.AuthError? ==> socket.userId.None? && socketsByUser == old(socketsByUser)
      ensures outcome.Admitted? ==>
                && socket.userId == Some(outcome.userId)
                && socketsByUser == old(socketsByUser)[Js.IntToString(outcome.userId) := socket]
    {
      outcome := Authenticate(socket.token, crypto);
      if outcome.Admitted? {
        socket.userId := Some(outcome.userId);
        Connect(socket);
      }
    }

    /** `socketsByUser.get(String(to))`: the socket registered under the
        recipient's key, if any. */
    function Recipient(to: Option<UserId>): (r: Option<Socket>)
      reads this`socketsByUser
      ensures r.Some? <==> Js.KeyOf(to) in socketsByUser
      ensures r.Some? ==> r.value in socketsByUser.Values && socketsByUser[Js.KeyOf(to)] == r.value
    {
      var key := Js.KeyOf(to);
      if key in socketsByUser then Some(socketsByUser[key]) else None
    }

    /** The lookup only ever finds the addressed user's own socket, and never
        one for a missing `to`. */
    lemma RecipientIsAddressee(to: Option<UserId>)
      requires Valid()
      ensures Recipient(to).Some? ==> to.Some? && Recipient(to).value.userId == to
    {
      var key := Js.KeyOf(to);
      if key in socketsByUser {
        var id := socketsByUser[key].userId.value;
        match to
        case None =>
          Js.MissingKeyIsNoUserKey(id);
        case Some(n) =>
          Js.IntToStringInjective(n, id);
      }
    }

    /** The `private_message` handler. Destructuring a missing event throws
        a TypeError before anything happens. Otherwise the insert is
        fire-and-forget: the payload goes to the recipient's registered
        socket, if there is one, and back to the sender, whether or not the
        row was written; a rejected insert then surfaces as an `'error'`
        event of the database that nothing listens to. */
    method PrivateMessage(socket: Socket, event: Option<ClientMessage>, now: int) returns (outcome: SendOutcome)
      requires Valid() && socket.userId.Some?
      modifies this`db, socket`outbox, socketsByUser.Values`outbox
      ensures Valid()
      ensures socketsByUser == old(socketsByUser)
      ensures db.users == old(db.users)
      ensures event.None? ==>
                && outcome == ThrewTypeError
                && db == old(db)
                && socket.outbox == old(socket.outbox)
                && forall s :: s in socketsByUser.Values ==> s.outbox == old(s.outbox)
      ensures event.Some? ==>
                var r := Db.InsertMessage(old(db.messages), socket.userId, event.value.to, event.value.content, Some(now));
                && db.messages == (if r.Inserted? then r.table else old(db.messages))
                && outcome == (if r.Inserted? then Completed else UnhandledInsertError)
      ensures event.Some? ==>
                var p := Payload(socket.userId.value, event.value.to, event.value.content, now);
                match old(Recipient(event.value.to))
                case None =>
                  socket.outbox == old(socket.outbox) + [p]
                case Some(peer) =>
                  if peer == socket then socket.outbox == old(socket.outbox) + [p, p]
                  else peer.outbox == old(peer.outbox) + [p] && socket.outbox == old(socket.outbox) + [p]
      ensures event.Some? ==>
                forall s :: s in socketsByUser.Values && s != socket && Some(s) != Recipient(event.value.to) ==>
                  s.outbox == old(s.outbox)
    {
      if event.None? {
        return ThrewTypeError;
      }
      var msg := event.value;
      var from := socket.userId.value;
      var r := Db.InsertMessage(db.messages, socket.userId, msg.to, msg.content, Some(now));
      if r.Inserted? {
        Db.InsertMessageKeepsValid(db, socket.userId, msg.to, msg.content, Some(now));
        db := db.(messages := r.table);
      }
      assert Db.Valid(db);
      var out := Payload(from, msg.to, msg.content, now);
      var peer := Recipient(msg.to);
      if peer.Some? {
        peer.value.Emit(out);
      }
      socket.Emit(out);
      outcome := if r.Inserted? then Completed else UnhandledInsertError;
    }

    /** The `disconnect` handler: removes the user's key whatever socket it
        holds now, even a newer one. */
    method Disconnect(socket: Socket)
      requires Valid() && socket.userId.Some?
      modifies this`socketsByUser
      ensures Valid()
      ensures socketsByUser == old(socketsByUser) - {Js.IntToString(socket.userId.value)}
    {
      socketsByUser := socketsByUser - {Js.IntToString(socket.userId.value)};
    }

    /** The register endpoint's effect on the users table. */
    method HandleRegister(name: Option<string>, email: Option<string>, password: Option<string>,
                          crypto: Crypto) returns (response: Response)
      requires Valid()
      modifies this`db
      ensures Valid()
      ensures db.messages == old(db.messages)
      ensures RegisterOutcome(response, db.users) == Register(old(db.users), name, email, password, crypto)
    {
      var r := Register(db.users, name, email, password, crypto);
      if r.response.Ok? {
        Db.InsertUserKeepsValid(db, name, email, Some(crypto.hash(password.value)));
      }
      db := db.(users := r.users);
      response := r.response;
    }
  }

  // ---------------------------------------------------------------- properties

  /** A stored row and the emitted payload agree on every shared field, and
      the timestamp is the server's, whatever the client claimed. */
  lemma PayloadMatchesRow(t: Db.Table<Db.MessageFields>, from: UserId, msg: ClientMessage, now: int)
    ensures var r := Db.InsertMessage(t, Some(from), msg.to, msg.content, Some(now));
            r.Inserted? ==>
              var row := r.table.rows[|r.table.rows| - 1].fields;
              var p := Payload(from, msg.to, msg.content, now);
              && Some(row.toId) == p.toId && row.fromId == p.fromId
              && Some(row.content) == p.content && row.timestamp == p.timestamp == now
  {
  }

  /** The server has no empty-content check: any present content, the empty
      string and blank text included, is stored like any other. */
  lemma BlankContentIsStored(t: Db.Table<Db.MessageFields>, from: UserId, to: UserId, content: string, now: int)
    ensures var r := Db.InsertMessage(t, Some(from), Some(to), Some(content), Some(now));
            r.Inserted? && r.table.rows[|r.table.rows| - 1].fields.content == content
  {
  }
}
