/** Runs of several handlers in a row, proved from the handlers' contracts
    alone. */
module Scenarios {
  import opened Wrappers
  import opened Seqs
  import Js
  import Db
  import Backend

  /** The verifier of a server whose tokens "t1" and "t2" belong to users 1
      and 2. */
  function Tokens(t: Backend.Token): Option<Db.UserId> {
    if t == "t1" then Some(1) else if t == "t2" then Some(2) else None
  }

  /** That server's capabilities; only `verify` matters to the sockets. */
  const Jwt := Backend.Crypto(p => p, (p, h) => p == h, id => if id == 2 then "t2" else "t1", Tokens)

  /** User 1 writes "hi" to user 2 while 2 is offline: the sender gets the
      echo, and when user 2 later comes online the history holds the message. */
  method OfflineCatchUp(now: int) returns (echo: seq<Backend.Payload>, recipientInbox: seq<Backend.Payload>,
                                           history: seq<Db.MessageRow>)
    ensures echo == [Backend.Payload(1, Some(2), Some("hi"), now)]
    ensures recipientInbox == []
    ensures history == [Db.Row(1, Db.MessageFields(1, 2, "hi", now))]
  {
    var server := new Backend.Server(None, None);
    var alice := new Backend.Socket(Some("t1"));
    assert Js.IntToString(1) == "1" && Js.IntToString(2) == "2";
    var outcome := server.Admit(alice, Jwt);
    assert server.socketsByUser == map["1" := alice];
    assert server.Recipient(Some(2)) == None;
    var row := Db.Row(1, Db.MessageFields(1, 2, "hi", now));
    assert server.db.messages == Db.Table([], 0) && alice.userId == Some(1);
    ghost var stored := Db.InsertMessage(server.db.messages, Some(1), Some(2), Some("hi"), Some(now));
    assert stored.Inserted? && stored.table.rows == [row];
    var sent := server.PrivateMessage(alice, Some(Backend.ClientMessage(Some(2), Some("hi"), Some(0))), now);
    echo := alice.outbox;
    assert echo == [Backend.Payload(1, Some(2), Some("hi"), now)];
    assert server.db.messages.rows == [row];
    assert Tokens("t2") == Some(2);
    recipientInbox, history := ConnectAndLoad(server, "t2", 1);
    HistoryOfOne(row, 2, 1);
  }

  /** A user connects with `token` and loads the conversation with `peer`:
      nothing is waiting on the new connection, and the history is read from
      the stored table. */
  method ConnectAndLoad(server: Backend.Server, token: Backend.Token, peer: Db.UserId)
    returns (inbox: seq<Backend.Payload>, history: seq<Db.MessageRow>)
    requires server.Valid()
    modifies server`socketsByUser
    ensures server.db == old(server.db)
    ensures inbox == []
    ensures Tokens(token).Some? ==> history == Backend.History(server.db.messages.rows, Tokens(token).value, peer)
  {
    var socket := new Backend.Socket(Some(token));
    var outcome := server.Admit(socket, Jwt);
    inbox := socket.outbox;
    history := if outcome.Admitted? then Backend.History(server.db.messages.rows, outcome.userId, peer) else [];
  }

  /** A table holding one message of the pair has that message as its
      history. */
  lemma HistoryOfOne(row: Db.MessageRow, a: Db.UserId, b: Db.UserId)
    requires Backend.InPair(row, a, b)
    ensures Backend.History([row], a, b) == [row]
  {
    var h := Backend.History([row], a, b);
    assert Filter([row], m => Backend.InPair(m, a, b)) == [row];
    assert multiset(h) == multiset{row};
    assert |h| == 1;
    assert h[0] in multiset(h);
  }

  /** A user connects twice and the first connection closes: the user is
      offline although the second connection is still open, so a message to
      the user has no recipient socket and reaches only its sender. */
  method SupersededDisconnect() returns (online: bool, recipient: Option<Backend.Socket>)
    ensures !online
    ensures recipient == None
  {
    var server := new Backend.Server(None, None);
    var first := new Backend.Socket(Some("t2"));
    var outcome := server.Admit(first, Jwt);
    var second := new Backend.Socket(Some("t2"));
    outcome := server.Admit(second, Jwt);
    assert server.socketsByUser[Js.IntToString(2)] == second;
    server.Disconnect(first);
    online := Js.IntToString(2) in server.socketsByUser;
    recipient := server.Recipient(Some(2));
  }

  /** A message to oneself is delivered once as the recipient's copy and once
      as the echo. */
  method SelfMessage(now: int) returns (inbox: seq<Backend.Payload>)
    ensures inbox == [Backend.Payload(1, Some(1), Some("note"), now), Backend.Payload(1, Some(1), Some("note"), now)]
  {
    var server := new Backend.Server(None, None);
    var me := new Backend.Socket(Some("t1"));
    var outcome := server.Admit(me, Jwt);
    var sent := server.PrivateMessage(me, Some(Backend.ClientMessage(Some(1), Some("note"), None)), now);
    inbox := me.outbox;
  }

  /** A connection without a token, or with one the verifier refuses, is
      turned away and registers nobody. */
  method AuthGate(token: Option<Backend.Token>) returns (outcome: Backend.AuthOutcome, registered: bool)
    requires token.None? || token == Some("") || token == Some("forged")
    ensures outcome == Backend.AuthError && !registered
  {
    var server := new Backend.Server(None, None);
    var s := new Backend.Socket(token);
    outcome := server.Admit(s, Jwt);
    registered := s in server.socketsByUser.Values;
  }

  /** A message without a recipient is echoed but not stored, since `to_id`
      is NOT NULL; the rejected insert is left unhandled. */
  method MissingRecipient(now: int) returns (echo: seq<Backend.Payload>, stored: nat, outcome: Backend.SendOutcome)
    ensures echo == [Backend.Payload(1, None, Some("x"), now)]
    ensures stored == 0
    ensures outcome == Backend.UnhandledInsertError
  {
    var server := new Backend.Server(None, None);
    var me := new Backend.Socket(Some("t1"));
    var admitted := server.Admit(me, Jwt);
    Js.MissingKeyIsNoUserKey(1);
    outcome := server.PrivateMessage(me, Some(Backend.ClientMessage(None, Some("x"), None)), now);
    echo := me.outbox;
    stored := |server.db.messages.rows|;
  }

  /** An event sent without a message object throws before anything is
      stored or emitted. */
  method MissingEvent(now: int) returns (echo: seq<Backend.Payload>, stored: nat, outcome: Backend.SendOutcome)
    ensures echo == [] && stored == 0
    ensures outcome == Backend.ThrewTypeError
  {
    var server := new Backend.Server(None, None);
    var me := new Backend.Socket(Some("t1"));
    var admitted := server.Admit(me, Jwt);
    outcome := server.PrivateMessage(me, None, now);
    echo := me.outbox;
    stored := |server.db.messages.rows|;
  }
}
