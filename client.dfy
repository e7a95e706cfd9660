/** The chat page: the send guard, the incoming-message append, the
    conversation filter, the self-exclusion of the user list, the history
    reload on selection and the back-button fallback. */
module Client {
  import opened Wrappers
  import opened Seqs
  import Js
  import Db
  import Backend

  type UserId = Db.UserId

  /** The logged-in account as the login or register response gave it. */
  datatype Account = Account(id: UserId, name: string, email: string, token: Backend.Token)

  /** An entry of `GET /api/users`. */
  datatype UserInfo = UserInfo(id: UserId, name: string, email: string)

  /** The `private_message` event this page emits. */
  datatype SendEvent = SendEvent(to: UserId, content: string)

  /** `event.state` of a `popstate` event: `null`, or an object whose `view`
      may be missing. */
  datatype NavState = NavState(view: Option<string>)

  // ---------------------------------------------------------------- trim

  /** The characters `String.prototype.trim` removes: white space and line
      terminators. */
  predicate IsTrimmed(c: char) {
    var n := c as int;
    n == 0x09 || n == 0x0A || n == 0x0B || n == 0x0C || n == 0x0D || n == 0x20
    || n == 0xA0 || n == 0x1680 || (0x2000 <= n <= 0x200A) || n == 0x2028 || n == 0x2029
    || n == 0x202F || n == 0x205F || n == 0x3000 || n == 0xFEFF
  }

  /** Drops the leading white space: what is removed is all trimmed
      characters, and what is kept does not start with one. */
  function TrimStart(s: string): (r: string)
    ensures |r| <= |s| && r == s[|s| - |r|..]
    ensures AllTrimmed(s[..|s| - |r|])
    ensures r == [] || !IsTrimmed(r[0])
  {
    if s != [] && IsTrimmed(s[0]) then
      var r := TrimStart(s[1..]);
      assert s[..|s| - |r|] == [s[0]] + s[1..][..|s[1..]| - |r|];
      r
    else s
  }

  /** Drops the trailing white space: what is removed is all trimmed
      characters, and what is kept does not end with one. */
  function TrimEnd(s: string): (r: string)
    ensures |r| <= |s| && r == s[..|r|]
    ensures AllTrimmed(s[|r|..])
    ensures r == [] || !IsTrimmed(r[|r| - 1])
  {
    if s != [] && IsTrimmed(s[|s| - 1]) then
      var p := s[..|s| - 1];
      var r := TrimEnd(p);
      assert s[|r|..] == p[|r|..] + [s[|s| - 1]];
      r
    else s
  }

  /** `String.prototype.trim`: a middle slice of `s` with only trimmed
      characters cut off on either side, that neither starts nor ends with a
      trimmed character. */
  function Trim(s: string): (r: string)
    ensures exists i, j :: 0 <= i <= j <= |s| && r == s[i..j] && AllTrimmed(s[..i]) && AllTrimmed(s[j..])
    ensures r == [] || (!IsTrimmed(r[0]) && !IsTrimmed(r[|r| - 1]))
  {
    var t := TrimStart(s);
    var r := TrimEnd(t);
    TrimmedBothEnds(s, t, r);
    r
  }

  /** Cutting white space off the front of `s` to get `t`, and then off the
      back of `t` to get `r`, leaves a middle slice of `s`. */
  lemma TrimmedBothEnds(s: string, t: string, r: string)
    requires |t| <= |s| && t == s[|s| - |t|..] && AllTrimmed(s[..|s| - |t|])
    requires |r| <= |t| && r == t[..|r|] && AllTrimmed(t[|r|..])
    ensures exists i, j :: 0 <= i <= j <= |s| && r == s[i..j] && AllTrimmed(s[..i]) && AllTrimmed(s[j..])
  {
    var i, j := |s| - |t|, |s| - |t| + |r|;
    assert r == s[i..j];
    assert s[j..] == t[|r|..];
  }

  /** Every character of `s` is one `trim` removes. */
  ghost predicate AllTrimmed(s: string) {
    forall i :: 0 <= i < |s| ==> IsTrimmed(s[i])
  }

  lemma {:induction false} TrimStartEmpty(s: string)
    ensures TrimStart(s) == [] <==> AllTrimmed(s)
  {
    if s != [] && IsTrimmed(s[0]) {
      TrimStartEmpty(s[1..]);
      assert AllTrimmed(s[1..]) ==> AllTrimmed(s) by {
        if AllTrimmed(s[1..]) {
          forall i | 0 <= i < |s| ensures IsTrimmed(s[i]) {
            if i > 0 { assert s[i] == s[1..][i - 1]; }
          }
        }
      }
    }
  }

  lemma {:induction false} TrimEndEmpty(s: string)
    ensures TrimEnd(s) == [] <==> AllTrimmed(s)
  {
    if s != [] && IsTrimmed(s[|s| - 1]) {
      TrimEndEmpty(s[..|s| - 1]);
      assert AllTrimmed(s[..|s| - 1]) ==> AllTrimmed(s) by {
        if AllTrimmed(s[..|s| - 1]) {
          forall i | 0 <= i < |s| ensures IsTrimmed(s[i]) {
            if i < |s| - 1 { assert s[i] == s[..|s| - 1][i]; }
          }
        }
      }
    }
  }

  /** What `TrimStart` cuts off is white space, so the input is all white
      space exactly when what it keeps is. */
  lemma TrimStartKeepsTrimmed(s: string)
    ensures AllTrimmed(s) <==> AllTrimmed(TrimStart(s))
  {
    var r := TrimStart(s);
    var k := |s| - |r|;
    assert AllTrimmed(s[..k]);
    forall i | 0 <= i < |r| ensures r[i] == s[k + i] { }
    if AllTrimmed(r) {
      forall i | 0 <= i < |s| ensures IsTrimmed(s[i]) {
        if i < k { assert s[i] == s[..k][i]; } else { assert s[i] == r[i - k]; }
      }
    }
  }

  /** `!inputMsg.trim()` holds exactly when the input is only white space
      (or empty). */
  lemma BlankIffAllWhitespace(s: string)
    ensures Trim(s) == [] <==> AllTrimmed(s)
  {
    TrimEndEmpty(TrimStart(s));
    TrimStartKeepsTrimmed(s);
  }

  // ---------------------------------------------------------------- filters

  /** `(m.from_id === me && m.to_id === sel) || (m.from_id === sel && m.to_id === me)`,
      where `me` is `user?.id` and `sel` is `selectedUser?.id`, either of which
      may be `undefined`. */
  predicate InChat(m: Backend.Payload, me: Option<UserId>, sel: Option<UserId>) {
    (Some(m.fromId) == me && m.toId == sel) || (Some(m.fromId) == sel && m.toId == me)
  }

  /** `currentChatMessages`. */
  function CurrentChat(messages: seq<Backend.Payload>, me: Option<UserId>, sel: Option<UserId>): (r: seq<Backend.Payload>)
    ensures |r| <= |messages|
    ensures forall m :: m in r ==> m in messages && InChat(m, me, sel)
  {
    Filter(messages, m => InChat(m, me, sel))
  }

  /** The shown conversation is the order-preserving subsequence of the
      messages between the two users, each kept as often as it arrived. */
  lemma CurrentChatSpec(messages: seq<Backend.Payload>, me: Option<UserId>, sel: Option<UserId>, m: Backend.Payload)
    ensures SubsequenceOf(CurrentChat(messages, me, sel), messages)
    ensures multiset(CurrentChat(messages, me, sel))[m] == if InChat(m, me, sel) then multiset(messages)[m] else 0
  {
    FilterIsSubsequence(messages, x => InChat(x, me, sel));
    FilterCount(messages, x => InChat(x, me, sel), m);
  }

  /** `msg.from_id === user.id` decides the bubble side. */
  predicate IsOwn(m: Backend.Payload, me: UserId) {
    m.fromId == me
  }

  /** In the open conversation, one's own messages are addressed to the
      selected user and every other message comes from the selected user to
      oneself. */
  lemma ChatSides(messages: seq<Backend.Payload>, me: UserId, sel: UserId, m: Backend.Payload)
    requires m in CurrentChat(messages, Some(me), Some(sel))
    ensures IsOwn(m, me) ==> m.toId == Some(sel)
    ensures !IsOwn(m, me) ==> m.fromId == sel && m.toId == Some(me)
  {
    FilterMembership(messages, x => InChat(x, Some(me), Some(sel)), m);
  }

  /** `data.filter(u => u.id !== user.id)`. */
  function OtherUsers(users: seq<UserInfo>, me: UserId): (r: seq<UserInfo>)
    ensures |r| <= |users|
    ensures forall u :: u in r ==> u in users && u.id != me
  {
    Filter(users, (u: UserInfo) => u.id != me)
  }

  /** The listed users are the fetched ones minus exactly the entries carrying
      one's own id, in the fetched order. */
  lemma OtherUsersSpec(users: seq<UserInfo>, me: UserId, u: UserInfo)
    ensures SubsequenceOf(OtherUsers(users, me), users)
    ensures u in OtherUsers(users, me) <==> u in users && u.id != me
    ensures multiset(OtherUsers(users, me))[u] == if u.id != me then multiset(users)[u] else 0
  {
    FilterIsSubsequence(users, (x: UserInfo) => x.id != me);
    FilterCount(users, (x: UserInfo) => x.id != me, u);
  }

  // ---------------------------------------------------------------- server agreement

  /** A history row as the page holds it (it never reads the row id). */
  function AsPayload(row: Db.MessageRow): Backend.Payload {
    Backend.Payload(row.fields.fromId, Some(row.fields.toId), Some(row.fields.content), row.fields.timestamp)
  }

  /** The page's conversation test and the server's pair test agree on every
      stored row. */
  lemma InChatIffInPair(row: Db.MessageRow, me: UserId, sel: UserId)
    ensures InChat(AsPayload(row), Some(me), Some(sel)) <==> Backend.InPair(row, me, sel)
  {
  }

  /** Filtering the stored rows on the page selects the same messages, in the
      same order, as the server's `WHERE` clause does. */
  lemma CurrentChatMatchesServerPair(rows: seq<Db.MessageRow>, me: UserId, sel: UserId)
    ensures CurrentChat(Map(rows, AsPayload), Some(me), Some(sel))
         == Map(Filter(rows, m => Backend.InPair(m, me, sel)), AsPayload)
  {
    var shown := (m: Backend.Payload) => InChat(m, Some(me), Some(sel));
    var pair := (m: Db.MessageRow) => Backend.InPair(m, me, sel);
    FilterMap(rows, AsPayload, shown, pair);
    assert CurrentChat(Map(rows, AsPayload), Some(me), Some(sel)) == Filter(Map(rows, AsPayload), shown);
    assert Filter(rows, m => Backend.InPair(m, me, sel)) == Filter(rows, pair);
  }

  /** Everything `GET /api/messages/me/sel` returns is shown, in the order it
      came. */
  lemma FetchedHistoryFullyShown(rows: seq<Db.MessageRow>, me: UserId, sel: UserId)
    ensures var h := Map(Backend.History(rows, me, sel), AsPayload);
            CurrentChat(h, Some(me), Some(sel)) == h
  {
    var hist := Backend.History(rows, me, sel);
    var h := Map(hist, AsPayload);
    forall i | 0 <= i < |h| ensures InChat(h[i], Some(me), Some(sel)) {
      Backend.HistoryExact(rows, me, sel, hist[i]);
      assert hist[i] in hist;
    }
    FilterAll(h, m => InChat(m, Some(me), Some(sel)));
  }

  // ---------------------------------------------------------------- page state

  class ChatClient {
    var view: string
    var user: Option<Account>
    var users: seq<UserInfo>
    var selectedUser: Option<UserInfo>
    var messages: seq<Backend.Payload>
    var inputMsg: string
    var connected: bool               // socketRef.current is set
    var emitted: seq<SendEvent>       // what socketRef.current.emit sent

    constructor ()
      ensures view == "login" && user == None && users == [] && selectedUser == None
      ensures messages == [] && inputMsg == "" && !connected && emitted == []
    {
      view := "login";
      user := None;
      users := [];
      selectedUser := None;
      messages := [];
      inputMsg := "";
      connected := false;
      emitted := [];
    }

    function Me(): Option<UserId>
      reads this
    {
      if user.Some? then Some(user.value.id) else None
    }

    function SelectedId(): Option<UserId>
      reads this
    {
      if selectedUser.Some? then Some(selectedUser.value.id) else None
    }

    function CurrentChatMessages(): seq<Backend.Payload>
      reads this
    {
      CurrentChat(messages, Me(), SelectedId())
    }

    /** `sendMessage`: refuses a blank input, a missing selection or a missing
        socket; otherwise emits the untrimmed text once and clears the input. */
    method SendMessage()
      modifies this`inputMsg, this`emitted
      ensures Trim(old(inputMsg)) == [] || selectedUser.None? || !connected ==>
                inputMsg == old(inputMsg) && emitted == old(emitted)
      ensures Trim(old(inputMsg)) != [] && selectedUser.Some? && connected ==>
                emitted == old(emitted) + [SendEvent(selectedUser.value.id, old(inputMsg))] && inputMsg == ""
    {
      if Trim(inputMsg) == [] || selectedUser.None? || !connected {
        return;
      }
      emitted := emitted + [SendEvent(selectedUser.value.id, inputMsg)];
      inputMsg := "";
    }

    /** The socket's `private_message` listener. */
    method ReceiveMessage(msg: Backend.Payload)
      modifies this`messages
      ensures messages == old(messages) + [msg]
      ensures CurrentChatMessages() == old(CurrentChatMessages())
                + (if InChat(msg, Me(), SelectedId()) then [msg] else [])
    {
      var me, sel := Me(), SelectedId();
      FilterAppend(messages, [msg], m => InChat(m, me, sel));
      messages := messages + [msg];
    }

    /** The `/api/users` response handler; it only runs with a user set. */
    method UsersFetched(data: seq<UserInfo>)
      requires user.Some?
      modifies this`users
      ensures users == OtherUsers(data, user.value.id)
    {
      users := OtherUsers(data, user.value.id);
    }

    /** Clicking a user: the selection is set; when it actually changes and
        a user is logged in, the selection effect empties the message list
        before the history is requested. */
    method SelectUser(u: UserInfo)
      modifies this`selectedUser, this`messages
      ensures selectedUser == Some(u)
      ensures messages == if user.Some? && old(selectedUser) != Some(u) then [] else old(messages)
    {
      var changed := selectedUser != Some(u);
      selectedUser := Some(u);
      if changed && user.Some? {
        messages := [];
      }
    }

    /** The `/api/messages` response handler: the fetched rows replace the
        list, dropping whatever arrived in between. */
    method HistoryFetched(data: seq<Backend.Payload>)
      modifies this`messages
      ensures messages == data
    {
      messages := data;
    }

    /** `handlePopState`. */
    method PopState(state: Option<NavState>)
      modifies this`view
      ensures state.Some? && Js.Truthy(state.value.view) ==> view == state.value.view.value
      ensures !(state.Some? && Js.Truthy(state.value.view)) ==> view == "login"
    {
      if state.Some? && Js.Truthy(state.value.view) {
        view := state.value.view.value;
      } else {
        view := "login";
      }
    }
  }

  /** A message this page emits always passes the server's NOT NULL checks,
      is stored with the untrimmed text, and is echoed back with the same
      fields. */
  lemma EmittedMessageIsStored(t: Db.Table<Db.MessageFields>, me: UserId, e: SendEvent, now: int)
    ensures var r := Db.InsertMessage(t, Some(me), Some(e.to), Some(e.content), Some(now));
            && r.Inserted?
            && r.table.rows[|r.table.rows| - 1].fields == Db.MessageFields(me, e.to, e.content, now)
            && AsPayload(r.table.rows[|r.table.rows| - 1]) == Backend.Payload(me, Some(e.to), Some(e.content), now)
  {
  }
}
