/** The SQLite schema of the chat backend: a `users` table and a `messages`
    table, both with `INTEGER PRIMARY KEY AUTOINCREMENT` ids, the NOT NULL
    columns, the UNIQUE e-mail, and `CREATE TABLE IF NOT EXISTS`.
    A table is an in-memory sequence of rows in insertion order. */
module Db {
  import opened Wrappers

  type UserId = int

  /** A row: the AUTOINCREMENT id and the row's other columns. */
  datatype Row<T> = Row(id: nat, fields: T)

  /** A table: its rows in insertion order and the largest id it ever handed
      out (SQLite's `sqlite_sequence` entry for the table). */
  datatype Table<T> = Table(rows: seq<Row<T>>, lastId: nat)

  /** `users (id, name TEXT NOT NULL, email TEXT UNIQUE NOT NULL, password TEXT NOT NULL)`;
      `password` holds the bcrypt hash. */
  datatype UserFields = UserFields(name: string, email: string, password: string)

  /** `messages (id, from_id INTEGER NOT NULL, to_id INTEGER NOT NULL,
      content TEXT NOT NULL, timestamp INTEGER NOT NULL)`. */
  datatype MessageFields = MessageFields(fromId: UserId, toId: UserId, content: string, timestamp: int)

  type UserRow = Row<UserFields>
  type MessageRow = Row<MessageFields>

  datatype Database = Database(users: Table<UserFields>, messages: Table<MessageFields>)

  datatype DbError = NotNullViolation | UniqueViolation

  datatype Insert<T> = Inserted(table: Table<T>, rowId: nat) | Rejected(error: DbError)

  /** AUTOINCREMENT: ids are positive, strictly increasing in insertion order,
      and never above the last id handed out. */
  ghost predicate IdsIncreasing<T>(t: Table<T>) {
    && (forall i, j :: 0 <= i < j < |t.rows| ==> t.rows[i].id < t.rows[j].id)
    && (forall i :: 0 <= i < |t.rows| ==> 1 <= t.rows[i].id <= t.lastId)
  }

  predicate EmailTaken(t: Table<UserFields>, email: string) {
    exists i :: 0 <= i < |t.rows| && t.rows[i].fields.email == email
  }

  /** UNIQUE email: at most one user per e-mail address. */
  ghost predicate EmailsUnique(t: Table<UserFields>) {
    forall i, j :: 0 <= i < j < |t.rows| ==> t.rows[i].fields.email != t.rows[j].fields.email
  }

  ghost predicate Valid(db: Database) {
    IdsIncreasing(db.users) && EmailsUnique(db.users) && IdsIncreasing(db.messages)
  }

  /** Append a row whose constraints hold: AUTOINCREMENT takes the id after the
      last one ever used. */
  function Append<T>(t: Table<T>, fields: T): Insert<T> {
    var id := t.lastId + 1;
    Inserted(Table(t.rows + [Row(id, fields)], id), id)
  }

  lemma AppendKeepsIdsIncreasing<T>(t: Table<T>, fields: T)
    requires IdsIncreasing(t)
    ensures Append(t, fields).Inserted?
    ensures IdsIncreasing(Append(t, fields).table)
    ensures forall i :: 0 <= i < |t.rows| ==> t.rows[i].id < Append(t, fields).rowId
  {
  }

  /** `INSERT INTO messages (from_id,to_id,content,timestamp) VALUES (?,?,?,?)`:
      a missing value violates NOT NULL and nothing is written. */
  function InsertMessage(t: Table<MessageFields>, fromId: Option<UserId>, toId: Option<UserId>,
                         content: Option<string>, timestamp: Option<int>): (r: Insert<MessageFields>)
    ensures r.Rejected? <==> fromId.None? || toId.None? || content.None? || timestamp.None?
    ensures r.Rejected? ==> r.error == NotNullViolation
    ensures r.Inserted? ==>
      && r.rowId == t.lastId + 1
      && r.table.lastId == r.rowId
      && r.table.rows == t.rows + [Row(r.rowId, MessageFields(fromId.value, toId.value, content.value, timestamp.value))]
  {
    if fromId.None? || toId.None? || content.None? || timestamp.None? then Rejected(NotNullViolation)
    else Append(t, MessageFields(fromId.value, toId.value, content.value, timestamp.value))
  }

  /** `INSERT INTO users (name,email,password) VALUES (?,?,?)`: NOT NULL is
      checked first, then the UNIQUE e-mail. */
  function InsertUser(t: Table<UserFields>, name: Option<string>, email: Option<string>,
                      password: Option<string>): (r: Insert<UserFields>)
    ensures r.Rejected? <==> name.None? || email.None? || password.None? || EmailTaken(t, email.value)
    ensures r.Inserted? ==>
      && r.rowId == t.lastId + 1
      && r.table.lastId == r.rowId
      && r.table.rows == t.rows + [Row(r.rowId, UserFields(name.value, email.value, password.value))]
  {
    if name.None? || email.None? || password.None? then Rejected(NotNullViolation)
    else if EmailTaken(t, email.value) then Rejected(UniqueViolation)
    else Append(t, UserFields(name.value, email.value, password.value))
  }

  /** Every accepted insert keeps the table's invariants. */
  lemma InsertMessageKeepsValid(db: Database, fromId: Option<UserId>, toId: Option<UserId>,
                                content: Option<string>, timestamp: Option<int>)
    requires Valid(db)
    ensures var r := InsertMessage(db.messages, fromId, toId, content, timestamp);
            r.Inserted? ==> Valid(db.(messages := r.table))
  {
    var r := InsertMessage(db.messages, fromId, toId, content, timestamp);
    if r.Inserted? {
      AppendKeepsIdsIncreasing(db.messages, MessageFields(fromId.value, toId.value, content.value, timestamp.value));
    }
  }

  lemma {:induction false} InsertUserKeepsValid(db: Database, name: Option<string>, email: Option<string>,
                                                password: Option<string>)
    requires Valid(db)
    ensures var r := InsertUser(db.users, name, email, password);
            r.Inserted? ==> Valid(db.(users := r.table))
  {
    var r := InsertUser(db.users, name, email, password);
    if r.Inserted? {
      AppendKeepsIdsIncreasing(db.users, UserFields(name.value, email.value, password.value));
      var rows := r.table.rows;
      forall i, j | 0 <= i < j < |rows|
        ensures rows[i].fields.email != rows[j].fields.email
      {
        if j == |rows| - 1 {
          assert rows[i] == db.users.rows[i];
          assert !EmailTaken(db.users, email.value);
        } else {
          assert rows[i] == db.users.rows[i] && rows[j] == db.users.rows[j];
        }
      }
    }
  }

  /** `SELECT * FROM users WHERE email = ?` taking the first matching row. */
  function FindByEmail(rows: seq<UserRow>, email: string): (r: Option<UserRow>)
    ensures r.Some? ==> r.value in rows && r.value.fields.email == email
    ensures r.None? <==> forall i :: 0 <= i < |rows| ==> rows[i].fields.email != email
  {
    if rows == [] then None
    else if rows[0].fields.email == email then Some(rows[0])
    else FindByEmail(rows[1..], email)
  }

  /** With unique e-mails the lookup finds the one row that has the address. */
  lemma {:induction false} FindByEmailUnique(rows: seq<UserRow>, k: nat)
    requires k < |rows|
    requires forall i, j :: 0 <= i < j < |rows| ==> rows[i].fields.email != rows[j].fields.email
    ensures FindByEmail(rows, rows[k].fields.email) == Some(rows[k])
  {
    if k > 0 {
      assert rows[0].fields.email != rows[k].fields.email;
      FindByEmailUnique(rows[1..], k - 1);
    }
  }

  /** `CREATE TABLE IF NOT EXISTS`: an existing table is kept as it is, a
      missing one is created empty. */
  function CreateIfNotExists<T>(existing: Option<Table<T>>): (t: Table<T>)
    ensures existing.Some? ==> t == existing.value
    ensures existing.None? ==> t.rows == []
  {
    match existing
    case Some(t) => t
    case None => Table([], 0)
  }

  /** The two `CREATE TABLE IF NOT EXISTS` statements run at start-up. */
  function Initialize(users: Option<Table<UserFields>>, messages: Option<Table<MessageFields>>): (db: Database)
    ensures users.Some? ==> db.users == users.value
    ensures messages.Some? ==> db.messages == messages.value
    ensures users.None? ==> db.users == Table([], 0)
    ensures messages.None? ==> db.messages == Table([], 0)
  {
    Database(CreateIfNotExists(users), CreateIfNotExists(messages))
  }

  /** A fresh database satisfies the invariants, and re-initialising an
      existing database keeps every row. */
  lemma InitializeSound(db: Database)
    ensures Valid(Initialize(None, None))
    ensures Initialize(None, None).users.rows == [] && Initialize(None, None).messages.rows == []
    ensures Initialize(Some(db.users), Some(db.messages)) == db
  {
  }
}
