/** The encrypted data path: the `data` table (an AUTOINCREMENT id, the
    ciphertext, the key name and two timestamps) and the two handlers of the data
    router, `POST /data` (encrypt, then insert) and `GET /data/:id` (look up,
    then decrypt with the stored key name). The SQLite connection is a
    `Database` object whose fields are the contents of the table; the server
    holds it in a nullable field that `Setup` assigns. Each handler is specified
    by a function of the table, which the lemmas at the end are about. */
module DataStore {
  import opened Wrappers
  import opened Http
  import opened Storage
  import Transit

  /** SQLite's largest rowid; AUTOINCREMENT fails (SQLITE_FULL) once it was used. */
  const MaxRowId: int := 0x7FFF_FFFF_FFFF_FFFF

  const NotSetUpMessage: string := "DB connection not setup"
  const EncryptFailedMessage: string := "\U{1F47B}"
  const NoRowReturnedMessage: string := "\U{1F937}\U{1F99E}\U{1F966}"
  const NoSuchRowMessage: string := "aint no row for that id"

  /** A row of `data`. `updatedAt` is NULL unless something other than these
      handlers wrote it. */
  datatype Row = Row(id: int, data: string, keyname: string, createdAt: string, updatedAt: Option<string>)

  /** The rows of `data` in rowid order, and the table's entry in
      `sqlite_sequence`: the largest id AUTOINCREMENT ever handed out. */
  datatype Table = Table(rows: seq<Row>, lastId: int)

  /** Ids strictly increase along the rows and never exceed the sequence. */
  predicate WellFormed(t: Table) {
    && 0 <= t.lastId <= MaxRowId
    && (forall i, j :: 0 <= i < j < |t.rows| ==> t.rows[i].id < t.rows[j].id)
    && (forall i :: 0 <= i < |t.rows| ==> 1 <= t.rows[i].id <= t.lastId)
  }

  /** No two rows of a well-formed table share an id. */
  lemma IdsUnique(t: Table)
    requires WellFormed(t)
    ensures forall i, j :: 0 <= i < |t.rows| && 0 <= j < |t.rows| && i != j ==> t.rows[i].id != t.rows[j].id
  {
    forall i, j | 0 <= i < |t.rows| && 0 <= j < |t.rows| && i != j
      ensures t.rows[i].id != t.rows[j].id
    {
      if i < j {
        assert t.rows[i].id < t.rows[j].id;
      } else {
        assert t.rows[j].id < t.rows[i].id;
      }
    }
  }

  /** `SELECT ... WHERE id = ?`: the row with that id, if any. */
  function Find(rows: seq<Row>, id: int): (r: Option<Row>)
    ensures r.Some? ==> r.value in rows && r.value.id == id
    ensures r.None? <==> forall i :: 0 <= i < |rows| ==> rows[i].id != id
  {
    if rows == [] then None
    else if rows[0].id == id then Some(rows[0])
    else Find(rows[1..], id)
  }

  /** `INSERT INTO data (data, keyname, created_at) VALUES (?, ?, ?) RETURNING ...`
      with a fault that the storage may inject. The new row takes the next id
      of the sequence and no `updated_at`; a failed statement changes nothing. */
  function Insert(t: Table, data: string, keyname: string, createdAt: string, fault: Fault)
    : (r: (InsertResult<Row>, Table))
    ensures r.0.Returned? ==>
              && r.0.row == Row(t.lastId + 1, data, keyname, createdAt, None)
              && r.1 == Table(t.rows + [r.0.row], t.lastId + 1)
    ensures !r.0.Returned? ==> r.1 == t
    ensures r.0.Returned? <==> t.lastId < MaxRowId && fault.NoFault?
    ensures WellFormed(t) && r.0.Returned? ==> forall i :: 0 <= i < |t.rows| ==> t.rows[i].id < r.0.row.id
    ensures WellFormed(t) ==> WellFormed(r.1)
  {
    if t.lastId >= MaxRowId || fault.Throws? then (Threw(OtherFailure), t)
    else if fault.ReturnsNothing? then (NothingReturned, t)
    else
      var row := Row(t.lastId + 1, data, keyname, createdAt, None);
      (Returned(row), Table(t.rows + [row], t.lastId + 1))
  }

  /** The `data` table of an open SQLite database. */
  class Database {
    var rows: seq<Row>
    var lastId: int

    function State(): Table
      reads this
    {
      Table(rows, lastId)
    }

    ghost predicate Valid()
      reads this
    {
      WellFormed(State())
    }

    /** `new Database(file)` followed by `CREATE TABLE IF NOT EXISTS data`: the
        file's table if it has one, an empty one otherwise. */
    constructor Open(file: Option<Table>)
      requires file.Some? ==> WellFormed(file.value)
      ensures Valid()
      ensures State() == file.GetOr(Table([], 0))
    {
      if file.Some? {
        rows := file.value.rows;
        lastId := file.value.lastId;
      } else {
        rows := [];
        lastId := 0;
      }
    }

    method InsertReturning(data: string, keyname: string, createdAt: string, fault: Fault)
      returns (r: InsertResult<Row>)
      requires Valid()
      modifies this
      ensures Valid()
      ensures (r, State()) == Insert(old(State()), data, keyname, createdAt, fault)
    {
      var (result, table) := Insert(State(), data, keyname, createdAt, fault);
      rows := table.rows;
      lastId := table.lastId;
      r := result;
    }
  }

  /** What the server asked of the outside world, in order. */
  datatype Effect =
    | EncryptRequest(key: string, plaintext: string)
    | DecryptRequest(key: string, ciphertext: string)
    | InsertStatement(data: string, keyname: string, createdAt: string)
    | SelectStatement(id: int)

  /** The error a `catch` saw. */
  datatype Cause = StorageFailure(dbError: DbError) | TransitFailure(transitError: Transit.TransitError)

  /** Response bodies of the data router. */
  datatype DataBody =
    | Created(id: int, data: string, createdAt: string, key: string, updatedAt: Option<string>)
    | Found(id: int, data: string, createdAt: string)
    | Message(message: string)   // `{ message: '...' }`
    | Raised(cause: Cause)       // `{ message: e }` for a caught error
    | Unhandled(error: string)   // an error thrown outside any `try`: the framework answers 500

  /** A handler's answer, the table after it, and what it asked of others. */
  datatype Outcome = Outcome(response: Response<DataBody>, table: Table, effects: seq<Effect>)

  /** The request `encryptWithVault` sends, if encoding lets it send one. */
  function EncryptEffects(data: string, key: string): (e: seq<Effect>)
    ensures |e| <= 1
    ensures e != [] <==> Transit.Encode(data).Some?
  {
    var plaintext := Transit.Encode(data);
    if plaintext.Some? then [EncryptRequest(key, plaintext.value)] else []
  }

  /** `POST /data` once the connection is set up. */
  function Post(t: Table, data: string, key: string, now: string, vault: Transit.Vault, fault: Fault): Outcome {
    var encrypted := Transit.Encrypt(data, key, vault);
    var asked := EncryptEffects(data, key);
    if encrypted.Failure? then Outcome(Response(InternalErrorStatus, Message(EncryptFailedMessage)), t, asked)
    else
      var (inserted, t') := Insert(t, encrypted.value, key, now, fault);
      var effects := asked + [InsertStatement(encrypted.value, key, now)];
      match inserted
      case Returned(row) =>
        Outcome(Response(CreatedStatus, Created(row.id, row.data, row.createdAt, row.keyname, row.updatedAt)), t', effects)
      case NothingReturned => Outcome(Response(InternalErrorStatus, Message(NoRowReturnedMessage)), t', effects)
      case Threw(e) => Outcome(Response(InternalErrorStatus, Raised(StorageFailure(e))), t', effects)
  }

  /** `GET /data/:id` once the connection is set up; the select throws when
      `selectFails` holds. The table is only read. */
  function Get(t: Table, id: int, vault: Transit.Vault, selectFails: bool): (r: (Response<DataBody>, seq<Effect>)) {
    if selectFails then (Response(InternalErrorStatus, Raised(StorageFailure(OtherFailure))), [SelectStatement(id)])
    else
      var row := Find(t.rows, id);
      if row.None? then (Response(NotFoundStatus, Message(NoSuchRowMessage)), [SelectStatement(id)])
      else
        var decrypted := Transit.Decrypt(row.value.data, row.value.keyname, vault);
        var effects := [SelectStatement(id), DecryptRequest(row.value.keyname, row.value.data)];
        if decrypted.Failure? then (Response(InternalErrorStatus, Raised(TransitFailure(decrypted.error))), effects)
        else (Response(OkStatus, Found(row.value.id, decrypted.value, row.value.createdAt)), effects)
  }

  /** The server: the module-level connection and the log of its effects. */
  class App {
    var db: Database?
    var log: seq<Effect>

    ghost predicate Valid()
      reads this, db
    {
      db != null ==> db.Valid()
    }

    /** Before `setup`: no connection, nothing done. */
    constructor()
      ensures Valid() && db == null && log == []
    {
      db := null;
      log := [];
    }

    /** `getClient()`: the connection, or the error it throws before `setup`. */
    function GetClient(): (r: Result<Database, string>)
      reads this
      ensures r.Success? <==> db != null
      ensures r.Success? ==> r.value == db
      ensures r.Failure? ==> r.error == NotSetUpMessage
    {
      if db == null then Failure(NotSetUpMessage) else Success(db)
    }

    /** `setup({ databaseFile })`: open the file and make sure the table exists. */
    method Setup(file: Option<Table>)
      requires file.Some? ==> WellFormed(file.value)
      modifies this
      ensures Valid() && db != null && fresh(db)
      ensures db.State() == file.GetOr(Table([], 0))
      ensures log == old(log)
    {
      db := new Database.Open(file);
    }

    /** `encryptWithVault(data, key)`. */
    method EncryptWithVault(data: string, key: string, vault: Transit.Vault)
      returns (r: Result<string, Transit.TransitError>)
      modifies this`log
      ensures r == Transit.Encrypt(data, key, vault)
      ensures log == old(log) + EncryptEffects(data, key)
    {
      var plaintext := Transit.Encode(data);
      if plaintext.None? {
        return Failure(Transit.Unencodable);
      }
      log := log + [EncryptRequest(key, plaintext.value)];
      var reply := vault.encrypt(key, plaintext.value);
      if reply.Failed? {
        return Failure(Transit.Refused);
      }
      r := Success(reply.value);
    }

    /** `decryptWithVault(ciphertext, key)`. */
    method DecryptWithVault(ciphertext: string, key: string, vault: Transit.Vault)
      returns (r: Result<string, Transit.TransitError>)
      modifies this`log
      ensures r == Transit.Decrypt(ciphertext, key, vault)
      ensures log == old(log) + [DecryptRequest(key, ciphertext)]
    {
      log := log + [DecryptRequest(key, ciphertext)];
      var reply := vault.decrypt(key, ciphertext);
      if reply.Failed? {
        return Failure(Transit.Refused);
      }
      r := Transit.Decode(reply.value);
    }

    /** The `POST /` handler of the data router, with the request's `data` and
        `key`, the clock's `now` and the storage's fault. */
    method PostData(data: string, key: string, now: string, vault: Transit.Vault, fault: Fault)
      returns (response: Response<DataBody>)
      requires Valid()
      modifies this`log, db
      ensures Valid() && db == old(db)
      ensures old(db) == null ==> response == Response(InternalErrorStatus, Unhandled(NotSetUpMessage)) && log == old(log)
      ensures old(db) != null ==>
                var o := Post(old(db.State()), data, key, now, vault, fault);
                response == o.response && db.State() == o.table && log == old(log) + o.effects
    {
      var client := GetClient();
      if client.Failure? {
        return Response(InternalErrorStatus, Unhandled(client.error));
      }
      var store := client.value;
      var encrypted := EncryptWithVault(data, key, vault);
      if encrypted.Failure? {
        return Response(InternalErrorStatus, Message(EncryptFailedMessage));
      }
      log := log + [InsertStatement(encrypted.value, key, now)];
      var inserted := store.InsertReturning(encrypted.value, key, now, fault);
      match inserted
      case NothingReturned =>
        response := Response(InternalErrorStatus, Message(NoRowReturnedMessage));
      case Returned(row) =>
        response := Response(CreatedStatus, Created(row.id, row.data, row.createdAt, row.keyname, row.updatedAt));
      case Threw(e) =>
        response := Response(InternalErrorStatus, Raised(StorageFailure(e)));
    }

    /** The `GET /:id` handler of the data router. */
    method GetData(id: int, vault: Transit.Vault, selectFails: bool) returns (response: Response<DataBody>)
      modifies this`log
      ensures old(db) == null ==> response == Response(InternalErrorStatus, Unhandled(NotSetUpMessage)) && log == old(log)
      ensures old(db) != null ==>
                var r := Get(db.State(), id, vault, selectFails);
                response == r.0 && log == old(log) + r.1
    {
      var client := GetClient();
      if client.Failure? {
        return Response(InternalErrorStatus, Unhandled(client.error));
      }
      var store := client.value;
      log := log + [SelectStatement(id)];
      if selectFails {
        return Response(InternalErrorStatus, Raised(StorageFailure(OtherFailure)));
      }
      var row := Find(store.rows, id);
      if row.None? {
        return Response(NotFoundStatus, Message(NoSuchRowMessage));
      }
      var decrypted := DecryptWithVault(row.value.data, row.value.keyname, vault);
      if decrypted.Failure? {
        return Response(InternalErrorStatus, Raised(TransitFailure(decrypted.error)));
      }
      response := Response(OkStatus, Found(row.value.id, decrypted.value, row.value.createdAt));
    }

    /** Two reads of the same id with no write between them, the second through a
        vault that may answer differently from the first (a transient refusal,
        a fresh ciphertext), as long as the two agree wherever both decrypt. A
        read changes nothing but the log, so whenever both reads succeed they
        answer the same row with the same content. */
    method ReadTwice(id: int, v1: Transit.Vault, v2: Transit.Vault)
      returns (first: Response<DataBody>, second: Response<DataBody>)
      requires forall key: string, ciphertext: string ::
                 v1.decrypt(key, ciphertext).Ok? && v2.decrypt(key, ciphertext).Ok? ==>
                   v1.decrypt(key, ciphertext) == v2.decrypt(key, ciphertext)
      modifies this`log
      ensures first.status == OkStatus && second.status == OkStatus ==> first == second
    {
      first := GetData(id, v1, false);
      second := GetData(id, v2, false);
    }
  }

  /** When encryption fails the handler answers 500 with the ghost message and
      never reaches the insert: the table is unchanged and no statement runs. */
  lemma PostEncryptFailure(t: Table, data: string, key: string, now: string, vault: Transit.Vault, fault: Fault)
    requires Transit.Encrypt(data, key, vault).Failure?
    ensures var o := Post(t, data, key, now, vault, fault);
      && o.response == Response(InternalErrorStatus, Message(EncryptFailedMessage))
      && o.table == t
      && forall i :: 0 <= i < |o.effects| ==> !o.effects[i].InsertStatement?
  {
  }

  /** After a successful encryption and insert, exactly one row is appended: it
      holds the vault's ciphertext, the request's key name, `created_at = now`
      and no `updated_at`, under an id above every earlier one; the answer is
      201 and echoes that row, with the key name as `key`. */
  lemma PostAppendsRow(t: Table, data: string, key: string, now: string, vault: Transit.Vault)
    requires WellFormed(t) && t.lastId < MaxRowId
    requires Transit.Encrypt(data, key, vault).Success?
    ensures var o := Post(t, data, key, now, vault, NoFault);
      var ciphertext := vault.encrypt(key, Transit.Encode(data).value).value;
      var row := Row(t.lastId + 1, ciphertext, key, now, None);
      && o.table.rows == t.rows + [row]
      && (forall i :: 0 <= i < |t.rows| ==> t.rows[i].id < row.id)
      && o.response == Response(CreatedStatus, Created(row.id, ciphertext, now, key, None))
  {
  }

  /** An insert that returns nothing or throws is answered 500 and leaves the
      table as it was. */
  lemma PostInsertFailure(t: Table, data: string, key: string, now: string, vault: Transit.Vault, fault: Fault)
    requires Transit.Encrypt(data, key, vault).Success?
    requires fault != NoFault || t.lastId >= MaxRowId
    ensures var o := Post(t, data, key, now, vault, fault);
      && o.response.status == InternalErrorStatus
      && o.response.body != Message(EncryptFailedMessage)
      && o.table == t
  {
  }

  /** The answer is 201 exactly when a row was added, and 500 otherwise; the table
      stays well formed either way. */
  lemma PostStatus(t: Table, data: string, key: string, now: string, vault: Transit.Vault, fault: Fault)
    requires WellFormed(t)
    ensures var o := Post(t, data, key, now, vault, fault);
      && (o.response.status == CreatedStatus || o.response.status == InternalErrorStatus)
      && (o.response.status == CreatedStatus <==> |o.table.rows| == |t.rows| + 1)
      && (o.response.status != CreatedStatus <==> o.table == t)
      && WellFormed(o.table)
  {
  }

  /** Encrypt before insert: the statement runs only after the vault answered
      with a ciphertext, and it carries that ciphertext. */
  lemma PostEncryptsFirst(t: Table, data: string, key: string, now: string, vault: Transit.Vault, fault: Fault)
    ensures var o := Post(t, data, key, now, vault, fault);
      forall i :: 0 <= i < |o.effects| && o.effects[i].InsertStatement? ==>
        && i == 1
        && o.effects[0] == EncryptRequest(key, Transit.Encode(data).value)
        && vault.encrypt(key, Transit.Encode(data).value) == Transit.Ok(o.effects[i].data)
  {
  }

  /** A lookup that finds no row is answered 404, and nothing is decrypted. */
  lemma GetMissing(t: Table, id: int, vault: Transit.Vault)
    requires forall i :: 0 <= i < |t.rows| ==> t.rows[i].id != id
    ensures Get(t, id, vault, false) == (Response(NotFoundStatus, Message(NoSuchRowMessage)), [SelectStatement(id)])
  {
  }

  /** A row that exists is decrypted with its own stored ciphertext and key name,
      after the lookup; the answer is 200 with the id, the plaintext and
      `created_at` when that works, 500 otherwise. */
  lemma GetExisting(t: Table, k: int, vault: Transit.Vault)
    requires WellFormed(t) && 0 <= k < |t.rows|
    ensures var row := t.rows[k];
      var r := Get(t, row.id, vault, false);
      var decrypted := Transit.Decrypt(row.data, row.keyname, vault);
      && r.1 == [SelectStatement(row.id), DecryptRequest(row.keyname, row.data)]
      && (decrypted.Success? ==> r.0 == Response(OkStatus, Found(row.id, decrypted.value, row.createdAt)))
      && (decrypted.Failure? ==> r.0 == Response(InternalErrorStatus, Raised(TransitFailure(decrypted.error))))
  {
    IdsUnique(t);
    FindUnique(t.rows, k);
  }

  lemma {:induction false} FindUnique(rows: seq<Row>, k: int)
    requires 0 <= k < |rows|
    requires forall i, j :: 0 <= i < |rows| && 0 <= j < |rows| && i != j ==> rows[i].id != rows[j].id
    ensures Find(rows, rows[k].id) == Some(rows[k])
  {
    if k > 0 {
      assert rows[0].id != rows[k].id;
      assert rows[1..][k - 1] == rows[k];
      FindUnique(rows[1..], k - 1);
    }
  }

  /** Round trip through the server: with a vault that inverts itself, reading the
      row a successful POST created answers 200 with the data that was posted
      and the time it was posted at. */
  lemma PostThenGet(t: Table, data: string, key: string, now: string, vault: Transit.Vault)
    requires WellFormed(t) && t.lastId < MaxRowId && Transit.Inverts(vault)
    requires Transit.Encrypt(data, key, vault).Success?
    ensures Get(Post(t, data, key, now, vault, NoFault).table, t.lastId + 1, vault, false).0 ==
              Response(OkStatus, Found(t.lastId + 1, data, now))
  {
    var row := Row(t.lastId + 1, Transit.Encrypt(data, key, vault).value, key, now, None);
    PostAppendsRow(t, data, key, now, vault);
    FindLast(t.rows, row);
    Transit.TransitRoundTrip(data, key, vault);
    GetDecrypted(Post(t, data, key, now, vault, NoFault).table, row, vault);
  }

  /** A row appended under an id no earlier row has is what the lookup finds. */
  lemma {:induction false} FindLast(rows: seq<Row>, row: Row)
    requires forall i :: 0 <= i < |rows| ==> rows[i].id != row.id
    ensures Find(rows + [row], row.id) == Some(row)
  {
    if rows != [] {
      assert (rows + [row])[1..] == rows[1..] + [row];
      FindLast(rows[1..], row);
    } else {
      assert rows + [row] == [row];
    }
  }

  lemma GetDecrypted(t: Table, row: Row, vault: Transit.Vault)
    requires Find(t.rows, row.id) == Some(row)
    requires Transit.Decrypt(row.data, row.keyname, vault).Success?
    ensures Get(t, row.id, vault, false).0 ==
              Response(OkStatus, Found(row.id, Transit.Decrypt(row.data, row.keyname, vault).value, row.createdAt))
  {
  }
}
