/** The folder store: a `folders` table whose `folder_name` is UNIQUE and whose
    rows projects may reference by foreign key, and the four handlers of the
    folder router (list, create, get by name, delete by name). The table is a
    `FolderTable` object holding the rows in rowid order and, for each folder
    name, how many project rows reference it. The constraints are checked by the
    table itself and reported as typed errors, the way SQLite reports them by
    message; the handlers turn those errors into statuses. */
module Folders {
  import opened Wrappers
  import opened Http
  import opened Storage

  const NoRowReturnedMessage: string := "no return value from create"
  const NameTakenMessage: string := "project name must be unique"
  const StillReferencedMessage: string := "cannot delete folder while child projects still exist"

  /** A row of `folders`. */
  datatype Folder = Folder(uuid: string, folderName: string, description: string, createdAt: string, updatedAt: string)

  /** A folder as the handlers answer it: the uuid under the name `id`. */
  datatype FolderView = FolderView(id: string, folderName: string, description: string, createdAt: string, updatedAt: string)

  function View(f: Folder): FolderView {
    FolderView(f.uuid, f.folderName, f.description, f.createdAt, f.updatedAt)
  }

  /** The rows of `folders` in rowid order, and the folder names that rows of
      `projects` reference, once per referencing row. */
  datatype Store = Store(folders: seq<Folder>, refs: multiset<string>)

  predicate HasName(folders: seq<Folder>, name: string) {
    exists i :: 0 <= i < |folders| && folders[i].folderName == name
  }

  predicate NamesUnique(folders: seq<Folder>) {
    forall i, j :: 0 <= i < j < |folders| ==> folders[i].folderName != folders[j].folderName
  }

  predicate UuidsUnique(folders: seq<Folder>) {
    forall i, j :: 0 <= i < j < |folders| ==> folders[i].uuid != folders[j].uuid
  }

  /** The UNIQUE constraint on `folder_name` holds, and every project reference
      names a stored folder (foreign keys are enforced). */
  predicate WellFormed(s: Store) {
    && NamesUnique(s.folders)
    && forall name :: name in s.refs ==> HasName(s.folders, name)
  }

  /** How many rows carry a name. */
  function CountNamed(folders: seq<Folder>, name: string): nat {
    if folders == [] then 0
    else (if folders[0].folderName == name then 1 else 0) + CountNamed(folders[1..], name)
  }

  /** Under the UNIQUE constraint a name is carried by one row or by none. */
  lemma {:induction false} CountUnique(folders: seq<Folder>, name: string)
    requires NamesUnique(folders)
    ensures CountNamed(folders, name) == if HasName(folders, name) then 1 else 0
  {
    if folders != [] {
      var tail := folders[1..];
      assert NamesUnique(tail) by {
        forall i, j | 0 <= i < j < |tail| ensures tail[i].folderName != tail[j].folderName {
          assert tail[i] == folders[i + 1] && tail[j] == folders[j + 1];
        }
      }
      CountUnique(tail, name);
      if folders[0].folderName == name {
        assert !HasName(tail, name) by {
          forall i | 0 <= i < |tail| ensures tail[i].folderName != name {
            assert tail[i] == folders[i + 1];
          }
        }
      } else {
        assert HasName(folders, name) ==> HasName(tail, name) by {
          if HasName(folders, name) {
            var k :| 0 <= k < |folders| && folders[k].folderName == name;
            assert tail[k - 1] == folders[k];
          }
        }
        assert HasName(tail, name) ==> HasName(folders, name) by {
          if HasName(tail, name) {
            var k :| 0 <= k < |tail| && tail[k].folderName == name;
            assert folders[k + 1] == tail[k];
          }
        }
      }
    }
  }

  /** `folder.description || ''`: an absent or empty description becomes ''. */
  function DescriptionOrDefault(description: Option<string>): (r: string)
    ensures r == "" <==> description.None? || description.value == ""
    ensures r != "" ==> description == Some(r)
  {
    if description.Some? then description.value else ""
  }

  /** `SELECT ... FROM folders WHERE folder_name = ?`. */
  function SelectByName(folders: seq<Folder>, name: string): (r: Option<Folder>)
    ensures r.Some? ==> r.value in folders && r.value.folderName == name
    ensures r.None? <==> !HasName(folders, name)
  {
    if folders == [] then None
    else if folders[0].folderName == name then Some(folders[0])
    else
      var r := SelectByName(folders[1..], name);
      assert HasName(folders, name) ==> HasName(folders[1..], name) by {
        if HasName(folders, name) {
          var k :| 0 <= k < |folders| && folders[k].folderName == name;
          assert folders[1..][k - 1] == folders[k];
        }
      }
      r
  }

  /** `DELETE FROM folders WHERE folder_name = ?` on the rows: the rows without
      that name, in their order. */
  function RemoveName(folders: seq<Folder>, name: string): (r: seq<Folder>)
    ensures forall f :: f in r <==> f in folders && f.folderName != name
    ensures !HasName(r, name)
  {
    if folders == [] then []
    else if folders[0].folderName == name then RemoveName(folders[1..], name)
    else [folders[0]] + RemoveName(folders[1..], name)
  }

  /** Removing rows keeps the UNIQUE constraint. */
  lemma {:induction false} RemoveNameUnique(folders: seq<Folder>, name: string)
    requires NamesUnique(folders)
    ensures NamesUnique(RemoveName(folders, name))
  {
    if folders != [] {
      var tail := folders[1..];
      assert NamesUnique(tail) by {
        forall i, j | 0 <= i < j < |tail| ensures tail[i].folderName != tail[j].folderName {
          assert tail[i] == folders[i + 1] && tail[j] == folders[j + 1];
        }
      }
      RemoveNameUnique(tail, name);
      if folders[0].folderName != name {
        var rest := RemoveName(tail, name);
        forall f | f in rest ensures f.folderName != folders[0].folderName {
          var k :| 0 <= k < |tail| && tail[k] == f;
          assert folders[k + 1] == f;
        }
        var r := [folders[0]] + rest;
        forall i, j | 0 <= i < j < |r| ensures r[i].folderName != r[j].folderName {
          if i == 0 {
            assert r[j] == rest[j - 1] && rest[j - 1] in rest;
          } else {
            assert r[i] == rest[i - 1] && r[j] == rest[j - 1];
          }
        }
      }
    }
  }

  lemma AppendUnique(folders: seq<Folder>, row: Folder)
    requires NamesUnique(folders) && !HasName(folders, row.folderName)
    ensures NamesUnique(folders + [row])
  {
    var r := folders + [row];
    forall i, j | 0 <= i < j < |r| ensures r[i].folderName != r[j].folderName {
      if j == |folders| {
        assert r[i] == folders[i];
      } else {
        assert r[i] == folders[i] && r[j] == folders[j];
      }
    }
  }

  lemma AppendHasName(folders: seq<Folder>, row: Folder, name: string)
    ensures HasName(folders + [row], name) <==> HasName(folders, name) || row.folderName == name
  {
    var r := folders + [row];
    if HasName(folders, name) {
      var k :| 0 <= k < |folders| && folders[k].folderName == name;
      assert r[k] == folders[k];
    }
    if row.folderName == name {
      assert r[|folders|] == row;
    }
    if HasName(r, name) {
      var k :| 0 <= k < |r| && r[k].folderName == name;
      if k < |folders| {
        assert folders[k] == r[k];
      }
    }
  }

  /** `INSERT INTO folders ... RETURNING ...` of one row, with a fault the
      storage may inject. `Throws` stands for an error that fails the statement
      before its constraints are checked (a busy or locked database, an I/O
      error, a failing `prepare`); otherwise a taken name is reported as the
      UNIQUE violation. A failed statement changes nothing. */
  function Insert(s: Store, row: Folder, fault: Fault): (r: (InsertResult<Folder>, Store))
    ensures r.0 == Threw(UniqueViolation) <==> HasName(s.folders, row.folderName) && !fault.Throws?
    ensures r.0 == Threw(OtherFailure) <==> fault.Throws?
    ensures r.0.Returned? <==> !HasName(s.folders, row.folderName) && fault.NoFault?
    ensures r.0.Returned? ==> r.0.row == row && r.1 == Store(s.folders + [row], s.refs)
    ensures !r.0.Returned? ==> r.1 == s
  {
    if fault.Throws? then (Threw(OtherFailure), s)
    else if HasName(s.folders, row.folderName) then (Threw(UniqueViolation), s)
    else if fault.ReturnsNothing? then (NothingReturned, s)
    else (Returned(row), Store(s.folders + [row], s.refs))
  }

  lemma InsertWellFormed(s: Store, row: Folder, fault: Fault)
    requires WellFormed(s)
    ensures WellFormed(Insert(s, row, fault).1)
  {
    if Insert(s, row, fault).0.Returned? {
      AppendUnique(s.folders, row);
      forall name | name in s.refs ensures HasName(s.folders + [row], name) {
        AppendHasName(s.folders, row, name);
      }
    }
  }

  /** `DELETE FROM folders WHERE folder_name = ?` run on a prepared statement,
      with `throws` standing for a `run` that fails before the foreign key is
      checked (a busy or locked database, an I/O error). Otherwise
      a folder that projects still reference is never deleted (restrict, not
      cascade). A name no row has deletes nothing and does not throw. */
  function Delete(s: Store, name: string, throws: bool): (r: (RunResult, Store))
    ensures r.0 == RunThrew(ForeignKeyViolation) <==> name in s.refs && !throws
    ensures r.0 == RunThrew(OtherFailure) <==> throws
    ensures r.0.Ran? <==> name !in s.refs && !throws
    ensures r.0.Ran? ==> r.1 == Store(RemoveName(s.folders, name), s.refs)
    ensures !r.0.Ran? ==> r.1 == s
  {
    if throws then (RunThrew(OtherFailure), s)
    else if name in s.refs then (RunThrew(ForeignKeyViolation), s)
    else (Ran, Store(RemoveName(s.folders, name), s.refs))
  }

  lemma DeleteWellFormed(s: Store, name: string, throws: bool)
    requires WellFormed(s)
    ensures WellFormed(Delete(s, name, throws).1)
  {
    if Delete(s, name, throws).0.Ran? {
      RemoveNameUnique(s.folders, name);
      var rest := RemoveName(s.folders, name);
      forall n | n in s.refs ensures HasName(rest, n) {
        var k :| 0 <= k < |s.folders| && s.folders[k].folderName == n;
        assert s.folders[k] in rest;
        var m :| 0 <= m < |rest| && rest[m] == s.folders[k];
      }
    }
  }

  /** The `folders` table of the open database. */
  class FolderTable {
    var folders: seq<Folder>
    var refs: multiset<string>

    function State(): Store
      reads this
    {
      Store(folders, refs)
    }

    ghost predicate Valid()
      reads this
    {
      WellFormed(State())
    }

    constructor(initial: Store)
      requires WellFormed(initial)
      ensures Valid() && State() == initial
    {
      folders := initial.folders;
      refs := initial.refs;
    }

    method InsertReturning(row: Folder, fault: Fault) returns (r: InsertResult<Folder>)
      requires Valid()
      modifies this
      ensures Valid()
      ensures (r, State()) == Insert(old(State()), row, fault)
    {
      InsertWellFormed(State(), row, fault);
      var (result, store) := Insert(State(), row, fault);
      folders := store.folders;
      r := result;
    }

    method DeleteByName(name: string, throws: bool) returns (r: RunResult)
      requires Valid()
      modifies this
      ensures Valid()
      ensures (r, State()) == Delete(old(State()), name, throws)
    {
      DeleteWellFormed(State(), name, throws);
      var (result, store) := Delete(State(), name, throws);
      folders := store.folders;
      r := result;
    }
  }

  /** Response bodies of the folder router. */
  datatype FolderBody =
    | Listed(folders: seq<FolderView>)   // `{ folders }`
    | One(folder: FolderView)            // `{ folder: { ... } }`
    | Message(message: string)           // `{ message: '...' }`
    | Raised(error: DbError)             // `{ message: e }` for a caught error
    | NoBody

  /** The request body of `POST /`. */
  datatype CreateRequest = CreateRequest(folderName: string, description: Option<string>)

  /** `rows.map(...)`: each row with its uuid under `id`. */
  function ListView(folders: seq<Folder>): (r: seq<FolderView>)
    ensures |r| == |folders|
    ensures forall i :: 0 <= i < |folders| ==>
              && r[i].id == folders[i].uuid && r[i].folderName == folders[i].folderName
              && r[i].description == folders[i].description
              && r[i].createdAt == folders[i].createdAt && r[i].updatedAt == folders[i].updatedAt
  {
    seq(|folders|, i requires 0 <= i < |folders| => View(folders[i]))
  }

  /** The `GET /` handler. */
  function ListFolders(db: FolderTable): (r: Response<FolderBody>)
    reads db
    ensures r.status == OkStatus && r.body.Listed? && |r.body.folders| == |db.folders|
    ensures forall i :: 0 <= i < |db.folders| ==> r.body.folders[i] == View(db.folders[i])
  {
    Response(OkStatus, Listed(ListView(db.folders)))
  }

  /** Listing names every stored folder exactly once: the entry at a folder's
      position is that folder, and no other entry carries its name. */
  lemma ListedOnce(folders: seq<Folder>, k: int)
    requires NamesUnique(folders) && 0 <= k < |folders|
    ensures var l := ListView(folders);
      && l[k] == View(folders[k])
      && forall i :: 0 <= i < |l| && i != k ==> l[i].folderName != folders[k].folderName
  {
    var l := ListView(folders);
    forall i | 0 <= i < |l| && i != k ensures l[i].folderName != folders[k].folderName {
      if i < k {
        assert folders[i].folderName != folders[k].folderName;
      } else {
        assert folders[k].folderName != folders[i].folderName;
      }
    }
  }

  /** The row `POST /` inserts. */
  function NewFolder(request: CreateRequest, uuid: string, now: string): Folder {
    Folder(uuid, request.folderName, DescriptionOrDefault(request.description), now, now)
  }

  /** How `POST /` answers the insert's result. */
  function CreateResponse(result: InsertResult<Folder>): Response<FolderBody> {
    match result
    case Returned(row) => Response(CreatedStatus, One(View(row)))
    case NothingReturned => Response(InternalErrorStatus, Message(NoRowReturnedMessage))
    case Threw(e) =>
      if e == UniqueViolation then Response(ConflictStatus, Message(NameTakenMessage))
      else Response(InternalErrorStatus, Raised(e))
  }

  /** How `DELETE /:folder_name` answers the statement's result. */
  function DeleteResponse(result: RunResult): Response<FolderBody> {
    match result
    case Ran => Response(NoContentStatus, NoBody)
    case RunThrew(e) =>
      if e == ForeignKeyViolation then Response(BadRequestStatus, Message(StillReferencedMessage))
      else Response(InternalErrorStatus, Raised(e))
  }

  /** `POST /` on a store, as a pair of the answer and the store after it. */
  function Create(s: Store, request: CreateRequest, uuid: string, now: string, fault: Fault)
    : (Response<FolderBody>, Store)
  {
    var (result, s') := Insert(s, NewFolder(request, uuid, now), fault);
    (CreateResponse(result), s')
  }

  /** `DELETE /:folder_name` on a store. */
  function Remove(s: Store, name: string, throws: bool): (Response<FolderBody>, Store) {
    var (result, s') := Delete(s, name, throws);
    (DeleteResponse(result), s')
  }

  /** `GET /:folder_name` on a store. */
  function Lookup(s: Store, name: string): Response<FolderBody> {
    var row := SelectByName(s.folders, name);
    if row.None? then Response(NotFoundStatus, NoBody) else Response(OkStatus, One(View(row.value)))
  }

  /** The `POST /` handler, with the generated `uuid`, the clock's `now` and the
      storage's fault. */
  method CreateFolder(db: FolderTable, request: CreateRequest, uuid: string, now: string, fault: Fault)
    returns (response: Response<FolderBody>)
    requires db.Valid()
    modifies db
    ensures db.Valid()
    ensures (response, db.State()) == Create(old(db.State()), request, uuid, now, fault)
  {
    var row := NewFolder(request, uuid, now);
    var result := db.InsertReturning(row, fault);
    match result
    case NothingReturned =>
      response := Response(InternalErrorStatus, Message(NoRowReturnedMessage));
    case Returned(inserted) =>
      response := Response(CreatedStatus, One(View(inserted)));
    case Threw(e) =>
      response := Response(InternalErrorStatus, Raised(e));
      if e == UniqueViolation {
        response := Response(ConflictStatus, Message(NameTakenMessage));
      }
  }

  /** The `GET /:folder_name` handler. */
  method GetFolder(db: FolderTable, name: string) returns (response: Response<FolderBody>)
    ensures response == Lookup(db.State(), name)
    ensures !HasName(db.folders, name) <==> response == Response(NotFoundStatus, NoBody)
    ensures HasName(db.folders, name) ==>
              exists k :: 0 <= k < |db.folders| && db.folders[k].folderName == name &&
                          response == Response(OkStatus, One(View(db.folders[k])))
  {
    var row := SelectByName(db.folders, name);
    if row.None? {
      response := Response(NotFoundStatus, NoBody);
      return;
    }
    ghost var k :| 0 <= k < |db.folders| && db.folders[k] == row.value;
    response := Response(OkStatus, One(View(row.value)));
  }

  /** The `DELETE /:folder_name` handler once its statement is prepared;
      `throws` stands for a `run` that fails before the foreign-key check. */
  method DeleteFolder(db: FolderTable, name: string, throws: bool) returns (response: Response<FolderBody>)
    requires db.Valid()
    modifies db
    ensures db.Valid()
    ensures (response, db.State()) == Remove(old(db.State()), name, throws)
  {
    var result := db.DeleteByName(name, throws);
    if result.Ran? {
      response := Response(NoContentStatus, NoBody);
      return;
    }
    response := Response(InternalErrorStatus, Raised(result.runError));
    if result.runError == ForeignKeyViolation {
      response := Response(BadRequestStatus, Message(StillReferencedMessage));
    }
  }

  /** A created folder is the request's name under the generated uuid, with the
      description defaulted to '' and `created_at == updated_at == now`; it is
      appended to the table and answered with 201. */
  lemma CreateStamps(s: Store, request: CreateRequest, uuid: string, now: string)
    requires !HasName(s.folders, request.folderName)
    ensures var (response, s') := Create(s, request, uuid, now, NoFault);
      var row := Folder(uuid, request.folderName, DescriptionOrDefault(request.description), now, now);
      && s'.folders == s.folders + [row]
      && s'.refs == s.refs
      && row.createdAt == row.updatedAt == now
      && (request.description.None? ==> row.description == "")
      && response == Response(CreatedStatus, One(FolderView(uuid, request.folderName, row.description, now, now)))
  {
  }

  /** A uuid no stored folder has keeps the uuids distinct after the insert. */
  lemma CreateFreshUuid(s: Store, request: CreateRequest, uuid: string, now: string, fault: Fault)
    requires UuidsUnique(s.folders)
    requires forall i :: 0 <= i < |s.folders| ==> s.folders[i].uuid != uuid
    ensures UuidsUnique(Create(s, request, uuid, now, fault).1.folders)
  {
    var s' := Create(s, request, uuid, now, fault).1;
    if s' != s {
      var r := s'.folders;
      assert r == s.folders + [NewFolder(request, uuid, now)];
      forall i, j | 0 <= i < j < |r| ensures r[i].uuid != r[j].uuid {
        assert r[i] == s.folders[i];
      }
    }
  }

  /** Creating a folder under a taken name answers 409 unless the statement
      failed before its constraint check, which answers 500; either way nothing
      changes, so exactly one folder with that name remains. */
  lemma CreateDuplicate(s: Store, request: CreateRequest, uuid: string, now: string, fault: Fault)
    requires WellFormed(s) && HasName(s.folders, request.folderName)
    ensures var (response, s') := Create(s, request, uuid, now, fault);
      && (!fault.Throws? ==> response == Response(ConflictStatus, Message(NameTakenMessage)))
      && (fault.Throws? ==> response == Response(InternalErrorStatus, Raised(OtherFailure)))
      && s' == s
      && CountNamed(s'.folders, request.folderName) == 1
  {
    CountUnique(s.folders, request.folderName);
  }

  /** Any other insert error answers 500, and so does an insert that returns no
      row; neither changes the table. */
  lemma CreateFailure(s: Store, request: CreateRequest, uuid: string, now: string, fault: Fault)
    requires !HasName(s.folders, request.folderName) && !fault.NoFault?
    ensures var (response, s') := Create(s, request, uuid, now, fault);
      && response.status == InternalErrorStatus
      && (fault.ReturnsNothing? <==> response.body == Message(NoRowReturnedMessage))
      && s' == s
  {
  }

  /** Looking a name up answers 404 when no folder has it, and that folder's
      fields otherwise. */
  lemma LookupByName(s: Store, name: string)
    requires NamesUnique(s.folders)
    ensures !HasName(s.folders, name) <==> Lookup(s, name) == Response(NotFoundStatus, NoBody)
    ensures forall k :: 0 <= k < |s.folders| && s.folders[k].folderName == name ==>
              Lookup(s, name) == Response(OkStatus, One(View(s.folders[k])))
  {
    forall k | 0 <= k < |s.folders| && s.folders[k].folderName == name
      ensures Lookup(s, name) == Response(OkStatus, One(View(s.folders[k])))
    {
      var f := SelectByName(s.folders, name).value;
      var m :| 0 <= m < |s.folders| && s.folders[m] == f;
      if m < k {
        assert s.folders[m].folderName != s.folders[k].folderName;
      } else if m > k {
        assert s.folders[k].folderName != s.folders[m].folderName;
      }
    }
  }

  /** Deleting a folder that projects still reference answers 400, and the
      folder still exists. A statement that fails before the foreign-key check
      answers 500. Neither changes the table. */
  lemma DeleteRestricted(s: Store, name: string, throws: bool)
    requires WellFormed(s)
    ensures var (response, s') := Remove(s, name, throws);
      && (name in s.refs && !throws ==> response == Response(BadRequestStatus, Message(StillReferencedMessage)))
      && (name in s.refs ==> HasName(s'.folders, name))
      && (throws ==> response == Response(InternalErrorStatus, Raised(OtherFailure)))
      && (response.status != NoContentStatus ==> s' == s)
  {
  }

  /** A delete that goes through answers 204, and afterwards no folder has that
      name while every other folder is still there; a name no folder had leaves
      the table as it was. */
  lemma DeleteRemoves(s: Store, name: string)
    requires name !in s.refs
    ensures var (response, s') := Remove(s, name, false);
      && response == Response(NoContentStatus, NoBody)
      && !HasName(s'.folders, name)
      && (forall f :: f in s'.folders <==> f in s.folders && f.folderName != name)
      && s'.refs == s.refs
  {
  }

  lemma {:induction false} RemoveAbsent(folders: seq<Folder>, name: string)
    requires !HasName(folders, name)
    ensures RemoveName(folders, name) == folders
  {
    if folders != [] {
      assert folders[0].folderName != name;
      assert !HasName(folders[1..], name) by {
        forall i | 0 <= i < |folders[1..]| ensures folders[1..][i].folderName != name {
          assert folders[1..][i] == folders[i + 1];
        }
      }
      RemoveAbsent(folders[1..], name);
      assert [folders[0]] + folders[1..] == folders;
    }
  }

  /** Deleting a name no folder has still answers 204 and changes nothing. */
  lemma DeleteAbsent(s: Store, name: string)
    requires WellFormed(s) && !HasName(s.folders, name)
    ensures Remove(s, name, false) == (Response(NoContentStatus, NoBody), s)
  {
    RemoveAbsent(s.folders, name);
  }

  /** Create a folder, delete it while no project references it, then look it
      up: 201, 204, then 404. */
  lemma CreateDeleteLookup(s: Store, request: CreateRequest, uuid: string, now: string)
    requires WellFormed(s) && !HasName(s.folders, request.folderName)
    ensures var (created, s1) := Create(s, request, uuid, now, NoFault);
      var (deleted, s2) := Remove(s1, request.folderName, false);
      && created.status == CreatedStatus
      && deleted.status == NoContentStatus
      && Lookup(s2, request.folderName) == Response(NotFoundStatus, NoBody)
  {
    var name := request.folderName;
    assert name !in s.refs;
  }
}
