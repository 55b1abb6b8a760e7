# transit-demo: verified model of the data and folder handlers

transit-demo is a small Deno/oak HTTP service. It stores values encrypted by a
Vault-style transit engine, and it keeps a table of folders that projects
hang under. This project models two pieces of it in Dafny and proves what
their handlers promise:

- **The encrypted data path** (`app/index.ts`). This is the `data` table with
  an AUTOINCREMENT id, the ciphertext, the key name and two timestamps, plus
  the module-level connection that `setup` assigns.
  - `POST /data` encrypts first and inserts only if encryption succeeded.
  - `GET /data/:id` looks the row up, answers 404 when it is absent, and
    otherwise decrypts the stored ciphertext with the stored key name.
- **The folder store** (`app/lib/folders.ts`). This is the `folders` table
  with a UNIQUE `folder_name` and rows that projects reference by foreign
  key, with its four handlers: list, create, get by name and delete by name.

Layout, leaf first:

| file | module | what it holds |
|---|---|---|
| `wrappers.dfy` | `Wrappers`, `Http`, `Storage` | `Option`/`Result`, status codes and `Response`, the typed storage outcomes (`DbError`, `Fault`, `InsertResult`, `RunResult`) |
| `base64.dfy` | `Base64` | `btoa` and the forgiving-base64 `atob`, with `atob(btoa(s)) == s` |
| `json_string.dfy` | `JsonString` | `JSON.stringify`/`JSON.parse` of one string value, with `parse(stringify(s)) == s` |
| `transit.dfy` | `Transit` | the vault client: `Encode`/`Decode` wrapping, `Encrypt`/`Decrypt` against a vault given as two functions, and the round trip |
| `data_store.dfy` | `DataStore` | the `data` table as a `Database` object, the server state `App` (the nullable connection and a log of outbound effects), and the two handlers as methods |
| `folders.dfy` | `Folders` | the `folders` table as a `FolderTable` object with its project references, and the four handlers |

How the pieces are modelled:

- **State.**
  - The tables are objects whose fields the insert and delete methods
    reassign.
  - Each method is specified by a pure function over a value snapshot of
    its table (`DataStore.Post`, `DataStore.Get`, `Folders.Create`,
    `Folders.Remove`, `Folders.Lookup`).
  - The lemmas at the end of each module are about those functions.
- **The vault.** `Transit.Vault` is a pair of functions from (key name,
  request field) to a reply: `Failed` for a non-2xx answer, or `Ok` with
  the `ciphertext`/`plaintext` field. Within one handler call each endpoint
  is asked at most once, so any single answer of the real service can be
  plugged in. Because a `Vault` value is a fixed function, it answers one
  request the same way every time. So a transient failure or a randomized
  ciphertext shows up only across calls that are given different vaults, as
  in `DataStore.App.ReadTwice`. The round trip is proved for every vault that
  satisfies `Transit.Inverts`: decrypt under a key gives back what encrypt was given
  under that key.
- **The environment.** The clock (`now`), `crypto.randomUUID()` (`uuid`)
  and storage faults are parameters. Storage faults are `Fault` for an
  insert and a flag for a delete or select.
- **Constraint checks.** An injected fault that throws stands for an error
  that fails the statement before it reaches its constraint check.
  - For an insert, this means a busy or locked database, an I/O error, or a
    failing `prepare`. The `prepare` is inside the `try`
    (app/lib/folders.ts:45-46), so the catch answers 500 with the error
    (app/lib/folders.ts:85-89), even for a taken folder name.
  - For a delete, this means only a `stmt.run` that throws before the
    foreign-key check (app/lib/folders.ts:146). The catch answers 500
    (app/lib/folders.ts:149-151), even for a referenced folder. The DELETE
    `prepare` comes before the `try` (app/lib/folders.ts:139-145), so it is
    not one of these faults (see Left out).
  - Without such a fault, a taken name answers 409 and a folder that is
    still referenced answers 400.
- **The outbound log.** `App.log` records, in order, every vault request and
  SQL statement of the two data handlers. "Encrypt before insert", "lookup before decrypt" and
  "a 404 never decrypts" are stated over it.

Behaviour of the code worth knowing:

- `btoa` throws on any character above U+00FF. So a POST whose `data` holds
  such a character answers 500 with the ghost message, and the vault is never
  asked (`Transit.Encode`, `Transit.EncryptOutcome`).
- The vault's `key_version` is never stored; the `data` table has no column
  for it.
- An operation before `setup` does not fail inside the handler's `try`.
  `getClient()` throws outside it, and the framework answers 500. The model
  answers `Response(500, Unhandled("DB connection not setup"))` and changes
  nothing.
- A failed decryption throws `'unable to encrypt'`, the same text as a
  failed encryption. The model does not carry error-object texts (see Left
  out).
- The 409 body says `'project name must be unique'`, although it answers a
  duplicate folder name. The model reproduces the text.
- `folder.description || ''` also replaces an empty description with `''`.
  This is the same value, so `Folders.DescriptionOrDefault` states both
  cases.

## Model

| member | source | states |
|---|---|---|
| `Base64.Btoa` | app/index.ts:67 | `btoa` fails exactly when some character is above U+00FF; otherwise the padded base64 text is a multiple of four long |
| `Base64.Atob` | app/index.ts:112 | whatever `atob` returns is a binary string (every character at most U+00FF) |
| `Base64.AtobBtoa` | app/index.ts:112 | for every binary string `s`, `atob(btoa(s)) == s` (whitespace removal, padding removal and the leftover-bit rule included) |
| `Base64.DecodeEncodeSextets` | app/index.ts:112 | turning bytes into six-bit groups and back returns the bytes, short last groups included |
| `JsonString.Stringify` | app/index.ts:67 | `JSON.stringify` of a string is a quoted JSON literal |
| `JsonString.Parse` | app/index.ts:113 | a text `JSON.parse` accepts contains a double quote (the full shape is `ParseOneLiteral`) |
| `JsonString.ParseOneLiteral` | app/index.ts:113 | a text `JSON.parse` reads as a string is JSON whitespace, then one string literal from its opening quote to its closing quote, whose contents are the result, then JSON whitespace |
| `JsonString.ParseEscapeChar` | app/index.ts:113 | every character's JSON escape is read back as that character, whatever follows it |
| `JsonString.ParseStringify` | app/index.ts:113 | `JSON.parse(JSON.stringify(s)) == s` for every string |
| `JsonString.ParseSkipsLeadingWhitespace` | app/index.ts:113 | JSON whitespace before the literal does not change what `JSON.parse` reads |
| `JsonString.SurrogatePairRule` | app/index.ts:113 | every escape of a high surrogate followed by an escape of a low surrogate, in hex digits of either case, is read as the one character the pair encodes in UTF-16 |
| `JsonString.LoneSurrogateRule` | app/index.ts:113 | an escaped low surrogate with no high surrogate before it, and an escaped high surrogate with no low surrogate escape after it, are rejected, in hex digits of either case |
| `JsonString.SurrogatePair` | app/index.ts:113 | the escape pair `\ud83d\udc7b` is read as the single character U+1F47B |
| `JsonString.LoneLowSurrogate` | app/index.ts:113 | the escaped unpaired low surrogate `\udc7b` is rejected |
| `Transit.StringifyBinary` | app/index.ts:67 | the JSON text of a string is binary exactly when the string is, since quoting adds only ASCII |
| `Transit.Encode` | app/index.ts:67 | `btoa(JSON.stringify(data))` succeeds exactly when the data is binary |
| `Transit.DecodeEncode` | app/index.ts:112-113 | `JSON.parse(atob(...))` undoes `btoa(JSON.stringify(data))` for every binary data |
| `Transit.Decode` | app/index.ts:112-113 | `JSON.parse(atob(plaintext))`, each throw as its own error. It has no contract of its own; `Transit.DecodeEncode` and `Transit.TransitRoundTrip` state what it does to an encoded value |
| `Transit.Encrypt` | app/index.ts:63-89 | a success carries exactly what the vault's encrypt endpoint answered for the encoded data |
| `Transit.Decrypt` | app/index.ts:91-115 | a success implies the vault's decrypt endpoint answered 2xx |
| `Transit.RefusalIsFailure` | app/index.ts:80-108 | a non-2xx vault answer is the failure `Refused` on both paths, never an empty success |
| `Transit.EncryptOutcome` | app/index.ts:63-89 | encryption fails without a vault request exactly when the data is not binary; otherwise it succeeds exactly when the vault does |
| `Transit.TransitRoundTrip` | app/index.ts:63-115 | with a vault that inverts itself, `decrypt(encrypt(d)) == d` |
| `DataStore.IdsUnique` | app/index.ts:46 | in a well-formed table no two rows share an id |
| `DataStore.Find` | app/index.ts:193-202 | the select by id finds a row with that id that is in the table, and finds nothing exactly when no row has that id |
| `DataStore.Insert` | app/index.ts:146-159 | a successful insert appends exactly one row with the next id, the given fields and no `updated_at`, above every earlier id; a failed one changes nothing; it succeeds exactly when no fault occurs and the id range is not used up; well-formedness is kept |
| `DataStore.Database.Open` | app/index.ts:41-56 | opening the file and `CREATE TABLE IF NOT EXISTS` gives the file's table, or an empty one |
| `DataStore.Database.InsertReturning` | app/index.ts:146-159 | the statement's result and the new table are those of `Insert` on the old table |
| `DataStore.App.constructor` | app/index.ts:33 | before `setup` there is no connection and nothing has been done |
| `DataStore.App.GetClient` | app/index.ts:35-39 | `getClient` succeeds exactly when the connection is set, and otherwise fails with 'DB connection not setup' |
| `DataStore.App.Setup` | app/index.ts:41-56 | `setup` assigns a fresh connection whose table is the file's table or empty, and sends nothing out |
| `DataStore.App.EncryptWithVault` | app/index.ts:63-89 | returns `Transit.Encrypt`, and logs one encrypt request exactly when encoding succeeded |
| `DataStore.App.DecryptWithVault` | app/index.ts:91-115 | returns `Transit.Decrypt`, after logging the decrypt request |
| `DataStore.App.PostData` | app/index.ts:129-185 | before setup: 500, nothing done; after setup, the response, the new table and the effects are those of `Post` |
| `DataStore.App.GetData` | app/index.ts:187-232 | before setup: 500, nothing done; after setup, the response and the effects are those of `Get`, and the table is not touched |
| `DataStore.App.ReadTwice` | app/index.ts:187-232 | two reads of one id with no write between them, through vaults that may answer differently but agree wherever both decrypt, answer the same row and content whenever both succeed |
| `DataStore.Post` | app/index.ts:129-185 | `POST /data` after setup, as the response, the new table and the effects. It has no contract of its own; `DataStore.App.PostData` is tied to it, and `PostEncryptFailure`, `PostAppendsRow`, `PostInsertFailure`, `PostStatus`, `PostEncryptsFirst` and `PostThenGet` specify it |
| `DataStore.Get` | app/index.ts:187-232 | `GET /data/:id` after setup, as the response and the effects. It has no contract of its own; `DataStore.App.GetData` is tied to it, and `GetMissing`, `GetExisting`, `GetDecrypted` and `PostThenGet` specify it |
| `DataStore.EncryptEffects` | app/index.ts:67-78 | the encrypt request is sent exactly when encoding succeeded, at most once |
| `DataStore.PostEncryptFailure` | app/index.ts:136-144 | a failed encryption answers 500 with the ghost message, leaves the table unchanged and runs no insert |
| `DataStore.PostAppendsRow` | app/index.ts:146-177 | after encryption and insert, exactly one row is appended: the vault's ciphertext, the request's key name verbatim, `created_at = now`, no `updated_at`, an id above every earlier one; the answer is 201 and echoes it with the key name as `key` |
| `DataStore.PostInsertFailure` | app/index.ts:161-184 | an insert that returns no row or throws answers 500, not the encryption message, and leaves the table unchanged |
| `DataStore.PostStatus` | app/index.ts:129-185 | a POST answers 201 or 500; 201 exactly when one row was added; any other answer leaves the table as it was; ids stay strictly increasing |
| `DataStore.PostEncryptsFirst` | app/index.ts:136-159 | the insert runs only as the second effect, after the encrypt request, and stores exactly the ciphertext the vault answered |
| `DataStore.GetMissing` | app/index.ts:202-210 | an id with no row answers 404, and the only effect is the select: nothing is decrypted |
| `DataStore.GetExisting` | app/index.ts:212-231 | an existing row is decrypted with its own stored ciphertext and key name, after the select; the answer is 200 with the id, the plaintext and `created_at`, or 500 when decryption fails |
| `DataStore.PostThenGet` | app/index.ts:129-232 | with a vault that inverts itself, reading the row a successful POST created answers 200 with the posted data and the time of the post |
| `Folders.CountUnique` | app/lib/folders.ts:46-62 | under the UNIQUE constraint a name is carried by exactly one row or by none |
| `Folders.DescriptionOrDefault` | app/lib/folders.ts:59 | the stored description is '' exactly when none or '' was supplied, and otherwise is the supplied one |
| `Folders.SelectByName` | app/lib/folders.ts:104-116 | the select finds a stored folder with that name, and finds nothing exactly when no folder has it |
| `Folders.RemoveName` | app/lib/folders.ts:139-146 | the delete keeps exactly the rows with another name |
| `Folders.RemoveNameUnique` | app/lib/folders.ts:139-146 | deleting rows keeps folder names unique |
| `Folders.AppendUnique` | app/lib/folders.ts:46-62 | appending a row whose name is not taken keeps folder names unique |
| `Folders.Insert` | app/lib/folders.ts:46-62 | an error before the constraint check is reported exactly when the fault throws; otherwise the UNIQUE violation is reported exactly when the name is taken; the insert succeeds exactly when the name is free and no fault occurs, and then appends exactly that row; a failed insert changes nothing |
| `Folders.InsertWellFormed` | app/lib/folders.ts:46-62 | an insert keeps the UNIQUE and foreign-key constraints |
| `Folders.Delete` | app/lib/folders.ts:139-146 | an error before the foreign-key check is reported exactly when the statement throws; otherwise the foreign-key violation is reported exactly when projects still reference the name; the delete goes through exactly when they do not and no error occurs, and then removes the named rows; a failed delete changes nothing |
| `Folders.DeleteWellFormed` | app/lib/folders.ts:139-146 | a delete keeps the UNIQUE and foreign-key constraints |
| `Folders.FolderTable.constructor` | app/lib/folders.ts:15 | the open table holds the given rows and references |
| `Folders.FolderTable.InsertReturning` | app/lib/folders.ts:46-62 | the result and the new table are those of `Insert`, and the constraints still hold |
| `Folders.FolderTable.DeleteByName` | app/lib/folders.ts:139-146 | the result and the new table are those of `Delete`, and the constraints still hold |
| `Folders.ListView` | app/lib/folders.ts:29-32 | one entry per row, in row order, each with the uuid as `id` and every other field copied |
| `Folders.ListFolders` | app/lib/folders.ts:14-37 | the list answers 200 with one entry per folder, in row order, each the folder with its uuid as `id` and every other field copied |
| `Folders.ListedOnce` | app/lib/folders.ts:27-32 | each stored folder appears in the list at its own position, and no other entry carries its name |
| `Folders.Create` | app/lib/folders.ts:39-98 | `POST /` on a store, as the response and the new store. It has no contract of its own; `Folders.CreateFolder` is tied to it, and `CreateStamps`, `CreateFreshUuid`, `CreateDuplicate`, `CreateFailure` and `CreateDeleteLookup` specify it |
| `Folders.Remove` | app/lib/folders.ts:135-161 | `DELETE /:folder_name` on a store, as the response and the new store. It has no contract of its own; `Folders.DeleteFolder` is tied to it, and `DeleteRestricted`, `DeleteRemoves`, `DeleteAbsent` and `CreateDeleteLookup` specify it |
| `Folders.Lookup` | app/lib/folders.ts:100-133 | `GET /:folder_name` on a store. It has no contract of its own; `Folders.GetFolder` is tied to it, and `LookupByName` and `CreateDeleteLookup` specify it |
| `Folders.CreateFolder` | app/lib/folders.ts:39-98 | the response and the new table are those of `Create`, and the constraints still hold |
| `Folders.GetFolder` | app/lib/folders.ts:100-133 | the answer is `Lookup` on the table; it is 404 with no body exactly when no folder has the name, and otherwise 200 with a folder of that name |
| `Folders.DeleteFolder` | app/lib/folders.ts:135-161 | the response and the new table are those of `Remove`, and the constraints still hold |
| `Folders.CreateStamps` | app/lib/folders.ts:43-84 | a created folder has the generated uuid, the requested name, the description '' when none was given, and `created_at == updated_at == now`; it is appended and answered 201 with the uuid as `id` |
| `Folders.CreateFreshUuid` | app/lib/folders.ts:43 | a generated uuid no stored folder has keeps uuids distinct |
| `Folders.CreateDuplicate` | app/lib/folders.ts:85-96 | creating under a taken name answers 409 'project name must be unique', or 500 when the statement failed before its constraint check; it changes nothing, and exactly one folder with that name remains |
| `Folders.CreateFailure` | app/lib/folders.ts:64-90 | any other insert error, or an insert that returns no row, answers 500 and changes nothing; the no-row case carries its own message |
| `Folders.LookupByName` | app/lib/folders.ts:116-132 | get-by-name answers 404 exactly when no folder has the name, and otherwise that folder's fields |
| `Folders.DeleteRestricted` | app/lib/folders.ts:149-159 | deleting a still-referenced folder answers 400 unless the statement failed before the foreign-key check, which answers 500; a referenced folder still exists afterwards; a failed delete changes nothing |
| `Folders.DeleteRemoves` | app/lib/folders.ts:145-148 | a delete that goes through answers 204; no folder has the name afterwards, every other folder remains, and the references are untouched |
| `Folders.DeleteAbsent` | app/lib/folders.ts:139-148 | deleting a name no folder has answers 204 and changes nothing |
| `Folders.CreateDeleteLookup` | app/lib/folders.ts:39-161 | create, then delete while unreferenced, then look up: 201, 204, then 404 |

## Left out

- Network and HTTP plumbing are not modelled:
  - the `fetch` calls and their headers;
  - `VAULT_ADDR`/`VAULT_TOKEN` from the environment;
  - the oak application, routers, logger and CORS middleware;
  - the `listen` handler and the bootstrap (app/index.ts:64-65, 92-93, 118-124, 234-282).
  The vault is the `Transit.Vault` parameter.
- The `sqlite_version()` query and its console line in `setup` (app/index.ts:58-59) are not modelled. Neither are any other console output or error texts: a caught error object is the body `Raised(cause)`, without its message.
- SQL text, prepared statements and SQLite itself are replaced by the stand-in tables. `varchar(1000)`/`varchar(10)` are not enforced, because SQLite does not enforce them.
- `../storage/adapter.ts`, `../middleware/require-authentication.ts` and `./projects.ts` are not part of this model (app/lib/folders.ts:3-6, 12, 163). So the following are left out:
  - the folder handlers' `getClient()` (they are given the open table);
  - authentication;
  - the projects routes.
  Project rows appear only as the multiset of folder names they reference. The `folders`/`projects` schema and foreign-key enforcement are assumptions: UNIQUE on `folder_name`, and restrict on delete.
- `Folders.ListFolders`, `Folders.GetFolder`: a select that throws (outside any `try` in the source, so the framework answers 500) is not modelled; these selects always succeed here.
- `Folders.DeleteFolder`: a failing DELETE `prepare` is not modelled. It runs before the `try` (app/lib/folders.ts:139-145), so it escapes the handler, and the framework answers 500 without the `{ message: e }` body. The model's `throws` is only a `stmt.run` that throws, and it is answered as the caught `Raised` body.
- `DataStore.App.PostData`: the request body is taken to hold string `data` and `key`. The following are not modelled:
  - other JSON values and missing fields (where `JSON.stringify(undefined)` and a NOT NULL `keyname` would come into play);
  - a `request.body.json()` that throws.
- `DataStore.App.GetData`: the route's `:id` is taken as an integer. SQLite's conversion of the text parameter to an integer is not modelled.
- `JsonString.Parse`, `JsonString.LoneSurrogateRule`, `JsonString.LoneLowSurrogate`: only a JSON text holding one string literal is read. Any other JSON value is treated as a failure, although `JSON.parse` would return it. A `\u` escape of an unpaired surrogate, which JavaScript keeps as a lone code unit, is a failure, because a Dafny `char` cannot hold one.
- `Transit.Decrypt`: a 2xx vault answer without a `data.plaintext` field, and network failures other than a non-2xx status, are not modelled separately.
- `Transit.Encrypt`: a 2xx encrypt answer without a `data.ciphertext` field is not modelled. In the code, `encryptWithVault` then returns `undefined` (app/index.ts:84-88). The handler inserts NULL into the nullable `data` column (app/index.ts:48) and answers 201 with `data: null` (app/index.ts:155-177), which `Reply.Ok` cannot express.
- `Folders.CreateFolder`: the request body is taken to hold a string `folder_name` and an absent or string `description`. The following are not modelled:
  - a missing `folder_name`, which is bound as NULL; SQLite's UNIQUE admits repeated NULLs unless the schema, which is not part of this model, says NOT NULL (app/lib/folders.ts:58);
  - a non-string `description`: `0 || ''` stores `''`, and `5` is stored as a number (app/lib/folders.ts:59);
  - a `request.body.json()` that throws outside the `try` (app/lib/folders.ts:40).
- `Base64.Btoa` works on Unicode scalar values as Dafny's `char`, not on UTF-16 code units. Both reject every character above U+00FF, so the outcome is the same.
- Concurrency and async scheduling are left out. This includes a request arriving between `new Database(...)` and `CREATE TABLE` in `setup`; `Database.Open` does both at once.
