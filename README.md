# CSV user upload with chain of command

A Dafny model of `handle_csv_upload` (src/handler.py:13-68), the serverless
handler that takes a CSV of employees and upserts them into a MongoDB `user`
collection. For every record it:

- renames the headers: `Email`, `Manager` and `Hire Date` get fixed names and
  every other header is lower-cased;
- coerces `salary` with `int()` and `hire_date` with `strptime('%m/%d/%Y')`,
  and replaces a non-empty manager cell with the `_id` of the user whose
  `normalized_email` is the record's `Manager` cell;
- updates the user with that `normalized_email` (`$set`), or inserts a new one;
- for a new user only, walks the `manager_id` links upward and stores the
  managers met, nearest first, as that user's `chain_of_command` record.

Records are processed in order. The first exception ends the call: nothing is
rolled back, and no response is returned.

Modules:

- `Documents`: values, user documents, parsed CSV records and `find_one` by
  e-mail address.
- `Parsing`: `str.lower()`, `int()` and `strptime('%m/%d/%Y')` over ASCII,
  each with a partner (a formatter it inverts, or idempotence).
- `Normalize`: the standardization of one record (lines 31-40) as a fold over
  its cells.
- `Chain`: the chain-of-command walk (lines 57-60). It is proved sound and
  complete against a declarative chain, and its step bound is proved harmless.
- `Upload`: the specification of one call as functions of the store before it,
  with the properties of a row and of a batch.
- `Handler`: the class `Store`. It holds both collections and its methods
  change them in place. Each loop of the handler is proved equal to the
  function that specifies it:
  - the loop over a record's items (lines 31-40) to `Normalize.Standardize`;
  - the `while` loop (lines 57-60) to `Chain.Walk`;
  - the body of the loop over records (lines 31-61) to `Upload.ApplyRow`;
  - the whole call to `Upload.UploadOutcome`.

The store is modelled as follows:

- Users are kept in insertion order. A user's `_id` is its position, so
  `find_one` returns the first match in natural order, and "the next position"
  plays the part of the `_id` that `insert_one` assigns.
- Chain records are a map from `user_id` to the list of manager ids.

The model follows the code, including where the project's tests or
documentation expect otherwise:

- E-mail addresses are not lower-cased.
- A manager named by a later row of the same file is not found: the call raises.
- A bad salary raises instead of being reported in `errors`, which therefore
  always stays empty.
- The chain of an updated user, or of that user's subordinates, is never
  recomputed.
- A cycle of managers is not detected: the handler loops forever, which the
  model reports as `ManagerCycle` and proves to mean "never ends".

## Model

| member | source | states |
|---|---|---|
| Documents.FindByEmail | src/handler.py:43 | the first user in natural order whose normalized_email equals the address, or none when no user has it |
| Documents.FindByEmailUnique | src/handler.py:43-46 | when addresses are unique, the user carrying an address is the one the lookup returns |
| Parsing.Lower | src/handler.py:33 | `k.lower()`: same length, each upper-case ASCII letter mapped to its lower-case letter, others kept |
| Parsing.LowerIsIdempotent | src/handler.py:33 | lower-cased text has no upper-case letter, and lower-casing it again changes nothing |
| Parsing.ParseInt | src/handler.py:35 | definition of `int(v)`: optional surrounding whitespace, an optional sign, then digits with single underscores between them; none where Python raises ValueError; its partner is ParseShowInt |
| Parsing.ParseShowInt | src/handler.py:35 | `int(str(n)) == n` for every integer, negative ones included |
| Parsing.DecimalValue | src/handler.py:35 | the decimal notation of n is a numeral `int()` accepts, and it denotes n |
| Parsing.ParseDate | src/handler.py:37 | every date `strptime('%m/%d/%Y')` accepts exists in the calendar (year 1-9999, month 1-12, day within the month, leap years included) |
| Parsing.ParseFormatDate | src/handler.py:37 | parsing the `%m/%d/%Y` text of any valid date gives that date back |
| Parsing.SplitAt | src/handler.py:37 | splitting at the first separator: the parts rejoin to the text, and the first part has no separator |
| Parsing.HireDateExample | src/test_handler.py:118 | "07/16/2018" parses as 16 July 2018 |
| Normalize.RenameKey | src/handler.py:33 | definition: `Email`, `Manager` and `Hire Date` get their fixed names, any other header is lower-cased; its properties are stated by RenameKeyTargets and RenameKeyIsLower |
| Normalize.RenameKeyIsLower | src/handler.py:33 | every key holds no upper-case letter, and lower-casing it again changes nothing |
| Normalize.RenameKeyTargets | src/handler.py:23-33 | a header becomes normalized_email, manager_id or hire_date exactly when it is `Email`, `Manager` or `Hire Date`, or lower-cases to that name; it becomes salary exactly when it lower-cases to `salary` |
| Normalize.CoerceCell | src/handler.py:34-40 | a cell fails only with a bad salary, a bad hire date, a missing Manager column or an unknown manager; a manager cell resolved to an `_id` names a user already stored |
| Normalize.LastIndex | src/handler.py:40 | the last position holding a key, or none when the key is absent |
| Normalize.Standardize | src/handler.py:31-40 | definition: the fold of the coerced cells under their keys, later headers overwriting earlier ones; its properties are stated by StandardizeKeys, StandardizeErrors, StandardizeEmail, StandardizeRefsBelow and ManagerCellResolves |
| Normalize.Assemble | src/handler.py:31-40 | definition: `user_data[k] = v` applied cell by cell in header order, stopping at the first exception; its properties are stated by the Assemble lemmas below |
| Normalize.RowEmail | src/handler.py:43 | the record has a normalized_email exactly when one of its headers is renamed to normalized_email |
| Normalize.AssembleRefsBelow | src/handler.py:31-40 | when every coerced cell that is an `_id` names one of the first n users, so does every `_id` in the built document |
| Normalize.StandardizeRefsBelow | src/handler.py:38-39 | every `_id` in `user_data` names a user already stored |
| Normalize.AssembleOkIffCellsOk | src/handler.py:31-40 | a document is built exactly when every cell coerces |
| Normalize.AssembleFailsAtFirstBadCell | src/handler.py:31-40 | a failed build reports the error of the first failing cell, and every earlier cell coerced |
| Normalize.AssembleLookup | src/handler.py:40 | a key is in the built document exactly when some header maps to it, with the value of the last such cell |
| Normalize.AssembleKeepsError | src/handler.py:31-40 | once a prefix of the cells fails, the whole build fails with that error |
| Normalize.StandardizeKeys | src/handler.py:31-40 | the keys of `user_data` are exactly the renamed headers |
| Normalize.StandardizeErrors | src/handler.py:34-40 | a record standardizes exactly when each cell coerces; otherwise the error is that of the first failing cell |
| Normalize.StandardizeEmail | src/handler.py:43 | `user_data` has normalized_email exactly when the record has an `Email`-like header, and its value is that cell, whatever the store holds |
| Normalize.ManagerCellResolves | src/handler.py:38-39 | an empty manager cell is stored as it is; a non-empty one becomes the `_id` of the first user whose normalized_email is the raw `Manager` cell |
| Chain.Walk | src/handler.py:58-60 | the walk fails only with a missing manager_id, a manager that names no user, or a cycle |
| Chain.TrailInRange | src/handler.py:58-60 | every manager on a followed path is a stored user |
| Chain.WalkAlongTrail | src/handler.py:58-60 | walking along a followed path yields the path, then whatever the walk from its end yields |
| Chain.WalkEndsOnStop | src/handler.py:58-60 | a walk that does not run out of steps reaches a user whose manager_id is falsy, missing or broken |
| Chain.StopsUnique | src/handler.py:58-60 | there is only one such path from a user |
| Chain.StopsSuffix | src/handler.py:58-60 | the part of such a path after any manager is that manager's own path |
| Chain.StopsDistinct | src/handler.py:58-60 | a path that ends visits no user twice |
| Chain.StopsShort | src/handler.py:58-60 | a path that ends is shorter than the number of users |
| Chain.FuelSuffices | src/handler.py:58-60 | a walk that ends within any number of steps ends the same within as many steps as there are users |
| Chain.CycleIsForever | src/handler.py:58-60 | a walk that does not end within as many steps as there are users never ends, however many steps are allowed |
| Chain.WalkSound | src/handler.py:55-60 | every list the walk returns is a chain of command |
| Chain.WalkFindsChain | src/handler.py:55-60 | the walk returns a list exactly when that list is the user's chain of command |
| Chain.ChainFields | src/handler.py:55-60 | element 0 is the user's manager_id, element i+1 is the manager_id of element i, the last element's manager_id is falsy, an empty chain means the user's own manager_id is falsy, and no user repeats |
| Upload.ApplyRow | src/handler.py:31-61 | definition of one pass of the loop: standardize the record, raising the first cell's exception, then store it; proved by ApplyRowSizes, UpdateSetsRowKeysOnly, InsertAddsUserAndChain and AbortedRowWrites |
| Upload.StoreUser | src/handler.py:43-61 | definition of lines 43-61: KeyError without normalized_email, `$set` on the first user with the address, otherwise an insert followed by the walk and its chain record; proved by the same lemmas |
| Upload.RunRows | src/handler.py:29-66 | definition of the loop over records with the counters so far; the first exception ends the call; proved by RunRowsCounts, RunRowsAppend and AbortKeepsEarlierRows |
| Upload.UploadOutcome | src/handler.py:13-66 | definition of the whole call: the loop from counters 0 and 0; proved by ResponseCounts and the batch lemmas |
| Upload.ApplyRowSizes | src/handler.py:38-61 | a created row adds one user and one chain record, an updated row adds neither; chain records stay tied to stored users, and every stored manager `_id` names a stored user |
| Upload.UpdateSetsRowKeysOnly | src/handler.py:43-48 | an update hits the first user with the row's address, sets exactly the row's keys to `user_data`'s values (the stored user is the old one merged with `user_data`), keeps that user's other fields, and changes no other user and no chain record |
| Upload.InsertAddsUserAndChain | src/handler.py:49-61 | an insert happens only when no user has the address; it appends one user equal to `user_data`, with the row's keys, and one chain record, for that user, which is its chain of command |
| Upload.AbortedRowWrites | src/handler.py:29-61 | a row that raises writes nothing, except that a failing walk leaves the just-inserted user without a chain record |
| Upload.FailingCellWritesNothing | src/handler.py:34-40 | a bad salary, a bad hire date or an unknown manager makes the row raise before anything is written |
| Upload.RowLeavesEmailFound | src/handler.py:43-52 | after a row completes, its address leads to the user it created or updated |
| Upload.EmailLookupIsStable | src/handler.py:43-52 | no row changes which user an address already leads to |
| Upload.ApplyRowKeepsEmailsUnique | src/handler.py:43-52 | a row keeps normalized_email unique among users |
| Upload.StoredManagerIsResolved | src/handler.py:38-39 | the stored manager_id is the `_id` of the user found by the raw `Manager` cell in the store as the row finds it, earlier rows of the batch included; an empty cell is stored as a falsy value |
| Upload.DistinctEmailsDistinctUsers | src/test_handler.py:250-269 | two completed rows with different addresses end as two different users, each found by its own address |
| Upload.RepeatedEmailUpdates | src/test_handler.py:279-298 | a later row with an earlier row's address updates that same user and adds none |
| Upload.RunRowsAppend | src/handler.py:29 | a batch is its first part followed by the rest, unless the first part raised |
| Upload.RunRowsUnfold | src/handler.py:29 | a batch that returns went through its first row and then the rest |
| Upload.AbortKeepsEarlierRows | src/handler.py:29-61 | a row that raises ends the call with no response; the rows before it stay written and the rows after it are never read |
| Upload.RunRowsCounts | src/handler.py:44-52 | every completed row bumps exactly one counter, and each creation adds one user and one chain record |
| Upload.ResponseCounts | src/handler.py:14-18 | a call that returns answers 200 with no errors and numCreated + numUpdated equal to the number of rows, and users and chain records both grow by numCreated |
| Upload.RunRowsKeepsEmailsUnique | src/handler.py:43-52 | a batch keeps normalized_email unique, whether it returns or raises |
| Upload.RunRowsKeepsLookup | src/handler.py:43-52 | through a batch, an address that leads to a user keeps leading to that user |
| Upload.EmailsStayFound | src/handler.py:43-52 | a row leaves every address that led to a user still leading to one |
| Upload.RunRowsLeavesEmailsFound | src/handler.py:43-52 | after a batch returns, every row's address leads to a user |
| Upload.KnownEmailsOnlyUpdate | src/handler.py:43-48 | when every row's address already leads to a user, a batch that returns creates nothing and counts every row as an update |
| Upload.ResubmitCreatesNothing | src/handler.py:43-52 | uploading the same rows a second time creates no user: every row counts as an update |
| Handler.Store.constructor | src/handler.py:8-10 | the collections start as the given consistent store (chain records tied to users, every manager `_id` naming a user) |
| Handler.Store.StandardizeRow | src/handler.py:31-40 | the loop over the record's items returns exactly the standardized document, or the first cell's exception |
| Handler.Store.ChainOfCommand | src/handler.py:55-60 | the `while` loop returns exactly what the walk specifies: the chain of command, or the error it raises |
| Handler.Store.HandleRow | src/handler.py:31-61 | the new collections and the row's outcome are those of the one-row specification, and the store stays consistent: chain records tied to users, every manager `_id` naming a user |
| Handler.Store.HandleCsvUpload | src/handler.py:13-68 | the new collections and the answer are those of the whole-call specification, and the store stays consistent: chain records tied to users, every manager `_id` naming a user |

## Left out

- CSV parsing with `csv.DictReader` (line 21) and JSON serialisation (line 65) are library calls. The model takes records as already parsed (headers in order plus a cell per header) and returns the response body as a value.
- The MongoDB client, environment variables and the global `db` handle (lines 1-10) are replaced by the two collections held by `Store`.
- Uploadable: a record with a header that lower-cases to `_id` is excluded, because MongoDB would take it as the document's `_id`.
- Upload.StoreUser: does not raise pymongo's OverflowError for an integer that does not fit in 64 bits (for example a salary of 9223372036854775808) at `update_one` or `insert_one` (lines 46 and 51). Integers are unbounded in the model, and the store accepts them.
- Upload.StoreUser: does not raise when a record has an empty header (key `""`), which MongoDB's `$set` rejects on update (line 46). The empty key is stored like any other.
- Field names containing `.` or `$` are stored as ordinary keys, whereas MongoDB would reject or reinterpret them.
- Parsing.Lower: lower-cases only ASCII letters. Python's `str.lower()` also maps other Unicode letters, some to longer strings.
- Parsing.ParseInt: accepts only ASCII digits and ASCII whitespace. Python's `int()` also accepts other Unicode decimal digits and spaces.
- Parsing.ParseDate: works on ASCII `%m/%d/%Y` only, without locale handling. The result is a date without a time of day, since `strptime` gives midnight.
- Chain.Walk: gives up after as many steps as there are users, where the handler's loop never ends. Chain.CycleIsForever proves that exactly those walks never end, and Chain.FuelSuffices proves that no walk that ends is cut short.
- Password hashing, ObjectId generation and index creation exist only in the test fixture, so they are not part of this model.
- Several behaviours appear only as test expectations that the handler does not implement, so they are not modelled:
  - errors collected in `errors`;
  - e-mail format validation;
  - recomputing the chain of an updated user;
  - managers that appear in a later row.
- `find_one` returning `None` for the user just inserted (line 57) cannot happen, so the model has no case for it. A manager_id that names no user raises `BrokenManager`.
