/** What one call of `handle_csv_upload` (src/handler.py:13-68) does to the
    user and chain-of-command collections and what it answers, as functions
    of the store before the call, with the properties the handler promises. */
module Upload {
  import opened Documents
  import opened Normalize
  import opened Chain

  /** The two collections: users in natural order (position = `_id`) and the
      chain-of-command records keyed by `user_id`. */
  datatype Db = Db(users: seq<Doc>, chains: map<Id, seq<Id>>)

  /** Every chain-of-command record belongs to a stored user, and every
      reference a user holds (a manager_id) names a stored user: an `_id` that
      names nobody now never names somebody later. */
  ghost predicate Consistent(db: Db) {
    && (forall id :: id in db.chains ==> id < |db.users|)
    && (forall i :: 0 <= i < |db.users| ==> RefsBelow(db.users[i], |db.users|))
  }

  /** What a row that completes did to the user collection. */
  datatype Upsert = Created(id: Id) | Updated(id: Id)

  datatype Step = Step(db: Db, outcome: Result<Upsert>)

  /** The answer of a call that returns: status code and response body. */
  datatype Response = Response(statusCode: int, numCreated: nat, numUpdated: nat, errors: seq<string>)

  /** The collections after a call, and its answer or the exception it raised. */
  datatype Outcome = Outcome(db: Db, response: Result<Response>)

  /** A parsed CSV record none of whose headers is renamed to `_id`. */
  predicate Uploadable(row: Row) {
    WellFormedRow(row) && ID_FIELD !in Keys(row.headers)
  }

  /** One pass of the loop body, lines 31-61: standardize the record, then
      store it. */
  function ApplyRow(db: Db, row: Row): Step
    requires Uploadable(row)
  {
    match Standardize(db.users, row)
    case Err(e) => Step(db, Err(e))
    case Ok(userData) => StoreUser(db, userData)
  }

  /** Lines 43-61: update the user with the document's normalized_email, or
      insert it as a new user and store its chain of command. Writes made
      before an exception stay. */
  function StoreUser(db: Db, userData: Doc): Step {
    if EMAIL_FIELD !in userData then Step(db, Err(NoEmail))
    else match FindByEmail(db.users, userData[EMAIL_FIELD])
      case Some(i) => Step(db.(users := db.users[i := db.users[i] + userData]), Ok(Updated(i)))
      case None =>
        var id := |db.users|;
        var users := db.users + [userData];
        match Walk(users, id, |users|)
        case Err(e) => Step(db.(users := users), Err(e))
        case Ok(chain) => Step(Db(users, db.chains[id := chain]), Ok(Created(id)))
  }

  /** The loop of line 29 over the remaining rows, with the counters so far;
      the first exception ends the call. */
  function RunRows(db: Db, numCreated: nat, numUpdated: nat, rows: seq<Row>): Outcome
    requires forall i :: 0 <= i < |rows| ==> Uploadable(rows[i])
    decreases |rows|
  {
    if rows == [] then Outcome(db, Ok(Response(200, numCreated, numUpdated, [])))
    else
      var step := ApplyRow(db, rows[0]);
      match step.outcome
      case Err(e) => Outcome(step.db, Err(e))
      case Ok(Created(_)) => RunRows(step.db, numCreated + 1, numUpdated, rows[1..])
      case Ok(Updated(_)) => RunRows(step.db, numCreated, numUpdated + 1, rows[1..])
  }

  /** The whole call on already parsed rows. */
  function UploadOutcome(db: Db, rows: seq<Row>): Outcome
    requires forall i :: 0 <= i < |rows| ==> Uploadable(rows[i])
  {
    RunRows(db, 0, 0, rows)
  }

  // ------------------------------------------------------------ one row

  /** A row that completes adds one user and one chain-of-command record
      when it creates, and none when it updates. */
  lemma ApplyRowSizes(db: Db, row: Row)
    requires Uploadable(row) && Consistent(db)
    ensures Consistent(ApplyRow(db, row).db)
    ensures ApplyRow(db, row).outcome.Ok? && ApplyRow(db, row).outcome.value.Created? ==>
      && |ApplyRow(db, row).db.users| == |db.users| + 1
      && |ApplyRow(db, row).db.chains| == |db.chains| + 1
    ensures ApplyRow(db, row).outcome.Ok? && ApplyRow(db, row).outcome.value.Updated? ==>
      && |ApplyRow(db, row).db.users| == |db.users|
      && ApplyRow(db, row).db.chains == db.chains
  {
    var step := ApplyRow(db, row);
    if Standardize(db.users, row).Ok? {
      var userData := Standardize(db.users, row).value;
      StandardizeRefsBelow(db.users, row);
      if EMAIL_FIELD in userData {
        match FindByEmail(db.users, userData[EMAIL_FIELD])
        case Some(i) =>
          assert step.db.users == db.users[i := db.users[i] + userData];
          assert RefsBelow(db.users[i] + userData, |db.users|);
        case None =>
          var users := db.users + [userData];
          assert step.db.users == users;
          forall j | 0 <= j < |users| ensures RefsBelow(users[j], |users|) {
            assert RefsBelow(users[j], |db.users|);
          }
          if step.outcome.Ok? {
            assert |db.users| !in db.chains;
          }
      }
    }
  }

  /** An update finds the first user with the row's normalized_email, sets
      exactly the row's keys on it and keeps its other fields (such as
      hashed_password) and its `_id`; no other user and no chain record changes. */
  lemma UpdateSetsRowKeysOnly(db: Db, row: Row, i: Id)
    requires Uploadable(row)
    requires ApplyRow(db, row).outcome == Ok(Updated(i))
    ensures RowEmail(row).Some? && FindByEmail(db.users, RowEmail(row).value) == Some(i)
    ensures var after := ApplyRow(db, row).db;
      && |after.users| == |db.users|
      && after.chains == db.chains
      && (forall j :: 0 <= j < |db.users| && j != i ==> after.users[j] == db.users[j])
      && after.users[i] == db.users[i] + Standardize(db.users, row).value
      && after.users[i].Keys == db.users[i].Keys + (set h | h in row.headers :: RenameKey(h))
      && (forall k :: k in db.users[i] && k !in (set h | h in row.headers :: RenameKey(h)) ==>
            after.users[i][k] == db.users[i][k])
  {
    UpdateStep(db, row, i);
    StandardizeEmail(db.users, row);
    StandardizeKeys(db.users, row);
    MergeKeeps(db.users[i], Standardize(db.users, row).value);
  }

  /** The update branch of line 53, read off the step. */
  lemma UpdateStep(db: Db, row: Row, i: Id)
    requires Uploadable(row)
    requires ApplyRow(db, row).outcome == Ok(Updated(i))
    ensures Standardize(db.users, row).Ok?
    ensures var userData := Standardize(db.users, row).value;
      && EMAIL_FIELD in userData
      && FindByEmail(db.users, userData[EMAIL_FIELD]) == Some(i)
      && ApplyRow(db, row).db == db.(users := db.users[i := db.users[i] + userData])
  {
  }

  /** `$set` merges: the new keys win, every other field stays. */
  lemma MergeKeeps(base: Doc, top: Doc)
    ensures (base + top).Keys == base.Keys + top.Keys
    ensures forall k :: k in base && k !in top ==> (base + top)[k] == base[k]
  {
  }

  /** An insert happens only when no user has the row's normalized_email. It
      appends exactly one user, whose keys are the row's, and exactly one
      chain-of-command record, for that user: its chain of command. */
  lemma InsertAddsUserAndChain(db: Db, row: Row, id: Id)
    requires Uploadable(row) && Consistent(db)
    requires ApplyRow(db, row).outcome == Ok(Created(id))
    ensures RowEmail(row).Some?
    ensures forall j :: 0 <= j < |db.users| ==> !HasEmail(db.users[j], RowEmail(row).value)
    ensures var after := ApplyRow(db, row).db;
      && id == |db.users| && |after.users| == |db.users| + 1
      && after.users[..id] == db.users
      && after.users[id] == Standardize(db.users, row).value
      && HasEmail(after.users[id], RowEmail(row).value)
      && after.users[id].Keys == (set h | h in row.headers :: RenameKey(h))
      && id !in db.chains
      && after.chains.Keys == db.chains.Keys + {id}
      && |after.chains| == |db.chains| + 1
      && (forall k :: k in db.chains ==> after.chains[k] == db.chains[k])
      && IsChain(after.users, id, after.chains[id])
  {
    InsertStep(db, row, id);
    StandardizeEmail(db.users, row);
    StandardizeKeys(db.users, row);
    var users := db.users + [Standardize(db.users, row).value];
    WalkFindsChain(users, id, Walk(users, id, |users|).value);
    assert users[..id] == db.users;
  }

  /** The insert branch of lines 55-61, read off the step. */
  lemma InsertStep(db: Db, row: Row, id: Id)
    requires Uploadable(row)
    requires ApplyRow(db, row).outcome == Ok(Created(id))
    ensures Standardize(db.users, row).Ok?
    ensures var userData := Standardize(db.users, row).value;
      var users := db.users + [userData];
      && EMAIL_FIELD in userData
      && FindByEmail(db.users, userData[EMAIL_FIELD]) == None
      && id == |db.users|
      && Walk(users, id, |users|).Ok?
      && ApplyRow(db, row).db == Db(users, db.chains[id := Walk(users, id, |users|).value])
  {
  }

  /** A row that raises writes nothing, except that a failing chain walk
      leaves the just inserted user without a chain-of-command record. */
  lemma AbortedRowWrites(db: Db, row: Row)
    requires Uploadable(row)
    requires ApplyRow(db, row).outcome.Err?
    ensures var after := ApplyRow(db, row).db;
      && after.chains == db.chains
      && (after.users == db.users ||
          (&& ApplyRow(db, row).outcome.error in {NoManagerField, BrokenManager, ManagerCycle}
           && |after.users| == |db.users| + 1 && after.users[..|db.users|] == db.users))
  {
    var after := ApplyRow(db, row).db;
    if after.users != db.users {
      assert after.users[..|db.users|] == db.users;
    }
  }

  /** The row's normalized_email now leads to the user the row created or updated. */
  lemma RowLeavesEmailFound(db: Db, row: Row)
    requires Uploadable(row)
    requires ApplyRow(db, row).outcome.Ok?
    ensures RowEmail(row).Some?
    ensures FindByEmail(ApplyRow(db, row).db.users, RowEmail(row).value) == Some(ApplyRow(db, row).outcome.value.id)
  {
    StandardizeEmail(db.users, row);
    var userData := Standardize(db.users, row).value;
    var e := RowEmail(row).value;
    assert userData[EMAIL_FIELD] == e;
    var after := ApplyRow(db, row).db.users;
    match FindByEmail(db.users, e)
    case Some(i) =>
      assert after == db.users[i := db.users[i] + userData];
      FindByEmailAgrees(db.users, after, e);
    case None =>
      assert after == db.users + [userData];
      assert forall j :: 0 <= j < |db.users| ==> after[j] == db.users[j];
  }

  /** A row never changes which user a normalized_email leads to. */
  lemma EmailLookupIsStable(db: Db, row: Row, email: Value)
    requires Uploadable(row)
    requires FindByEmail(db.users, email).Some?
    ensures FindByEmail(ApplyRow(db, row).db.users, email) == FindByEmail(db.users, email)
  {
    var after := ApplyRow(db, row).db.users;
    if after != db.users {
      match Standardize(db.users, row)
      case Ok(userData) =>
        match FindByEmail(db.users, userData[EMAIL_FIELD])
        case Some(i) =>
          assert after[i][EMAIL_FIELD] == db.users[i][EMAIL_FIELD];
          FindByEmailAgrees(db.users, after, email);
        case None =>
          FindByEmailAgrees(db.users, after, email);
    }
  }

  /** A row keeps normalized_email unique among users. */
  lemma ApplyRowKeepsEmailsUnique(db: Db, row: Row)
    requires Uploadable(row) && UniqueEmails(db.users)
    ensures UniqueEmails(ApplyRow(db, row).db.users)
  {
    var after := ApplyRow(db, row).db;
    if after.users != db.users {
      match Standardize(db.users, row)
      case Ok(userData) =>
        match FindByEmail(db.users, userData[EMAIL_FIELD])
        case Some(i) =>
          assert after.users[i] == db.users[i] + userData;
          assert forall j :: 0 <= j < |db.users| && EMAIL_FIELD in after.users[j] && EMAIL_FIELD in db.users[j] ==>
            after.users[j][EMAIL_FIELD] == db.users[j][EMAIL_FIELD];
        case None =>
          assert forall j :: 0 <= j < |db.users| ==> after.users[j] == db.users[j];
    }
  }

  /** A non-empty manager cell is stored as the `_id` of the first user whose
      normalized_email equals the row's 'Manager' cell in the store as the row
      finds it, so users written by earlier rows of the batch count; an empty
      one is stored unchanged and means no manager. */
  lemma StoredManagerIsResolved(db: Db, row: Row, j: nat)
    requires Uploadable(row)
    requires ApplyRow(db, row).outcome.Ok?
    requires LastIndex(Keys(row.headers), MANAGER_FIELD) == Some(j)
    ensures var id := ApplyRow(db, row).outcome.value.id;
      && id < |ApplyRow(db, row).db.users|
      && MANAGER_FIELD in ApplyRow(db, row).db.users[id]
      && var stored := ApplyRow(db, row).db.users[id][MANAGER_FIELD];
      && (row.cells[row.headers[j]] == "" ==> stored == Text("") && !Truthy(stored))
      && (row.cells[row.headers[j]] != "" ==>
            && MANAGER_HEADER in row.cells
            && FindByEmail(db.users, Text(row.cells[MANAGER_HEADER])).Some?
            && stored == Ref(FindByEmail(db.users, Text(row.cells[MANAGER_HEADER])).value))
  {
    ManagerCellResolves(db.users, row);
  }

  /** A cell that does not coerce (a salary `int()` rejects, a hire date
      `strptime` rejects, a manager e-mail no user has) makes the row raise
      before anything is written. */
  lemma FailingCellWritesNothing(db: Db, row: Row, i: nat)
    requires Uploadable(row)
    requires i < |row.headers| && CoerceCell(db.users, row, row.headers[i]).Err?
    ensures ApplyRow(db, row).db == db
    ensures ApplyRow(db, row).outcome.Err?
    ensures ApplyRow(db, row).outcome.error in {BadSalary, BadHireDate, NoManagerColumn, UnknownManager}
  {
    StandardizeErrors(db.users, row);
    var j :| 0 <= j < |row.headers| && CoerceCell(db.users, row, row.headers[j]) == Err(Standardize(db.users, row).error);
  }

  /** Two rows with different normalized_emails that both complete leave two
      different users, each found by its own address. */
  lemma DistinctEmailsDistinctUsers(db: Db, first: Row, second: Row)
    requires Uploadable(first) && Uploadable(second)
    requires ApplyRow(db, first).outcome.Ok?
    requires ApplyRow(ApplyRow(db, first).db, second).outcome.Ok?
    requires RowEmail(first) != RowEmail(second)
    ensures var users := ApplyRow(ApplyRow(db, first).db, second).db.users;
      && RowEmail(first).Some? && RowEmail(second).Some?
      && FindByEmail(users, RowEmail(first).value) == Some(ApplyRow(db, first).outcome.value.id)
      && FindByEmail(users, RowEmail(second).value) == Some(ApplyRow(ApplyRow(db, first).db, second).outcome.value.id)
      && ApplyRow(db, first).outcome.value.id != ApplyRow(ApplyRow(db, first).db, second).outcome.value.id
  {
    var mid := ApplyRow(db, first).db;
    RowLeavesEmailFound(db, first);
    RowLeavesEmailFound(mid, second);
    EmailLookupIsStable(mid, second, RowEmail(first).value);
  }

  // ------------------------------------------------------------ the batch

  /** Rows run one after another: a batch is its first part followed by the
      rest, unless the first part raised. */
  lemma {:induction false} RunRowsAppend(db: Db, numCreated: nat, numUpdated: nat, first: seq<Row>, rest: seq<Row>)
    requires forall i :: 0 <= i < |first| ==> Uploadable(first[i])
    requires forall i :: 0 <= i < |rest| ==> Uploadable(rest[i])
    ensures forall i :: 0 <= i < |first + rest| ==> Uploadable((first + rest)[i])
    ensures var o := RunRows(db, numCreated, numUpdated, first);
      RunRows(db, numCreated, numUpdated, first + rest) ==
        if o.response.Ok? then RunRows(o.db, o.response.value.numCreated, o.response.value.numUpdated, rest)
        else o
    decreases |first|
  {
    if first != [] {
      assert (first + rest)[0] == first[0] && (first + rest)[1..] == first[1..] + rest;
      var step := ApplyRow(db, first[0]);
      match step.outcome
      case Err(_) =>
      case Ok(Created(_)) => RunRowsAppend(step.db, numCreated + 1, numUpdated, first[1..], rest);
      case Ok(Updated(_)) => RunRowsAppend(step.db, numCreated, numUpdated + 1, first[1..], rest);
    } else {
      assert first + rest == rest;
    }
  }

  /** A batch that returns went through its first row, and then through the rest. */
  lemma RunRowsUnfold(db: Db, numCreated: nat, numUpdated: nat, rows: seq<Row>)
    requires rows != [] && forall i :: 0 <= i < |rows| ==> Uploadable(rows[i])
    requires RunRows(db, numCreated, numUpdated, rows).response.Ok?
    ensures ApplyRow(db, rows[0]).outcome.Ok?
    ensures var k := ApplyRow(db, rows[0]).outcome.value;
      RunRows(db, numCreated, numUpdated, rows) ==
        RunRows(ApplyRow(db, rows[0]).db,
                if k.Created? then numCreated + 1 else numCreated,
                if k.Updated? then numUpdated + 1 else numUpdated, rows[1..])
  {
  }

  /** A row that raises ends the call: the rows before it stay written, the
      rows after it are never read, and no response is returned. */
  lemma AbortKeepsEarlierRows(db: Db, before: seq<Row>, row: Row, after: seq<Row>)
    requires forall i :: 0 <= i < |before| ==> Uploadable(before[i])
    requires forall i :: 0 <= i < |after| ==> Uploadable(after[i])
    requires Uploadable(row)
    requires UploadOutcome(db, before).response.Ok?
    requires ApplyRow(UploadOutcome(db, before).db, row).outcome.Err?
    ensures forall i :: 0 <= i < |before + [row] + after| ==> Uploadable((before + [row] + after)[i])
    ensures var step := ApplyRow(UploadOutcome(db, before).db, row);
      UploadOutcome(db, before + [row] + after) == Outcome(step.db, Err(step.outcome.error))
  {
    RunRowsAppend(db, 0, 0, before, [row] + after);
    assert before + [row] + after == before + ([row] + after);
  }

  /** Every row that completes counts once, as created or as updated; each
      creation adds one user and one chain-of-command record. */
  lemma {:induction false} RunRowsCounts(db: Db, numCreated: nat, numUpdated: nat, rows: seq<Row>)
    requires forall i :: 0 <= i < |rows| ==> Uploadable(rows[i])
    requires Consistent(db)
    requires RunRows(db, numCreated, numUpdated, rows).response.Ok?
    ensures var o := RunRows(db, numCreated, numUpdated, rows);
      && o.response.value == Response(200, o.response.value.numCreated, o.response.value.numUpdated, [])
      && o.response.value.numCreated + o.response.value.numUpdated == numCreated + numUpdated + |rows|
      && o.response.value.numCreated >= numCreated
      && |o.db.users| == |db.users| + o.response.value.numCreated - numCreated
      && Consistent(o.db)
      && |o.db.chains| == |db.chains| + o.response.value.numCreated - numCreated
    decreases |rows|
  {
    if rows != [] {
      var step := ApplyRow(db, rows[0]);
      ApplyRowSizes(db, rows[0]);
      match step.outcome.value
      case Created(id) =>
        RunRowsCounts(step.db, numCreated + 1, numUpdated, rows[1..]);
      case Updated(i) =>
        RunRowsCounts(step.db, numCreated, numUpdated + 1, rows[1..]);
    }
  }

  /** A call that returns answers status 200 with no errors, counts every row
      once, and grows the users and the chain-of-command records together. */
  lemma ResponseCounts(db: Db, rows: seq<Row>)
    requires forall i :: 0 <= i < |rows| ==> Uploadable(rows[i])
    requires Consistent(db)
    requires UploadOutcome(db, rows).response.Ok?
    ensures var o := UploadOutcome(db, rows);
      && o.response.value.statusCode == 200
      && o.response.value.errors == []
      && o.response.value.numCreated + o.response.value.numUpdated == |rows|
      && |o.db.users| == |db.users| + o.response.value.numCreated
      && |o.db.chains| == |db.chains| + o.response.value.numCreated
      && Consistent(o.db)
  {
    RunRowsCounts(db, 0, 0, rows);
  }

  /** A batch keeps normalized_email unique among users, whether it returns or raises. */
  lemma {:induction false} RunRowsKeepsEmailsUnique(db: Db, numCreated: nat, numUpdated: nat, rows: seq<Row>)
    requires forall i :: 0 <= i < |rows| ==> Uploadable(rows[i])
    requires UniqueEmails(db.users)
    ensures UniqueEmails(RunRows(db, numCreated, numUpdated, rows).db.users)
    decreases |rows|
  {
    if rows != [] {
      var step := ApplyRow(db, rows[0]);
      ApplyRowKeepsEmailsUnique(db, rows[0]);
      match step.outcome
      case Err(_) =>
      case Ok(Created(_)) => RunRowsKeepsEmailsUnique(step.db, numCreated + 1, numUpdated, rows[1..]);
      case Ok(Updated(_)) => RunRowsKeepsEmailsUnique(step.db, numCreated, numUpdated + 1, rows[1..]);
    }
  }

  /** A normalized_email that leads to a user keeps leading to that user
      through a batch, whether it returns or raises. */
  lemma {:induction false} RunRowsKeepsLookup(db: Db, numCreated: nat, numUpdated: nat, rows: seq<Row>, email: Value)
    requires forall i :: 0 <= i < |rows| ==> Uploadable(rows[i])
    requires FindByEmail(db.users, email).Some?
    ensures FindByEmail(RunRows(db, numCreated, numUpdated, rows).db.users, email) == FindByEmail(db.users, email)
    decreases |rows|
  {
    if rows != [] {
      var step := ApplyRow(db, rows[0]);
      EmailLookupIsStable(db, rows[0], email);
      match step.outcome
      case Err(_) =>
      case Ok(Created(_)) => RunRowsKeepsLookup(step.db, numCreated + 1, numUpdated, rows[1..], email);
      case Ok(Updated(_)) => RunRowsKeepsLookup(step.db, numCreated, numUpdated + 1, rows[1..], email);
    }
  }

  /** The row carries a normalized_email that leads to one of `users`. */
  ghost predicate EmailFound(users: seq<Doc>, row: Row) {
    WellFormedRow(row) && RowEmail(row).Some? && FindByEmail(users, RowEmail(row).value).Some?
  }

  /** Each row carries a normalized_email that leads to one of `users`. */
  ghost predicate EmailsFound(users: seq<Doc>, rows: seq<Row>)
    decreases |rows|
  {
    rows != [] ==> EmailFound(users, rows[0]) && EmailsFound(users, rows[1..])
  }

  /** A row leaves every address that led to a user leading there. */
  lemma {:induction false} EmailsStayFound(db: Db, row: Row, rows: seq<Row>)
    requires Uploadable(row) && EmailsFound(db.users, rows)
    ensures EmailsFound(ApplyRow(db, row).db.users, rows)
    decreases |rows|
  {
    if rows != [] {
      EmailLookupIsStable(db, row, RowEmail(rows[0]).value);
      EmailsStayFound(db, row, rows[1..]);
    }
  }

  /** After a batch returns, the normalized_email of each of its rows leads to a user. */
  lemma {:induction false} RunRowsLeavesEmailsFound(db: Db, numCreated: nat, numUpdated: nat, rows: seq<Row>)
    requires forall i :: 0 <= i < |rows| ==> Uploadable(rows[i])
    requires RunRows(db, numCreated, numUpdated, rows).response.Ok?
    ensures EmailsFound(RunRows(db, numCreated, numUpdated, rows).db.users, rows)
    decreases |rows|
  {
    if rows != [] {
      var step := ApplyRow(db, rows[0]);
      RunRowsUnfold(db, numCreated, numUpdated, rows);
      RowLeavesEmailFound(db, rows[0]);
      var email := RowEmail(rows[0]).value;
      match step.outcome.value
      case Created(_) =>
        RunRowsLeavesEmailsFound(step.db, numCreated + 1, numUpdated, rows[1..]);
        RunRowsKeepsLookup(step.db, numCreated + 1, numUpdated, rows[1..], email);
      case Updated(_) =>
        RunRowsLeavesEmailsFound(step.db, numCreated, numUpdated + 1, rows[1..]);
        RunRowsKeepsLookup(step.db, numCreated, numUpdated + 1, rows[1..], email);
    }
  }

  /** When every row's normalized_email already leads to a user, a batch
      that returns creates nothing: every row is an update. */
  lemma {:induction false} KnownEmailsOnlyUpdate(db: Db, numCreated: nat, numUpdated: nat, rows: seq<Row>)
    requires forall i :: 0 <= i < |rows| ==> Uploadable(rows[i])
    requires EmailsFound(db.users, rows)
    requires RunRows(db, numCreated, numUpdated, rows).response.Ok?
    ensures RunRows(db, numCreated, numUpdated, rows).response.value.numCreated == numCreated
    ensures RunRows(db, numCreated, numUpdated, rows).response.value.numUpdated == numUpdated + |rows|
    decreases |rows|
  {
    if rows != [] {
      var step := ApplyRow(db, rows[0]);
      RunRowsUnfold(db, numCreated, numUpdated, rows);
      assert EmailFound(db.users, rows[0]);
      StandardizeEmail(db.users, rows[0]);
      assert step.outcome.value.Updated?;
      EmailsStayFound(db, rows[0], rows[1..]);
      KnownEmailsOnlyUpdate(step.db, numCreated, numUpdated + 1, rows[1..]);
    }
  }

  /** Uploading the same rows again creates no user: every row counts as an
      update, and a repeated normalized_email never yields a second user. */
  lemma ResubmitCreatesNothing(db: Db, rows: seq<Row>)
    requires forall i :: 0 <= i < |rows| ==> Uploadable(rows[i])
    requires UploadOutcome(db, rows).response.Ok?
    requires UploadOutcome(UploadOutcome(db, rows).db, rows).response.Ok?
    ensures UploadOutcome(UploadOutcome(db, rows).db, rows).response.value.numCreated == 0
    ensures UploadOutcome(UploadOutcome(db, rows).db, rows).response.value.numUpdated == |rows|
  {
    RunRowsLeavesEmailsFound(db, 0, 0, rows);
    KnownEmailsOnlyUpdate(UploadOutcome(db, rows).db, 0, 0, rows);
  }

  /** A later row with the normalized_email of an earlier one updates the
      user the earlier row created or updated, and adds no user. */
  lemma RepeatedEmailUpdates(db: Db, first: Row, second: Row)
    requires Uploadable(first) && Uploadable(second)
    requires ApplyRow(db, first).outcome.Ok?
    requires RowEmail(second) == RowEmail(first)
    requires ApplyRow(ApplyRow(db, first).db, second).outcome.Ok?
    ensures ApplyRow(ApplyRow(db, first).db, second).outcome == Ok(Updated(ApplyRow(db, first).outcome.value.id))
    ensures |ApplyRow(ApplyRow(db, first).db, second).db.users| == |ApplyRow(db, first).db.users|
  {
    var mid := ApplyRow(db, first).db;
    RowLeavesEmailFound(db, first);
    StandardizeEmail(mid.users, second);
  }
}
