/** `handle_csv_upload` (src/handler.py:13-68) as the handler runs it: loops
    that update the two collections one write at a time, each proved to do
    what the functions of module Upload say. */
module Handler {
  import opened Documents
  import opened Parsing
  import opened Normalize
  import opened Chain
  import opened Upload

  /** The MongoDB collections `user` and `chain_of_command`. */
  class Store {
    var users: seq<Doc>
    var chains: map<Id, seq<Id>>

    function State(): Db
      reads this
    {
      Db(users, chains)
    }

    ghost predicate Valid()
      reads this
    {
      Consistent(State())
    }

    constructor (db: Db)
      requires Consistent(db)
      ensures Valid() && State() == db
    {
      users := db.users;
      chains := db.chains;
    }

    /** Lines 31-40: the loop over the record's items building `user_data`. */
    method StandardizeRow(row: Row) returns (r: Result<Doc>)
      requires WellFormedRow(row)
      ensures r == Standardize(users, row)
    {
      var keys := Keys(row.headers);
      ghost var cells := Cells(users, row);
      var userData: Doc := map[];
      var i := 0;
      while i < |row.headers|
        invariant 0 <= i <= |row.headers|
        invariant Assemble(keys[..i], cells[..i]) == Ok(userData)
      {
        var header := row.headers[i];
        var k := RenameKey(header);
        var v := row.cells[header];
        var value: Result<Value>;
        if k == SALARY_FIELD {
          var n := ParseInt(v);
          value := if n.Some? then Ok(Int(n.value)) else Err(BadSalary);
        } else if k == HIRE_DATE_FIELD {
          var d := ParseDate(v);
          value := if d.Some? then Ok(When(d.value)) else Err(BadHireDate);
        } else if k == MANAGER_FIELD && v != "" {
          if MANAGER_HEADER !in row.cells {
            value := Err(NoManagerColumn);
          } else {
            var manager := FindByEmail(users, Text(row.cells[MANAGER_HEADER]));
            value := if manager.Some? then Ok(Ref(manager.value)) else Err(UnknownManager);
          }
        } else {
          value := Ok(Text(v));
        }
        assert value == cells[i];
        AssembleExtend(keys, cells, i);
        if value.Err? {
          AssembleKeepsError(keys, cells, i + 1);
          return Err(value.error);
        }
        userData := userData[k := value.value];
        i := i + 1;
      }
      assert keys[..i] == keys && cells[..i] == cells;
      return Ok(userData);
    }

    /** Lines 55-60: follow manager_id from a user up to the top of the
        organisation, collecting the managers met. The walk gives up after
        as many steps as there are users, where the handler would loop forever. */
    method ChainOfCommand(id: Id) returns (r: Result<seq<Id>>)
      requires id < |users|
      ensures r == Walk(users, id, |users|)
    {
      var chain: seq<Id> := [];
      var current: Id := id;
      var steps: nat := 0;
      assert Then(chain, Walk(users, id, |users|)) == Walk(users, id, |users|) by {
        if Walk(users, id, |users|).Ok? {
          assert chain + Walk(users, id, |users|).value == Walk(users, id, |users|).value;
        }
      }
      while true
        invariant current < |users| && steps <= |users|
        invariant Walk(users, id, |users|) == Then(chain, Walk(users, current, |users| - steps))
        decreases |users| - steps
      {
        var user := users[current];
        if MANAGER_FIELD !in user {
          return Err(NoManagerField);
        }
        var manager := user[MANAGER_FIELD];
        if !Truthy(manager) {
          assert chain + [] == chain;
          return Ok(chain);
        }
        if !manager.Ref? || manager.id >= |users| {
          return Err(BrokenManager);
        }
        if steps == |users| {
          return Err(ManagerCycle);
        }
        ThenThen(chain, [manager.id], Walk(users, manager.id, |users| - steps - 1));
        chain := chain + [manager.id];
        current := manager.id;
        steps := steps + 1;
      }
    }

    /** Lines 31-61 for one record: standardize it, then update the user with
        its normalized_email or insert it and its chain of command. */
    method HandleRow(row: Row) returns (r: Result<Upsert>)
      requires Valid() && Uploadable(row)
      modifies this
      ensures Valid()
      ensures Step(State(), r) == ApplyRow(old(State()), row)
    {
      ApplyRowSizes(State(), row);
      var standardized := StandardizeRow(row);
      if standardized.Err? {
        return Err(standardized.error);
      }
      var userData := standardized.value;
      if EMAIL_FIELD !in userData {
        return Err(NoEmail);
      }
      var existing := FindByEmail(users, userData[EMAIL_FIELD]);
      if existing.Some? {
        var i := existing.value;
        users := users[i := users[i] + userData];
        return Ok(Updated(i));
      }
      var id := |users|;
      users := users + [userData];
      var chain := ChainOfCommand(id);
      if chain.Err? {
        return Err(chain.error);
      }
      chains := chains[id := chain.value];
      return Ok(Created(id));
    }

    /** The whole handler on parsed records: the loop of line 29 with its two
        counters, and the response of lines 63-68. */
    method HandleCsvUpload(rows: seq<Row>) returns (r: Result<Response>)
      requires Valid()
      requires forall i :: 0 <= i < |rows| ==> Uploadable(rows[i])
      modifies this
      ensures Valid()
      ensures Outcome(State(), r) == UploadOutcome(old(State()), rows)
    {
      var numCreated, numUpdated := 0, 0;
      var i := 0;
      while i < |rows|
        invariant 0 <= i <= |rows| && Valid()
        invariant forall j :: 0 <= j < |rows[i..]| ==> Uploadable(rows[i..][j])
        invariant RunRows(State(), numCreated, numUpdated, rows[i..]) == UploadOutcome(old(State()), rows)
      {
        assert rows[i..][0] == rows[i] && rows[i..][1..] == rows[i + 1..];
        var outcome := HandleRow(rows[i]);
        match outcome {
          case Err(e) =>
            return Err(e);
          case Ok(Created(_)) =>
            numCreated := numCreated + 1;
          case Ok(Updated(_)) =>
            numUpdated := numUpdated + 1;
        }
        i := i + 1;
      }
      return Ok(Response(200, numCreated, numUpdated, []));
    }
  }
}
