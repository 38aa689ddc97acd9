/** Turning one CSV record into the user document the handler stores
    (src/handler.py:23-40): renaming each header and coercing its cell. */
module Normalize {
  import opened Documents
  import opened Parsing

  /** Line 33: three headers get fixed names, every other one is lower-cased. */
  function RenameKey(header: string): string {
    if header == "Email" then EMAIL_FIELD
    else if header == "Manager" then MANAGER_FIELD
    else if header == "Hire Date" then HIRE_DATE_FIELD
    else Lower(header)
  }

  /** Every key is in lower case, whichever way line 33 renamed it. */
  lemma RenameKeyIsLower(header: string)
    ensures forall i :: 0 <= i < |RenameKey(header)| ==> !IsUpper(RenameKey(header)[i])
    ensures Lower(RenameKey(header)) == RenameKey(header)
  {
    LowerIsIdempotent(header);
  }

  /** Which headers reach the keys that lines 34-39 treat specially. */
  lemma RenameKeyTargets(header: string)
    ensures RenameKey(header) == EMAIL_FIELD <==> header == "Email" || Lower(header) == EMAIL_FIELD
    ensures RenameKey(header) == MANAGER_FIELD <==> header == "Manager" || Lower(header) == MANAGER_FIELD
    ensures RenameKey(header) == HIRE_DATE_FIELD <==> header == "Hire Date" || Lower(header) == HIRE_DATE_FIELD
    ensures RenameKey(header) == SALARY_FIELD <==> Lower(header) == SALARY_FIELD
  {
    if header == "Hire Date" {
      assert Lower(header)[4] == ' ' != HIRE_DATE_FIELD[4];
    }
  }

  /** Lines 34-40: the value one cell contributes, or the exception it raises.
      The manager lookup reads the raw 'Manager' cell and sees the users
      already stored. */
  function CoerceCell(users: seq<Doc>, row: Row, header: string): (r: Result<Value>)
    requires header in row.cells
    ensures r.Err? ==> r.error in {BadSalary, BadHireDate, NoManagerColumn, UnknownManager}
    ensures r.Ok? && r.value.Ref? ==> r.value.id < |users|
  {
    var key := RenameKey(header);
    var cell := row.cells[header];
    if key == SALARY_FIELD then
      match ParseInt(cell)
      case Some(n) => Ok(Int(n))
      case None => Err(BadSalary)
    else if key == HIRE_DATE_FIELD then
      match ParseDate(cell)
      case Some(d) => Ok(When(d))
      case None => Err(BadHireDate)
    else if key == MANAGER_FIELD && cell != "" then
      if MANAGER_HEADER !in row.cells then Err(NoManagerColumn)
      else match FindByEmail(users, Text(row.cells[MANAGER_HEADER]))
        case Some(id) => Ok(Ref(id))
        case None => Err(UnknownManager)
    else Ok(Text(cell))
  }

  /** The key each header is stored under, in header order. */
  function Keys(headers: seq<string>): (keys: seq<string>)
    ensures |keys| == |headers|
    ensures forall i :: 0 <= i < |headers| ==> keys[i] == RenameKey(headers[i])
  {
    seq(|headers|, i requires 0 <= i < |headers| => RenameKey(headers[i]))
  }

  /** The outcome of each cell of the record, in header order. */
  function Cells(users: seq<Doc>, row: Row): (cells: seq<Result<Value>>)
    requires WellFormedRow(row)
    ensures |cells| == |row.headers|
    ensures forall i :: 0 <= i < |row.headers| ==> cells[i] == CoerceCell(users, row, row.headers[i])
  {
    seq(|row.headers|, i requires 0 <= i < |row.headers| => CoerceCell(users, row, row.headers[i]))
  }

  /** Lines 31-40 as a fold over the cells in order: the first failing cell
      raises, and a later key overwrites an earlier equal one. */
  function Assemble(keys: seq<string>, cells: seq<Result<Value>>): Result<Doc>
    requires |keys| == |cells|
  {
    if keys == [] then Ok(map[])
    else
      var n := |keys| - 1;
      match Assemble(keys[..n], cells[..n])
      case Err(e) => Err(e)
      case Ok(doc) =>
        match cells[n]
        case Err(e) => Err(e)
        case Ok(v) => Ok(doc[keys[n] := v])
  }

  /** One more cell of the fold. */
  lemma AssembleExtend(keys: seq<string>, cells: seq<Result<Value>>, i: nat)
    requires |keys| == |cells| && i < |keys|
    ensures Assemble(keys[..i + 1], cells[..i + 1]) ==
      match Assemble(keys[..i], cells[..i])
      case Err(e) => Err(e)
      case Ok(doc) => (match cells[i] case Err(e) => Err(e) case Ok(v) => Ok(doc[keys[i] := v]))
  {
    assert keys[..i + 1][..i] == keys[..i] && cells[..i + 1][..i] == cells[..i];
  }

  /** Once a prefix of the fold fails, the whole fold fails with that error. */
  lemma {:induction false} AssembleKeepsError(keys: seq<string>, cells: seq<Result<Value>>, n: nat)
    requires |keys| == |cells| && n <= |keys|
    requires Assemble(keys[..n], cells[..n]).Err?
    ensures Assemble(keys, cells) == Assemble(keys[..n], cells[..n])
    decreases |keys| - n
  {
    if n == |keys| {
      assert keys[..n] == keys && cells[..n] == cells;
    } else {
      AssembleExtend(keys, cells, n);
      AssembleKeepsError(keys, cells, n + 1);
    }
  }

  /** The user document built from a whole record (`user_data`). */
  function Standardize(users: seq<Doc>, row: Row): Result<Doc>
    requires WellFormedRow(row)
  {
    Assemble(Keys(row.headers), Cells(users, row))
  }

  /** The position of the last occurrence of `k`. */
  function LastIndex(keys: seq<string>, k: string): (r: Option<nat>)
    ensures r.Some? ==> r.value < |keys| && keys[r.value] == k
    ensures r.Some? ==> forall j :: r.value < j < |keys| ==> keys[j] != k
    ensures r.None? ==> k !in keys
  {
    if keys == [] then None
    else if keys[|keys| - 1] == k then Some(|keys| - 1)
    else LastIndex(keys[..|keys| - 1], k)
  }

  /** The normalized_email a record carries: the cell of its last header
      renamed to normalized_email. It does not depend on the store. */
  function RowEmail(row: Row): (r: Option<Value>)
    requires WellFormedRow(row)
    ensures r.Some? <==> EMAIL_FIELD in Keys(row.headers)
  {
    match LastIndex(Keys(row.headers), EMAIL_FIELD)
    case Some(j) => Some(Text(row.cells[row.headers[j]]))
    case None => None
  }

  /** A document is assembled exactly when every cell coerces. */
  lemma {:induction false} AssembleOkIffCellsOk(keys: seq<string>, cells: seq<Result<Value>>)
    requires |keys| == |cells|
    ensures Assemble(keys, cells).Ok? <==> forall i :: 0 <= i < |cells| ==> cells[i].Ok?
  {
    if keys != [] {
      var n := |keys| - 1;
      AssembleOkIffCellsOk(keys[..n], cells[..n]);
      assert forall i :: 0 <= i < n ==> cells[..n][i] == cells[i];
    }
  }

  /** When no document is assembled, the error is that of the first cell
      that failed, and every cell before it coerced. */
  lemma {:induction false} AssembleFailsAtFirstBadCell(keys: seq<string>, cells: seq<Result<Value>>)
    requires |keys| == |cells|
    requires Assemble(keys, cells).Err?
    ensures exists i ::
      && 0 <= i < |cells|
      && cells[i] == Err(Assemble(keys, cells).error)
      && forall j :: 0 <= j < i ==> cells[j].Ok?
  {
    var n := |keys| - 1;
    var e := Assemble(keys, cells).error;
    assert forall j :: 0 <= j < n ==> cells[j] == cells[..n][j];
    if Assemble(keys[..n], cells[..n]).Err? {
      assert Assemble(keys[..n], cells[..n]).error == e;
      AssembleFailsAtFirstBadCell(keys[..n], cells[..n]);
      var i :| 0 <= i < n && cells[..n][i] == Err(e)
        && forall j :: 0 <= j < i ==> cells[..n][j].Ok?;
      assert cells[i] == Err(e);
    } else {
      AssembleOkIffCellsOk(keys[..n], cells[..n]);
      assert cells[n] == Err(e);
    }
  }

  /** In an assembled document a key is present exactly when some header was
      renamed to it, and its value is the coerced cell of the last such header. */
  lemma {:induction false} AssembleLookup(keys: seq<string>, cells: seq<Result<Value>>, k: string)
    requires |keys| == |cells|
    requires Assemble(keys, cells).Ok?
    ensures k in Assemble(keys, cells).value <==> k in keys
    ensures LastIndex(keys, k).Some? ==> cells[LastIndex(keys, k).value] == Ok(Assemble(keys, cells).value[k])
  {
    if keys != [] {
      var n := |keys| - 1;
      AssembleLookup(keys[..n], cells[..n], k);
      assert keys == keys[..n] + [keys[n]];
      if keys[n] != k && LastIndex(keys, k).Some? {
        assert cells[LastIndex(keys, k).value] == cells[..n][LastIndex(keys, k).value];
      }
    }
  }

  /** The keys of a standardized record are the renamed headers. */
  lemma StandardizeKeys(users: seq<Doc>, row: Row)
    requires WellFormedRow(row)
    requires Standardize(users, row).Ok?
    ensures Standardize(users, row).value.Keys == set h | h in row.headers :: RenameKey(h)
  {
    var keys := Keys(row.headers);
    var doc := Standardize(users, row).value;
    forall k ensures k in doc <==> k in set h | h in row.headers :: RenameKey(h) {
      AssembleLookup(keys, Cells(users, row), k);
      if k in keys {
        var i :| 0 <= i < |keys| && keys[i] == k;
        assert row.headers[i] in row.headers;
      }
    }
  }

  /** A record standardizes exactly when each of its cells coerces; otherwise
      the error is that of its first cell that does not. */
  lemma StandardizeErrors(users: seq<Doc>, row: Row)
    requires WellFormedRow(row)
    ensures Standardize(users, row).Ok? <==>
      forall i :: 0 <= i < |row.headers| ==> CoerceCell(users, row, row.headers[i]).Ok?
    ensures Standardize(users, row).Err? ==>
      exists i ::
        && 0 <= i < |row.headers|
        && CoerceCell(users, row, row.headers[i]) == Err(Standardize(users, row).error)
        && forall j :: 0 <= j < i ==> CoerceCell(users, row, row.headers[j]).Ok?
  {
    var cells := Cells(users, row);
    AssembleOkIffCellsOk(Keys(row.headers), cells);
    if Standardize(users, row).Err? {
      AssembleFailsAtFirstBadCell(Keys(row.headers), cells);
    }
  }

  /** The normalized_email of a standardized record is the one `RowEmail`
      reads off its cells, whatever the store holds. */
  lemma StandardizeEmail(users: seq<Doc>, row: Row)
    requires WellFormedRow(row)
    requires Standardize(users, row).Ok?
    ensures EMAIL_FIELD in Standardize(users, row).value <==> RowEmail(row).Some?
    ensures RowEmail(row).Some? ==> Standardize(users, row).value[EMAIL_FIELD] == RowEmail(row).value
  {
    var keys := Keys(row.headers);
    AssembleLookup(keys, Cells(users, row), EMAIL_FIELD);
    var j := LastIndex(keys, EMAIL_FIELD);
    if j.Some? {
      RenameKeyTargets(row.headers[j.value]);
    }
  }

  /** Every reference a built document holds comes from a cell, so it is
      below any bound all the cells' references respect. */
  lemma {:induction false} AssembleRefsBelow(keys: seq<string>, cells: seq<Result<Value>>, n: nat)
    requires |keys| == |cells|
    requires forall i :: 0 <= i < |cells| && cells[i].Ok? && cells[i].value.Ref? ==> cells[i].value.id < n
    requires Assemble(keys, cells).Ok?
    ensures RefsBelow(Assemble(keys, cells).value, n)
  {
    if keys != [] {
      var m := |keys| - 1;
      assert forall i :: 0 <= i < m ==> cells[..m][i] == cells[i];
      AssembleRefsBelow(keys[..m], cells[..m], n);
    }
  }

  /** Every manager reference a standardized record holds names a user
      already stored (line 39 takes it from `find_one`). */
  lemma StandardizeRefsBelow(users: seq<Doc>, row: Row)
    requires WellFormedRow(row)
    requires Standardize(users, row).Ok?
    ensures RefsBelow(Standardize(users, row).value, |users|)
  {
    AssembleRefsBelow(Keys(row.headers), Cells(users, row), |users|);
  }

  /** A non-empty cell under the last header renamed to manager_id resolves to
      the first user whose normalized_email is the record's 'Manager' cell; an
      empty one is kept as it is. */
  lemma ManagerCellResolves(users: seq<Doc>, row: Row)
    requires WellFormedRow(row)
    requires Standardize(users, row).Ok?
    requires LastIndex(Keys(row.headers), MANAGER_FIELD).Some?
    ensures MANAGER_FIELD in Standardize(users, row).value
    ensures
      var cell := row.cells[row.headers[LastIndex(Keys(row.headers), MANAGER_FIELD).value]];
      var manager := Standardize(users, row).value[MANAGER_FIELD];
      && (cell == "" ==> manager == Text(""))
      && (cell != "" ==>
            && MANAGER_HEADER in row.cells
            && FindByEmail(users, Text(row.cells[MANAGER_HEADER])).Some?
            && manager == Ref(FindByEmail(users, Text(row.cells[MANAGER_HEADER])).value))
  {
    AssembleLookup(Keys(row.headers), Cells(users, row), MANAGER_FIELD);
    assert MANAGER_FIELD != SALARY_FIELD && MANAGER_FIELD != HIRE_DATE_FIELD;
  }
}
