/** Values, documents and CSV rows shared by the upload handler, and the one
    query it makes by e-mail address on the user collection. */
module Documents {

  /** The `_id` of a user. Users are never deleted, so the store keeps them
      in insertion order and a user's `_id` is its position. */
  type Id = nat

  datatype Option<T> = None | Some(value: T)

  /** Why a call of the handler raised instead of returning a response. */
  datatype Error =
    | BadSalary         // int() rejected the Salary cell
    | BadHireDate       // strptime rejected the Hire Date cell
    | NoManagerColumn   // the row has no 'Manager' cell to look up
    | UnknownManager    // no user has the Manager cell as normalized_email
    | NoEmail           // the standardized row has no normalized_email key
    | NoManagerField    // a user on the chain has no manager_id field
    | BrokenManager     // a truthy manager_id names no user
    | ManagerCycle      // the chain walk would never end

  datatype Result<T> = Ok(value: T) | Err(error: Error)

  datatype Date = Date(year: int, month: int, day: int)

  /** A field value of a user document. */
  datatype Value =
    | Text(s: string)
    | Int(n: int)
    | When(date: Date)
    | Ref(id: Id)
    | Bool(b: bool)
    | Bytes(bytes: seq<bv8>)
    | Null

  /** Python's truth value of a stored field value (an ObjectId is always true). */
  predicate Truthy(v: Value) {
    match v
    case Text(s) => s != ""
    case Int(n) => n != 0
    case When(_) => true
    case Ref(_) => true
    case Bool(b) => b
    case Bytes(bytes) => bytes != []
    case Null => false
  }

  /** A user document: field name to value, without its `_id`. */
  type Doc = map<string, Value>

  const EMAIL_FIELD := "normalized_email"
  const MANAGER_FIELD := "manager_id"
  const HIRE_DATE_FIELD := "hire_date"
  const SALARY_FIELD := "salary"
  const ID_FIELD := "_id"
  const MANAGER_HEADER := "Manager"

  /** One parsed CSV record: its headers in file order and the cell under each. */
  datatype Row = Row(headers: seq<string>, cells: map<string, string>)

  /** A dictionary has each key once, and its keys are exactly the headers. */
  predicate WellFormedRow(row: Row) {
    && (forall i, j :: 0 <= i < j < |row.headers| ==> row.headers[i] != row.headers[j])
    && row.cells.Keys == set h | h in row.headers
  }

  predicate HasEmail(doc: Doc, email: Value) {
    EMAIL_FIELD in doc && doc[EMAIL_FIELD] == email
  }

  /** `find_one({'normalized_email': email})`: the first user, in natural
      order, whose normalized_email equals `email`. */
  function FindByEmail(users: seq<Doc>, email: Value): (r: Option<Id>)
    ensures r.Some? ==> r.value < |users| && HasEmail(users[r.value], email)
    ensures r.Some? ==> forall j :: 0 <= j < r.value ==> !HasEmail(users[j], email)
    ensures r.None? ==> forall j :: 0 <= j < |users| ==> !HasEmail(users[j], email)
  {
    if users == [] then None
    else match FindByEmail(users[..|users| - 1], email)
      case Some(i) => Some(i)
      case None => if HasEmail(users[|users| - 1], email) then Some(|users| - 1) else None
  }

  /** The lookup depends only on which users, up to the one found, carry the address. */
  lemma FindByEmailAgrees(users: seq<Doc>, others: seq<Doc>, email: Value)
    requires FindByEmail(users, email).Some?
    requires FindByEmail(users, email).value < |others|
    requires forall j :: 0 <= j <= FindByEmail(users, email).value ==>
      (HasEmail(others[j], email) <==> HasEmail(users[j], email))
    ensures FindByEmail(others, email) == FindByEmail(users, email)
  {
  }

  /** Every reference the document holds names one of the first `n` users. */
  ghost predicate RefsBelow(doc: Doc, n: nat) {
    forall k :: k in doc && doc[k].Ref? ==> doc[k].id < n
  }

  /** No two users share a normalized_email. */
  ghost predicate UniqueEmails(users: seq<Doc>) {
    forall i, j :: 0 <= i < j < |users| && EMAIL_FIELD in users[i] && EMAIL_FIELD in users[j]
      ==> users[i][EMAIL_FIELD] != users[j][EMAIL_FIELD]
  }

  /** With unique e-mail addresses, a user with address `email` is the one `FindByEmail` returns. */
  lemma {:induction false} FindByEmailUnique(users: seq<Doc>, email: Value, i: Id)
    requires UniqueEmails(users)
    requires i < |users| && HasEmail(users[i], email)
    ensures FindByEmail(users, email) == Some(i)
  {
  }
}
