/** The chain-of-command walk the handler runs for a newly inserted user
    (src/handler.py:55-60): follow `manager_id` from the user until a user
    whose `manager_id` is false, collecting the ids on the way. The loop has
    no cycle guard; the model bounds it by the number of users and proves
    that bound never cuts a walk that would have ended. */
module Chain {
  import opened Documents

  /** What the loop test at line 58 finds on a user, and where line 60 goes next. */
  datatype Link =
    | Missing      // no manager_id field: the test raises KeyError
    | Top          // a false manager_id: the loop ends
    | Up(to: Id)   // the manager_id of an existing user
    | Broken       // a true manager_id that names no user: the next test raises TypeError

  function LinkOf(users: seq<Doc>, x: Id): Link
    requires x < |users|
  {
    var doc := users[x];
    if MANAGER_FIELD !in doc then Missing
    else if !Truthy(doc[MANAGER_FIELD]) then Top
    else match doc[MANAGER_FIELD]
      case Ref(m) => if m < |users| then Up(m) else Broken
      case _ => Broken
  }

  function Then(prefix: seq<Id>, r: Result<seq<Id>>): Result<seq<Id>> {
    match r
    case Ok(c) => Ok(prefix + c)
    case Err(e) => Err(e)
  }

  /** Lines 57-60 from user `x`, following at most `fuel` manager links;
      `ManagerCycle` where the loop would need more. */
  function Walk(users: seq<Doc>, x: Id, fuel: nat): (r: Result<seq<Id>>)
    requires x < |users|
    ensures r.Err? ==> r.error in {NoManagerField, BrokenManager, ManagerCycle}
    decreases fuel
  {
    match LinkOf(users, x)
    case Missing => Err(NoManagerField)
    case Broken => Err(BrokenManager)
    case Top => Ok([])
    case Up(m) => if fuel == 0 then Err(ManagerCycle) else Then([m], Walk(users, m, fuel - 1))
  }

  /** Prefixing twice is prefixing once with both. */
  lemma ThenThen(a: seq<Id>, b: seq<Id>, r: Result<seq<Id>>)
    ensures Then(a, Then(b, r)) == Then(a + b, r)
  {
    if r.Ok? {
      assert a + (b + r.value) == (a + b) + r.value;
    }
  }

  function Last(x: Id, c: seq<Id>): Id {
    if c == [] then x else c[|c| - 1]
  }

  /** `c` is the sequence of ids reached from `x` by following manager links. */
  ghost predicate Trail(users: seq<Doc>, x: Id, c: seq<Id>)
    decreases |c|
  {
    x < |users| && (c != [] ==> LinkOf(users, x) == Up(c[0]) && Trail(users, c[0], c[1..]))
  }

  /** The trail from `x` reaches a user with no further link: the loop leaves there. */
  ghost predicate Stops(users: seq<Doc>, x: Id, c: seq<Id>) {
    Trail(users, x, c) && Last(x, c) < |users| && !LinkOf(users, Last(x, c)).Up?
  }

  /** `c` is the chain of command of `x`: the trail of manager links from `x`
      to a user whose manager_id is false. */
  ghost predicate IsChain(users: seq<Doc>, x: Id, c: seq<Id>) {
    Trail(users, x, c) && Last(x, c) < |users| && LinkOf(users, Last(x, c)) == Top
  }

  ghost predicate Distinct(s: seq<Id>) {
    forall i, j :: 0 <= i < j < |s| ==> s[i] != s[j]
  }

  lemma {:induction false} TrailInRange(users: seq<Doc>, x: Id, c: seq<Id>)
    requires Trail(users, x, c)
    ensures Last(x, c) < |users|
    ensures forall i :: 0 <= i < |c| ==> c[i] < |users|
    decreases |c|
  {
    if c != [] {
      TrailInRange(users, c[0], c[1..]);
      assert Last(x, c) == Last(c[0], c[1..]);
      forall i | 0 < i < |c| ensures c[i] < |users| {
        assert c[i] == c[1..][i - 1];
      }
    }
  }

  /** Walking along a trail consumes one unit of fuel per link. */
  lemma {:induction false} WalkAlongTrail(users: seq<Doc>, x: Id, c: seq<Id>, fuel: nat)
    requires Trail(users, x, c) && |c| <= fuel
    ensures Last(x, c) < |users|
    ensures Walk(users, x, fuel) == Then(c, Walk(users, Last(x, c), fuel - |c|))
    decreases |c|
  {
    TrailInRange(users, x, c);
    if c != [] {
      WalkAlongTrail(users, c[0], c[1..], fuel - 1);
      assert Last(x, c) == Last(c[0], c[1..]);
      var rest := Walk(users, Last(x, c), fuel - |c|);
      assert Walk(users, c[0], fuel - 1) == Then(c[1..], rest);
      assert Walk(users, x, fuel) == Then([c[0]], Then(c[1..], rest));
      if rest.Ok? {
        assert [c[0]] + (c[1..] + rest.value) == c + rest.value;
      }
    } else if Walk(users, x, fuel).Ok? {
      assert [] + Walk(users, x, fuel).value == Walk(users, x, fuel).value;
    }
  }

  /** A walk that ends within its fuel follows a trail that stops. */
  lemma {:induction false} WalkEndsOnStop(users: seq<Doc>, x: Id, fuel: nat)
    requires x < |users|
    requires Walk(users, x, fuel) != Err(ManagerCycle)
    ensures exists c :: Stops(users, x, c) && |c| <= fuel
    decreases fuel
  {
    match LinkOf(users, x)
    case Up(m) =>
      WalkEndsOnStop(users, m, fuel - 1);
      var c :| Stops(users, m, c) && |c| <= fuel - 1;
      assert ([m] + c)[1..] == c;
      assert Last(x, [m] + c) == Last(m, c);
      assert Stops(users, x, [m] + c);
    case _ =>
      assert Stops(users, x, []);
  }

  /** The loop is deterministic: at most one trail from `x` stops. */
  lemma {:induction false} StopsUnique(users: seq<Doc>, x: Id, c1: seq<Id>, c2: seq<Id>)
    requires Stops(users, x, c1) && Stops(users, x, c2)
    ensures c1 == c2
    decreases |c1|
  {
    if c1 != [] && c2 != [] {
      assert Last(x, c1) == Last(c1[0], c1[1..]);
      assert Last(x, c2) == Last(c2[0], c2[1..]);
      StopsUnique(users, c1[0], c1[1..], c2[1..]);
      assert c1 == [c1[0]] + c1[1..];
      assert c2 == [c2[0]] + c2[1..];
    }
  }

  /** Every suffix of a stopping trail is the stopping trail of its start. */
  lemma {:induction false} StopsSuffix(users: seq<Doc>, x: Id, c: seq<Id>, k: nat)
    requires Stops(users, x, c) && k < |c|
    ensures Stops(users, c[k], c[k + 1..])
    decreases k
  {
    assert Last(x, c) == Last(c[0], c[1..]);
    if k > 0 {
      StopsSuffix(users, c[0], c[1..], k - 1);
      assert c[1..][k - 1] == c[k] && c[1..][k..] == c[k + 1..];
    }
  }

  /** A stopping trail never revisits a user, nor the user it started from. */
  lemma StopsDistinct(users: seq<Doc>, x: Id, c: seq<Id>)
    requires Stops(users, x, c)
    ensures Distinct([x] + c)
  {
    var s := [x] + c;
    forall i, j | 0 <= i < j < |s| ensures s[i] != s[j] {
      StopsSuffix(users, x, c, j - 1);
      if i == 0 {
        if x == c[j - 1] {
          StopsUnique(users, x, c, c[j..]);
        }
      } else {
        StopsSuffix(users, x, c, i - 1);
        if c[i - 1] == c[j - 1] {
          StopsUnique(users, c[i - 1], c[i..], c[j..]);
        }
      }
    }
  }

  /** Pigeonhole: distinct ids below `n` number at most `n`. */
  lemma {:induction false} DistinctBelow(s: seq<Id>, n: nat)
    requires Distinct(s)
    requires forall i :: 0 <= i < |s| ==> s[i] < n
    ensures |s| <= n
  {
    if s == [] {
    } else if k :| 0 <= k < |s| && s[k] == n - 1 {
      var t := s[..k] + s[k + 1..];
      assert forall i :: 0 <= i < |t| ==> t[i] == if i < k then s[i] else s[i + 1];
      forall i | 0 <= i < |t| ensures t[i] < n - 1 {
        if i < k { assert s[i] != s[k]; } else { assert s[i + 1] != s[k]; }
      }
      DistinctBelow(t, n - 1);
    } else {
      assert s[0] < n;
      DistinctBelow(s, n - 1);
    }
  }

  /** A stopping trail has fewer links than there are users. */
  lemma StopsShort(users: seq<Doc>, x: Id, c: seq<Id>)
    requires Stops(users, x, c)
    ensures |c| < |users|
  {
    StopsDistinct(users, x, c);
    TrailInRange(users, x, c);
    var s := [x] + c;
    assert forall i :: 0 < i < |s| ==> s[i] == c[i - 1];
    DistinctBelow(s, |users|);
  }

  /** Fuel `|users|` loses nothing: a walk that ends with any fuel ends the
      same way with `|users|`. */
  lemma FuelSuffices(users: seq<Doc>, x: Id, fuel: nat)
    requires x < |users|
    requires Walk(users, x, fuel) != Err(ManagerCycle)
    ensures Walk(users, x, |users|) == Walk(users, x, fuel)
  {
    WalkEndsOnStop(users, x, fuel);
    var c :| Stops(users, x, c) && |c| <= fuel;
    StopsShort(users, x, c);
    WalkAlongTrail(users, x, c, fuel);
    WalkAlongTrail(users, x, c, |users|);
  }

  /** When the bounded walk reports `ManagerCycle`, the loop at lines 58-60
      never exits: no amount of fuel makes it end. */
  lemma CycleIsForever(users: seq<Doc>, x: Id, fuel: nat)
    requires x < |users|
    requires Walk(users, x, |users|) == Err(ManagerCycle)
    ensures Walk(users, x, fuel) == Err(ManagerCycle)
  {
    if Walk(users, x, fuel) != Err(ManagerCycle) {
      FuelSuffices(users, x, fuel);
    }
  }

  lemma {:induction false} WalkSound(users: seq<Doc>, x: Id, fuel: nat)
    requires x < |users|
    requires Walk(users, x, fuel).Ok?
    ensures IsChain(users, x, Walk(users, x, fuel).value)
    decreases fuel
  {
    var c := Walk(users, x, fuel).value;
    match LinkOf(users, x)
    case Up(m) =>
      WalkSound(users, m, fuel - 1);
      var t := Walk(users, m, fuel - 1).value;
      assert c == [m] + t && c[1..] == t;
      assert Last(x, c) == Last(m, t);
    case _ =>
  }

  /** The walk with fuel `|users|` succeeds with `c` exactly when `c` is the
      chain of command of `x`. */
  lemma WalkFindsChain(users: seq<Doc>, x: Id, c: seq<Id>)
    requires x < |users|
    ensures Walk(users, x, |users|) == Ok(c) <==> IsChain(users, x, c)
  {
    if Walk(users, x, |users|) == Ok(c) {
      WalkSound(users, x, |users|);
    }
    if IsChain(users, x, c) {
      StopsShort(users, x, c);
      WalkAlongTrail(users, x, c, |users|);
      assert c + [] == c;
    }
  }

  /** A chain of command lists manager ids nearest first: element 0 is the
      user's own manager_id, element i+1 the manager_id of element i, and it
      ends at a user whose manager_id is false, with no id twice and without
      the user itself. */
  lemma {:induction false} ChainFields(users: seq<Doc>, x: Id, c: seq<Id>)
    requires IsChain(users, x, c)
    ensures forall i :: 0 <= i < |c| ==> c[i] < |users|
    ensures c == [] ==> MANAGER_FIELD in users[x] && !Truthy(users[x][MANAGER_FIELD])
    ensures c != [] ==> MANAGER_FIELD in users[x] && users[x][MANAGER_FIELD] == Ref(c[0])
    ensures forall i :: 0 <= i < |c| - 1 ==> MANAGER_FIELD in users[c[i]] && users[c[i]][MANAGER_FIELD] == Ref(c[i + 1])
    ensures c != [] ==> MANAGER_FIELD in users[c[|c| - 1]] && !Truthy(users[c[|c| - 1]][MANAGER_FIELD])
    ensures Distinct([x] + c)
    decreases |c|
  {
    TrailInRange(users, x, c);
    StopsDistinct(users, x, c);
    if c != [] {
      assert Last(x, c) == Last(c[0], c[1..]);
      ChainFields(users, c[0], c[1..]);
      forall i | 0 <= i < |c| - 1
        ensures MANAGER_FIELD in users[c[i]] && users[c[i]][MANAGER_FIELD] == Ref(c[i + 1])
      {
        if i > 0 {
          assert c[i] == c[1..][i - 1] && c[i + 1] == c[1..][i];
        }
      }
    }
  }
}
