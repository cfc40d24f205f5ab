/**
 The main results about requests for object states: what the overlap test admits, and which intervals
 can occur together in any run.
 */
module ObjectStateTheorems {
  import opened Prelude
  import opened ObjectStateModel

  // ---------------------------------------------------------------- the overlap test

  ghost function Fresh(r: StateRequest, from: int, to: Option<int>): StateRequest {
    r.(validFrom := from, validTo := to, canceled := None)
  }

  /**
   A nonempty new interval passes the test next to an existing one exactly when they are disjoint or it
   strictly covers it.
   */
  lemma OverlapTestAdmits(r: StateRequest, from: int, to: Option<int>)
    requires WellFormed(r) && Before(from, to)
    ensures !Conflict(r, from, to) <==> Disjoint(r, Fresh(r, from, to)) || StrictlyCovers(Fresh(r, from, to), r)
  {
  }

  /**
   An empty new interval passes unless its instant lies in the existing one or at the end of it, and the
   existing one is not empty.
   */
  lemma OverlapTestOnEmpty(r: StateRequest, at: int)
    requires WellFormed(r)
    ensures Conflict(r, at, Some(at)) <==>
      r.validFrom <= at && (End(r).None? || at <= End(r).value) && End(r) != Some(r.validFrom)
  {
  }

  predicate IsInside(r: StateRequest, from: int, to: Option<int>) {
    from < r.validFrom && End(r).Some? && Before(End(r).value, to)
  }

  /** Some request for these states begins after `from` and ends before `to`. */
  ghost predicate SomeInside(rs: seq<StateRequest>, obj: nat, states: set<string>, from: int, to: Option<int>) {
    exists i :: 0 <= i < |rs| && Concerns(rs[i], obj, states) && IsInside(rs[i], from, to)
  }

  /**
   When the test keeps its promise: an admitted, nonempty interval overlaps none of the existing ones
   if and only if none of them lies strictly inside it.
   */
  lemma OverlapLaw(rs: seq<StateRequest>, obj: nat, states: set<string>, from: int, to: Option<int>)
    requires forall i :: 0 <= i < |rs| ==> WellFormed(rs[i])
    requires Before(from, to) && !Overlayed(rs, obj, states, from, to)
    ensures (forall i :: 0 <= i < |rs| && Concerns(rs[i], obj, states) ==> Disjoint(rs[i], Fresh(rs[i], from, to)))
       <==> !SomeInside(rs, obj, states, from, to)
  {
    forall i | 0 <= i < |rs| && Concerns(rs[i], obj, states)
      ensures Disjoint(rs[i], Fresh(rs[i], from, to)) <==>
        !IsInside(rs[i], from, to)
    {
      OverlapTestAdmits(rs[i], from, to);
    }
  }

  // ---------------------------------------------------------------- runs

  datatype Change =
    | Truncation(objectId: nat, states: set<string>)
    | Creation(env: Env, objectId: nat, states: set<string>, validFrom: Option<int>, validTo: Option<int>)

  /** Blocking and restoring an object are a truncation followed by a creation at the same time. */
  ghost predicate Step(now: int, a: seq<StateRequest>, b: seq<StateRequest>, c: Change) {
    match c
    case Truncation(obj, states) => b == Truncated(a, obj, states, now)
    case Creation(env, obj, states, from, to) => env.now == now && CreateStep(env, a, b, obj, states, from, to)
  }

  ghost predicate IsRun(run: seq<seq<StateRequest>>, times: seq<int>, changes: seq<Change>) {
    && |run| == |changes| + 1 && |times| == |changes|
    && run[0] == []
    && (forall k :: 0 <= k < |changes| ==> Step(times[k], run[k], run[k + 1], changes[k]))
    && forall k, l :: 0 <= k <= l < |times| ==> times[k] <= times[l]
  }

  predicate SameState(r: StateRequest, q: StateRequest) {
    r.objectId == q.objectId && r.state == q.state
  }

  /** Intervals do not end before they begin, and no request is cancelled in the future. */
  ghost predicate Sound(rs: seq<StateRequest>, now: int) {
    forall i :: 0 <= i < |rs| ==> WellFormed(rs[i]) && (rs[i].canceled.Some? ==> rs[i].canceled.value <= now)
  }

  /** Any two requests for one state are disjoint, or the one created later contains the earlier one. */
  ghost predicate Laminar(rs: seq<StateRequest>) {
    forall i, j :: 0 <= i < j < |rs| && SameState(rs[i], rs[j]) ==> Disjoint(rs[i], rs[j]) || Contains(rs[j], rs[i])
  }

  lemma CutKeepsPair(r: StateRequest, q: StateRequest, obj: nat, states: set<string>, now: int)
    requires SameState(r, q) && WellFormed(r) && WellFormed(q)
    requires r.canceled.Some? ==> r.canceled.value <= now
    requires q.canceled.Some? ==> q.canceled.value <= now
    requires Disjoint(r, q) || Contains(q, r)
    ensures var r', q' := Cut(r, obj, states, now), Cut(q, obj, states, now);
      (Disjoint(r', q') || Contains(q', r')) && (Disjoint(r, q) ==> Disjoint(r', q'))
  {
  }

  lemma AdmittedPair(r: StateRequest, q: StateRequest)
    requires WellFormed(r) && WellFormed(q) && q.canceled.None?
    requires !Conflict(r, q.validFrom, q.validTo)
    ensures Disjoint(r, q) || Contains(q, r)
    ensures r.validFrom <= q.validFrom ==> Disjoint(r, q)
  {
  }

  lemma StepKeepsLaminar(now: int, a: seq<StateRequest>, b: seq<StateRequest>, c: Change)
    requires Sound(a, now) && Laminar(a) && Step(now, a, b, c)
    ensures Sound(b, now) && Laminar(b)
  {
    match c
    case Truncation(obj, states) =>
      forall i, j | 0 <= i < j < |b| && SameState(b[i], b[j])
        ensures Disjoint(b[i], b[j]) || Contains(b[j], b[i])
      {
        CutKeepsPair(a[i], a[j], obj, states, now);
      }
    case Creation(env, obj, states, from, to) =>
      CreationRows(env, a, b, obj, states, from, to);
      forall i, j | 0 <= i < j < |b| && SameState(b[i], b[j])
        ensures Disjoint(b[i], b[j]) || Contains(b[j], b[i])
      {
        if j >= |a| {
          AdmittedPair(b[i], b[j]);
        }
      }
  }

  /**
   The rows of a creation, seen as rows of the whole table: each is well formed and was tested against every
   older row of its state.
   */
  lemma CreationRows(env: Env, a: seq<StateRequest>, b: seq<StateRequest>, obj: nat, states: set<string>,
                     from: Option<int>, to: Option<int>)
    requires CreateStep(env, a, b, obj, states, from, to)
    ensures |a| <= |b| && forall i :: 0 <= i < |a| ==> b[i] == a[i]
    ensures forall j :: |a| <= j < |b| ==>
      && b[j] == StateRequest(obj, b[j].state, env.now, if from.Some? then from.value else env.now, to, None)
      && WellFormed(b[j]) && b[j].state in states
    ensures forall i, j :: 0 <= i < j < |b| && |a| <= j && SameState(b[i], b[j]) ==>
      i < |a| && !Conflict(b[i], b[j].validFrom, b[j].validTo)
    ensures forall s :: s in states ==> exists j :: |a| <= j < |b| && b[j].state == s
  {
    var rows := b[|a|..];
    assert forall i :: 0 <= i < |a| ==> b[..|a|][i] == b[i];
    assert forall j :: |a| <= j < |b| ==> b[j] == rows[j - |a|];
    assert forall i, j :: |a| <= i < j < |b| ==> b[i].state != b[j].state;
    forall i, j | 0 <= i < j < |b| && |a| <= j && SameState(b[i], b[j])
      ensures i < |a| && !Conflict(b[i], b[j].validFrom, b[j].validTo)
    {
      if i < |a| {
        assert Concerns(a[i], obj, states);
      }
    }
    forall s | s in states
      ensures exists j :: |a| <= j < |b| && b[j].state == s
    {
      var i :| 0 <= i < |rows| && rows[i].state == s;
      assert b[i + |a|].state == s;
    }
  }

  /** The laminar invariant over every run of creations and cancellations in time order. */
  lemma {:induction false} LaminarOverRuns(run: seq<seq<StateRequest>>, times: seq<int>, changes: seq<Change>, k: nat)
    requires IsRun(run, times, changes) && k < |run|
    ensures Laminar(run[k])
    ensures forall i :: 0 <= i < |run[k]| ==> WellFormed(run[k][i])
    ensures k < |times| ==> Sound(run[k], times[k])
  {
    if k > 0 {
      LaminarOverRuns(run, times, changes, k - 1);
      StepKeepsLaminar(times[k - 1], run[k - 1], run[k], changes[k - 1]);
    }
  }

  /**
   What the invariant means at an instant: of two requests in force for one state, the later created lasts
   around the earlier one.
   */
  lemma TwoInForceAreNested(run: seq<seq<StateRequest>>, times: seq<int>, changes: seq<Change>, k: nat, i: nat, j: nat,
                            t: int)
    requires IsRun(run, times, changes) && k < |run|
    requires i < j < |run[k]| && SameState(run[k][i], run[k][j]) && Covers(run[k][i], t) && Covers(run[k][j], t)
    ensures Contains(run[k][j], run[k][i])
    ensures forall u :: Covers(run[k][i], u) ==> Covers(run[k][j], u)
  {
    LaminarOverRuns(run, times, changes, k);
  }

  /** Every creation of the run leaves the beginning to the database, so that requests begin when they are made. */
  ghost predicate FromNow(changes: seq<Change>) {
    forall k :: 0 <= k < |changes| && changes[k].Creation? ==> changes[k].validFrom.None?
  }

  ghost predicate AllDisjoint(rs: seq<StateRequest>) {
    forall i, j :: 0 <= i < j < |rs| && SameState(rs[i], rs[j]) ==> Disjoint(rs[i], rs[j])
  }

  ghost predicate Begun(rs: seq<StateRequest>, now: int) {
    forall i :: 0 <= i < |rs| ==> rs[i].validFrom <= now
  }

  lemma StepKeepsDisjoint(now: int, a: seq<StateRequest>, b: seq<StateRequest>, c: Change)
    requires Sound(a, now) && AllDisjoint(a) && Begun(a, now) && Step(now, a, b, c)
    requires c.Creation? ==> c.validFrom.None?
    ensures AllDisjoint(b) && Begun(b, now)
  {
    match c
    case Truncation(obj, states) =>
      forall i, j | 0 <= i < j < |b| && SameState(b[i], b[j])
        ensures Disjoint(b[i], b[j])
      {
        CutKeepsPair(a[i], a[j], obj, states, now);
      }
    case Creation(env, obj, states, from, to) =>
      CreationRows(env, a, b, obj, states, from, to);
      forall i, j | 0 <= i < j < |b| && SameState(b[i], b[j])
        ensures Disjoint(b[i], b[j])
      {
        if j >= |a| {
          AdmittedPair(b[i], b[j]);
        }
      }
  }

  lemma {:induction false} DisjointOverRuns(run: seq<seq<StateRequest>>, times: seq<int>, changes: seq<Change>, k: nat)
    requires IsRun(run, times, changes) && FromNow(changes) && k < |run|
    ensures AllDisjoint(run[k])
    ensures k < |times| ==> Begun(run[k], times[k])
  {
    if k > 0 {
      DisjointOverRuns(run, times, changes, k - 1);
      LaminarOverRuns(run, times, changes, k - 1);
      StepKeepsDisjoint(times[k - 1], run[k - 1], run[k], changes[k - 1]);
    }
  }

  /** When requests always begin at once, no object ever has two requests in force for one state. */
  lemma AtMostOneInForce(run: seq<seq<StateRequest>>, times: seq<int>, changes: seq<Change>, k: nat, i: nat, j: nat,
                         t: int)
    requires IsRun(run, times, changes) && FromNow(changes) && k < |run|
    requires i < |run[k]| && j < |run[k]| && SameState(run[k][i], run[k][j]) && Covers(run[k][i], t)
    requires Covers(run[k][j], t)
    ensures i == j
  {
    DisjointOverRuns(run, times, changes, k);
  }

  // ---------------------------------------------------------------- an overlap

  /**
   The test lets overlapping intervals through: serverHold is requested for <10, 20) and then for <5, 30),
   both are accepted, and both are in force at 15.
   */
  lemma OverlapAdmitted(env: Env)
    requires env.now == 0 && 1 in env.objectTypes && Requestable(env, env.objectTypes[1], "serverHold")
    ensures var first := StateRequest(1, "serverHold", 0, 10, Some(20), None);
      var second := StateRequest(1, "serverHold", 0, 5, Some(30), None);
      && IsRun([[], [first], [first, second]], [0, 0],
               [Creation(env, 1, {"serverHold"}, Some(10), Some(20)),
                Creation(env, 1, {"serverHold"}, Some(5), Some(30))])
      && Covers(first, 15) && Covers(second, 15)
  {
    var first := StateRequest(1, "serverHold", 0, 10, Some(20), None);
    var second := StateRequest(1, "serverHold", 0, 5, Some(30), None);
    var states := {"serverHold"};
    assert (set s | s in states && !Requestable(env, env.objectTypes[1], s)) == {};
    assert CreateStep(env, [], [first], 1, states, Some(10), Some(20)) by {
      assert [first][0..] == [first] && [first][0].state == "serverHold";
    }
    assert CreateStep(env, [first], [first, second], 1, states, Some(5), Some(30)) by {
      assert [first, second][1..] == [second] && [second][0].state == "serverHold";
    }
  }
}
