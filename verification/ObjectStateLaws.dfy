/**
 What the statements on requests for object states come to: which requests a cancellation concerns, when a
 creation, a block's reason and a restore go through. Each is said without the statements' own conditions.
 */
module ObjectStateLaws {
  import opened Prelude
  import opened ObjectStateModel
  import opened ObjectStateTheorems

  /** A cancellation concerns exactly the requests of the object that are in force. */
  lemma ActiveIsInForce(r: StateRequest, obj: nat, now: int)
    requires r.canceled.Some? ==> r.canceled.value <= now
    ensures Active(r, obj, now) <==> r.objectId == obj && Covers(r, now)
  {
  }

  /** What a cancellation at `now` does to a request, which is not cancelled in the future. */
  lemma CancellationLaw(rs: seq<StateRequest>, obj: nat, states: set<string>, now: int, i: nat)
    requires i < |rs| && (rs[i].canceled.Some? ==> rs[i].canceled.value <= now)
    ensures var r, q := rs[i], Truncated(rs, obj, states, now)[i];
      if r.objectId == obj && r.state in states && Covers(r, now) then
        q == StateRequest(r.objectId, r.state, r.crdate, r.validFrom, r.validTo, Some(now))
      else q == r
  {
    ActiveIsInForce(rs[i], obj, now);
  }

  /** The server states are the manual ones whose names begin with "server". */
  lemma ServerStatesAre(env: Env, s: string)
    ensures s in ServerStates(env) <==> s in env.states && env.states[s].manual && |s| >= 6 && s[..6] == "server"
  {
    if |s| >= 6 && s[..6] == "server" {
      assert forall k :: 0 <= k < 6 ==> s[k] == s[..6][k];
    }
  }

  // ---------------------------------------------------------------- creation

  /** The new interval leaves the existing request alone: both are apart, or the new one strictly covers it. */
  ghost predicate LeavesAlone(r: StateRequest, from: int, to: Option<int>) {
    if Before(from, to) then Disjoint(r, Fresh(r, from, to)) || StrictlyCovers(Fresh(r, from, to), r)
    else End(r) == Some(r.validFrom) || from < r.validFrom || (End(r).Some? && End(r).value < from)
  }

  /** What a creation needs to succeed. */
  ghost predicate MayRequest(env: Env, rs: seq<StateRequest>, obj: nat, states: set<string>, validFrom: Option<int>,
                             validTo: Option<int>) {
    var from := if validFrom.Some? then validFrom.value else env.now;
    && (validTo.Some? ==> from <= validTo.value)
    && obj in env.objectTypes && states != {}
    && (forall s :: s in states ==>
         s in env.states && env.states[s].manual && env.objectTypes[obj] in env.states[s].types)
    && (forall i :: 0 <= i < |rs| && rs[i].objectId == obj && rs[i].state in states ==>
         LeavesAlone(rs[i], from, validTo))
  }

  lemma ConflictLaw(r: StateRequest, from: int, to: Option<int>)
    requires WellFormed(r) && (to.Some? ==> from <= to.value)
    ensures !Conflict(r, from, to) <==> LeavesAlone(r, from, to)
  {
    if Before(from, to) {
      OverlapTestAdmits(r, from, to);
    } else {
      OverlapTestOnEmpty(r, from);
    }
  }

  /** Exactly when a creation is not refused. */
  lemma CreateLaw(env: Env, rs: seq<StateRequest>, obj: nat, states: set<string>, validFrom: Option<int>,
                  validTo: Option<int>)
    requires forall i :: 0 <= i < |rs| ==> WellFormed(rs[i])
    ensures CreateRefusal(env, rs, obj, states, validFrom, validTo).None? <==>
      MayRequest(env, rs, obj, states, validFrom, validTo)
  {
    var from := StartOr(validFrom, env.now);
    if (validTo.Some? ==> from <= validTo.value) && obj in env.objectTypes {
      var wrong := set s | s in states && !Requestable(env, env.objectTypes[obj], s);
      assert wrong == {} <==> forall s :: s in states ==> s !in wrong;
      forall i | 0 <= i < |rs|
        ensures !Conflict(rs[i], from, validTo) <==> LeavesAlone(rs[i], from, validTo)
      {
        ConflictLaw(rs[i], from, validTo);
      }
    }
  }

  // ---------------------------------------------------------------- the reason of a block

  /** The reason was recorded for the request for serverBlocked that the block made. */
  ghost predicate ReasonGoesWithBlock(a: Tables, b: Tables, reason: Option<string>) {
    exists i :: && |a.requests| <= i < |b.requests| && b.requests[i].state == SERVER_BLOCKED
                && b.reasons == a.reasons + [Reason(i, reason, None)]
  }

  /** The block has begun and not yet ended. */
  ghost predicate BeginsByNow(now: int, validFrom: Option<int>, validTo: Option<int>) {
    (validFrom.Some? ==> validFrom.value <= now) && (validTo.Some? ==> now <= validTo.value)
  }

  /** The request for serverBlocked among the rows of a block. */
  lemma BlockRequest(env: Env, a: Tables, b: Tables, obj: nat, states: set<string>, validFrom: Option<int>,
                     validTo: Option<int>) returns (n: nat)
    requires BlockStep(env, a, b, obj, states, validFrom, validTo)
    ensures |a.requests| <= n < |b.requests| && b.requests[n].state == SERVER_BLOCKED
    ensures Annotatable(b.requests[n], obj, env.now) <==> BeginsByNow(env.now, validFrom, validTo)
    ensures forall i :: |a.requests| <= i < |b.requests| && b.requests[i].state == SERVER_BLOCKED ==> i == n
    ensures IsServerState(env, SERVER_BLOCKED)
    ensures forall i :: 0 <= i < |a.requests| ==>
      b.requests[i] == Truncated(a.requests, obj, ServerStates(env), env.now)[i]
  {
    var cut := Truncated(a.requests, obj, ServerStates(env), env.now);
    CreationRows(env, cut, b.requests, obj, states + {SERVER_BLOCKED}, validFrom, validTo);
    assert SERVER_BLOCKED in states + {SERVER_BLOCKED};
    assert Requestable(env, env.objectTypes[obj], SERVER_BLOCKED) by {
      var wrong := set s | s in states + {SERVER_BLOCKED} && !Requestable(env, env.objectTypes[obj], s);
      assert SERVER_BLOCKED !in wrong;
    }
    n :| |a.requests| <= n < |b.requests| && b.requests[n].state == SERVER_BLOCKED;
    forall i | |a.requests| <= i < |b.requests| && b.requests[i].state == SERVER_BLOCKED
      ensures i == n
    {
      assert SameState(b.requests[i], b.requests[n]);
    }
  }

  /**
   The reason given for a block goes with the request that the block made, exactly if that begins by now and does
   not end before now.
   */
  lemma BlockReasonLaw(env: Env, a: Tables, b: Tables, obj: nat, states: set<string>, validFrom: Option<int>,
                       validTo: Option<int>, reason: Option<string>)
    requires BlockStep(env, a, b, obj, states, validFrom, validTo)
    requires ReasonAdded(env, b.requests, a.reasons, b.reasons, obj, reason)
    ensures ReasonGoesWithBlock(a, b, reason) <==> BeginsByNow(env.now, validFrom, validTo)
  {
    var n := BlockRequest(env, a, b, obj, states, validFrom, validTo);
    if BeginsByNow(env.now, validFrom, validTo) {
      var last :| 0 <= last < |b.requests| && Annotatable(b.requests[last], obj, env.now)
                  && b.reasons == a.reasons + [Reason(last, reason, None)]
                  && forall i :: last < i < |b.requests| ==> !Annotatable(b.requests[i], obj, env.now);
      assert last >= n;
    } else if b.reasons != a.reasons {
      var last :| 0 <= last < |b.requests| && Annotatable(b.requests[last], obj, env.now)
                  && b.reasons == a.reasons + [Reason(last, reason, None)];
      assert last != n && b.reasons[|a.reasons|].requestId == last;
    }
  }

  /**
   Otherwise the reason is not recorded, or it goes with an older request for serverBlocked that ends at this very
   instant.
   */
  lemma OtherwiseReasonMisses(env: Env, a: Tables, b: Tables, obj: nat, states: set<string>, validFrom: Option<int>,
                              validTo: Option<int>, reason: Option<string>)
    requires BlockStep(env, a, b, obj, states, validFrom, validTo)
    requires ReasonAdded(env, b.requests, a.reasons, b.reasons, obj, reason)
    requires !BeginsByNow(env.now, validFrom, validTo)
    ensures b.reasons == a.reasons || exists i ::
      && 0 <= i < |a.requests| && a.requests[i].objectId == obj && a.requests[i].state == SERVER_BLOCKED
      && a.requests[i].validTo == Some(env.now) && b.reasons == a.reasons + [Reason(i, reason, None)]
  {
    var n := BlockRequest(env, a, b, obj, states, validFrom, validTo);
    if b.reasons != a.reasons {
      var last :| 0 <= last < |b.requests| && Annotatable(b.requests[last], obj, env.now)
                  && b.reasons == a.reasons + [Reason(last, reason, None)];
      assert last < |a.requests|;
      EndsNow(env, a.requests[last], obj);
    }
  }

  /** A request for serverBlocked that a block does not cancel and that could take its reason ends at this instant. */
  lemma EndsNow(env: Env, r: StateRequest, obj: nat)
    requires IsServerState(env, SERVER_BLOCKED) && Annotatable(Cut(r, obj, ServerStates(env), env.now), obj, env.now)
    ensures r.objectId == obj && r.state == SERVER_BLOCKED && r.validTo == Some(env.now)
  {
  }

  // ---------------------------------------------------------------- restoring

  /** A request for the state lies in the future and has no end. */
  ghost predicate LaterForEver(rs: seq<StateRequest>, obj: nat, s: string, now: int) {
    exists i :: && 0 <= i < |rs| && rs[i].objectId == obj && rs[i].state == s && now < rs[i].validFrom
                && rs[i].validTo.None? && rs[i].canceled.None?
  }

  /**
   After the server states were cleared, a request from now on meets a conflict exactly at one in the future
   without an end.
   */
  lemma ClearedConflict(env: Env, r: StateRequest, obj: nat)
    requires WellFormed(r) && (r.canceled.Some? ==> r.canceled.value <= env.now)
    requires r.objectId == obj && IsServerState(env, r.state)
    ensures Conflict(Cut(r, obj, ServerStates(env), env.now), env.now, None) <==>
      env.now < r.validFrom && r.validTo.None? && r.canceled.None?
  {
  }

  /** What the creation at the end of a restore needs to succeed. */
  ghost predicate MayRequestAgain(env: Env, t: Tables, obj: nat, start: nat)
    requires start < |t.held|
  {
    (exists s :: ToRestore(env, t.held, start, s)) ==>
      && obj in env.objectTypes
      && forall s :: ToRestore(env, t.held, start, s) ==>
           env.objectTypes[obj] in env.states[s].types && !LaterForEver(t.requests, obj, s, env.now)
  }

  lemma AgainLaw(env: Env, t: Tables, obj: nat, start: nat, previous: set<string>)
    requires start < |t.held| && Sound(t.requests, env.now) && previous != {}
    requires previous == set s | s in env.states && ToRestore(env, t.held, start, s)
    ensures CreateRefusal(env, Truncated(t.requests, obj, ServerStates(env), env.now), obj, previous, None, None).None?
       <==> MayRequestAgain(env, t, obj, start)
  {
    var cut := Truncated(t.requests, obj, ServerStates(env), env.now);
    assert forall s :: s in previous <==> ToRestore(env, t.held, start, s);
    forall i | 0 <= i < |cut| && Concerns(cut[i], obj, previous)
      ensures Conflict(cut[i], env.now, None) <==>
        env.now < t.requests[i].validFrom && t.requests[i].validTo.None? && t.requests[i].canceled.None?
    {
      ClearedConflict(env, t.requests[i], obj);
    }
    if obj in env.objectTypes {
      var wrong := set s | s in previous && !Requestable(env, env.objectTypes[obj], s);
      assert wrong == {} <==> forall s :: s in previous ==> s !in wrong;
    }
  }

  /**
   Exactly when a restore from row `start` is not refused: serverBlocked is requested now, and no state on the list
   is wrong for the object or requested for ever from a later instant on.
   */
  lemma RestoreLaw(env: Env, t: Tables, obj: nat, start: nat)
    requires start < |t.held| && Sound(t.requests, env.now)
    ensures RestoreRefusal(env, t, obj, Some(start)).None? <==>
      && IsServerState(env, SERVER_BLOCKED) && InForce(t.requests, obj, SERVER_BLOCKED, env.now)
      && MayRequestAgain(env, t, obj, start)
  {
    forall i | 0 <= i < |t.requests|
      ensures Active(t.requests[i], obj, env.now) <==> t.requests[i].objectId == obj && Covers(t.requests[i], env.now)
    {
      ActiveIsInForce(t.requests[i], obj, env.now);
    }
    assert RequestedActively(t.requests, obj, SERVER_BLOCKED, env.now) <==>
      InForce(t.requests, obj, SERVER_BLOCKED, env.now);
    var previous := set s | s in env.states && ToRestore(env, t.held, start, s);
    if previous != {} {
      AgainLaw(env, t, obj, start, previous);
    } else {
      assert forall s :: ToRestore(env, t.held, start, s) ==> s in previous;
    }
  }
}
