/**
 What blocking and restoring do to the states in force, how the history of states grows, and when
 restoring undoes blocking.
 */
module ObjectStateRestore {
  import opened Prelude
  import opened ObjectStateModel
  import opened ObjectStateTimeline
  import opened ObjectStateChain
  import opened ObjectStateTheorems

  // ---------------------------------------------------------------- blocking

  lemma CoversAfterCut(r: StateRequest, obj: nat, cut: set<string>, now: int)
    requires WellFormed(r) && (r.canceled.Some? ==> r.canceled.value <= now)
    ensures Covers(Cut(r, obj, cut, now), now) <==> Covers(r, now) && !(r.objectId == obj && r.state in cut)
  {
  }

  /** Requests of `obj` for states in `cut` no longer count after the truncation, all others count as before. */
  lemma InForceAfterTruncation(rs: seq<StateRequest>, obj: nat, cut: set<string>, now: int, o: nat, s: string)
    requires Sound(rs, now)
    ensures InForce(Truncated(rs, obj, cut, now), o, s, now) <==> InForce(rs, o, s, now) && !(o == obj && s in cut)
  {
    var out := Truncated(rs, obj, cut, now);
    forall i | 0 <= i < |rs|
      ensures Covers(out[i], now) <==> Covers(rs[i], now) && !(rs[i].objectId == obj && rs[i].state in cut)
      ensures out[i].objectId == rs[i].objectId && out[i].state == rs[i].state
    {
      CoversAfterCut(rs[i], obj, cut, now);
    }
    if InForce(rs, o, s, now) && !(o == obj && s in cut) {
      var i :| 0 <= i < |rs| && rs[i].objectId == o && rs[i].state == s && Covers(rs[i], now);
      assert out[i].objectId == o && out[i].state == s && Covers(out[i], now);
    }
    if InForce(out, o, s, now) {
      var i :| 0 <= i < |out| && out[i].objectId == o && out[i].state == s && Covers(out[i], now);
      assert rs[i].objectId == o && rs[i].state == s;
    }
  }

  /** A creation that begins now and does not end at once adds exactly the named states to those in force. */
  lemma InForceAfterCreation(env: Env, a: seq<StateRequest>, b: seq<StateRequest>, obj: nat, states: set<string>,
                             to: Option<int>, o: nat, s: string)
    requires CreateStep(env, a, b, obj, states, None, to) && Before(env.now, to)
    ensures InForce(b, o, s, env.now) <==> InForce(a, o, s, env.now) || (o == obj && s in states)
  {
    CreationRows(env, a, b, obj, states, None, to);
    if InForce(a, o, s, env.now) {
      var i :| 0 <= i < |a| && a[i].objectId == o && a[i].state == s && Covers(a[i], env.now);
      assert b[i] == a[i];
    }
    if o == obj && s in states {
      var j :| |a| <= j < |b| && b[j].state == s;
      assert Covers(b[j], env.now);
    }
  }

  /**
   After a block that begins now, the server states in force are exactly those asked for and serverBlocked;
   nothing else changes.
   */
  lemma BlockSetsExactly(env: Env, a: Tables, b: Tables, obj: nat, states: set<string>, to: Option<int>, o: nat,
                         s: string)
    requires Sound(a.requests, env.now) && BlockStep(env, a, b, obj, states, None, to) && Before(env.now, to)
    ensures o == obj && IsServerState(env, s) ==>
      (InForce(b.requests, o, s, env.now) <==> s in states || s == SERVER_BLOCKED)
    ensures !(o == obj && IsServerState(env, s)) ==>
      (InForce(b.requests, o, s, env.now) <==> InForce(a.requests, o, s, env.now))
  {
    InForceAfterTruncation(a.requests, obj, ServerStates(env), env.now, o, s);
    InForceAfterCreation(env, Truncated(a.requests, obj, ServerStates(env), env.now), b.requests, obj,
                         states + {SERVER_BLOCKED}, to, o, s);
  }

  /** After a restore, the server states in force are exactly those on the list. */
  lemma RestoreSetsExactly(env: Env, a: Tables, b: Tables, obj: nat, start: nat, s: string)
    requires Sound(a.requests, env.now) && RestoreStep(env, a, b, obj, start) && IsServerState(env, s)
    ensures InForce(b.requests, obj, s, env.now) <==> ToRestore(env, a.held, start, s)
  {
    var cut := Truncated(a.requests, obj, ServerStates(env), env.now);
    var previous := set x | x in env.states && ToRestore(env, a.held, start, x);
    InForceAfterTruncation(a.requests, obj, ServerStates(env), env.now, obj, s);
    assert s in previous <==> ToRestore(env, a.held, start, s);
    if previous != {} {
      InForceAfterCreation(env, cut, b.requests, obj, previous, None, obj, s);
    }
  }

  // ---------------------------------------------------------------- the history of states

  /** What any later transactions may do to the history: close open rows and append new ones, at time `t` or later. */
  ghost predicate Evolves(a: seq<Held>, b: seq<Held>, t: int) {
    && |a| <= |b|
    && (forall i :: 0 <= i < |a| ==>
         || b[i] == a[i]
         || (&& a[i].validTo.None? && b[i].validTo.Some? && t <= b[i].validTo.value
             && b[i] == a[i].(validTo := b[i].validTo)))
    && forall i :: |a| <= i < |b| ==> t <= b[i].validFrom
  }

  lemma PerformedEvolves(env: Env, rs: seq<StateRequest>, a: seq<Held>, b: seq<Held>, obj: nat, t: int)
    requires Performed(env, rs, a, b, obj) && t <= env.now
    ensures Evolves(a, b, t)
  {
  }

  lemma EvolvesTransitive(a: seq<Held>, b: seq<Held>, c: seq<Held>, t: int)
    requires Evolves(a, b, t) && Evolves(b, c, t)
    ensures Evolves(a, c, t)
  {
  }

  /** The history shows as current exactly the server states for which a request is in force. */
  ghost predicate Mirrors(env: Env, rs: seq<StateRequest>, held: seq<Held>, obj: nat) {
    forall s :: IsServerState(env, s) ==> (HasOpen(held, obj, s) <==> InForce(rs, obj, s, env.now))
  }

  /** Bringing the history up to date makes it mirror the requests. */
  lemma PerformedMirrors(env: Env, rs: seq<StateRequest>, a: seq<Held>, b: seq<Held>, obj: nat)
    requires Performed(env, rs, a, b, obj)
    ensures Mirrors(env, rs, b, obj)
  {
    forall s | IsServerState(env, s) && HasOpen(b, obj, s)
      ensures InForce(rs, obj, s, env.now)
    {
      var i :| IsOpen(b, i, obj, s);
      assert i < |a| ==> IsOpen(a, i, obj, s);
    }
  }

  /** No row for `obj` is dated after `t`. */
  ghost predicate RecordedBy(held: seq<Held>, obj: nat, t: int) {
    forall i :: 0 <= i < |held| && held[i].objectId == obj ==>
      held[i].validFrom <= t && (held[i].validTo.Some? ==> held[i].validTo.value <= t)
  }

  /** At `now` a block is recorded although another one began at `now`. */
  ghost predicate Reblocks(a: seq<Held>, b: seq<Held>, obj: nat, now: int) {
    exists i, j :: IsBlock(a, i, obj) && a[i].validFrom == now && |a| <= j && IsBlock(b, j, obj)
  }

  /** Recording states keeps the blocks of every object in order. */
  lemma PerformedKeepsOrder(env: Env, rs: seq<StateRequest>, a: seq<Held>, b: seq<Held>, performed: nat, obj: nat)
    requires Performed(env, rs, a, b, performed) && Orderly(a, obj) && RecordedBy(a, obj, env.now)
    ensures Orderly(b, obj) && RecordedBy(b, obj, env.now)
  {
    forall i, j | IsBlock(b, i, obj) && IsBlock(b, j, obj) && i < j
      ensures Reached(b[i].validTo, b[j].validFrom) && b[i].validFrom <= b[j].validFrom
    {
      if j < |a| {
        assert IsBlock(a, i, obj) && IsBlock(a, j, obj);
      } else if i < |a| {
        assert IsBlock(a, i, obj);
        assert !IsOpen(a, i, obj, SERVER_BLOCKED);
      }
    }
    forall i | IsBlock(b, i, obj) && b[i].validTo.Some?
      ensures b[i].validFrom <= b[i].validTo.value
    {
      assert i < |a| ==> IsBlock(a, i, obj);
    }
  }

  /** They stay on a timeline exactly if no block is recorded at the instant at which another one began. */
  lemma PerformedKeepsTimeline(env: Env, rs: seq<StateRequest>, a: seq<Held>, b: seq<Held>, performed: nat, obj: nat)
    requires Performed(env, rs, a, b, performed) && Orderly(a, obj) && Orderly(b, obj) && RecordedBy(a, obj, env.now)
    ensures Timeline(b, obj) <==> Timeline(a, obj) && !Reblocks(a, b, obj, env.now)
  {
    forall i | IsBlock(b, i, obj)
      ensures if i < |a| then IsBlock(a, i, obj) && a[i].validFrom == b[i].validFrom else b[i].validFrom == env.now
    {
    }
    assert forall i, j :: IsBlock(b, i, obj) && IsBlock(b, j, obj) && i < j ==> i < |a|;
    assert forall i :: IsBlock(a, i, obj) ==> IsBlock(b, i, obj);
  }

  /** The history of all objects, brought up to date now for one and now for another. */
  ghost predicate IsRecording(run: seq<seq<Held>>, envs: seq<Env>, requests: seq<seq<StateRequest>>, objs: seq<nat>) {
    && |run| == |envs| + 1 && |requests| == |objs| == |envs|
    && run[0] == []
    && (forall k :: 0 <= k < |envs| ==> Performed(envs[k], requests[k], run[k], run[k + 1], objs[k]))
    && forall k, l :: 0 <= k <= l < |envs| ==> envs[k].now <= envs[l].now
  }

  lemma {:induction false} OrderlyOverRuns(run: seq<seq<Held>>, envs: seq<Env>, requests: seq<seq<StateRequest>>,
                                           objs: seq<nat>, obj: nat, k: nat)
    requires IsRecording(run, envs, requests, objs) && k < |run|
    ensures Orderly(run[k], obj)
    ensures k < |envs| ==> RecordedBy(run[k], obj, envs[k].now)
  {
    if k > 0 {
      OrderlyOverRuns(run, envs, requests, objs, obj, k - 1);
      PerformedKeepsOrder(envs[k - 1], requests[k - 1], run[k - 1], run[k], objs[k - 1], obj);
    }
  }

  /** The blocks of an object form a timeline exactly while no block of it is recorded twice in one instant. */
  lemma {:induction false} TimelineOverRuns(run: seq<seq<Held>>, envs: seq<Env>, requests: seq<seq<StateRequest>>,
                                            objs: seq<nat>, obj: nat, k: nat)
    requires IsRecording(run, envs, requests, objs) && k < |run|
    ensures Timeline(run[k], obj) <==> forall l :: 0 <= l < k ==> !Reblocks(run[l], run[l + 1], obj, envs[l].now)
  {
    if k > 0 {
      TimelineOverRuns(run, envs, requests, objs, obj, k - 1);
      OrderlyOverRuns(run, envs, requests, objs, obj, k - 1);
      OrderlyOverRuns(run, envs, requests, objs, obj, k);
      PerformedKeepsTimeline(envs[k - 1], requests[k - 1], run[k - 1], run[k], objs[k - 1], obj);
    }
  }

  // ---------------------------------------------------------------- restore undoes block

  predicate IsHeldBefore(held: seq<Held>, i: int, obj: nat, s: string, t: int) {
    && 0 <= i < |held| && held[i].objectId == obj && held[i].state == s
    && held[i].validFrom < t && (held[i].validTo.None? || t <= held[i].validTo.value)
  }

  /** State `s` was held until `t`, or beyond. */
  ghost predicate HeldBefore(held: seq<Held>, obj: nat, s: string, t: int) {
    exists i :: IsHeldBefore(held, i, obj, s, t)
  }

  /** In any history that evolved from one at `t`, what was held before an instant up to `t` is known already. */
  lemma HeldBeforeIsKnown(env: Env, before: seq<Held>, later: seq<Held>, obj: nat, t: int, start: nat, s: string)
    requires Evolves(before, later, t) && IsServerState(env, s)
    requires start < |later| && later[start].objectId == obj && later[start].validFrom <= t
    ensures ToRestore(env, later, start, s) <==> HeldBefore(before, obj, s, later[start].validFrom)
  {
    if HeldBefore(before, obj, s, later[start].validFrom) {
      var i :| IsHeldBefore(before, i, obj, s, later[start].validFrom);
      assert HeldJustBefore(later, i, start) && later[i].state == s;
    }
    if ToRestore(env, later, start, s) {
      var j :| HeldJustBefore(later, j, start) && later[j].state == s;
      assert j < |before|;
      assert IsHeldBefore(before, j, obj, s, later[start].validFrom);
    }
  }

  /**
   A restore puts in force exactly the server states held until the block began, whatever the history has
   become since.
   */
  lemma RestoreGoesBack(env: Env, before: seq<Held>, later: Tables, restored: Tables, obj: nat, t: int, start: nat,
                        s: string)
    requires Evolves(before, later.held, t)
    requires Sound(later.requests, env.now) && RestoreStep(env, later, restored, obj, start) && IsServerState(env, s)
    requires later.held[start].objectId == obj && later.held[start].validFrom <= t
    ensures InForce(restored.requests, obj, s, env.now) <==> HeldBefore(before, obj, s, later.held[start].validFrom)
  {
    RestoreSetsExactly(env, later, restored, obj, start, s);
    HeldBeforeIsKnown(env, before, later.held, obj, t, start, s);
  }

  /** Since `from`, at which a block began, the history has state `s` revoked or set. */
  ghost predicate ChangedSince(held: seq<Held>, obj: nat, s: string, from: int) {
    || (HeldBefore(held, obj, s, from) && !HasOpen(held, obj, s))
    || (HasOpen(held, obj, s) && !HeldBefore(held, obj, s, from))
  }

  /** The history says that `s` ended exactly at `t` and is not held any more. */
  ghost predicate RevokedAt(held: seq<Held>, obj: nat, s: string, t: int) {
    && !HasOpen(held, obj, s)
    && exists i :: IsHeldBefore(held, i, obj, s, t) && held[i].validTo == Some(t)
  }

  /** The history says that `s` is held, but that nothing of it was held before `t` and up to `t`. */
  ghost predicate SetAt(held: seq<Held>, obj: nat, s: string, t: int) {
    && HasOpen(held, obj, s)
    && forall i :: 0 <= i < |held| && held[i].objectId == obj && held[i].state == s && held[i].validFrom < t ==>
         held[i].validTo.Some? && held[i].validTo.value < t
  }

  /** Up to the present instant of the history only what happens at that very instant is a change. */
  lemma ChangedAtTheInstant(held: seq<Held>, obj: nat, s: string, t: int)
    requires RecordedBy(held, obj, t)
    ensures ChangedSince(held, obj, s, t) <==> RevokedAt(held, obj, s, t) || SetAt(held, obj, s, t)
  {
    if HasOpen(held, obj, s) && !SetAt(held, obj, s, t) {
      var i :| 0 <= i < |held| && held[i].objectId == obj && held[i].state == s && held[i].validFrom < t
               && !(held[i].validTo.Some? && held[i].validTo.value < t);
      assert IsHeldBefore(held, i, obj, s, t);
    }
    if HeldBefore(held, obj, s, t) && !HasOpen(held, obj, s) {
      var i :| IsHeldBefore(held, i, obj, s, t);
      assert !IsOpen(held, i, obj, s);
    }
  }

  /** The block made at `t` continues one that ended at `t`. */
  ghost predicate ContinuesBlock(held: seq<Held>, obj: nat, t: int) {
    exists i :: IsBlock(held, i, obj) && held[i].validFrom < t && held[i].validTo == Some(t)
  }

  /** An object is blocked, and the history is brought up to date in the same transaction; row `k` is the new block. */
  ghost predicate BlockRecorded(env: Env, before: Tables, blocked: Tables, recorded: seq<Held>, obj: nat,
                                states: set<string>, to: Option<int>, k: nat) {
    && BlockStep(env, before, blocked, obj, states, None, to)
    && Performed(env, blocked.requests, blocked.held, recorded, obj)
    && IsOpen(recorded, k, obj, SERVER_BLOCKED)
  }

  /**
   While the object stays blocked without a gap, anything may happen to requests and history, as long as
   blocks follow one another; then the object is restored, from a row that the queries may lead to.
   */
  ghost predicate RestoredLater(env: Env, recorded: seq<Held>, t: int, later: Tables, restored: Tables, obj: nat,
                                k: nat, start: nat) {
    && Evolves(recorded, later.held, t)
    && Orderly(later.held, obj) && NoneAhead(later.held, obj, env.now) && LastsSince(later.held, obj, env.now, k)
    && Sound(later.requests, env.now)
    && RestoreStep(env, later, restored, obj, start)
    && Found(later.held, obj, env.now, start)
  }

  /**
   A restore goes back to when the very block began, unless that continues an earlier one; then it goes
   further back.
   */
  lemma RestoreFindsBlock(envB: Env, envR: Env, obj: nat, states: set<string>, to: Option<int>, before: Tables,
                          blocked: Tables, recorded: seq<Held>, later: Tables, restored: Tables, k: nat, start: nat)
    requires RecordedBy(before.held, obj, envB.now)
    requires BlockRecorded(envB, before, blocked, recorded, obj, states, to, k)
    requires RestoredLater(envR, recorded, envB.now, later, restored, obj, k, start)
    requires IsChainStart(later.held, obj, envR.now, start)
    ensures Evolves(before.held, later.held, envB.now)
    ensures later.held[start].validFrom <= envB.now
    ensures later.held[start].validFrom == envB.now <==> !ContinuesBlock(before.held, obj, envB.now)
  {
    BlockIsNew(envB, before, blocked, recorded, obj, k);
    PerformedEvolves(envB, blocked.requests, blocked.held, recorded, obj, envB.now);
    EvolvesTransitive(before.held, recorded, later.held, envB.now);
    StartIsBehind(later.held, obj, envR.now, k, start);
    NewBlockContinues(before.held, later.held, obj, envB.now, k);
  }

  /** No block was open before the block, so the open one was recorded with it. */
  lemma BlockIsNew(env: Env, before: Tables, blocked: Tables, recorded: seq<Held>, obj: nat, k: nat)
    requires RecordedBy(before.held, obj, env.now) && !Blocked(before.held, obj, env.now) && blocked.held == before.held
    requires Performed(env, blocked.requests, blocked.held, recorded, obj)
    requires IsOpen(recorded, k, obj, SERVER_BLOCKED)
    ensures k >= |before.held| && recorded[k].validFrom == env.now
  {
    if k < |before.held| {
      assert IsBlock(before.held, k, obj) && HeldAt(before.held[k], env.now);
    }
  }

  lemma NewBlockContinues(before: seq<Held>, later: seq<Held>, obj: nat, t: int, k: nat)
    requires RecordedBy(before, obj, t) && !Blocked(before, obj, t) && Evolves(before, later, t)
    requires |before| <= k && IsBlock(later, k, obj) && later[k].validFrom == t
    ensures HasPredecessor(later, obj, k) <==> ContinuesBlock(before, obj, t)
  {
    if HasPredecessor(later, obj, k) {
      var j: nat :| Precedes(later, obj, j, k);
      assert j < |before| && later[j].state == before[j].state;
      assert IsBlock(before, j, obj);
      assert !HeldAt(before[j], t);
    }
    if ContinuesBlock(before, obj, t) {
      var i :| IsBlock(before, i, obj) && before[i].validFrom < t && before[i].validTo == Some(t);
      assert IsBlock(later, i, obj) && later[i] == before[i];
      assert Precedes(later, obj, i, k);
    }
  }

  /**
   What becomes of one server state: it is as before the block exactly if it has not changed since the
   blocking began.
   */
  lemma RestoredState(envB: Env, envR: Env, obj: nat, states: set<string>, to: Option<int>, before: Tables,
                      blocked: Tables, recorded: seq<Held>, later: Tables,
                      restored: Tables, k: nat, start: nat, s: string)
    requires envB.states == envR.states && IsServerState(envB, s)
    requires RecordedBy(before.held, obj, envB.now) && Mirrors(envB, before.requests, before.held, obj)
    requires BlockRecorded(envB, before, blocked, recorded, obj, states, to, k)
    requires RestoredLater(envR, recorded, envB.now, later, restored, obj, k, start)
    requires IsChainStart(later.held, obj, envR.now, start)
    ensures (InForce(restored.requests, obj, s, envR.now) <==> InForce(before.requests, obj, s, envB.now))
       <==> !ChangedSince(before.held, obj, s, later.held[start].validFrom)
  {
    RestoreFindsBlock(envB, envR, obj, states, to, before, blocked, recorded, later, restored, k, start);
    RestoreGoesBack(envR, before.held, later, restored, obj, envB.now, start, s);
  }

  /** For a block that continues no other, the blocking begins with it. */
  lemma BeginsWithBlock(envB: Env, envR: Env, obj: nat, states: set<string>, to: Option<int>, before: Tables,
                        blocked: Tables, recorded: seq<Held>, later: Tables,
                        restored: Tables, k: nat, start: nat)
    requires RecordedBy(before.held, obj, envB.now)
    requires BlockRecorded(envB, before, blocked, recorded, obj, states, to, k)
    requires RestoredLater(envR, recorded, envB.now, later, restored, obj, k, start)
    requires !ContinuesBlock(before.held, obj, envB.now)
    ensures IsChainStart(later.held, obj, envR.now, start) <==> later.held[start].validFrom == envB.now
  {
    if IsChainStart(later.held, obj, envR.now, start) {
      RestoreFindsBlock(envB, envR, obj, states, to, before, blocked, recorded, later, restored, k, start);
    } else if later.held[start].validFrom == envB.now {
      SeekMayStay(later.held, obj, envR.now, start);
      BlockIsNew(envB, before, blocked, recorded, obj, k);
      PerformedEvolves(envB, blocked.requests, blocked.held, recorded, obj, envB.now);
      EvolvesTransitive(before.held, recorded, later.held, envB.now);
      Together(later.held, obj, start, k);
      NewBlockContinues(before.held, later.held, obj, envB.now, k);
    }
  }

  /** Every server state is in force after the restore exactly if it was before the block. */
  ghost predicate AsBefore(envB: Env, before: seq<StateRequest>, envR: Env, restored: seq<StateRequest>, obj: nat) {
    forall s :: IsServerState(envB, s) ==> (InForce(restored, obj, s, envR.now) <==> InForce(before, obj, s, envB.now))
  }

  /** From a row that follows up another block, the restore requests serverBlocked anew: it undoes nothing. */
  lemma RestoredFromWithin(envB: Env, envR: Env, obj: nat, states: set<string>, to: Option<int>, before: Tables,
                           blocked: Tables, recorded: seq<Held>, later: Tables,
                           restored: Tables, k: nat, start: nat)
    requires envB.states == envR.states
    requires RecordedBy(before.held, obj, envB.now) && Mirrors(envB, before.requests, before.held, obj)
    requires BlockRecorded(envB, before, blocked, recorded, obj, states, to, k)
    requires RestoredLater(envR, recorded, envB.now, later, restored, obj, k, start)
    requires !IsChainStart(later.held, obj, envR.now, start)
    ensures InForce(restored.requests, obj, SERVER_BLOCKED, envR.now)
    ensures !AsBefore(envB, before.requests, envR, restored.requests, obj)
  {
    SeekMayStay(later.held, obj, envR.now, start);
    NotBlockedBefore(envB, before, blocked, recorded, obj, states, to, k);
    BlockedOnTheList(envR, later.held, obj, start);
    RestoreSetsExactly(envR, later, restored, obj, start, SERVER_BLOCKED);
  }

  lemma NotBlockedBefore(env: Env, before: Tables, blocked: Tables, recorded: seq<Held>, obj: nat,
                         states: set<string>, to: Option<int>, k: nat)
    requires RecordedBy(before.held, obj, env.now) && Mirrors(env, before.requests, before.held, obj)
    requires BlockRecorded(env, before, blocked, recorded, obj, states, to, k)
    ensures IsServerState(env, SERVER_BLOCKED) && !InForce(before.requests, obj, SERVER_BLOCKED, env.now)
  {
    BlockIsNew(env, before, blocked, recorded, obj, k);
    if i :| IsOpen(before.held, i, obj, SERVER_BLOCKED) {
      assert IsBlock(before.held, i, obj) && HeldAt(before.held[i], env.now);
    }
  }

  /**
   Restore undoes block. The server states in force after a restore are exactly those in force before the
   block, if and only if the loops stopped where the blocking began, that is, where the first began of the
   blocks that followed one another without a gap, and none of the states has changed since then.
   */
  lemma RestoreUndoesBlock(envB: Env, envR: Env, obj: nat, states: set<string>, to: Option<int>, before: Tables,
                           blocked: Tables, recorded: seq<Held>, later: Tables, restored: Tables, k: nat, start: nat)
    requires envB.states == envR.states
    requires RecordedBy(before.held, obj, envB.now) && Mirrors(envB, before.requests, before.held, obj)
    requires BlockRecorded(envB, before, blocked, recorded, obj, states, to, k)
    requires RestoredLater(envR, recorded, envB.now, later, restored, obj, k, start)
    ensures AsBefore(envB, before.requests, envR, restored.requests, obj)
       <==> IsChainStart(later.held, obj, envR.now, start) &&
            forall s :: IsServerState(envB, s) ==> !ChangedSince(before.held, obj, s, later.held[start].validFrom)
  {
    if IsChainStart(later.held, obj, envR.now, start) {
      forall s | IsServerState(envB, s)
        ensures (InForce(restored.requests, obj, s, envR.now) <==> InForce(before.requests, obj, s, envB.now))
           <==> !ChangedSince(before.held, obj, s, later.held[start].validFrom)
      {
        RestoredState(envB, envR, obj, states, to, before, blocked, recorded, later, restored, k, start, s);
      }
    } else {
      RestoredFromWithin(envB, envR, obj, states, to, before, blocked, recorded, later, restored, k, start);
    }
  }

  /**
   For a block that continues no other, this means: the loops stopped at a row that begins with it, and no
   server state was set or revoked at the very instant of the block.
   */
  lemma RestoreUndoesFirstBlock(envB: Env, envR: Env, obj: nat, states: set<string>, to: Option<int>, before: Tables,
                                blocked: Tables, recorded: seq<Held>, later: Tables,
                                restored: Tables, k: nat, start: nat)
    requires envB.states == envR.states
    requires RecordedBy(before.held, obj, envB.now) && Mirrors(envB, before.requests, before.held, obj)
    requires BlockRecorded(envB, before, blocked, recorded, obj, states, to, k)
    requires !ContinuesBlock(before.held, obj, envB.now)
    requires RestoredLater(envR, recorded, envB.now, later, restored, obj, k, start)
    ensures AsBefore(envB, before.requests, envR, restored.requests, obj)
       <==> later.held[start].validFrom == envB.now &&
            forall s :: IsServerState(envB, s) ==>
              !RevokedAt(before.held, obj, s, envB.now) && !SetAt(before.held, obj, s, envB.now)
  {
    BeginsWithBlock(envB, envR, obj, states, to, before, blocked, recorded, later, restored, k, start);
    RestoreUndoesBlock(envB, envR, obj, states, to, before, blocked, recorded, later, restored, k, start);
    forall s | IsServerState(envB, s)
      ensures ChangedSince(before.held, obj, s, envB.now) <==>
        RevokedAt(before.held, obj, s, envB.now) || SetAt(before.held, obj, s, envB.now)
    {
      ChangedAtTheInstant(before.held, obj, s, envB.now);
    }
  }
}
