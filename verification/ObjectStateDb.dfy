/** The operations on requests for object states, as methods over the tables they change. */
module ObjectStateDb {
  import opened Prelude
  import opened ObjectStateModel
  import opened ObjectStateTimeline
  import opened ObjectStateLaws

  class Database {
    var requests: seq<StateRequest>
    var held: seq<Held>
    var reasons: seq<Reason>

    ghost function Tables(): Tables
      reads this
    {
      ObjectStateModel.Tables(requests, held, reasons)
    }

    /** CreateObjectStateRequestId::exec; the result is the id of the first row inserted. */
    method Create(env: Env, obj: nat, states: set<string>, validFrom: Option<int>,
                  validTo: Option<int>)
      returns (r: Result<nat, Error>)
      modifies `requests
      ensures r.Failure? ==>
        && requests == old(requests)
        && CreateRefusal(env, old(requests), obj, states, validFrom, validTo) == Some(r.error)
      ensures r.Success? ==>
        r.value == |old(requests)| && CreateStep(env, old(requests), requests, obj, states, validFrom, validTo)
    {
      if validTo.Some? {
        if validFrom.Some? {
          if validTo.value < validFrom.value {
            return Failure(OutOfTurn);
          }
        } else if validTo.value < env.now {
          return Failure(OutOfTurn);
        }
      }
      if obj !in env.objectTypes {
        return Failure(ObjectNotFound(obj));
      }
      var wrong := WrongStates(env, env.objectTypes[obj], states);
      if wrong != {} {
        return Failure(StateNotFound(wrong));
      }
      if states == {} {
        return Failure(SqlSyntax);
      }
      var from := StartOr(validFrom, env.now);
      if Overlayed(requests, obj, states, from, validTo) {
        return Failure(OverlayedTimeIntervals);
      }
      var todo, rows := states, [];
      while todo != {}
        invariant todo <= states && requests == old(requests)
        invariant NewRows(rows, obj, states - todo, env.now, from, validTo)
      {
        var s :| s in todo;
        RowAdded(rows, obj, states - todo, env.now, from, validTo, s);
        assert states - (todo - {s}) == (states - todo) + {s};
        rows := rows + [StateRequest(obj, s, env.now, from, validTo, None)];
        todo := todo - {s};
      }
      assert states - todo == states;
      r := Success(|requests|);
      requests := requests + rows;
      assert requests[|old(requests)|..] == rows;
    }

    /** check_valid_status: the states of the list that cannot be requested by hand for an object of this type. */
    method WrongStates(env: Env, objectType: nat, states: set<string>) returns (wrong: set<string>)
      ensures wrong == set s | s in states && !Requestable(env, objectType, s)
    {
      wrong := {};
      var todo := states;
      while todo != {}
        invariant todo <= states
        invariant wrong == set s | s in states - todo && !Requestable(env, objectType, s)
      {
        var s :| s in todo;
        if !Requestable(env, objectType, s) {
          wrong := wrong + {s};
        }
        todo := todo - {s};
      }
    }

    /** UPDATE object_state_request SET canceled ... RETURNING id. */
    method CancelActive(env: Env, obj: nat, states: set<string>) returns (ids: seq<nat>)
      modifies `requests
      ensures requests == Truncated(old(requests), obj, states, env.now)
      ensures forall i :: i in ids <==>
        0 <= i < |old(requests)| && Active(old(requests)[i], obj, env.now) && old(requests)[i].state in states
    {
      ids := [];
      var k := 0;
      while k < |requests|
        invariant k <= |requests| == |old(requests)|
        invariant forall i :: 0 <= i < k ==> requests[i] == Cut(old(requests)[i], obj, states, env.now)
        invariant forall i :: k <= i < |requests| ==> requests[i] == old(requests)[i]
        invariant forall i :: i in ids <==>
          0 <= i < k && Active(old(requests)[i], obj, env.now) && old(requests)[i].state in states
      {
        if Active(requests[k], obj, env.now) && requests[k].state in states {
          ids := ids + [k];
          requests := requests[k := requests[k].(canceled := Some(env.now))];
        }
        k := k + 1;
      }
    }

    /**
     CancelObjectStateRequestId::exec: fails, and so cancels nothing, unless every named state had a request
     in force.
     */
    method Cancel(env: Env, obj: nat, states: set<string>) returns (r: Result<(), Error>)
      modifies `requests
      ensures r.Failure? ==> requests == old(requests)
      ensures r.Success? ==> requests == Truncated(old(requests), obj, states, env.now)
      ensures r.Success? <==>
        && obj in env.objectTypes && states != {}
        && (forall s :: s in states ==> s in env.states && env.objectTypes[obj] in env.states[s].types)
        && forall s :: s in states ==> RequestedActively(old(requests), obj, s, env.now)
      ensures r.Failure? && obj !in env.objectTypes ==> r.error == ObjectNotFound(obj)
      ensures r.Failure? && obj in env.objectTypes && states == {} ==> r.error == SqlSyntax
      ensures r.Failure? && obj in env.objectTypes && states != {} ==>
        r.error == StateNotFound(if UnknownStates(env, obj, states) != {} then UnknownStates(env, obj, states)
                                 else set s | s in states && !RequestedActively(old(requests), obj, s, env.now))
    {
      if obj !in env.objectTypes {
        return Failure(ObjectNotFound(obj));
      }
      var unknown := UnknownStates(env, obj, states);
      if unknown != {} {
        return Failure(StateNotFound(unknown));
      }
      if states == {} {
        return Failure(SqlSyntax);
      }
      var saved := requests;
      var ids := CancelActive(env, obj, states);
      var missing := states;
      var k := 0;
      while k < |ids|
        invariant k <= |ids|
        invariant forall l :: 0 <= l < |ids| ==> ids[l] in ids && ids[l] < |saved|
        invariant forall s :: s in missing <==> s in states && forall l :: 0 <= l < k ==> saved[ids[l]].state != s
      {
        assert ids[k] in ids;
        missing := missing - {requests[ids[k]].state};
        k := k + 1;
      }
      forall s | s in states
        ensures s !in missing <==> RequestedActively(saved, obj, s, env.now)
      {
        if s !in missing {
          var l :| 0 <= l < |ids| && saved[ids[l]].state == s;
          assert ids[l] in ids;
        }
        if RequestedActively(saved, obj, s, env.now) {
          var i :| 0 <= i < |saved| && saved[i].state == s && Active(saved[i], obj, env.now);
          assert i in ids;
        }
      }
      if missing == {} {
        return Success(());
      }
      requests := saved;
      assert missing == set s | s in states && !RequestedActively(saved, obj, s, env.now);
      return Failure(StateNotFound(missing));
    }

    /** ClearObjectStateRequestId::exec. */
    method Clear(env: Env, obj: nat) returns (ids: seq<nat>)
      modifies `requests
      ensures requests == Truncated(old(requests), obj, ServerStates(env), env.now)
      ensures forall i :: i in ids <==>
        0 <= i < |old(requests)| && Active(old(requests)[i], obj, env.now) && IsServerState(env, old(requests)[i].state)
    {
      ids := CancelActive(env, obj, ServerStates(env));
    }

    /** ClearAdminObjectStateRequestId::exec. */
    method ClearAdmin(env: Env, obj: nat, reason: Option<string>) returns (r: Result<nat, Error>)
      modifies `requests, `reasons
      ensures r.Failure? ==> requests == old(requests) && reasons == old(reasons) && r.error == ServerBlockedAbsent(obj)
      ensures r.Success? ==>
        && requests == Truncated(old(requests), obj, ServerStates(env), env.now)
        && r.value < |old(requests)| && Active(old(requests)[r.value], obj, env.now)
        && old(requests)[r.value].state == SERVER_BLOCKED
        && CancellationNoted(old(reasons), reasons, r.value, reason)
      ensures r.Success? <==>
        IsServerState(env, SERVER_BLOCKED) && RequestedActively(old(requests), obj, SERVER_BLOCKED, env.now)
    {
      var saved := requests;
      var ids := Clear(env, obj);
      var k := 0;
      while k < |ids|
        invariant k <= |ids|
        invariant forall l :: 0 <= l < |ids| ==> ids[l] in ids && ids[l] < |saved|
        invariant forall l :: 0 <= l < k ==> saved[ids[l]].state != SERVER_BLOCKED
      {
        assert ids[k] in ids;
        if requests[ids[k]].state == SERVER_BLOCKED {
          reasons := WithCancellation(reasons, ids[k], reason);
          return Success(ids[k]);
        }
        k := k + 1;
      }
      requests := saved;
      return Failure(ServerBlockedAbsent(obj));
    }

    /**
     check_administrative_block_status_only: an empty list, or the states that no administrative block may
     set, if any.
     */
    method WrongBlockStates(env: Env, states: set<string>) returns (wrong: Option<Error>)
      ensures wrong.None? ==> states != {} && forall s :: s in states ==> IsBlockState(env, s)
      ensures wrong.Some? ==>
        || (states == {} && wrong.value == StateNotFound({}))
        || (states != {} && WrongStatesReported(env, states, wrong.value))
    {
      if states == {} {
        return Some(StateNotFound({}));
      }
      var allowed := set s | s in env.states && IsBlockState(env, s);
      if allowed == {} {
        assert forall s :: s in env.states && IsBlockState(env, s) ==> s in allowed;
        return Some(LangNotFound);
      }
      var bad := {};
      var todo := states;
      while todo != {}
        invariant todo <= states
        invariant forall s :: s in bad <==> s in states - todo && !IsBlockState(env, s)
      {
        var s :| s in todo;
        if s !in allowed {
          bad := bad + {s};
        }
        todo := todo - {s};
      }
      return if bad == {} then None else Some(StateNotFound(bad));
    }

    /** The existence query shared by check_server_blocked_status_absent and check_server_blocked_status_present. */
    method IsBlocked(env: Env, obj: nat) returns (blocked: bool)
      ensures blocked <==> Blocked(held, obj, env.now)
      ensures blocked <==> exists h :: && h in held && h.objectId == obj && h.state == "serverBlocked"
                                       && h.validFrom <= env.now && (h.validTo.Some? ==> env.now < h.validTo.value)
    {
      blocked := exists i :: 0 <= i < |held| && IsBlock(held, i, obj) && HeldAt(held[i], env.now);
    }

    /** CreateAdminObjectBlockRequestId::exec. */
    method Block(env: Env, obj: nat, states: set<string>, validFrom: Option<int>, validTo: Option<int>,
                 reason: Option<string>)
      returns (r: Result<nat, Error>)
      modifies `requests, `reasons
      ensures r.Failure? ==> Tables() == old(Tables())
      ensures r.Success? <==>
        && states != {}
        && (forall s :: s in states ==>
             s in env.states && env.states[s].manual && "server" <= s != SERVER_BLOCKED && env.states[s].described)
        && !Blocked(held, obj, env.now)
        && CreateRefusal(env, Truncated(old(requests), obj, ServerStates(env), env.now), obj,
                         states + {SERVER_BLOCKED}, validFrom, validTo).None?
      ensures r.Failure? ==>
        if states == {} then r.error == StateNotFound({})
        else if exists s :: s in states && !IsBlockState(env, s) then WrongStatesReported(env, states, r.error)
        else if SERVER_BLOCKED !in env.states then r.error == StateNotFound({SERVER_BLOCKED})
        else if Blocked(held, obj, env.now) then r.error == ServerBlockedPresent(obj)
        else CreateRefusal(env, Truncated(old(requests), obj, ServerStates(env), env.now), obj,
                           states + {SERVER_BLOCKED}, validFrom, validTo) == Some(r.error)
      ensures r.Success? ==> r.value == |old(requests)|
      ensures r.Success? ==> BlockStep(env, old(Tables()), Tables(), obj, states, validFrom, validTo)
      ensures r.Success? ==> ReasonAdded(env, requests, old(reasons), reasons, obj, reason)
      ensures r.Success? ==>
        (ReasonGoesWithBlock(old(Tables()), Tables(), reason) <==> BeginsByNow(env.now, validFrom, validTo))
    {
      var wrong := WrongBlockStates(env, states);
      if wrong.Some? {
        return Failure(wrong.value);
      }
      if SERVER_BLOCKED !in env.states {
        UnknownStateIsRefused(env, Truncated(requests, obj, ServerStates(env), env.now), obj,
                              states + {SERVER_BLOCKED}, validFrom, validTo, SERVER_BLOCKED);
        return Failure(StateNotFound({SERVER_BLOCKED}));
      }
      var blocked := IsBlocked(env, obj);
      if blocked {
        return Failure(ServerBlockedPresent(obj));
      }
      var saved := requests;
      var cleared := Clear(env, obj);
      r := Create(env, obj, states + {SERVER_BLOCKED}, validFrom, validTo);
      if r.Failure? {
        requests := saved;
        return;
      }
      AddReason(env, obj, reason);
      BlockReasonLaw(env, old(Tables()), Tables(), obj, states, validFrom, validTo, reason);
    }

    /** INSERT INTO object_state_request_reason ... ORDER BY osr.id DESC LIMIT 1. */
    method AddReason(env: Env, obj: nat, reason: Option<string>)
      modifies `reasons
      ensures ReasonAdded(env, requests, old(reasons), reasons, obj, reason)
    {
      var k := |requests|;
      while k > 0
        invariant 0 <= k <= |requests|
        invariant forall i :: k <= i < |requests| ==> !Annotatable(requests[i], obj, env.now)
      {
        k := k - 1;
        if Annotatable(requests[k], obj, env.now) {
          reasons := reasons + [Reason(k, reason, None)];
          return;
        }
      }
    }

    /** The history of the blocks of an object, latest first; rows that begin together come in any order. */
    method BlockHistory(obj: nat) returns (history: seq<nat>)
      ensures IsHistory(held, obj, history)
    {
      history := [];
      var todo := set i | 0 <= i < |held| && IsBlock(held, i, obj);
      ghost var all := todo;
      while todo != {}
        invariant todo <= all
        invariant forall i: nat :: i in history <==> i in all && i !in todo
        invariant LatestFirst(held, history)
        invariant forall k, i :: 0 <= k < |history| && i in todo ==> held[history[k]].validFrom >= held[i].validFrom
      {
        ghost var some :| some in todo;
        LatestExists(held, todo, some);
        var i :| i in todo && forall j :: j in todo ==> held[j].validFrom <= held[i].validFrom;
        assert forall k :: 0 <= k < |history| ==> history[k] in history;
        history := history + [i];
        todo := todo - {i};
      }
    }

    /** The FOLLOW_UP column: the latest block that began before row `i` ended when row `i` began. */
    method IsFollowUp(obj: nat, i: nat) returns (followUp: bool)
      requires IsBlock(held, i, obj)
      ensures if followUp then MayFollowUp(held, obj, i) else MayBegin(held, obj, i)
    {
      var earlier := set j | 0 <= j < |held| && IsBlock(held, j, obj) && held[j].validFrom < held[i].validFrom;
      if earlier == {} {
        assert forall j :: IsBlock(held, j, obj) ==> j !in earlier;
        return false;
      }
      ghost var some :| some in earlier;
      LatestExists(held, earlier, some);
      var j :| j in earlier && forall k :: k in earlier ==> held[k].validFrom <= held[j].validFrom;
      assert forall k :: IsBlock(held, k, obj) && held[k].validFrom < held[i].validFrom ==> k in earlier;
      assert LatestBefore(held, obj, j, i);
      return held[j].validTo == Some(held[i].validFrom);
    }

    /** The two loops of CreateAdminObjectStateRestoreRequestId::exec that look for the row the block began with. */
    method SeekBlockStart(env: Env, obj: nat) returns (start: Option<nat>)
      ensures start.None? <==> forall h :: h in held && h.objectId == obj && h.state == "serverBlocked" ==>
                h.validTo.Some? && h.validTo.value < env.now
      ensures start.Some? ==> IsBlock(held, start.value, obj) && Found(held, obj, env.now, start.value)
    {
      var history := BlockHistory(obj);
      var pos := 0;
      while pos < |history|
        invariant pos <= |history|
        invariant forall k :: 0 <= k < pos ==> !IsCurrent(held[history[k]], env.now)
      {
        assert history[pos] in history;
        if IsCurrent(held[history[pos]], env.now) {
          break;
        }
        pos := pos + 1;
      }
      if pos == |history| {
        forall h | h in held && h.objectId == obj && h.state == "serverBlocked"
          ensures h.validTo.Some? && h.validTo.value < env.now
        {
          var i: nat :| i < |held| && held[i] == h;
          assert IsBlock(held, i, obj) && i in history;
        }
        return None;
      }
      pos := SeekFirstOfSequence(env, obj, history, pos);
      assert history[pos] in history;
      return Some(history[pos]);
    }

    /** The second of the loops: from the current block at `current` to the first row that follows up no other. */
    method SeekFirstOfSequence(env: Env, obj: nat, history: seq<nat>, current: nat) returns (pos: nat)
      requires IsHistory(held, obj, history) && current < |history| && IsCurrent(held[history[current]], env.now)
      requires forall k :: 0 <= k < current ==> !IsCurrent(held[history[k]], env.now)
      ensures StopsAt(held, obj, env.now, history, current, pos)
    {
      pos := current;
      assert history[pos] in history;
      var followUp := IsFollowUp(obj, history[pos]);
      while followUp
        invariant Seeking(held, obj, env.now, history, current, pos, followUp)
        decreases |history| - pos
      {
        NextInHistory(held, obj, history, pos);
        followUp := IsFollowUp(obj, history[pos + 1]);
        SeekGoesOn(held, obj, env.now, history, current, pos, followUp);
        pos := pos + 1;
      }
    }

    /** CreateAdminObjectStateRestoreRequestId::exec; `start` is the row of the history that its two loops find. */
    method Restore(env: Env, obj: nat, reason: string) returns (r: Result<(), Error>, ghost start: Option<nat>)
      modifies `requests, `reasons
      ensures start.Some? <==> SERVER_BLOCKED in env.states && Blocked(held, obj, env.now)
      ensures start.Some? ==>
        && IsBlock(held, start.value, obj)
        && Found(held, obj, env.now, start.value)
      ensures var refusal := RestoreRefusal(env, old(Tables()), obj, start);
        r == if refusal.Some? then Failure(refusal.value) else Success(())
      ensures r.Failure? ==> Tables() == old(Tables())
      ensures r.Success? ==>
        && RestoreStep(env, old(Tables()), Tables(), obj, start.value)
        && exists i :: 0 <= i < |old(requests)| && Active(old(requests)[i], obj, env.now)
             && old(requests)[i].state == SERVER_BLOCKED
             && CancellationNoted(old(reasons), reasons, i, Some(reason))
    {
      if SERVER_BLOCKED !in env.states {
        return Failure(StateNotFound({SERVER_BLOCKED})), None;
      }
      var blocked := IsBlocked(env, obj);
      if !blocked {
        return Failure(ServerBlockedAbsent(obj)), None;
      }
      var found := SeekBlockStart(env, obj);
      r := RestoreFrom(env, obj, found.value, reason);
      start := found;
    }

    /** What follows once the row is found from which to restore: the list, the clearing and the new requests. */
    method RestoreFrom(env: Env, obj: nat, start: nat, reason: string) returns (r: Result<(), Error>)
      requires start < |held| && SERVER_BLOCKED in env.states
      modifies `requests, `reasons
      ensures var refusal := RestoreRefusal(env, old(Tables()), obj, Some(start));
        r == if refusal.Some? then Failure(refusal.value) else Success(())
      ensures r.Failure? ==> Tables() == old(Tables())
      ensures r.Success? ==>
        && RestoreStep(env, old(Tables()), Tables(), obj, start)
        && exists i :: 0 <= i < |old(requests)| && Active(old(requests)[i], obj, env.now)
             && old(requests)[i].state == SERVER_BLOCKED
             && CancellationNoted(old(reasons), reasons, i, Some(reason))
    {
      var previous := {};
      var j := 0;
      while j < |held|
        invariant j <= |held|
        invariant forall s :: s in previous <==>
          IsServerState(env, s) && exists i :: HeldJustBefore(held, i, start) && held[i].state == s && i < j
      {
        if HeldJustBefore(held, j, start) && IsServerState(env, held[j].state) {
          previous := previous + {held[j].state};
        }
        j := j + 1;
      }
      assert previous == set s | s in env.states && ToRestore(env, held, start, s);
      var savedRequests, savedReasons := requests, reasons;
      var cleared := ClearAdmin(env, obj, Some(reason));
      if cleared.Failure? {
        return Failure(cleared.error);
      }
      if previous != {} {
        var created := Create(env, obj, previous, None, None);
        if created.Failure? {
          requests, reasons := savedRequests, savedReasons;
          return Failure(created.error);
        }
      }
      return Success(());
    }
  }
}
