/** Lemmas about the order of rows in the history of states. */
module ObjectStateTimeline {
  import opened Prelude
  import opened ObjectStateModel

  /** Row `j` is, of the blocks that began before row `i`, one that began last. */
  ghost predicate LatestBefore(held: seq<Held>, obj: nat, j: int, i: nat)
    requires i < |held|
  {
    && IsBlock(held, j, obj) && held[j].validFrom < held[i].validFrom
    && forall k :: IsBlock(held, k, obj) && held[k].validFrom < held[i].validFrom ==>
         held[k].validFrom <= held[j].validFrom
  }

  /** Distinct rows, no row before one that began later. */
  ghost predicate LatestFirst(held: seq<Held>, history: seq<nat>) {
    && (forall k :: 0 <= k < |history| ==> history[k] < |held|)
    && forall k, l :: 0 <= k < l < |history| ==>
         held[history[k]].validFrom >= held[history[l]].validFrom && history[k] != history[l]
  }

  lemma {:induction false} LatestExists(held: seq<Held>, rows: set<int>, x: int)
    requires x in rows
    requires forall i :: i in rows ==> 0 <= i < |held|
    ensures exists i :: i in rows && forall j :: j in rows ==> held[j].validFrom <= held[i].validFrom
  {
    var rest := rows - {x};
    if other :| other in rest {
      LatestExists(held, rest, other);
      var y :| y in rest && forall j :: j in rest ==> held[j].validFrom <= held[y].validFrom;
      var z := if held[x].validFrom <= held[y].validFrom then y else x;
      assert forall j :: j in rows ==> j == x || j in rest;
      assert z in rows && forall j :: j in rows ==> held[j].validFrom <= held[z].validFrom;
    } else {
      assert forall j :: j in rows ==> j == x || j in rest;
      assert x in rows && forall j :: j in rows ==> held[j].validFrom <= held[x].validFrom;
    }
  }

  /** The rows of the query for the history of blocks; rows that begin together come in any order. */
  ghost predicate IsHistory(held: seq<Held>, obj: nat, history: seq<nat>) {
    (forall i :: i in history <==> IsBlock(held, i, obj)) && LatestFirst(held, history)
  }

  /** The FOLLOW_UP column may be true: a latest block that began before row `i` ended when row `i` began. */
  ghost predicate MayFollowUp(held: seq<Held>, obj: nat, i: nat)
    requires i < |held|
  {
    exists j {:trigger LatestBefore(held, obj, j, i)} ::
      LatestBefore(held, obj, j, i) && held[j].validTo == Some(held[i].validFrom)
  }

  /**
   The FOLLOW_UP column may be false: there is no earlier block, or a latest one that did not end when row
   `i` began.
   */
  ghost predicate MayBegin(held: seq<Held>, obj: nat, i: nat)
    requires i < |held|
  {
    || (forall j :: IsBlock(held, j, obj) ==> held[i].validFrom <= held[j].validFrom)
    || exists j {:trigger LatestBefore(held, obj, j, i)} ::
         LatestBefore(held, obj, j, i) && held[j].validTo != Some(held[i].validFrom)
  }

  /**
   The first loop over `history` has stopped at `p`, the first current row; the second has come to `q`, whose
   FOLLOW_UP column is `followUp`.
   */
  ghost predicate Seeking(held: seq<Held>, obj: nat, now: int, history: seq<nat>, p: nat, q: nat, followUp: bool) {
    && IsHistory(held, obj, history)
    && p <= q < |history|
    && (forall k :: 0 <= k < p ==> !IsCurrent(held[history[k]], now))
    && IsCurrent(held[history[p]], now)
    && (forall k {:trigger MayFollowUp(held, obj, history[k])} :: p <= k < q ==> MayFollowUp(held, obj, history[k]))
    && if followUp then MayFollowUp(held, obj, history[q]) else MayBegin(held, obj, history[q])
  }

  /** The second loop stops at `q`, the first row that follows up no other. */
  ghost predicate StopsAt(held: seq<Held>, obj: nat, now: int, history: seq<nat>, p: nat, q: nat) {
    Seeking(held, obj, now, history, p, q, false)
  }

  /** `start` is a row at which the two loops may stop, given what the queries may return. */
  ghost predicate Found(held: seq<Held>, obj: nat, now: int, start: nat) {
    exists history, p, q :: StopsAt(held, obj, now, history, p, q) && history[q] == start
  }

  lemma SeekGoesOn(held: seq<Held>, obj: nat, now: int, history: seq<nat>, p: nat, q: nat, followUp: bool)
    requires Seeking(held, obj, now, history, p, q, true) && q + 1 < |history|
    requires if followUp then MayFollowUp(held, obj, history[q + 1]) else MayBegin(held, obj, history[q + 1])
    ensures Seeking(held, obj, now, history, p, q + 1, followUp)
  {
  }

  /** A row that follows up another is not the last of the history. */
  lemma NextInHistory(held: seq<Held>, obj: nat, history: seq<nat>, pos: nat)
    requires IsHistory(held, obj, history) && pos < |history| && MayFollowUp(held, obj, history[pos])
    ensures pos + 1 < |history| && IsBlock(held, history[pos + 1], obj)
  {
    var j :| LatestBefore(held, obj, j, history[pos]) && held[j].validTo == Some(held[history[pos]].validFrom);
    assert j in history;
    var k :| 0 <= k < |history| && history[k] == j;
    assert k > pos && history[pos + 1] in history;
  }

  /** One more row of an insertion. */
  lemma RowAdded(rows: seq<StateRequest>, obj: nat, states: set<string>, now: int, from: int, to: Option<int>,
                 s: string)
    requires NewRows(rows, obj, states, now, from, to) && s !in states
    ensures NewRows(rows + [StateRequest(obj, s, now, from, to, None)], obj, states + {s}, now, from, to)
  {
    var more := rows + [StateRequest(obj, s, now, from, to, None)];
    forall x | x in states + {s}
      ensures exists i :: 0 <= i < |more| && more[i].state == x
    {
      if x == s {
        assert more[|rows|].state == x;
      } else {
        var i :| 0 <= i < |rows| && rows[i].state == x;
        assert more[i].state == x;
      }
    }
  }

  lemma UnknownStateIsRefused(env: Env, rs: seq<StateRequest>, obj: nat, states: set<string>, from: Option<int>,
                              to: Option<int>, s: string)
    requires s in states && s !in env.states
    ensures CreateRefusal(env, rs, obj, states, from, to).Some?
  {
    if obj in env.objectTypes {
      var wrong := set x | x in states && !Requestable(env, env.objectTypes[obj], x);
      assert s in wrong;
    }
  }
}
