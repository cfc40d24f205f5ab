/**
 A restore that misses the beginning of the blocking. An object with serverHold is blocked, restored and
 blocked again at 5, all in one transaction, and once more restored and blocked at 10; the history is
 brought up to date after each step. Two of its blocks begin at 5, the query may take the wrong one for the
 predecessor of the last block, and the restore at 20 leaves the object blocked.
 */
module ObjectStateTies {
  import opened Prelude
  import opened ObjectStateModel
  import opened ObjectStateTimeline
  import opened ObjectStateChain
  import opened ObjectStateRestore
  import opened ObjectStateExample

  // ---------------------------------------------------------------- steps of this object

  predicate IsName(s: string) {
    s == HOLD || s == DELETE || s == SERVER_BLOCKED
  }

  /** What one step at `now` leaves: everything active is cancelled, and `states` are requested. */
  function Canceled(rs: seq<StateRequest>, now: int): (out: seq<StateRequest>)
    ensures |out| == |rs|
    ensures forall i :: 0 <= i < |rs| ==>
      out[i] == if rs[i].canceled.None? then rs[i].(canceled := Some(now)) else rs[i]
  {
    seq(|rs|, i requires 0 <= i < |rs| => if rs[i].canceled.None? then rs[i].(canceled := Some(now)) else rs[i])
  }

  function NameSet(states: seq<string>): set<string> {
    set s | s in states
  }

  function Requested(states: seq<string>, now: int): (out: seq<StateRequest>)
    ensures |out| == |states|
    ensures forall i :: 0 <= i < |states| ==> out[i] == StateRequest(1, states[i], now, now, None, None)
  {
    seq(|states|, i requires 0 <= i < |states| => StateRequest(1, states[i], now, now, None, None))
  }

  /** What the record of the step leaves: everything open is closed, and `states` are opened. */
  function Closed(held: seq<Held>, now: int): (out: seq<Held>)
    ensures |out| == |held|
    ensures forall i :: 0 <= i < |held| ==>
      out[i] == if held[i].validTo.None? then held[i].(validTo := Some(now)) else held[i]
  {
    seq(|held|, i requires 0 <= i < |held| => if held[i].validTo.None? then held[i].(validTo := Some(now)) else held[i])
  }

  function Opened(states: seq<string>, now: int): (out: seq<Held>)
    ensures |out| == |states|
    ensures forall i :: 0 <= i < |states| ==> out[i] == Held(1, states[i], now, None)
  {
    seq(|states|, i requires 0 <= i < |states| => Held(1, states[i], now, None))
  }

  function StepQ(rs: seq<StateRequest>, states: seq<string>, now: int): seq<StateRequest> {
    Canceled(rs, now) + Requested(states, now)
  }

  function StepH(held: seq<Held>, states: seq<string>, now: int): seq<Held> {
    Closed(held, now) + Opened(states, now)
  }

  /** All requests are for the object and its three states, and lie before `now`. */
  ghost predicate Past(rs: seq<StateRequest>, now: int) {
    forall i :: 0 <= i < |rs| ==>
      && rs[i].objectId == 1 && IsName(rs[i].state) && rs[i].validTo.None? && rs[i].validFrom <= now
      && (rs[i].canceled.Some? ==> rs[i].validFrom <= rs[i].canceled.value <= now)
  }

  ghost predicate Distinct(states: seq<string>) {
    && (forall i :: 0 <= i < |states| ==> IsName(states[i]))
    && forall i, j :: 0 <= i < j < |states| ==> states[i] != states[j]
  }

  lemma StepStaysPast(rs: seq<StateRequest>, states: seq<string>, now: int, later: int)
    requires Past(rs, now) && Distinct(states) && now <= later
    ensures Past(StepQ(rs, states, now), later)
  {
  }

  lemma NamesAreServerStates(now: int, s: string)
    ensures IsServerState(At(now), s) <==> IsName(s)
    ensures IsManual(At(now), s) <==> IsName(s)
  {
    Names();
  }

  lemma CanceledIsTruncated(rs: seq<StateRequest>, now: int)
    requires Past(rs, now)
    ensures Canceled(rs, now) == Truncated(rs, 1, ServerStates(At(now)), now)
  {
    forall i | 0 <= i < |rs|
      ensures Canceled(rs, now)[i] == Cut(rs[i], 1, ServerStates(At(now)), now)
    {
      NamesAreServerStates(now, rs[i].state);
    }
  }

  /** A creation that begins when all older requests are over is not refused. */
  lemma Creates(rs: seq<StateRequest>, states: seq<string>, now: int)
    requires Past(rs, now) && Distinct(states) && states != []
    ensures CreateStep(At(now), Canceled(rs, now), StepQ(rs, states, now), 1, NameSet(states), None, None)
  {
    var a, rows, names := Canceled(rs, now), Requested(states, now), NameSet(states);
    assert states[0] in names;
    forall s | s in names
      ensures Requestable(At(now), 3, s)
    {
      NamesAreServerStates(now, s);
    }
    assert (set s | s in names && !Requestable(At(now), 3, s)) == {};
    assert StepQ(rs, states, now)[..|a|] == a && StepQ(rs, states, now)[|a|..] == rows;
    NewRowsFor(states, now);
    forall i | 0 <= i < |a|
      ensures !Conflict(a[i], now, None)
    {
      assert rs[i].validFrom <= now;
    }
  }

  lemma NewRowsFor(states: seq<string>, now: int)
    requires Distinct(states)
    ensures NewRows(Requested(states, now), 1, NameSet(states), now, now, None)
  {
    var rows := Requested(states, now);
    forall s | s in NameSet(states)
      ensures exists i :: 0 <= i < |rows| && rows[i].state == s
    {
      var i :| 0 <= i < |states| && states[i] == s;
      assert rows[i].state == s;
    }
  }

  const BLOCK := [DELETE, SERVER_BLOCKED]

  lemma BlockNames()
    ensures Distinct(BLOCK) && Distinct([HOLD])
    ensures NameSet(BLOCK) == {DELETE} + {SERVER_BLOCKED}
  {
    Names();
    assert BLOCK[0] == DELETE && BLOCK[1] == SERVER_BLOCKED;
  }

  lemma Blocks(rs: seq<StateRequest>, held: seq<Held>, now: int)
    requires Past(rs, now) && !Blocked(held, 1, now)
    ensures BlockStep(At(now), Tables(rs, held, []), Tables(StepQ(rs, BLOCK, now), held, []), 1, {DELETE}, None, None)
  {
    Names();
    BlockNames();
    CanceledIsTruncated(rs, now);
    Creates(rs, BLOCK, now);
  }

  lemma Restores(rs: seq<StateRequest>, held: seq<Held>, states: seq<string>, now: int, start: nat)
    requires Past(rs, now) && Distinct(states) && states != [] && start < |held|
    requires forall s :: s in states <==> ToRestore(At(now), held, start, s)
    ensures RestoreStep(At(now), Tables(rs, held, []), Tables(StepQ(rs, states, now), held, []), 1, start)
  {
    CanceledIsTruncated(rs, now);
    Creates(rs, states, now);
    var previous := set s | s in At(now).states && ToRestore(At(now), held, start, s);
    assert previous == NameSet(states);
    assert states[0] in previous;
  }

  /** No open row is for one of the states. */
  ghost predicate NoneOpen(held: seq<Held>, states: seq<string>) {
    forall i :: 0 <= i < |held| ==>
      held[i].objectId == 1 && IsName(held[i].state) && (held[i].validTo.None? ==> held[i].state !in states)
  }

  lemma InForceAfterStep(rs: seq<StateRequest>, states: seq<string>, now: int, s: string)
    requires Past(rs, now)
    ensures InForce(StepQ(rs, states, now), 1, s, now) <==> s in states
  {
    var q := StepQ(rs, states, now);
    assert forall i :: 0 <= i < |rs| ==> q[i] == Canceled(rs, now)[i] && !Covers(q[i], now);
    if s in states {
      var i :| 0 <= i < |states| && states[i] == s;
      assert q[|rs| + i] == Requested(states, now)[i] && Covers(q[|rs| + i], now);
    }
  }

  lemma OpenAfterStep(held: seq<Held>, states: seq<string>, now: int, s: string)
    requires NoneOpen(held, states) && s in states
    ensures HasOpen(StepH(held, states, now), 1, s) && !HasOpen(held, 1, s)
  {
    var b := StepH(held, states, now);
    var i :| 0 <= i < |states| && states[i] == s;
    assert b[|held| + i] == Opened(states, now)[i] && IsOpen(b, |held| + i, 1, s);
  }

  lemma RowsAfterStep(held: seq<Held>, states: seq<string>, now: int)
    ensures var b := StepH(held, states, now);
      && (forall i :: 0 <= i < |held| ==>
           b[i] == if held[i].validTo.None? then held[i].(validTo := Some(now)) else held[i])
      && (forall i :: |held| <= i < |b| ==> b[i] == Held(1, states[i - |held|], now, None))
  {
    var b := StepH(held, states, now);
    assert forall i :: 0 <= i < |held| ==> b[i] == Closed(held, now)[i];
    assert forall i :: |held| <= i < |b| ==> b[i] == Opened(states, now)[i - |held|];
  }

  lemma Records(rs: seq<StateRequest>, held: seq<Held>, states: seq<string>, now: int)
    requires Past(rs, now) && Distinct(states) && NoneOpen(held, states)
    ensures Performed(At(now), StepQ(rs, states, now), held, StepH(held, states, now), 1)
  {
    var q, b := StepQ(rs, states, now), StepH(held, states, now);
    forall s
      ensures (InForce(q, 1, s, now) <==> s in states) && (IsManual(At(now), s) <==> IsName(s))
      ensures s in states ==> HasOpen(b, 1, s) && !HasOpen(held, 1, s)
    {
      InForceAfterStep(rs, states, now, s);
      NamesAreServerStates(now, s);
      if s in states {
        OpenAfterStep(held, states, now, s);
      }
    }
    RowsAfterStep(held, states, now);
  }

  // ---------------------------------------------------------------- the run

  function Q0(): seq<StateRequest> { Requested([HOLD], 0) }

  function H0(): seq<Held> { Opened([HOLD], 0) }

  /** Blocked at 5. */
  function Q1(): seq<StateRequest> { StepQ(Q0(), BLOCK, 5) }

  function H1(): seq<Held> { StepH(H0(), BLOCK, 5) }

  /** Restored at 5. */
  function Q2(): seq<StateRequest> { StepQ(Q1(), [HOLD], 5) }

  function H2(): seq<Held> { StepH(H1(), [HOLD], 5) }

  /** Blocked again at 5. */
  function Q3(): seq<StateRequest> { StepQ(Q2(), BLOCK, 5) }

  function H3(): seq<Held> { StepH(H2(), BLOCK, 5) }

  /** Restored at 10. */
  function Q4(): seq<StateRequest> { StepQ(Q3(), [HOLD], 10) }

  function H4(): seq<Held> { StepH(H3(), [HOLD], 10) }

  /** Blocked again at 10. */
  function Q5(): seq<StateRequest> { StepQ(Q4(), BLOCK, 10) }

  function H5(): seq<Held> { StepH(H4(), BLOCK, 10) }

  /** Restored at 20, from the block that began at 10. */
  function Q6(): seq<StateRequest> { StepQ(Q5(), BLOCK, 20) }

  lemma AllPast()
    ensures Past([], 0) && Past(Q0(), 5) && Past(Q1(), 5) && Past(Q2(), 5) && Past(Q3(), 10) && Past(Q4(), 10)
    ensures Past(Q5(), 20)
  {
    BlockNames();
    assert Past(Q0(), 5);
    StepStaysPast(Q0(), BLOCK, 5, 5);
    StepStaysPast(Q1(), [HOLD], 5, 5);
    StepStaysPast(Q2(), BLOCK, 5, 10);
    StepStaysPast(Q3(), [HOLD], 10, 10);
    StepStaysPast(Q4(), BLOCK, 10, 20);
  }

  /** The rows of a history that open with a block, after `n` others. */
  lemma RowsOf(held: seq<Held>, now: int)
    ensures |StepH(held, BLOCK, now)| == |held| + 2 && |StepH(held, [HOLD], now)| == |held| + 1
    ensures forall i :: 0 <= i < |held| ==>
      StepH(held, BLOCK, now)[i] == Closed(held, now)[i] == StepH(held, [HOLD], now)[i]
    ensures StepH(held, BLOCK, now)[|held|] == Held(1, DELETE, now, None)
    ensures StepH(held, BLOCK, now)[|held| + 1] == Held(1, SERVER_BLOCKED, now, None)
    ensures StepH(held, [HOLD], now)[|held|] == Held(1, HOLD, now, None)
  {
    assert BLOCK[0] == DELETE && BLOCK[1] == SERVER_BLOCKED;
  }

  lemma H1Is()
    ensures H1() == [Held(1, HOLD, 0, Some(5)), Held(1, DELETE, 5, None), Held(1, SERVER_BLOCKED, 5, None)]
  {
    RowsOf(H0(), 5);
  }

  lemma H2Is()
    ensures H2() == [Held(1, HOLD, 0, Some(5)), Held(1, DELETE, 5, Some(5)), Held(1, SERVER_BLOCKED, 5, Some(5)),
                     Held(1, HOLD, 5, None)]
  {
    H1Is();
    RowsOf(H1(), 5);
  }

  lemma H3Is()
    ensures H3() == [Held(1, HOLD, 0, Some(5)), Held(1, DELETE, 5, Some(5)), Held(1, SERVER_BLOCKED, 5, Some(5)),
                     Held(1, HOLD, 5, Some(5)), Held(1, DELETE, 5, None), Held(1, SERVER_BLOCKED, 5, None)]
  {
    H2Is();
    RowsOf(H2(), 5);
  }

  lemma H4Is()
    ensures H4() == [Held(1, HOLD, 0, Some(5)), Held(1, DELETE, 5, Some(5)), Held(1, SERVER_BLOCKED, 5, Some(5)),
                     Held(1, HOLD, 5, Some(5)), Held(1, DELETE, 5, Some(10)), Held(1, SERVER_BLOCKED, 5, Some(10)),
                     Held(1, HOLD, 10, None)]
  {
    H3Is();
    RowsOf(H3(), 10);
  }

  lemma H5Is()
    ensures H5() == [Held(1, HOLD, 0, Some(5)), Held(1, DELETE, 5, Some(5)), Held(1, SERVER_BLOCKED, 5, Some(5)),
                     Held(1, HOLD, 5, Some(5)), Held(1, DELETE, 5, Some(10)), Held(1, SERVER_BLOCKED, 5, Some(10)),
                     Held(1, HOLD, 10, Some(10)), Held(1, DELETE, 10, None), Held(1, SERVER_BLOCKED, 10, None)]
  {
    H4Is();
    RowsOf(H4(), 10);
  }

  lemma StepsNoneOpen(held: seq<Held>, now: int)
    requires forall i :: 0 <= i < |held| ==> held[i].objectId == 1 && IsName(held[i].state)
    ensures NoneOpen(StepH(held, BLOCK, now), [HOLD]) && NoneOpen(StepH(held, [HOLD], now), BLOCK)
  {
    Names();
    RowsOf(held, now);
  }

  lemma RecordsUpTo5()
    ensures Performed(At(0), Q0(), [], H0(), 1) && Performed(At(5), Q1(), H0(), H1(), 1)
    ensures Performed(At(5), Q2(), H1(), H2(), 1)
  {
    BlockNames();
    AllPast();
    assert H0() == StepH([], [HOLD], 0) && Q0() == StepQ([], [HOLD], 0);
    Records([], [], [HOLD], 0);
    StepsNoneOpen([], 0);
    Records(Q0(), H0(), BLOCK, 5);
    StepsNoneOpen(H0(), 5);
    Records(Q1(), H1(), [HOLD], 5);
  }

  lemma RecordsUpTo10()
    ensures Performed(At(5), Q3(), H2(), H3(), 1)
    ensures Performed(At(10), Q4(), H3(), H4(), 1) && Performed(At(10), Q5(), H4(), H5(), 1)
  {
    BlockNames();
    AllPast();
    StepsNoneOpen(H1(), 5);
    Records(Q2(), H2(), BLOCK, 5);
    StepsNoneOpen(H2(), 5);
    Records(Q3(), H3(), [HOLD], 10);
    StepsNoneOpen(H3(), 10);
    Records(Q4(), H4(), BLOCK, 10);
  }

  /** The history is brought up to date after each step. */
  lemma TheRecords()
    ensures IsRecording([[], H0(), H1(), H2(), H3(), H4(), H5()], [At(0), At(5), At(5), At(5), At(10), At(10)],
                        [Q0(), Q1(), Q2(), Q3(), Q4(), Q5()], [1, 1, 1, 1, 1, 1])
  {
    RecordsUpTo5();
    RecordsUpTo10();
  }

  // ---------------------------------------------------------------- what the restores find

  lemma FirstFound(held: seq<Held>, now: int, history: seq<nat>)
    requires IsHistory(held, 1, history) && history != [] && IsCurrent(held[history[0]], now)
    requires MayBegin(held, 1, history[0])
    ensures Found(held, 1, now, history[0])
  {
    assert StopsAt(held, 1, now, history, 0, 0);
  }

  /** Three blocks, of which the first two begin together and the second is continued by the third. */
  ghost predicate ThreeBlocks(held: seq<Held>, a: nat, b: nat, c: nat) {
    && a < b < c < |held| && (forall i :: IsBlock(held, i, 1) <==> i == a || i == b || i == c)
    && held[a].validTo == Some(held[a].validFrom) && held[b].validFrom == held[a].validFrom < held[c].validFrom
    && held[b].validTo == Some(held[c].validFrom) && held[c].validTo.None?
  }

  lemma ThirdMayPass(held: seq<Held>, a: nat, b: nat, c: nat, now: int)
    requires ThreeBlocks(held, a, b, c)
    ensures Found(held, 1, now, c)
  {
    assert IsBlock(held, a, 1) && IsBlock(held, c, 1);
    assert LatestBefore(held, 1, a, c);
    FirstFound(held, now, [c, b, a]);
  }

  lemma SecondIsTied(held: seq<Held>, a: nat, b: nat, c: nat, now: int)
    requires ThreeBlocks(held, a, b, c)
    ensures Orderly(held, 1) && TieContinued(held, 1, now)
  {
    assert IsBlock(held, a, 1) && IsBlock(held, b, 1) && IsBlock(held, c, 1);
    var chain := [c, b];
    assert Precedes(held, 1, b, c);
    assert Adjoins(held, 1, chain, 1);
    assert Tied(held, 1, b);
    assert BackToBack(held, 1, now, chain) && chain[1] == b;
  }

  lemma LastFound()
    ensures Found(H5(), 1, 20, 8) && Orderly(H5(), 1) && TieContinued(H5(), 1, 20)
  {
    H5Is();
    Names();
    ThirdMayPass(H5(), 2, 5, 8, 20);
    SecondIsTied(H5(), 2, 5, 8, 20);
  }

  lemma LastList()
    ensures forall s :: s in BLOCK <==> ToRestore(At(20), H5(), 8, s)
  {
    H5Is();
    Names();
    assert BLOCK[0] == DELETE && BLOCK[1] == SERVER_BLOCKED;
    assert HeldJustBefore(H5(), 4, 8) && HeldJustBefore(H5(), 5, 8);
    assert forall j :: HeldJustBefore(H5(), j, 8) ==> j == 4 || j == 5;
  }

  /** If only row `i` was held just before the block at `start`, the list is its state. */
  lemma OneOnTheList(held: seq<Held>, start: nat, i: nat, now: int)
    requires start < |held| && HeldJustBefore(held, i, start) && held[i].state == HOLD
    requires forall j :: HeldJustBefore(held, j, start) ==> j == i
    ensures forall s :: s in [HOLD] <==> ToRestore(At(now), held, start, s)
  {
    Names();
  }

  lemma FirstRestore()
    ensures Found(H1(), 1, 5, 2) && forall s :: s in [HOLD] <==> ToRestore(At(5), H1(), 2, s)
  {
    H1Is();
    Names();
    FirstFound(H1(), 5, [2]);
    OneOnTheList(H1(), 2, 0, 5);
  }

  /** Of two blocks that begin together the second may be found when it is current. */
  lemma TwoTogether(held: seq<Held>, a: nat, b: nat, now: int)
    requires a < b < |held| && forall i :: IsBlock(held, i, 1) <==> i == a || i == b
    requires held[a].validFrom == held[b].validFrom && IsCurrent(held[b], now)
    ensures Found(held, 1, now, b)
  {
    FirstFound(held, now, [b, a]);
  }

  lemma SecondRestore()
    ensures Found(H3(), 1, 10, 5) && forall s :: s in [HOLD] <==> ToRestore(At(10), H3(), 5, s)
  {
    H3Is();
    Names();
    TwoTogether(H3(), 2, 5, 10);
    OneOnTheList(H3(), 5, 0, 10);
  }

  lemma NotBlockedBefore()
    ensures !Blocked(H0(), 1, 5) && !Blocked(H2(), 1, 5) && !Blocked(H4(), 1, 10)
  {
    Names();
    H2Is();
    H4Is();
  }

  /** Each block and each restore before the last is a step of the operations. */
  lemma TheSteps()
    ensures BlockStep(At(5), Tables(Q0(), H0(), []), Tables(Q1(), H0(), []), 1, {DELETE}, None, None)
    ensures RestoreStep(At(5), Tables(Q1(), H1(), []), Tables(Q2(), H1(), []), 1, 2) && Found(H1(), 1, 5, 2)
    ensures BlockStep(At(5), Tables(Q2(), H2(), []), Tables(Q3(), H2(), []), 1, {DELETE}, None, None)
    ensures RestoreStep(At(10), Tables(Q3(), H3(), []), Tables(Q4(), H3(), []), 1, 5) && Found(H3(), 1, 10, 5)
    ensures BlockStep(At(10), Tables(Q4(), H4(), []), Tables(Q5(), H4(), []), 1, {DELETE}, None, None)
  {
    AllPast();
    BlockNames();
    NotBlockedBefore();
    Blocks(Q0(), H0(), 5);
    FirstRestore();
    Restores(Q1(), H1(), [HOLD], 5, 2);
    Blocks(Q2(), H2(), 5);
    SecondRestore();
    Restores(Q3(), H3(), [HOLD], 10, 5);
    Blocks(Q4(), H4(), 10);
  }

  lemma LastRestore()
    ensures RestoreStep(At(20), Tables(Q5(), H5(), []), Tables(Q6(), H5(), []), 1, 8)
  {
    AllPast();
    BlockNames();
    H5Is();
    LastList();
    Restores(Q5(), H5(), BLOCK, 20, 8);
  }

  lemma StillBlocked()
    ensures InForce(Q6(), 1, SERVER_BLOCKED, 20) && !InForce(Q6(), 1, HOLD, 20)
  {
    AllPast();
    Names();
    InForceAfterStep(Q5(), BLOCK, 20, SERVER_BLOCKED);
    InForceAfterStep(Q5(), BLOCK, 20, HOLD);
    assert BLOCK[1] == SERVER_BLOCKED;
  }

  /**
   The restore at 20 leaves the object blocked, and serverHold is lost, though all blocks are disjoint and
   the history was always up to date.
   */
  lemma TieIsMissed()
    ensures RestoreStep(At(20), Tables(Q5(), H5(), []), Tables(Q6(), H5(), []), 1, 8) && Found(H5(), 1, 20, 8)
    ensures Orderly(H5(), 1) && TieContinued(H5(), 1, 20)
    ensures InForce(Q6(), 1, SERVER_BLOCKED, 20) && !InForce(Q6(), 1, HOLD, 20)
  {
    LastFound();
    LastRestore();
    StillBlocked();
  }
}
