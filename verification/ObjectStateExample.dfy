/**
 Blocks and restores step by step: one of an object that had serverHold, in which every premise of
 `RestoreUndoesBlock` is met together, and the two ways in which a restore fails to undo a block.
 */
module ObjectStateExample {
  import opened Prelude
  import opened ObjectStateModel
  import opened ObjectStateTimeline
  import opened ObjectStateChain
  import opened ObjectStateTheorems
  import opened ObjectStateRestore
  import opened ObjectStateLaws

  const HOLD := "serverHold"
  const DELETE := "serverDeleteProhibited"
  const MANUAL := StateInfo(true, {3}, true)

  function At(now: int): Env {
    Env(now, map[HOLD := MANUAL, DELETE := MANUAL, SERVER_BLOCKED := MANUAL], map[1 := 3])
  }

  lemma Names()
    ensures HOLD != DELETE && HOLD != SERVER_BLOCKED && DELETE != SERVER_BLOCKED
    ensures forall now, s :: IsServerState(At(now), s) <==> s in {HOLD, DELETE, SERVER_BLOCKED}
    ensures forall now, s :: IsManual(At(now), s) <==> s in {HOLD, DELETE, SERVER_BLOCKED}
  {
    assert |HOLD| == 10 && |DELETE| == 22 && |SERVER_BLOCKED| == 13;
  }

  // ---------------------------------------------------------------- serverHold, before the block

  /** In force since 0. */
  function OnHold(): Tables {
    Tables([StateRequest(1, HOLD, 0, 0, None, None)], [Held(1, HOLD, 0, None)], [])
  }

  /** Cancelled at 10, and recorded as cancelled. */
  function Released(): Tables {
    Tables([StateRequest(1, HOLD, 0, 0, None, Some(10))], [Held(1, HOLD, 0, Some(10))], [])
  }

  lemma OnHoldMirrors()
    ensures RecordedBy(OnHold().held, 1, 10) && Mirrors(At(10), OnHold().requests, OnHold().held, 1)
  {
    var a := OnHold();
    forall s | IsServerState(At(10), s)
      ensures HasOpen(a.held, 1, s) <==> InForce(a.requests, 1, s, 10)
    {
      assert s == HOLD ==> IsOpen(a.held, 0, 1, s) && Covers(a.requests[0], 10);
    }
  }

  /** How `Released` comes about: a cancellation at 10, and the history brought up to date. */
  lemma ReleasedAt10()
    ensures Released().requests == Truncated(OnHold().requests, 1, {HOLD}, 10)
    ensures Performed(At(10), Released().requests, OnHold().held, Released().held, 1)
    ensures !InForce(Released().requests, 1, HOLD, 10)
  {
    Names();
  }

  lemma ReleasedMirrors()
    ensures Mirrors(At(10), Released().requests, Released().held, 1) && !InForce(Released().requests, 1, HOLD, 10)
  {
    ReleasedAt10();
    PerformedMirrors(At(10), Released().requests, OnHold().held, Released().held, 1);
  }

  // ---------------------------------------------------------------- the block at 10

  function BlockedAt10(held: seq<Held>): Tables {
    Tables([StateRequest(1, HOLD, 0, 0, None, Some(10)),
            StateRequest(1, DELETE, 10, 10, None, None),
            StateRequest(1, SERVER_BLOCKED, 10, 10, None, None)], held, [])
  }

  function Recorded(): seq<Held> {
    [Held(1, HOLD, 0, Some(10)), Held(1, DELETE, 10, None), Held(1, SERVER_BLOCKED, 10, None)]
  }

  lemma TheBlock(before: Tables)
    requires before == OnHold() || before == Released()
    ensures BlockStep(At(10), before, BlockedAt10(before.held), 1, {DELETE}, None, None)
  {
    Names();
    var env, states := At(10), {DELETE} + {SERVER_BLOCKED};
    var cut, b := Truncated(before.requests, 1, ServerStates(env), 10), BlockedAt10(before.held).requests;
    assert HOLD in ServerStates(env);
    assert cut == [StateRequest(1, HOLD, 0, 0, None, Some(10))];
    assert b[..1] == cut;
    var rows := b[1..];
    assert rows[0].state == DELETE && rows[1].state == SERVER_BLOCKED;
    assert (set s | s in states && !Requestable(env, 3, s)) == {};
    assert NewRows(rows, 1, states, 10, 10, None);
  }

  lemma TheRecord(before: Tables)
    requires before == OnHold() || before == Released()
    ensures Performed(At(10), BlockedAt10(before.held).requests, before.held, Recorded(), 1)
  {
    Names();
    var rs, b := BlockedAt10(before.held).requests, Recorded();
    assert !InForce(rs, 1, HOLD, 10);
    assert Covers(rs[1], 10) && Covers(rs[2], 10);
    assert IsOpen(b, 1, 1, DELETE) && IsOpen(b, 2, 1, SERVER_BLOCKED);
  }

  // ---------------------------------------------------------------- restored and blocked again at 15, restored at 20

  function BlockedAgainAt15(): Tables {
    Tables([StateRequest(1, HOLD, 0, 0, None, Some(10)),
            StateRequest(1, DELETE, 10, 10, None, Some(15)),
            StateRequest(1, SERVER_BLOCKED, 10, 10, None, Some(15)),
            StateRequest(1, HOLD, 15, 15, None, Some(15)),
            StateRequest(1, DELETE, 15, 15, None, None),
            StateRequest(1, SERVER_BLOCKED, 15, 15, None, None)],
           [Held(1, HOLD, 0, Some(10)), Held(1, DELETE, 10, Some(15)), Held(1, SERVER_BLOCKED, 10, Some(15)),
            Held(1, HOLD, 15, Some(15)), Held(1, DELETE, 15, None), Held(1, SERVER_BLOCKED, 15, None)], [])
  }

  function RestoredAt20(): Tables {
    var a := BlockedAgainAt15();
    Tables(a.requests[..4] + [StateRequest(1, DELETE, 15, 15, None, Some(20)),
                              StateRequest(1, SERVER_BLOCKED, 15, 15, None, Some(20)),
                              StateRequest(1, HOLD, 20, 20, None, None)], a.held, [])
  }

  /** Two blocks without a gap between them. */
  ghost predicate BackTo(held: seq<Held>, a: nat, b: nat) {
    && a < b < |held| && (forall i :: IsBlock(held, i, 1) <==> i == a || i == b)
    && held[a].validFrom < held[b].validFrom
    && held[a].validTo == Some(held[b].validFrom) && held[b].validTo.None?
  }

  lemma TwoBlocks(held: seq<Held>, a: nat, b: nat, now: int)
    requires BackTo(held, a, b) && held[b].validFrom <= now
    ensures Timeline(held, 1) && NoneAhead(held, 1, now) && LastsSince(held, 1, now, a)
  {
    assert IsBlock(held, a, 1) && IsBlock(held, b, 1);
    var chain := [b, a];
    assert Precedes(held, 1, a, b);
    assert Adjoins(held, 1, chain, 1);
    assert BackToBack(held, 1, now, chain) && EndsTogether(held, 1, chain, a);
  }

  lemma TwoBlocksFound(held: seq<Held>, a: nat, b: nat, now: int)
    requires BackTo(held, a, b)
    ensures Found(held, 1, now, a)
  {
    assert IsBlock(held, a, 1) && IsBlock(held, b, 1);
    assert LatestBefore(held, 1, a, b);
    assert StopsAt(held, 1, now, [b, a], 0, 1) && [b, a][1] == a;
  }

  lemma OneBlock(held: seq<Held>, a: nat, now: int)
    requires a < |held| && forall i :: IsBlock(held, i, 1) <==> i == a
    requires held[a].validFrom <= now && held[a].validTo.None?
    ensures Timeline(held, 1) && NoneAhead(held, 1, now) && LastsSince(held, 1, now, a) && Found(held, 1, now, a)
  {
    assert IsBlock(held, a, 1);
    var chain := [a];
    assert BackToBack(held, 1, now, chain) && EndsTogether(held, 1, chain, a);
    assert StopsAt(held, 1, now, chain, 0, 0) && chain[0] == a;
  }

  lemma TheHistory()
    ensures Timeline(BlockedAgainAt15().held, 1) && NoneAhead(BlockedAgainAt15().held, 1, 20)
    ensures LastsSince(BlockedAgainAt15().held, 1, 20, 2) && Found(BlockedAgainAt15().held, 1, 20, 2)
  {
    BlocksAgain();
    TwoBlocks(BlockedAgainAt15().held, 2, 5, 20);
    TwoBlocksFound(BlockedAgainAt15().held, 2, 5, 20);
  }

  lemma HistoryEvolved()
    ensures Evolves(Recorded(), BlockedAgainAt15().held, 10)
  {
  }

  lemma BlocksAgain()
    ensures BackTo(BlockedAgainAt15().held, 2, 5) && BlockedAgainAt15().held[5].validFrom == 15
  {
    Names();
  }

  lemma TheList()
    ensures (set s | s in At(20).states && ToRestore(At(20), BlockedAgainAt15().held, 2, s)) == {HOLD}
  {
    Names();
    assert HeldJustBefore(BlockedAgainAt15().held, 0, 2);
    assert forall j :: HeldJustBefore(BlockedAgainAt15().held, j, 2) ==> j == 0;
  }

  lemma TheCut()
    ensures Truncated(BlockedAgainAt15().requests, 1, ServerStates(At(20)), 20) == RestoredAt20().requests[..6]
  {
    Names();
    var cut := Truncated(BlockedAgainAt15().requests, 1, ServerStates(At(20)), 20);
    assert forall i :: 0 <= i < 6 ==> cut[i] == RestoredAt20().requests[i];
  }

  lemma TheRestore()
    ensures Sound(BlockedAgainAt15().requests, 20)
    ensures RestoreStep(At(20), BlockedAgainAt15(), RestoredAt20(), 1, 2)
  {
    TheList();
    TheCut();
    HoldAgain();
  }

  lemma HoldAgain()
    ensures CreateStep(At(20), RestoredAt20().requests[..6], RestoredAt20().requests, 1, {HOLD}, None, None)
  {
    Names();
    var env, cut := At(20), RestoredAt20().requests[..6];
    assert (set s | s in {HOLD} && !Requestable(env, 3, s)) == {};
    assert forall i :: 0 <= i < 6 && Concerns(cut[i], 1, {HOLD}) ==> !Conflict(cut[i], 20, None);
    var rows := RestoredAt20().requests[6..];
    assert rows[0].state == HOLD;
    assert NewRows(rows, 1, {HOLD}, 20, 20, None);
  }

  lemma BlockedAndRestored(before: Tables)
    requires before == OnHold() || before == Released()
    ensures BlockRecorded(At(10), before, BlockedAt10(before.held), Recorded(), 1, {DELETE}, None, 2)
    ensures RestoredLater(At(20), Recorded(), 10, BlockedAgainAt15(), RestoredAt20(), 1, 2, 2)
    ensures !TieContinued(BlockedAgainAt15().held, 1, 20)
  {
    TheBlock(before);
    TheRecord(before);
    TheHistory();
    HistoryEvolved();
    TimelineHasNoTies(BlockedAgainAt15().held, 1, 20);
    TheRestore();
  }

  // ---------------------------------------------------------------- what comes out

  lemma HoldIsBack()
    ensures InForce(RestoredAt20().requests, 1, HOLD, 20)
  {
    assert Covers(RestoredAt20().requests[6], 20);
  }

  lemma HoldIsServerState()
    ensures IsServerState(At(10), HOLD)
  {
  }

  /**
   serverHold, in force before the block, is in force again after the restore; all other server states are as
   before, too.
   */
  lemma BlockAndRestore()
    ensures InForce(RestoredAt20().requests, 1, HOLD, 20)
    ensures AsBefore(At(10), OnHold().requests, At(20), RestoredAt20().requests, 1)
  {
    HoldIsBack();
    OnHoldMirrors();
    BlockedAndRestored(OnHold());
    NothingChangedAt10();
    RestoreUndoesFirstBlock(At(10), At(20), 1, {DELETE}, None, OnHold(), BlockedAt10(OnHold().held), Recorded(),
                            BlockedAgainAt15(), RestoredAt20(), 2, 2);
  }

  lemma NothingChangedAt10()
    ensures !ContinuesBlock(OnHold().held, 1, 10)
    ensures forall s :: IsServerState(At(10), s) ==>
      !RevokedAt(OnHold().held, 1, s, 10) && !SetAt(OnHold().held, 1, s, 10)
  {
    Names();
    assert IsHeldBefore(OnHold().held, 0, 1, HOLD, 10);
  }

  /** How a restore fails to undo a block: one state differs, though every premise is met. */
  ghost predicate NotUndone(before: Tables, blocked: Tables, recorded: seq<Held>, later: Tables, restored: Tables) {
    && Mirrors(At(10), before.requests, before.held, 1)
    && BlockRecorded(At(10), before, blocked, recorded, 1, {DELETE}, None, 2)
    && RestoredLater(At(20), recorded, 10, later, restored, 1, 2, 2)
    && !TieContinued(later.held, 1, 20)
    && !AsBefore(At(10), before.requests, At(20), restored.requests, 1)
  }

  lemma HoldDiffers(before: seq<StateRequest>, restored: seq<StateRequest>)
    requires InForce(before, 1, HOLD, 10) != InForce(restored, 1, HOLD, 20)
    ensures !AsBefore(At(10), before, At(20), restored, 1)
  {
    HoldIsServerState();
  }

  /** serverHold, cancelled at the very instant of the block, comes back with the restore. */
  lemma RevokedComesBack()
    ensures !InForce(Released().requests, 1, HOLD, 10) && InForce(RestoredAt20().requests, 1, HOLD, 20)
    ensures NotUndone(Released(), BlockedAt10(Released().held), Recorded(), BlockedAgainAt15(), RestoredAt20())
  {
    HoldIsBack();
    ReleasedMirrors();
    BlockedAndRestored(Released());
    HoldDiffers(Released().requests, RestoredAt20().requests);
  }

  // ---------------------------------------------------------------- serverHold set at the instant of the block

  function HeldAt10(): Tables {
    Tables([StateRequest(1, HOLD, 10, 10, None, None)], [Held(1, HOLD, 10, None)], [])
  }

  function BlockedAtOnce(held: seq<Held>): Tables {
    Tables([StateRequest(1, HOLD, 10, 10, None, Some(10)),
            StateRequest(1, DELETE, 10, 10, None, None),
            StateRequest(1, SERVER_BLOCKED, 10, 10, None, None)], held, [])
  }

  function RecordedAtOnce(): seq<Held> {
    [Held(1, HOLD, 10, Some(10)), Held(1, DELETE, 10, None), Held(1, SERVER_BLOCKED, 10, None)]
  }

  function RestoredToNothing(): Tables {
    Tables([StateRequest(1, HOLD, 10, 10, None, Some(10)),
            StateRequest(1, DELETE, 10, 10, None, Some(20)),
            StateRequest(1, SERVER_BLOCKED, 10, 10, None, Some(20))], RecordedAtOnce(), [])
  }

  lemma SetMirrors()
    ensures CreateStep(At(10), [], HeldAt10().requests, 1, {HOLD}, None, None)
    ensures Performed(At(10), HeldAt10().requests, [], HeldAt10().held, 1)
    ensures Mirrors(At(10), HeldAt10().requests, HeldAt10().held, 1)
  {
    Names();
    var b := HeldAt10();
    assert (set s | s in {HOLD} && !Requestable(At(10), 3, s)) == {};
    assert b.requests[0..] == b.requests && b.requests[0].state == HOLD;
    assert Covers(b.requests[0], 10) && IsOpen(b.held, 0, 1, HOLD);
    PerformedMirrors(At(10), b.requests, [], b.held, 1);
  }

  lemma BlockAtOnce()
    ensures BlockStep(At(10), HeldAt10(), BlockedAtOnce(HeldAt10().held), 1, {DELETE}, None, None)
  {
    Names();
    var env, states := At(10), {DELETE} + {SERVER_BLOCKED};
    var cut, b := Truncated(HeldAt10().requests, 1, ServerStates(env), 10), BlockedAtOnce(HeldAt10().held).requests;
    assert HOLD in ServerStates(env);
    assert b[..1] == cut;
    var rows := b[1..];
    assert rows[0].state == DELETE && rows[1].state == SERVER_BLOCKED;
    assert (set s | s in states && !Requestable(env, 3, s)) == {};
    assert NewRows(rows, 1, states, 10, 10, None);
  }

  lemma RecordAtOnce()
    ensures Performed(At(10), BlockedAtOnce(HeldAt10().held).requests, HeldAt10().held, RecordedAtOnce(), 1)
  {
    Names();
    var rs := BlockedAtOnce(HeldAt10().held).requests;
    assert !InForce(rs, 1, HOLD, 10) && Covers(rs[1], 10) && Covers(rs[2], 10);
    assert IsOpen(RecordedAtOnce(), 1, 1, DELETE) && IsOpen(RecordedAtOnce(), 2, 1, SERVER_BLOCKED);
  }

  lemma SetAndRestored()
    ensures RestoredLater(At(20), RecordedAtOnce(), 10, BlockedAtOnce(RecordedAtOnce()), RestoredToNothing(), 1, 2, 2)
    ensures !TieContinued(RecordedAtOnce(), 1, 20)
  {
    OneBlockHistory();
    NothingToRestore();
    SoundAtOnce();
    TimelineHasNoTies(RecordedAtOnce(), 1, 20);
  }

  lemma SoundAtOnce()
    ensures Evolves(RecordedAtOnce(), RecordedAtOnce(), 10) && Sound(BlockedAtOnce(RecordedAtOnce()).requests, 20)
  {
  }

  lemma OneBlockHistory()
    ensures Timeline(RecordedAtOnce(), 1) && NoneAhead(RecordedAtOnce(), 1, 20)
    ensures LastsSince(RecordedAtOnce(), 1, 20, 2) && Found(RecordedAtOnce(), 1, 20, 2)
  {
    Names();
    OneBlock(RecordedAtOnce(), 2, 20);
  }

  lemma NothingToRestore()
    ensures RestoreStep(At(20), BlockedAtOnce(RecordedAtOnce()), RestoredToNothing(), 1, 2)
  {
    Names();
    var env, a, b := At(20), BlockedAtOnce(RecordedAtOnce()), RestoredToNothing();
    assert forall j :: !HeldJustBefore(a.held, j, 2);
    assert (set s | s in env.states && ToRestore(env, a.held, 2, s)) == {};
    assert Truncated(a.requests, 1, ServerStates(env), 20) == b.requests;
  }

  lemma HoldIsGone()
    ensures InForce(HeldAt10().requests, 1, HOLD, 10) && !InForce(RestoredToNothing().requests, 1, HOLD, 20)
  {
    Names();
    assert Covers(HeldAt10().requests[0], 10);
  }

  /** serverHold, set at the very instant of the block, does not come back with the restore. */
  lemma SetIsLost()
    ensures InForce(HeldAt10().requests, 1, HOLD, 10) && !InForce(RestoredToNothing().requests, 1, HOLD, 20)
    ensures NotUndone(HeldAt10(), BlockedAtOnce(HeldAt10().held), RecordedAtOnce(), BlockedAtOnce(RecordedAtOnce()),
                      RestoredToNothing())
  {
    HoldIsGone();
    SetMirrors();
    BlockAtOnce();
    RecordAtOnce();
    SetAndRestored();
    HoldDiffers(HeldAt10().requests, RestoredToNothing().requests);
  }

  // ---------------------------------------------------------------- a block that begins later

  function Later(): Tables {
    Tables([StateRequest(1, DELETE, 20, 30, None, None), StateRequest(1, SERVER_BLOCKED, 20, 30, None, None)], [], [])
  }

  /** A block made at 20 that begins at 30: its reason is not recorded. */
  lemma LaterBlockLosesReason()
    ensures BlockStep(At(20), Tables([], [], []), Later(), 1, {DELETE}, Some(30), None)
    ensures ReasonAdded(At(20), Later().requests, [], Later().reasons, 1, Some("abuse"))
    ensures !ReasonGoesWithBlock(Tables([], [], []), Later(), Some("abuse"))
  {
    Names();
    var rows, states := Later().requests, {DELETE} + {SERVER_BLOCKED};
    assert Truncated([], 1, ServerStates(At(20)), 20) == [];
    assert (set s | s in states && !Requestable(At(20), 3, s)) == {};
    assert rows[..0] == [] && rows[0..] == rows && rows[0].state == DELETE && rows[1].state == SERVER_BLOCKED;
    BlockReasonLaw(At(20), Tables([], [], []), Later(), 1, {DELETE}, Some(30), None, Some("abuse"));
  }
}
