/** What holds of public requests in every state of every run. */
module PublicRequestTheorems {
  import opened Prelude
  import opened PublicRequestModel
  import opened PublicRequestSteps

  // ---------------------------------------------------------------- runs

  /** A committed transaction: one of the operations of this model, or the sending of letters. */
  datatype Op =
    | UpdateOne(env: Env, id: nat, t: Iface, p: UpdateParams, logReq: Option<nat>)
    | UpdateBatch(env: Env, objectId: nat, t: Iface, p: UpdateParams, logReq: Option<nat>, affected: seq<nat>)
    | CreateRequest(env: Env, objectId: nat, t: Iface, id: nat, row: Request)
    | Mailing

  ghost predicate Step(types: Types, a: Tables, b: Tables, op: Op) {
    match op
    case UpdateOne(env, id, t, p, logReq) => UpdateStep(types, env, a, b, id, t, p, logReq)
    case UpdateBatch(env, obj, t, p, logReq, affected) => BatchStep(types, env, a, b, obj, t, p, logReq, affected)
    case CreateRequest(env, obj, t, id, row) =>
      OpensRow(types, row, obj, t) && CreateStep(types, env, a, b, obj, t, id, row)
    case Mailing => b.rows == a.rows && b.nextId == a.nextId
  }

  ghost predicate OpensRow(types: Types, row: Request, obj: nat, t: Iface) {
    row.objectId == obj && row.typeName == types.Name(t) && row.status.Opened? && row.resolveTime.None?
  }

  ghost predicate IsRun(types: Types, run: seq<Tables>, ops: seq<Op>) {
    && |run| == |ops| + 1
    && ValidRows(run[0].rows, run[0].nextId)
    && forall k :: 0 <= k < |ops| ==> Step(types, run[k], run[k + 1], ops[k])
  }

  /** What every step keeps about a request that existed before it. */
  ghost predicate Continues(a: Request, b: Request) {
    && b.objectId == a.objectId && b.typeName == a.typeName
    && (!a.status.Opened? ==> !b.status.Opened? && b.resolveTime == a.resolveTime)
  }

  lemma StepContinues(types: Types, a: Tables, b: Tables, op: Op, i: nat)
    requires ValidRows(a.rows, a.nextId) && Step(types, a, b, op) && i in a.rows
    ensures i in b.rows && Continues(a.rows[i], b.rows[i])
  {
    match op
    case UpdateOne(env, id, t, p, logReq) =>
      UpdatedStatus(a.rows[id], p, s => types.Action(t, s), logReq, env.now);
      assert p.status != Some(Opened);
    case UpdateBatch(env, obj, t, p, logReq, affected) =>
    case CreateRequest(env, obj, t, id, row) =>
      assert i in b.rows - {id};
    case Mailing =>
  }

  lemma StepKeepsValid(types: Types, a: Tables, b: Tables, op: Op)
    requires ValidRows(a.rows, a.nextId) && Step(types, a, b, op)
    ensures ValidRows(b.rows, b.nextId)
  {
    match op
    case UpdateOne(env, id, t, p, logReq) =>
      UpdateKeepsValid(types, env, a, b, id, t, p, logReq);
    case UpdateBatch(env, obj, t, p, logReq, affected) =>
    case CreateRequest(env, obj, t, id, row) =>
      forall i | i in b.rows && i != id
        ensures i in a.rows && (b.rows[i].status.Opened? <==> b.rows[i].resolveTime.None?)
      {
        assert i in b.rows - {id};
      }
    case Mailing =>
  }

  lemma {:induction false} RunStaysValid(types: Types, run: seq<Tables>, ops: seq<Op>, k: nat)
    requires IsRun(types, run, ops) && k < |run|
    ensures ValidRows(run[k].rows, run[k].nextId)
  {
    if k > 0 {
      RunStaysValid(types, run, ops, k - 1);
      StepKeepsValid(types, run[k - 1], run[k], ops[k - 1]);
    }
  }

  /**
   The life of a request over any run: it stays, keeps its object and type, is opened exactly while its
   resolve_time is unset, and once closed is never opened again and keeps its resolve_time.
   */
  lemma {:induction false} RequestLifeCycle(types: Types, run: seq<Tables>, ops: seq<Op>, j: nat, k: nat, i: nat)
    requires IsRun(types, run, ops) && j <= k < |run| && i in run[j].rows
    ensures i in run[k].rows && Continues(run[j].rows[i], run[k].rows[i])
    ensures run[k].rows[i].status.Opened? <==> run[k].rows[i].resolveTime.None?
    decreases k - j
  {
    RunStaysValid(types, run, ops, k);
    if j < k {
      RequestLifeCycle(types, run, ops, j, k - 1, i);
      RunStaysValid(types, run, ops, k - 1);
      StepContinues(types, run[k - 1], run[k], ops[k - 1], i);
    }
  }

  // ---------------------------------------------------------------- mutual exclusion

  /** Creating a request of any type named in `s` cancels the requests of all types named in `s`. */
  ghost predicate Exclusive(types: Types, s: set<string>) {
    forall t: Iface, n :: types.Name(t) in s && types.OnCreate(t).Some? && n in s ==>
      types.Names(types.OnCreate(t).value, n)
  }

  ghost predicate AtMostOneOpened(rows: Rows, s: set<string>) {
    forall i, j :: Holds(rows, s, i) && Holds(rows, s, j) && rows[i].objectId == rows[j].objectId ==> i == j
  }

  ghost predicate Holds(rows: Rows, s: set<string>, i: nat) {
    i in rows && rows[i].status.Opened? && rows[i].typeName in s
  }

  lemma StepKeepsExclusion(types: Types, s: set<string>, a: Tables, b: Tables, op: Op)
    requires ValidRows(a.rows, a.nextId) && Step(types, a, b, op)
    requires Exclusive(types, s) && AtMostOneOpened(a.rows, s)
    ensures AtMostOneOpened(b.rows, s)
  {
    if op.CreateRequest? {
      var mid := b.rows - {op.id};
      forall i | i in b.rows && i != op.id && b.rows[i].status.Opened? && b.rows[i].objectId == op.objectId
                 && b.rows[i].typeName in s
        ensures types.Name(op.t) !in s
      {
        assert i in mid;
      }
      forall i | i in mid && mid[i].status.Opened?
        ensures a.rows[i] == b.rows[i]
      {
      }
    } else {
      forall i | i in b.rows && b.rows[i].status.Opened?
        ensures i in a.rows && a.rows[i].status.Opened? && Continues(a.rows[i], b.rows[i])
      {
        StepContinues(types, a, b, op, i);
      }
    }
  }

  /**
   Safety over whole runs: if the types named in `s` all cancel each other on creation, no object ever
   has two opened requests with types in `s`, whichever creation path, update or cascade is run.
   */
  lemma {:induction false} ExclusionOverRuns(types: Types, s: set<string>, run: seq<Tables>, ops: seq<Op>, k: nat)
    requires IsRun(types, run, ops) && k < |run|
    requires Exclusive(types, s) && AtMostOneOpened(run[0].rows, s)
    ensures AtMostOneOpened(run[k].rows, s)
  {
    if k > 0 {
      ExclusionOverRuns(types, s, run, ops, k - 1);
      RunStaysValid(types, run, ops, k - 1);
      StepKeepsExclusion(types, s, run[k - 1], run[k], ops[k - 1]);
    }
  }

  /** A step of the library touches no letter of which no request went from opened to invalidated. */
  lemma OtherLettersStay(types: Types, a: Tables, b: Tables, op: Op, l: nat)
    requires ValidRows(a.rows, a.nextId) && Step(types, a, b, op) && !op.Mailing? && l in a.letters
    requires forall i :: i in a.rows && i in b.rows && a.rows[i].status.Opened? && b.rows[i].status.Invalidated? ==>
      (i, l) !in a.messages
    ensures l in b.letters && b.letters[l] == a.letters[l]
  {
    if op.CreateRequest? {
      assert !StopDue(a.messages, a.rows, b.rows - {op.id}, l);
    } else {
      assert !StopDue(a.messages, a.rows, b.rows, l);
    }
  }

  /**
   A step that takes a request from opened to invalidated leaves none of its letters ready to be sent or to be
   sent again; those already sent, or out of processing, stay as they are.
   */
  lemma InvalidatedHasNoPendingLetter(types: Types, a: Tables, b: Tables, op: Op, i: nat, l: nat)
    requires ValidRows(a.rows, a.nextId) && Step(types, a, b, op)
    requires i in a.rows && a.rows[i].status.Opened? && i in b.rows && b.rows[i].status.Invalidated?
    requires (i, l) in a.messages && l in b.letters
    ensures l in a.letters
    ensures a.letters[l] in {Ready, SendFailed} ==> b.letters[l] == NoProcessing
    ensures a.letters[l] in {Sent, NoProcessing} ==> b.letters[l] == a.letters[l]
  {
    if op.CreateRequest? {
      assert i in b.rows - {op.id};
      assert StopDue(a.messages, a.rows, b.rows - {op.id}, l);
    } else {
      assert StopDue(a.messages, a.rows, b.rows, l);
    }
  }
}
