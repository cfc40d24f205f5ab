/** Lemmas about one cascade: how the relation `Cascaded` is built up call by call. */
module PublicRequestSteps {
  import opened Prelude
  import opened PublicRequestModel
  import opened PublicRequestSweep

  /** The parameters with which requests are cancelled: a status of invalidated, perhaps a reason and a registrar. */
  ghost predicate Invalidates(p: UpdateParams) {
    && p.status == Some(Invalidated) && p.emailToAnswer.None? && p.answerEmailId.None? && p.onStatusAction.None?
    && (p.reason.Some? ==> p.reason.value.Some?)
  }

  /** The registrar that the cancellations of one call set, if any. */
  function Registrar(p: UpdateParams): Option<nat> {
    if p.registrarId.Some? then p.registrarId.value else None
  }

  /** The reason that the cancellations of one call give, if any. */
  function Why(p: UpdateParams): Option<string> {
    if p.reason.Some? then p.reason.value else None
  }

  /** A cascade over `ts` that began with `start` and has come to `cur`; `why` is the reason it gives. */
  ghost predicate InProgress(types: Types, stamp: Stamp, obj: nat, ts: seq<Iface>, why: Option<string>, start: Rows,
                             cur: Rows) {
    && OnlyInvalidates(stamp, obj, start, cur)
    && AllJustified(types, start, cur, obj, ts)
    && Reasoned(types, start, cur, ts, why)
  }

  ghost predicate OnlyCloses(a: Rows, b: Rows) {
    a.Keys == b.Keys && forall i :: i in b && b[i].status.Opened? ==> a[i] == b[i]
  }

  /** Every opened request of `obj` with the type `t` is still to be visited. */
  ghost predicate StillToVisit(types: Types, rows: Rows, obj: nat, t: Iface, ids: seq<nat>) {
    forall i :: i in rows && rows[i].status.Opened? && rows[i].objectId == obj && rows[i].typeName == types.Name(t) ==>
      i in ids
  }

  lemma UpdatedStatus(row: Request, p: UpdateParams, action: Status -> OnStatusAction, logReq: Option<nat>, now: int)
    ensures var b := Updated(row, p, action, logReq, now);
      && b.status == (if p.status.Some? then p.status.value else row.status)
      && b.objectId == row.objectId && b.typeName == row.typeName
  {
  }

  /** The statement writes each parameter to its own column. */
  lemma UpdateWrites(types: Types, env: Env, row: Request, t: Iface, p: UpdateParams, logReq: Option<nat>)
    ensures Written(types, env, row, Updated(row, p, s => types.Action(t, s), logReq, env.now), t, p, logReq)
  {
  }

  lemma NothingCascades(types: Types, stamp: Stamp, obj: nat, rows: Rows)
    ensures Cascaded(types, stamp, obj, [], rows, rows)
    ensures forall ts: seq<Iface> :: NoneOpened(types, rows, obj, ts[..0])
    ensures forall ts: seq<Iface> :: AllJustified(types, rows, rows, obj, ts)
  {
  }

  lemma MeasureDrops(before: Rows, start: Rows, id: nat, p: UpdateParams)
    requires id in before && p.status.Some? && p.status.value != Opened && p.status.value != before[id].status
    requires id in start && start == before[id := start[id]] && start[id].status == p.status.value
    ensures |OpenedIds(start)| < |OpenedIds(before)| + if before[id].status.Opened? then 0 else 1
  {
    assert OpenedIds(start) == OpenedIds(before) - {id};
  }

  lemma MeasureShrinks(stamp: Stamp, obj: nat, a: Rows, b: Rows)
    requires OnlyInvalidates(stamp, obj, a, b)
    ensures |OpenedIds(b)| <= |OpenedIds(a)|
  {
    SubsetSize(OpenedIds(b), OpenedIds(a));
  }

  lemma LettersOfOneRow(messages: set<(nat, nat)>, a: Rows, b: Rows, id: nat, la: Letters, lb: Letters)
    requires id in a && id in b && b == a[id := b[id]]
    requires la.Keys == lb.Keys
    requires forall l :: l in la ==>
      lb[l] == if b[id].status.Invalidated? && Pending(la[l]) && a[id].status.Opened? && (id, l) in messages
               then NoProcessing else la[l]
    ensures LettersStopped(messages, a, b, la, lb)
  {
    forall l | l in la
      ensures StopDue(messages, a, b, l) <==> a[id].status.Opened? && b[id].status.Invalidated? && (id, l) in messages
    {
    }
  }

  lemma LettersCompose(messages: set<(nat, nat)>, a: Rows, b: Rows, c: Rows, la: Letters, lb: Letters, lc: Letters)
    requires a.Keys == b.Keys == c.Keys
    requires forall i :: i in a && !a[i].status.Opened? ==> !b[i].status.Opened?
    requires forall i :: i in b && !b[i].status.Opened? ==> c[i].status == b[i].status
    requires LettersStopped(messages, a, b, la, lb) && LettersStopped(messages, b, c, lb, lc)
    ensures LettersStopped(messages, a, c, la, lc)
  {
    forall l | l in la
      ensures StopDue(messages, a, c, l) <==> StopDue(messages, a, b, l) || StopDue(messages, b, c, l)
    {
      if StopDue(messages, a, c, l) {
        var i :| i in a && i in c && a[i].status.Opened? && c[i].status.Invalidated? && (i, l) in messages;
        assert i in b;
      }
    }
  }

  /** The first `k` types of the list have been visited. */
  ghost predicate SweptUpTo(types: Types, obj: nat, ts: seq<Iface>, k: nat, start: Rows, cur: Rows)
    requires k <= |ts|
  {
    NoneOpened(types, cur, obj, ts[..k]) && Sweep(types, Open(start, obj), ts[..k]) == Some(Open(cur, obj))
  }

  lemma SweepGoesOn(types: Types, obj: nat, ts: seq<Iface>, k: nat, start: Rows, mid: Rows, end: Rows)
    requires k < |ts| && SweptUpTo(types, obj, ts, k, start, mid) && OnlyCloses(mid, end)
    requires StillToVisit(types, end, obj, ts[k], []) && Visit(types, Open(mid, obj), ts[k]) == Some(Open(end, obj))
    ensures SweptUpTo(types, obj, ts, k + 1, start, end)
  {
    SweepOneMore(types, Open(start, obj), ts, k);
    assert forall j :: 0 <= j < k ==> ts[..k][j] == ts[..k + 1][j];
  }

  lemma SweepCompletes(types: Types, stamp: Stamp, obj: nat, ts: seq<Iface>, why: Option<string>, start: Rows,
                       end: Rows)
    requires InProgress(types, stamp, obj, ts, why, start, end) && SweptUpTo(types, obj, ts, |ts|, start, end)
    ensures Cascaded(types, stamp, obj, ts, start, end) && Swept(types, obj, ts, start, end)
  {
    assert ts[..|ts|] == ts;
  }

  lemma OpenedShrink(a: Rows, b: Rows)
    requires OnlyCloses(a, b)
    ensures |OpenedIds(b)| <= |OpenedIds(a)|
  {
    SubsetSize(OpenedIds(b), OpenedIds(a));
  }

  /** A chain found in a later state, started by a request of a root type, is a chain of the earlier state. */
  lemma ChainExtends(types: Types, obj: nat, ts: seq<Iface>, start: Rows, mid: Rows, first: Link, chain: seq<Link>,
                     i: nat, inner: seq<Iface>)
    requires IsLink(types, start, obj, first) && first.iface in ts
    requires types.OnUpdate(first.iface, Opened, Invalidated) == Some(inner)
    requires IsChain(types, mid, obj, inner, chain, i)
    requires start.Keys == mid.Keys
    requires forall j :: j in mid && mid[j].status.Opened? ==> start[j] == mid[j]
    ensures IsChain(types, start, obj, ts, [first] + chain, i)
  {
    var longer := [first] + chain;
    forall k | 0 <= k < |longer|
      ensures IsLink(types, start, obj, longer[k])
    {
      assert k > 0 ==> longer[k] == chain[k - 1] && IsLink(types, mid, obj, chain[k - 1]);
    }
    forall k | 0 < k < |longer|
      ensures Follows(types, longer[k - 1].iface, longer[k].iface)
    {
      if k > 1 {
        assert Follows(types, chain[k - 2].iface, chain[k - 1].iface);
      }
    }
  }

  /**
   The row a cancellation rewrites was opened when the cascade began, and ends up invalidated whether or not
   it still was.
   */
  lemma RewrittenRow(types: Types, env: Env, t: Iface, a: Request, b: Request, p: UpdateParams, logReq: Option<nat>)
    requires Invalidates(p) && a.typeName == types.Name(t)
    requires (a == b && a.status.Opened?) || InvalidatedBy(StampOf(types, env, p, logReq), a, b)
    ensures InvalidatedBy(StampOf(types, env, p, logReq), a, Updated(b, p, s => types.Action(t, s), logReq, env.now))
  {
    var c := Updated(b, p, s => types.Action(t, s), logReq, env.now);
    assert IsAction(types, a.typeName, c.onStatusAction);
  }

  /**
   One more nested update keeps what the cascade has established so far. The update found the rows
   `mid`, rewrote row `id` to give `begun`, and cancelled what `inner` names to give `end`.
   */
  lemma CascadeGrows(types: Types, stamp: Stamp, obj: nat, ts: seq<Iface>, t: Iface, start: Rows, mid: Rows,
                     begun: Rows, end: Rows, id: nat, inner: seq<Iface>)
    requires t in ts
    requires OnlyInvalidates(stamp, obj, start, mid)
    requires AllJustified(types, start, mid, obj, ts)
    requires IsLink(types, start, obj, Link(id, t))
    requires id in mid && id in begun && begun == mid[id := begun[id]] && InvalidatedBy(stamp, start[id], begun[id])
    requires mid[id].status.Opened? ==> types.OnUpdate(t, Opened, Invalidated) == Some(inner)
    requires !mid[id].status.Opened? ==> inner == []
    requires Cascaded(types, stamp, obj, inner, begun, end)
    ensures OnlyInvalidates(stamp, obj, start, end)
    ensures AllJustified(types, start, end, obj, ts)
  {
    assert OnlyInvalidates(stamp, obj, start, begun);
    assert OnlyInvalidates(stamp, obj, start, end);
    forall i | ClosedBetween(start, end, i)
      ensures Justified(types, start, end, obj, ts, i)
    {
      GrownChain(types, stamp, obj, ts, t, start, mid, begun, end, id, inner, i);
    }
  }

  lemma GrownChain(types: Types, stamp: Stamp, obj: nat, ts: seq<Iface>, t: Iface, start: Rows, mid: Rows, begun: Rows,
                   end: Rows, id: nat, inner: seq<Iface>, i: nat)
    requires t in ts
    requires OnlyInvalidates(stamp, obj, start, mid) && OnlyInvalidates(stamp, obj, start, end)
    requires AllJustified(types, start, mid, obj, ts)
    requires IsLink(types, start, obj, Link(id, t))
    requires id in mid && id in begun && begun == mid[id := begun[id]] && begun[id].status.Invalidated?
    requires mid[id].status.Opened? ==> types.OnUpdate(t, Opened, Invalidated) == Some(inner)
    requires !mid[id].status.Opened? ==> inner == []
    requires Cascaded(types, stamp, obj, inner, begun, end)
    requires ClosedBetween(start, end, i)
    ensures Justified(types, start, end, obj, ts, i)
  {
    if ClosedBetween(start, mid, i) {
      var chain :| JustifiedBy(types, start, mid, obj, ts, chain, i);
      JustifiedLater(types, start, mid, end, obj, ts, chain, i);
    } else if i == id {
      SingleLink(types, obj, ts, start, end, Link(id, t));
    } else {
      assert ClosedBetween(begun, end, i);
      assert mid[id].status.Opened?;
      OpenedUnchanged(stamp, obj, start, mid, begun, id);
      var chain :| JustifiedBy(types, begun, end, obj, inner, chain, i);
      ExtendedChain(types, obj, ts, start, begun, end, Link(id, t), chain, i, inner);
    }
  }

  lemma OpenedUnchanged(stamp: Stamp, obj: nat, start: Rows, mid: Rows, begun: Rows, id: nat)
    requires OnlyInvalidates(stamp, obj, start, mid)
    requires id in mid && id in begun && begun == mid[id := begun[id]] && !begun[id].status.Opened?
    ensures start.Keys == begun.Keys
    ensures forall j :: j in begun && begun[j].status.Opened? ==> start[j] == begun[j]
  {
  }

  lemma SingleLink(types: Types, obj: nat, ts: seq<Iface>, start: Rows, end: Rows, link: Link)
    requires IsLink(types, start, obj, link) && link.iface in ts && Exhausted(types, end, obj, link.iface)
    ensures Justified(types, start, end, obj, ts, link.id)
  {
    assert IsChain(types, start, obj, ts, [link], link.id);
    assert JustifiedBy(types, start, end, obj, ts, [link], link.id);
  }

  lemma ExtendedChain(types: Types, obj: nat, ts: seq<Iface>, start: Rows, begun: Rows, end: Rows, first: Link,
                      chain: seq<Link>, i: nat, inner: seq<Iface>)
    requires IsLink(types, start, obj, first) && first.iface in ts
    requires types.OnUpdate(first.iface, Opened, Invalidated) == Some(inner)
    requires JustifiedBy(types, begun, end, obj, inner, chain, i) && NoneOpened(types, end, obj, inner)
    requires start.Keys == begun.Keys
    requires forall j :: j in begun && begun[j].status.Opened? ==> start[j] == begun[j]
    ensures Justified(types, start, end, obj, ts, i)
  {
    ChainExtends(types, obj, ts, start, begun, first, chain, i, inner);
    var longer := [first] + chain;
    forall k | 0 <= k < |longer|
      ensures Exhausted(types, end, obj, longer[k].iface)
    {
      assert k > 0 ==> longer[k] == chain[k - 1];
    }
    assert JustifiedBy(types, start, end, obj, ts, longer, i);
  }

  /** What a nested update does, in the terms in which the enclosing loop speaks. */
  lemma NestedStep(types: Types, env: Env, obj: nat, ts: seq<Iface>, t: Iface, start: Rows, mid: Rows, end: Rows,
                   id: nat, p: UpdateParams, logReq: Option<nat>)
    requires Invalidates(p) && t in ts
    requires InProgress(types, StampOf(types, env, p, logReq), obj, ts, Why(p), start, mid)
    requires IsLink(types, start, obj, Link(id, t))
    requires id in mid && Refusal(types, env, mid, id, t, p, logReq).None?
    requires Cascaded(types, StampOf(types, env, p, logReq), mid[id].objectId, Roots(types, mid, id, t, p),
                      Start(types, env, mid, id, t, p, logReq), end)
    requires Swept(types, mid[id].objectId, Roots(types, mid, id, t, p), Start(types, env, mid, id, t, p, logReq), end)
    requires Reasoned(types, Start(types, env, mid, id, t, p, logReq), end, Roots(types, mid, id, t, p),
                      Some(DueTo(mid[id].typeName)))
    ensures RegistrarKnown(env, Registrar(p))
    ensures InProgress(types, StampOf(types, env, p, logReq), obj, ts, Why(p), start, end)
    ensures OnlyCloses(mid, end) && !end[id].status.Opened?
    ensures forall i :: i in mid && !mid[i].status.Opened? ==> end[i].status == mid[i].status
    ensures forall i :: i in start && !start[i].status.Opened? ==> !mid[i].status.Opened?
    ensures Open(end, obj) == Open(mid, obj) || ClosedBy(types, t, Open(mid, obj), Open(end, obj))
  {
    NestedUpdate(types, env, obj, ts, t, start, mid, end, id, p, logReq);
    NestedNumbers(types, env, obj, t, mid, end, id, p, logReq);
  }

  /** What a nested update does to the rows. */
  lemma NestedUpdate(types: Types, env: Env, obj: nat, ts: seq<Iface>, t: Iface, start: Rows, mid: Rows, end: Rows,
                     id: nat, p: UpdateParams, logReq: Option<nat>)
    requires Invalidates(p) && t in ts
    requires InProgress(types, StampOf(types, env, p, logReq), obj, ts, Why(p), start, mid)
    requires IsLink(types, start, obj, Link(id, t))
    requires id in mid && Refusal(types, env, mid, id, t, p, logReq).None?
    requires Cascaded(types, StampOf(types, env, p, logReq), obj, Roots(types, mid, id, t, p),
                      Start(types, env, mid, id, t, p, logReq), end)
    requires Reasoned(types, Start(types, env, mid, id, t, p, logReq), end, Roots(types, mid, id, t, p),
                      Some(DueTo(mid[id].typeName)))
    ensures InProgress(types, StampOf(types, env, p, logReq), obj, ts, Why(p), start, end)
    ensures OnlyCloses(mid, end)
    ensures !end[id].status.Opened?
    ensures forall i :: i in mid && !mid[i].status.Opened? ==> end[i].status == mid[i].status
  {
    RewrittenRow(types, env, t, start[id], mid[id], p, logReq);
    var begun := Start(types, env, mid, id, t, p, logReq);
    CascadeGrows(types, StampOf(types, env, p, logReq), obj, ts, t, start, mid, begun, end, id,
                 Roots(types, mid, id, t, p));
    NestedReasons(types, env, obj, ts, t, start, mid, end, id, p, logReq);
  }

  lemma NestedReasons(types: Types, env: Env, obj: nat, ts: seq<Iface>, t: Iface, start: Rows, mid: Rows, end: Rows,
                      id: nat, p: UpdateParams, logReq: Option<nat>)
    requires Invalidates(p) && t in ts && IsLink(types, start, obj, Link(id, t))
    requires OnlyInvalidates(StampOf(types, env, p, logReq), obj, start, mid) && Reasoned(types, start, mid, ts, Why(p))
    requires id in mid && Refusal(types, env, mid, id, t, p, logReq).None?
    requires OnlyInvalidates(StampOf(types, env, p, logReq), obj, Start(types, env, mid, id, t, p, logReq), end)
    requires Reasoned(types, Start(types, env, mid, id, t, p, logReq), end, Roots(types, mid, id, t, p),
                      Some(DueTo(mid[id].typeName)))
    ensures Reasoned(types, start, end, ts, Why(p))
  {
    var begun := Start(types, env, mid, id, t, p, logReq);
    assert begun[id].reason == if Why(p).Some? then Why(p) else mid[id].reason;
    ReasonsGrow(types, StampOf(types, env, p, logReq), obj, ts, Why(p), t, start, mid, begun, end, id,
                Roots(types, mid, id, t, p));
  }

  /** One more nested update gives its requests the reasons they should have, and leaves all others theirs. */
  lemma ReasonsGrow(types: Types, stamp: Stamp, obj: nat, ts: seq<Iface>, why: Option<string>, t: Iface, start: Rows,
                    mid: Rows, begun: Rows, end: Rows, id: nat, inner: seq<Iface>)
    requires t in ts && IsLink(types, start, obj, Link(id, t))
    requires OnlyInvalidates(stamp, obj, start, mid) && OnlyInvalidates(stamp, obj, begun, end)
    requires id in mid && id in begun && begun == mid[id := begun[id]] && begun[id].status.Invalidated?
    requires begun[id].reason == if why.Some? then why else mid[id].reason
    requires mid[id].status.Opened? ==> types.OnUpdate(t, Opened, Invalidated) == Some(inner)
    requires !mid[id].status.Opened? ==> inner == []
    requires Reasoned(types, start, mid, ts, why)
    requires Reasoned(types, begun, end, inner, Some(DueTo(mid[id].typeName)))
    ensures Reasoned(types, start, end, ts, why)
  {
    forall i | ClosedBetween(start, end, i)
      ensures ReasonOf(types, start, end, ts, why, i)
    {
      if i == id {
        ReasonOfRewritten(types, stamp, obj, ts, why, t, start, mid, end, id);
      } else if ClosedBetween(start, mid, i) {
        ReasonStays(types, ts, why, start, mid, end, i);
      } else {
        assert ClosedBetween(begun, end, i) && start[i] == begun[i];
        ReasonFromInner(types, ts, why, t, start, begun, end, id, inner, i);
      }
    }
  }

  /** The request the nested update names: a new reason, or the one it had. */
  lemma ReasonOfRewritten(types: Types, stamp: Stamp, obj: nat, ts: seq<Iface>, why: Option<string>, t: Iface,
                          start: Rows, mid: Rows, end: Rows, id: nat)
    requires t in ts && IsLink(types, start, obj, Link(id, t)) && OnlyInvalidates(stamp, obj, start, mid)
    requires id in mid && end.Keys == mid.Keys && end[id].reason == if why.Some? then why else mid[id].reason
    requires forall j :: j in mid && !mid[j].status.Opened? ==> !end[j].status.Opened?
    requires Reasoned(types, start, mid, ts, why)
    ensures ReasonOf(types, start, end, ts, why, id)
  {
    if why.None? && ClosedBetween(start, mid, id) {
      ReasonStays(types, ts, why, start, mid, end, id);
    }
  }

  lemma ReasonFromInner(types: Types, ts: seq<Iface>, why: Option<string>, t: Iface, start: Rows, begun: Rows,
                        end: Rows,
                        id: nat, inner: seq<Iface>, i: nat)
    requires ClosedBetween(start, end, id) && start[id].typeName == types.Name(t)
    requires inner != [] ==> types.OnUpdate(t, Opened, Invalidated) == Some(inner)
    requires start.Keys == begun.Keys && forall j :: j in begun && begun[j].status.Opened? ==> start[j] == begun[j]
    requires ClosedBetween(begun, end, i) && ReasonOf(types, begun, end, inner, Some(DueTo(start[id].typeName)), i)
    ensures ReasonOf(types, start, end, ts, why, i)
  {
    if l :| BlamedOn(types, begun, end, l, i) {
      assert BlamedOn(types, start, end, l, i);
    } else {
      assert BlamedOn(types, start, end, Link(id, t), i);
    }
  }

  lemma ReasonStays(types: Types, ts: seq<Iface>, why: Option<string>, start: Rows, mid: Rows, end: Rows, i: nat)
    requires mid.Keys == end.Keys && forall j :: j in mid && !mid[j].status.Opened? ==> !end[j].status.Opened?
    requires ReasonOf(types, start, mid, ts, why, i) && i in mid && end[i].reason == mid[i].reason
    ensures ReasonOf(types, start, end, ts, why, i)
  {
    if l :| BlamedOn(types, start, mid, l, i) {
      assert BlamedOn(types, start, end, l, i);
    }
  }

  /** What one nested update of a request of type `t` does to the numbers, if the request was opened. */
  ghost predicate ClosedBy(types: Types, t: Iface, cur: multiset<string>, next: multiset<string>) {
    var cancelled := types.OnUpdate(t, Opened, Invalidated);
    cancelled.Some? && ClosedOne(types, types.Name(t), cancelled.value, cur, next)
  }

  /** What the nested updates made so far of requests of type `t` have done to the numbers. */
  ghost predicate VisitedBy(types: Types, open: multiset<string>, t: Iface, cur: multiset<string>) {
    var cancelled := types.OnUpdate(t, Opened, Invalidated);
    cancelled.Some? && Visiting(types, open, types.Name(t), cancelled.value, cur)
  }

  /** How far the visit of the requests of type `t`, all selected in `selected`, has come; `todo` are left. */
  ghost predicate VisitingType(types: Types, obj: nat, t: Iface, selected: Rows, cur: Rows, todo: seq<nat>) {
    && OnlyCloses(selected, cur)
    && StillToVisit(types, cur, obj, t, todo)
    && (Open(cur, obj) == Open(selected, obj) || VisitedBy(types, Open(selected, obj), t, Open(cur, obj)))
  }

  lemma TypeBegins(types: Types, stamp: Stamp, obj: nat, t: Iface, start: Rows, selected: Rows, ids: seq<nat>)
    requires OnlyInvalidates(stamp, obj, start, selected)
    requires forall i :: i in ids <==> i in selected && selected[i].status.Opened? && selected[i].objectId == obj &&
                                       selected[i].typeName == types.Name(t)
    ensures VisitingType(types, obj, t, selected, selected, ids)
    ensures forall j :: 0 <= j < |ids| ==> IsLink(types, start, obj, Link(ids[j], t))
    ensures types.Name(t) in Open(selected, obj) <==> ids != []
  {
    OpenOrNot(selected, obj, types.Name(t));
    assert forall i :: i in ids <==> i in IdsOf(selected, obj, types.Name(t));
    assert forall j :: 0 <= j < |ids| ==> ids[j] in ids;
    if ids != [] {
      assert ids[0] in ids;
    }
  }

  lemma TypeGoesOn(types: Types, obj: nat, t: Iface, selected: Rows, mid: Rows, next: Rows, ids: seq<nat>, j: nat)
    requires j < |ids| && VisitingType(types, obj, t, selected, mid, ids[j..])
    requires OnlyCloses(mid, next) && ids[j] in next && !next[ids[j]].status.Opened?
    requires Open(next, obj) == Open(mid, obj) || ClosedBy(types, t, Open(mid, obj), Open(next, obj))
    ensures VisitingType(types, obj, t, selected, next, ids[j + 1..])
  {
    assert ids[j..] == [ids[j]] + ids[j + 1..];
    if Open(next, obj) != Open(mid, obj) {
      VisitGoesOn(types, Open(selected, obj), types.Name(t), types.OnUpdate(t, Opened, Invalidated).value,
                  Open(mid, obj), Open(next, obj));
    }
  }

  lemma TypeEnds(types: Types, obj: nat, t: Iface, selected: Rows, cur: Rows, todo: seq<nat>)
    requires VisitingType(types, obj, t, selected, cur, todo) && todo == []
    ensures StillToVisit(types, cur, obj, t, [])
    ensures Visit(types, Open(selected, obj), t) == Some(Open(cur, obj))
  {
    OpenOrNot(cur, obj, types.Name(t));
    if types.Name(t) in Open(selected, obj) {
      VisitEnds(types, Open(selected, obj), types.Name(t), types.OnUpdate(t, Opened, Invalidated).value,
                Open(cur, obj));
    }
  }

  /** What a batch has done to the numbers `open` of opened requests, by the updates of `affected`. */
  ghost predicate BatchSoFar(types: Types, env: Env, open: multiset<string>, cur: multiset<string>, t: Iface,
                             p: UpdateParams, logReq: Option<nat>, affected: seq<nat>)
    requires p.status.Some?
  {
    if affected == [] then cur == open
    else
      && ParamsOk(env, p, logReq) && types.OnUpdate(t, Opened, p.status.value).Some?
      && Visiting(types, open, types.Name(t), BatchRoots(types, t, p), cur)
  }

  /** What one update of a batch does to the numbers of opened requests. */
  lemma BatchNumbers(types: Types, env: Env, open: multiset<string>, mid: Tables, end: Tables, obj: nat, t: Iface,
                     p: UpdateParams, logReq: Option<nat>, affected: seq<nat>, id: nat)
    requires p.status.Some? && UpdateStep(types, env, mid, end, id, t, p, logReq)
    requires mid.rows[id].status.Opened? && mid.rows[id].objectId == obj && mid.rows[id].typeName == types.Name(t)
    requires BatchSoFar(types, env, open, Open(mid.rows, obj), t, p, logReq, affected)
    ensures BatchSoFar(types, env, open, Open(end.rows, obj), t, p, logReq, affected + [id])
  {
    ParamsLaw(env, p, logReq);
    RoundCloses(types, env, mid, end, obj, t, p, logReq, id);
    VisitGoesOn(types, open, types.Name(t), BatchRoots(types, t, p), Open(mid.rows, obj), Open(end.rows, obj));
  }

  /** When no opened request is found any more, the batch is complete. */
  lemma BatchEnds(types: Types, env: Env, a: Tables, b: Tables, obj: nat, t: Iface, p: UpdateParams,
                  logReq: Option<nat>, affected: seq<nat>)
    requires p.status.Some? && BatchSoFar(types, env, Open(a.rows, obj), Open(b.rows, obj), t, p, logReq, affected)
    requires ValidRows(b.rows, b.nextId)
    requires forall i :: i in b.rows && b.rows[i].objectId == obj && b.rows[i].typeName == types.Name(t) ==>
      b.rows[i].resolveTime.Some?
    requires obj in env.objects && types.Name(t) in env.typeNames
    requires InBatch(types, env, a.rows, b.rows, obj, t, p, logReq, affected)
    requires LettersStopped(a.messages, a.rows, b.rows, a.letters, b.letters)
    requires b.messages == a.messages && b.nextId == a.nextId
    ensures BatchStep(types, env, a, b, obj, t, p, logReq, affected)
    ensures MayBatch(types, env, a.rows, obj, t, p, logReq)
  {
    OpenOrNot(b.rows, obj, types.Name(t));
    VisitEnds(types, Open(a.rows, obj), types.Name(t), BatchRoots(types, t, p), Open(b.rows, obj));
  }

  /** The letters stopped by an update and by its cascade. */
  lemma UpdateLetters(types: Types, env: Env, a: Tables, start: Rows, startLetters: Letters, b: Tables, id: nat,
                      t: Iface, p: UpdateParams, logReq: Option<nat>)
    requires id in a.rows && start == Start(types, env, a.rows, id, t, p, logReq) && p.status != Some(Opened)
    requires OnlyInvalidates(StampOf(types, env, p, logReq), a.rows[id].objectId, start, b.rows)
    requires LettersStopped(a.messages, a.rows, start, a.letters, startLetters)
    requires LettersStopped(a.messages, start, b.rows, startLetters, b.letters)
    ensures LettersStopped(a.messages, a.rows, b.rows, a.letters, b.letters)
  {
    UpdatedStatus(a.rows[id], p, s => types.Action(t, s), logReq, env.now);
    LettersCompose(a.messages, a.rows, start, b.rows, a.letters, startLetters, b.letters);
  }

  lemma RoundCloses(types: Types, env: Env, mid: Tables, end: Tables, obj: nat, t: Iface, p: UpdateParams,
                    logReq: Option<nat>, id: nat)
    requires p.status.Some? && UpdateStep(types, env, mid, end, id, t, p, logReq)
    requires mid.rows[id].status.Opened? && mid.rows[id].objectId == obj && mid.rows[id].typeName == types.Name(t)
    ensures ClosedOne(types, types.Name(t), BatchRoots(types, t, p), Open(mid.rows, obj), Open(end.rows, obj))
  {
    var start := Start(types, env, mid.rows, id, t, p, logReq);
    UpdatedStatus(mid.rows[id], p, s => types.Action(t, s), logReq, env.now);
    CloseOne(mid.rows, start, obj, id);
    OpenOrNot(mid.rows, obj, types.Name(t));
    assert id in IdsOf(mid.rows, obj, types.Name(t));
  }

  /** What a nested update does to the numbers of opened requests: nothing, if the request was closed already. */
  lemma NestedNumbers(types: Types, env: Env, obj: nat, t: Iface, mid: Rows, end: Rows, id: nat, p: UpdateParams,
                      logReq: Option<nat>)
    requires Invalidates(p)
    requires id in mid && mid[id].objectId == obj && mid[id].typeName == types.Name(t) && !mid[id].status.Resolved?
    requires Refusal(types, env, mid, id, t, p, logReq).None?
    requires Swept(types, obj, Roots(types, mid, id, t, p), Start(types, env, mid, id, t, p, logReq), end)
    ensures Open(end, obj) == Open(mid, obj) || ClosedBy(types, t, Open(mid, obj), Open(end, obj))
  {
    var start := Start(types, env, mid, id, t, p, logReq);
    UpdatedStatus(mid[id], p, s => types.Action(t, s), logReq, env.now);
    if mid[id].status.Opened? {
      CloseOne(mid, start, obj, id);
      OpenOrNot(mid, obj, types.Name(t));
      assert id in IdsOf(mid, obj, types.Name(t));
    } else {
      RewriteClosed(mid, start, obj, id);
    }
  }

  /**
   A nested update fails only because the registrar is unknown, or because a type throws; then the request was
   still opened, and the numbers of opened requests alone decide that it fails.
   */
  lemma NestedFailure(types: Types, env: Env, obj: nat, t: Iface, start: Rows, mid: Rows, id: nat, p: UpdateParams,
                      logReq: Option<nat>, e: Error)
    requires Invalidates(p) && obj in env.objects
    requires OnlyInvalidates(StampOf(types, env, p, logReq), obj, start, mid)
    requires IsLink(types, start, obj, Link(id, t))
    requires UpdateFails(types, env, mid, id, t, p, logReq, e)
    ensures RegistrarKnown(env, Registrar(p)) ==> InnerThrow(types, e) && Throws(types, t, Open(mid, obj))
    ensures !RegistrarKnown(env, Registrar(p)) ==> e == BadRegistrar(Registrar(p))
  {
    if RegistrarKnown(env, Registrar(p)) {
      if mid[id].status.Opened? {
        OpenOrNot(mid, obj, types.Name(t));
        assert id in IdsOf(mid, obj, types.Name(t));
        CloseOne(mid, Start(types, env, mid, id, t, p, logReq), obj, id);
      } else {
        assert false;
      }
    }
  }

  /** The visit of the requests of one type fails at the first, or not at all. */
  lemma VisitThrows(types: Types, obj: nat, t: Iface, selected: Rows, cur: Rows, todo: seq<nat>)
    requires VisitingType(types, obj, t, selected, cur, todo)
    requires Throws(types, t, Open(cur, obj))
    ensures Visit(types, Open(selected, obj), t).None?
  {
    if Open(cur, obj) != Open(selected, obj) {
      SweepNothing(types, Open(cur, obj) - multiset{types.Name(t)}, types.OnUpdate(t, Opened, Invalidated).value);
      assert false;
    }
  }

  lemma SweepThrows(types: Types, obj: nat, ts: seq<Iface>, k: nat, start: Rows, mid: Rows)
    requires k < |ts| && SweptUpTo(types, obj, ts, k, start, mid) && Visit(types, Open(mid, obj), ts[k]).None?
    ensures Sweep(types, Open(start, obj), ts).None?
  {
    SweepOneMore(types, Open(start, obj), ts, k);
    SweepStaysNone(types, Open(start, obj), ts, k + 1);
  }

  /** An insertion after the cancellations completes the creation of a request. */
  lemma InsertionCreates(types: Types, env: Env, a: Tables, mid: Rows, b: Tables, obj: nat, t: Iface, id: nat,
                         row: Request)
    requires types.OnCreate(t).Some? && id == a.nextId && id !in mid
    requires Cascaded(types, CreateStamp(types, env, row), obj, types.OnCreate(t).value, a.rows, mid)
    requires Swept(types, obj, types.OnCreate(t).value, a.rows, mid)
    requires Reasoned(types, a.rows, mid, types.OnCreate(t).value, None)
    requires LettersStopped(a.messages, a.rows, mid, a.letters, b.letters)
    requires b.rows == mid[id := row] && b.nextId == id + 1 && b.messages == a.messages
    ensures CreateStep(types, env, a, b, obj, t, id, row)
    ensures ValidRows(a.rows, a.nextId) && row.status.Opened? && row.resolveTime.None? ==> ValidRows(b.rows, b.nextId)
  {
    assert b.rows - {id} == mid;
    if ValidRows(a.rows, a.nextId) {
      CascadeKeepsValid(CreateStamp(types, env, row), obj, a.rows, mid, a.nextId);
    }
  }

  lemma UpdateKeepsValid(types: Types, env: Env, a: Tables, b: Tables, id: nat, t: Iface, p: UpdateParams,
                         logReq: Option<nat>)
    requires ValidRows(a.rows, a.nextId)
    requires UpdateStep(types, env, a, b, id, t, p, logReq)
    ensures ValidRows(b.rows, b.nextId)
  {
    StartIsValid(types, env, a.rows, a.nextId, id, t, p, logReq);
    CascadeKeepsValid(StampOf(types, env, p, logReq), a.rows[id].objectId,
                      Start(types, env, a.rows, id, t, p, logReq), b.rows, a.nextId);
  }

  // ---------------------------------------------------------------- what the operations promise, column by column

  lemma UpdateHasOutcome(types: Types, env: Env, a: Tables, b: Tables, id: nat, t: Iface, p: UpdateParams,
                         logReq: Option<nat>)
    requires UpdateStep(types, env, a, b, id, t, p, logReq)
    ensures UpdateOutcome(types, env, a.rows, b.rows, id, t, p, logReq)
  {
    UpdateWrites(types, env, a.rows[id], t, p, logReq);
    if p.status.None? || p.status.value == a.rows[id].status {
      forall i | i in a.rows && i != id
        ensures b.rows[i] == a.rows[i]
      {
        NoRootsNothingClosed(types, a.rows[id].objectId, Start(types, env, a.rows, id, t, p, logReq), b.rows, i);
      }
    }
  }

  lemma NoRootsNothingClosed(types: Types, obj: nat, start: Rows, end: Rows, i: nat)
    requires AllJustified(types, start, end, obj, [])
    ensures !ClosedBetween(start, end, i)
  {
    assert !Justified(types, start, end, obj, [], i);
  }

  lemma CreationHasOutcome(types: Types, env: Env, a: Tables, b: Tables, obj: nat, t: Iface, id: nat, row: Request)
    requires ValidRows(a.rows, a.nextId) && CreateStep(types, env, a, b, obj, t, id, row)
    ensures CreationOutcome(types, env, a.rows, b.rows, obj, t, id, row)
  {
    var mid := b.rows - {id};
    assert id !in a.rows;
    assert forall i :: i in a.rows ==> i in mid && mid[i] == b.rows[i];
  }

  /** Exactly when the checks before the UPDATE statement let the parameters through. */
  lemma ParamsLaw(env: Env, p: UpdateParams, logReq: Option<nat>)
    ensures ParamsOk(env, p, logReq) <==>
      BadParamsOf(env, p, logReq).None? && !(p.status.Some? && p.onStatusAction.Some?)
  {
  }

  /** What the exception thrown by those checks names. */
  lemma BadParamsNames(env: Env, p: UpdateParams, logReq: Option<nat>)
    requires BadParamsOf(env, p, logReq).Some?
    ensures var e := BadParamsOf(env, p, logReq).value;
      && e.BadParams?
      && (e.badStatus == Some(Opened) <==> p.status == Some(Opened)) && e.badStatus in {None, Some(Opened)}
      && (forall x: nat :: e.unknownEmail == Some(x) <==> p.answerEmailId == Some(Some(x)) && x !in env.emails)
      && (forall x: nat :: e.unknownRegistrar == Some(x) <==> p.registrarId == Some(Some(x)) && x !in env.registrars)
      && (e.nothingToDo <==>
           p.status in {None, Some(Opened)} && logReq.None? &&
           p == UpdateParams(p.status, None, None, None, None, None))
  {
  }

  /** Exactly when an update of one request succeeds. */
  lemma UpdateLaw(types: Types, env: Env, rows: Rows, id: nat, t: Iface, p: UpdateParams, logReq: Option<nat>)
    ensures MayUpdate(types, env, rows, id, t, p, logReq) <==>
      && Refusal(types, env, rows, id, t, p, logReq).None? && id in rows
      && Sweep(types, Open(Start(types, env, rows, id, t, p, logReq), rows[id].objectId),
               Roots(types, rows, id, t, p)).Some?
  {
    ParamsLaw(env, p, logReq);
    if id in rows && p.status.Some? && p.status.value != Opened {
      var start := Start(types, env, rows, id, t, p, logReq);
      UpdatedStatus(rows[id], p, s => types.Action(t, s), logReq, env.now);
      OpenWithout(rows, start, rows[id].objectId, id);
    }
  }

  /** Exactly when the rounds of a batch succeed. */
  lemma BatchLaw(types: Types, env: Env, rows: Rows, obj: nat, t: Iface, p: UpdateParams, logReq: Option<nat>, e: Error)
    requires p.status.Some? && types.Name(t) in Open(rows, obj)
    requires RoundFails(types, env, Open(rows, obj), t, p, logReq, e)
    ensures !MayBatch(types, env, rows, obj, t, p, logReq)
  {
    ParamsLaw(env, p, logReq);
  }

  lemma StartIsValid(types: Types, env: Env, rows: Rows, nextId: nat, id: nat, t: Iface, p: UpdateParams,
                     logReq: Option<nat>)
    requires ValidRows(rows, nextId) && id in rows && Refusal(types, env, rows, id, t, p, logReq).None?
    ensures ValidRows(Start(types, env, rows, id, t, p, logReq), nextId)
  {
    assert p.status != Some(Opened);
  }

  lemma CascadeKeepsValid(stamp: Stamp, obj: nat, a: Rows, b: Rows, nextId: nat)
    requires ValidRows(a, nextId) && OnlyInvalidates(stamp, obj, a, b)
    ensures ValidRows(b, nextId)
  {
  }

  /** One more round of a batch update. */
  lemma BatchGrows(types: Types, env: Env, a: Rows, mid: Rows, end: Rows, obj: nat, t: Iface, p: UpdateParams,
                   logReq: Option<nat>, affected: seq<nat>, id: nat)
    requires p.status.Some?
    requires InBatch(types, env, a, mid, obj, t, p, logReq, affected)
    requires id in mid && mid[id].status.Opened? && mid[id].objectId == obj && mid[id].typeName == types.Name(t)
    requires Refusal(types, env, mid, id, t, p, logReq).None?
    requires Cascaded(types, StampOf(types, env, p, logReq), obj, Roots(types, mid, id, t, p),
                      Start(types, env, mid, id, t, p, logReq), end)
    requires Reasoned(types, Start(types, env, mid, id, t, p, logReq), end, Roots(types, mid, id, t, p),
                      Some(DueTo(types.Name(t))))
    ensures InBatch(types, env, a, end, obj, t, p, logReq, affected + [id])
    ensures |OpenedIds(end)| < |OpenedIds(mid)|
  {
    var start := Start(types, env, mid, id, t, p, logReq);
    var roots := BatchRoots(types, t, p);
    BatchStart(types, env, mid, obj, t, p, logReq, id);
    BatchRowsGrow(types, env, a, mid, start, end, obj, t, p, logReq, affected, id);
    BatchJustifiedGrows(types, StampOf(types, env, p, logReq), a, mid, start, end, obj, roots, affected, id);
    BatchReasonsGrow(types, StampOf(types, env, p, logReq), a, mid, start, end, obj, roots, DueTo(types.Name(t)),
                     affected, id);
    OneLessOpened(StampOf(types, env, p, logReq), obj, mid, start, end, id);
  }

  lemma BatchReasonsGrow(types: Types, stamp: Stamp, a: Rows, mid: Rows, start: Rows, end: Rows, obj: nat,
                         roots: seq<Iface>, why: string, affected: seq<nat>, id: nat)
    requires BatchReasoned(types, a, mid, roots, Some(why), affected) && OnlyCloses(a, mid)
    requires id in mid && id in start && start == mid[id := start[id]] && !start[id].status.Opened?
    requires OnlyInvalidates(stamp, obj, start, end) && Reasoned(types, start, end, roots, Some(why))
    ensures BatchReasoned(types, a, end, roots, Some(why), affected + [id])
  {
    forall i | ClosedBetween(a, end, i) && i !in affected + [id]
      ensures ReasonOf(types, a, end, roots, Some(why), i)
    {
      assert i !in affected && i != id;
      if ClosedBetween(a, mid, i) {
        ReasonStays(types, roots, Some(why), a, mid, end, i);
      } else {
        assert ClosedBetween(start, end, i) && a[i] == start[i];
        if l :| BlamedOn(types, start, end, l, i) {
          assert BlamedOn(types, a, end, l, i);
        }
      }
    }
  }

  /** The row that a round of the batch updates itself. */
  lemma BatchStart(types: Types, env: Env, mid: Rows, obj: nat, t: Iface, p: UpdateParams, logReq: Option<nat>, id: nat)
    requires p.status.Some?
    requires id in mid && mid[id].status.Opened? && mid[id].objectId == obj && mid[id].typeName == types.Name(t)
    requires Refusal(types, env, mid, id, t, p, logReq).None?
    ensures var start := Start(types, env, mid, id, t, p, logReq);
      && start == mid[id := start[id]] && p.status.value != Opened
      && BatchRow(types, env, mid[id], start[id], obj, t, p, logReq)
    ensures Roots(types, mid, id, t, p) == BatchRoots(types, t, p)
  {
    UpdateWrites(types, env, mid[id], t, p, logReq);
  }

  lemma OneLessOpened(stamp: Stamp, obj: nat, mid: Rows, start: Rows, end: Rows, id: nat)
    requires id in mid && mid[id].status.Opened? && id in start && start == mid[id := start[id]]
    requires !start[id].status.Opened?
    requires OnlyInvalidates(stamp, obj, start, end)
    ensures |OpenedIds(end)| < |OpenedIds(mid)|
  {
    SubsetSize(OpenedIds(end), OpenedIds(mid) - {id});
  }

  lemma BatchRound(types: Types, env: Env, a: Rows, la: Letters, mid: Tables, end: Tables, obj: nat, t: Iface,
                   p: UpdateParams, logReq: Option<nat>, affected: seq<nat>, id: nat)
    requires ValidRows(mid.rows, mid.nextId) && p.status.Some?
    requires InBatch(types, env, a, mid.rows, obj, t, p, logReq, affected)
    requires LettersStopped(mid.messages, a, mid.rows, la, mid.letters)
    requires id in mid.rows && mid.rows[id].status.Opened? && mid.rows[id].objectId == obj
    requires mid.rows[id].typeName == types.Name(t)
    requires UpdateStep(types, env, mid, end, id, t, p, logReq)
    ensures ValidRows(end.rows, end.nextId)
    ensures InBatch(types, env, a, end.rows, obj, t, p, logReq, affected + [id])
    ensures LettersStopped(mid.messages, a, end.rows, la, end.letters)
    ensures |OpenedIds(end.rows)| < |OpenedIds(mid.rows)|
  {
    UpdateKeepsValid(types, env, mid, end, id, t, p, logReq);
    BatchGrows(types, env, a, mid.rows, end.rows, obj, t, p, logReq, affected, id);
    ClosedStaysClosed(types, env, a, mid.rows, obj, t, p, logReq, affected);
    RoundLetters(types, env, a, la, mid, end, t, p, logReq, id);
  }

  lemma ClosedStaysClosed(types: Types, env: Env, a: Rows, mid: Rows, obj: nat, t: Iface, p: UpdateParams,
                          logReq: Option<nat>, affected: seq<nat>)
    requires BatchRows(types, env, a, mid, obj, t, p, logReq, affected)
    ensures a.Keys == mid.Keys && forall i :: i in a && !a[i].status.Opened? ==> !mid[i].status.Opened?
  {
  }

  lemma RoundLetters(types: Types, env: Env, a: Rows, la: Letters, mid: Tables, end: Tables, t: Iface, p: UpdateParams,
                     logReq: Option<nat>, id: nat)
    requires a.Keys == mid.rows.Keys && forall i :: i in a && !a[i].status.Opened? ==> !mid.rows[i].status.Opened?
    requires LettersStopped(mid.messages, a, mid.rows, la, mid.letters)
    requires id in mid.rows && mid.rows[id].status.Opened?
    requires UpdateStep(types, env, mid, end, id, t, p, logReq)
    ensures LettersStopped(mid.messages, a, end.rows, la, end.letters)
  {
    ClosedStaysAsItIs(types, env, mid.rows, end.rows, id, t, p, logReq);
    LettersCompose(mid.messages, a, mid.rows, end.rows, la, mid.letters, end.letters);
  }

  /** An update of an opened request changes the status of no closed one. */
  lemma ClosedStaysAsItIs(types: Types, env: Env, mid: Rows, end: Rows, id: nat, t: Iface, p: UpdateParams,
                          logReq: Option<nat>)
    requires id in mid && mid[id].status.Opened?
    requires Cascaded(types, StampOf(types, env, p, logReq), mid[id].objectId, Roots(types, mid, id, t, p),
                      Start(types, env, mid, id, t, p, logReq), end)
    ensures forall i :: i in mid && !mid[i].status.Opened? ==> i in end && end[i].status == mid[i].status
  {
    var start := Start(types, env, mid, id, t, p, logReq);
    assert forall i :: i in mid && !mid[i].status.Opened? ==> start[i] == mid[i];
  }

  /** A round of a batch fails only for what all rounds have in common, so that the first fails or none. */
  lemma RoundFailure(types: Types, env: Env, a: Rows, rows: Rows, obj: nat, id: nat, t: Iface, p: UpdateParams,
                     logReq: Option<nat>, affected: seq<nat>, e: Error)
    requires p.status.Some? && obj in env.objects
    requires id in rows && rows[id].status.Opened? && rows[id].objectId == obj && rows[id].typeName == types.Name(t)
    requires BatchSoFar(types, env, Open(a, obj), Open(rows, obj), t, p, logReq, affected)
    requires UpdateFails(types, env, rows, id, t, p, logReq, e)
    ensures RoundFails(types, env, Open(a, obj), t, p, logReq, e) && types.Name(t) in Open(a, obj)
    ensures !MayBatch(types, env, a, obj, t, p, logReq) && e != NoRequestFound
  {
    RoundRefusal(types, env, rows, obj, id, t, p, logReq, e);
    if affected != [] {
      ParamsLaw(env, p, logReq);
      SweepNothing(types, Open(rows, obj) - multiset{types.Name(t)}, BatchRoots(types, t, p));
      assert false;
    }
    BatchLaw(types, env, a, obj, t, p, logReq, e);
  }

  lemma RoundRefusal(types: Types, env: Env, rows: Rows, obj: nat, id: nat, t: Iface, p: UpdateParams,
                     logReq: Option<nat>, e: Error)
    requires p.status.Some? && obj in env.objects
    requires id in rows && rows[id].status.Opened? && rows[id].objectId == obj && rows[id].typeName == types.Name(t)
    requires UpdateFails(types, env, rows, id, t, p, logReq, e)
    ensures RoundFails(types, env, Open(rows, obj), t, p, logReq, e) && types.Name(t) in Open(rows, obj)
    ensures e != NoRequestFound
  {
    OpenOrNot(rows, obj, types.Name(t));
    assert id in IdsOf(rows, obj, types.Name(t));
    if Refusal(types, env, rows, id, t, p, logReq).None? {
      UpdatedStatus(rows[id], p, s => types.Action(t, s), logReq, env.now);
      CloseOne(rows, Start(types, env, rows, id, t, p, logReq), obj, id);
    }
  }

  lemma BatchRowsGrow(types: Types, env: Env, a: Rows, mid: Rows, start: Rows, end: Rows, obj: nat, t: Iface,
                      p: UpdateParams, logReq: Option<nat>, affected: seq<nat>, id: nat)
    requires p.status.Some? && p.status.value != Opened
    requires BatchRows(types, env, a, mid, obj, t, p, logReq, affected)
    requires id in mid && id in start && start == mid[id := start[id]]
    requires BatchRow(types, env, mid[id], start[id], obj, t, p, logReq)
    requires OnlyInvalidates(StampOf(types, env, p, logReq), obj, start, end)
    ensures BatchRows(types, env, a, end, obj, t, p, logReq, affected + [id])
    ensures id !in affected
  {
    assert id !in affected;
    forall i | i in affected
      ensures end[i] == mid[i]
    {
    }
    assert end[id] == start[id] && a[id] == mid[id];
  }

  lemma BatchJustifiedGrows(types: Types, stamp: Stamp, a: Rows, mid: Rows, start: Rows, end: Rows, obj: nat,
                            roots: seq<Iface>, affected: seq<nat>, id: nat)
    requires BatchJustified(types, a, mid, obj, roots, affected)
    requires id in mid && id in start && start == mid[id := start[id]] && !start[id].status.Opened?
    requires OnlyCloses(a, mid)
    requires Cascaded(types, stamp, obj, roots, start, end)
    ensures BatchJustified(types, a, end, obj, roots, affected + [id])
  {
    forall i | ClosedBetween(a, end, i) && i !in affected + [id]
      ensures Justified(types, a, end, obj, roots, i)
    {
      assert i !in affected;
      if ClosedBetween(a, mid, i) {
        var chain :| JustifiedBy(types, a, mid, obj, roots, chain, i);
        JustifiedLater(types, a, mid, end, obj, roots, chain, i);
      } else {
        assert ClosedBetween(start, end, i);
        var chain :| JustifiedBy(types, start, end, obj, roots, chain, i);
        JustifiedEarlier(types, a, start, end, obj, roots, chain, i);
      }
    }
  }

  lemma JustifiedLater(types: Types, a: Rows, mid: Rows, end: Rows, obj: nat, roots: seq<Iface>, chain: seq<Link>,
                       i: nat)
    requires JustifiedBy(types, a, mid, obj, roots, chain, i)
    requires forall j :: j in end && end[j].status.Opened? ==> j in mid && mid[j] == end[j]
    ensures Justified(types, a, end, obj, roots, i)
  {
    assert JustifiedBy(types, a, end, obj, roots, chain, i);
  }

  lemma JustifiedEarlier(types: Types, a: Rows, start: Rows, end: Rows, obj: nat, roots: seq<Iface>, chain: seq<Link>,
                         i: nat)
    requires JustifiedBy(types, start, end, obj, roots, chain, i)
    requires forall j :: j in start && start[j].status.Opened? ==> j in a && a[j] == start[j]
    ensures Justified(types, a, end, obj, roots, i)
  {
    assert forall k :: 0 <= k < |chain| ==> IsLink(types, start, obj, chain[k]) && IsLink(types, a, obj, chain[k]);
    assert JustifiedBy(types, a, end, obj, roots, chain, i);
  }
}
