/**
 The chains of blocks that the two loops of a restore follow back. Blocks follow one another in time, but
 some may begin together; the queries then may return them in any order, and the loops may miss the
 beginning of the chain.
 */
module ObjectStateChain {
  import opened Prelude
  import opened ObjectStateModel
  import opened ObjectStateTimeline

  /** The blocks of `obj` follow one another in time, but two may begin together. */
  ghost predicate Orderly(held: seq<Held>, obj: nat) {
    && (forall i :: IsBlock(held, i, obj) && held[i].validTo.Some? ==> held[i].validFrom <= held[i].validTo.value)
    && forall i, j :: IsBlock(held, i, obj) && IsBlock(held, j, obj) && i < j ==>
         Reached(held[i].validTo, held[j].validFrom) && held[i].validFrom <= held[j].validFrom
  }

  /** The blocks of `obj` follow one another in time, and no two begin together. */
  ghost predicate Timeline(held: seq<Held>, obj: nat) {
    && Orderly(held, obj)
    && forall i, j :: IsBlock(held, i, obj) && IsBlock(held, j, obj) && i < j ==> held[i].validFrom < held[j].validFrom
  }

  ghost predicate NoneAhead(held: seq<Held>, obj: nat, now: int) {
    forall i :: IsBlock(held, i, obj) ==> held[i].validFrom <= now
  }

  /** Block `q` began together with another one. */
  ghost predicate Tied(held: seq<Held>, obj: nat, q: nat) {
    exists t :: IsBlock(held, t, obj) && IsBlock(held, q, obj) && t != q && held[t].validFrom == held[q].validFrom
  }

  /** On the chain of blocks up to `now`, a block that another one continues began together with a third. */
  ghost predicate TieContinued(held: seq<Held>, obj: nat, now: int) {
    exists chain, k :: BackToBack(held, obj, now, chain) && 0 < k < |chain| && Tied(held, obj, chain[k])
  }

  lemma TimelineHasNoTies(held: seq<Held>, obj: nat, now: int)
    requires Timeline(held, obj)
    ensures !TieContinued(held, obj, now)
  {
    forall q: nat
      ensures !Tied(held, obj, q)
    {
    }
  }

  // ---------------------------------------------------------------- predecessors

  /** A block has at most one predecessor, and so have all blocks that begin with it. */
  lemma OnePredecessor(held: seq<Held>, obj: nat, i: nat, j: nat, m: nat, n: nat)
    requires Orderly(held, obj) && Precedes(held, obj, i, m) && Precedes(held, obj, j, n)
    requires held[m].validFrom == held[n].validFrom
    ensures i == j && Precedes(held, obj, i, n)
  {
  }

  /** No block begins between a block and its predecessor. */
  lemma NoneBetween(held: seq<Held>, obj: nat, q: nat, i: nat, x: nat)
    requires Orderly(held, obj) && Precedes(held, obj, q, i) && IsBlock(held, x, obj)
    requires held[x].validFrom < held[i].validFrom
    ensures held[x].validFrom <= held[q].validFrom
  {
  }

  lemma PredecessorIsLatest(held: seq<Held>, obj: nat, q: nat, i: nat)
    requires Orderly(held, obj) && Precedes(held, obj, q, i)
    ensures LatestBefore(held, obj, q, i) && MayFollowUp(held, obj, i)
  {
    forall k: nat | IsBlock(held, k, obj) && held[k].validFrom < held[i].validFrom
      ensures held[k].validFrom <= held[q].validFrom
    {
      NoneBetween(held, obj, q, i, k);
    }
    assert LatestBefore(held, obj, q, i);
  }

  /** The query can miss the predecessor of a block exactly if another block began together with that. */
  lemma MissedIfTied(held: seq<Held>, obj: nat, q: nat, i: nat)
    requires Orderly(held, obj) && Precedes(held, obj, q, i)
    ensures MayBegin(held, obj, i) <==> Tied(held, obj, q)
  {
    PredecessorIsLatest(held, obj, q, i);
    if MayBegin(held, obj, i) {
      var j :| LatestBefore(held, obj, j, i) && held[j].validTo != Some(held[i].validFrom);
      assert held[j].validFrom == held[q].validFrom && j != q;
    }
    if Tied(held, obj, q) {
      var t :| IsBlock(held, t, obj) && t != q && held[t].validFrom == held[q].validFrom;
      assert LatestBefore(held, obj, t, i);
      assert held[t].validTo != Some(held[i].validFrom);
    }
  }

  // ---------------------------------------------------------------- chains

  /** A path back through blocks each of which ended when the next began. */
  ghost predicate IsPath(held: seq<Held>, obj: nat, path: seq<nat>) {
    0 < |path| && IsBlock(held, path[0], obj) && forall k :: 0 < k < |path| ==> Adjoins(held, obj, path, k)
  }

  lemma OnPath(held: seq<Held>, obj: nat, path: seq<nat>, k: nat)
    requires IsPath(held, obj, path) && k < |path|
    ensures IsBlock(held, path[k], obj)
    ensures k > 0 ==> Precedes(held, obj, path[k], path[k - 1])
  {
    assert k > 0 ==> Adjoins(held, obj, path, k);
  }

  lemma PathGrows(held: seq<Held>, obj: nat, first: nat, path: seq<nat>)
    requires IsPath(held, obj, path) && Precedes(held, obj, path[0], first)
    ensures IsPath(held, obj, [first] + path)
  {
    var longer := [first] + path;
    forall k | 0 < k < |longer|
      ensures Adjoins(held, obj, longer, k)
    {
      assert k > 1 ==> Adjoins(held, obj, path, k - 1);
    }
  }

  lemma ChainGrows(held: seq<Held>, obj: nat, now: int, chain: seq<nat>, next: nat)
    requires BackToBack(held, obj, now, chain) && Precedes(held, obj, next, chain[|chain| - 1])
    ensures BackToBack(held, obj, now, chain + [next])
  {
    var longer := chain + [next];
    forall k | 0 < k < |longer|
      ensures Adjoins(held, obj, longer, k)
    {
      assert k < |chain| ==> Adjoins(held, obj, chain, k);
    }
  }

  lemma {:induction false} PathGoesBack(held: seq<Held>, obj: nat, path: seq<nat>, i: nat, k: nat)
    requires IsPath(held, obj, path) && i <= k < |path|
    ensures IsBlock(held, path[i], obj) && IsBlock(held, path[k], obj)
    ensures held[path[k]].validFrom <= held[path[i]].validFrom
    ensures i < k ==> held[path[k]].validFrom < held[path[i]].validFrom && HasPredecessor(held, obj, path[i])
    decreases k - i
  {
    OnPath(held, obj, path, i);
    if i < k {
      PathGoesBack(held, obj, path, i + 1, k);
      OnPath(held, obj, path, i + 1);
    }
  }

  /** A path back that cannot be continued passes through all instants of any path from the same instant. */
  lemma {:induction false} PathsAgree(held: seq<Held>, obj: nat, path: seq<nat>, other: seq<nat>, k: nat)
    requires Orderly(held, obj) && IsPath(held, obj, path) && IsPath(held, obj, other)
    requires held[path[0]].validFrom == held[other[0]].validFrom
    requires !HasPredecessor(held, obj, path[|path| - 1]) && k < |other|
    ensures k < |path| && IsBlock(held, path[k], obj) && IsBlock(held, other[k], obj)
    ensures held[path[k]].validFrom == held[other[k]].validFrom
  {
    if k > 0 {
      PathsAgree(held, obj, path, other, k - 1);
      OnPath(held, obj, other, k);
      assert Precedes(held, obj, other[k], path[k - 1]);
      assert k < |path|;
      OnPath(held, obj, path, k);
      OnePredecessor(held, obj, path[k], other[k], path[k - 1], other[k - 1]);
    }
  }

  /** Two blocks can be current only together: they begin together, or the one follows up the other now. */
  lemma CurrentBlocks(held: seq<Held>, obj: nat, now: int, i: nat, j: nat)
    requires Orderly(held, obj) && NoneAhead(held, obj, now)
    requires IsBlock(held, i, obj) && IsBlock(held, j, obj) && IsCurrent(held[i], now) && IsCurrent(held[j], now)
    ensures held[i].validFrom == held[j].validFrom || Precedes(held, obj, i, j) || Precedes(held, obj, j, i)
  {
  }

  /** `start` does not begin after `k`, and together with it exactly if nothing precedes `k`. */
  ghost predicate MeetsEnd(held: seq<Held>, obj: nat, start: nat, k: nat) {
    && IsBlock(held, k, obj) && IsBlock(held, start, obj) && held[start].validFrom <= held[k].validFrom
    && (held[start].validFrom == held[k].validFrom <==> !HasPredecessor(held, obj, k))
  }

  lemma OnTheWay(held: seq<Held>, obj: nat, whole: seq<nat>, part: seq<nat>)
    requires Orderly(held, obj) && IsPath(held, obj, whole) && IsPath(held, obj, part)
    requires held[whole[0]].validFrom == held[part[0]].validFrom
    requires !HasPredecessor(held, obj, whole[|whole| - 1])
    ensures MeetsEnd(held, obj, whole[|whole| - 1], part[|part| - 1])
  {
    PathsAgree(held, obj, whole, part, |part| - 1);
    PathGoesBack(held, obj, whole, |part| - 1, |whole| - 1);
    Together(held, obj, part[|part| - 1], whole[|part| - 1]);
  }

  /** Blocks that begin together have the same predecessor, or none. */
  lemma Together(held: seq<Held>, obj: nat, i: nat, j: nat)
    requires IsBlock(held, i, obj) && IsBlock(held, j, obj) && held[i].validFrom == held[j].validFrom
    ensures HasPredecessor(held, obj, i) <==> HasPredecessor(held, obj, j)
  {
    if q: nat :| Precedes(held, obj, q, i) {
      assert Precedes(held, obj, q, j);
    }
    if q: nat :| Precedes(held, obj, q, j) {
      assert Precedes(held, obj, q, i);
    }
  }

  /** Every block of a chain that reaches up to now lies on the way back to where the chain starts. */
  lemma StartIsBehind(held: seq<Held>, obj: nat, now: int, k: nat, start: nat)
    requires Orderly(held, obj) && NoneAhead(held, obj, now)
    requires LastsSince(held, obj, now, k) && IsChainStart(held, obj, now, start)
    ensures IsBlock(held, k, obj) && IsBlock(held, start, obj) && held[start].validFrom <= held[k].validFrom
    ensures held[start].validFrom == held[k].validFrom <==> !HasPredecessor(held, obj, k)
  {
    var part :| BackToBack(held, obj, now, part) && EndsTogether(held, obj, part, k);
    var whole :| BackToBack(held, obj, now, whole) && EndsTogether(held, obj, whole, start);
    Together(held, obj, k, part[|part| - 1]);
    Together(held, obj, start, whole[|whole| - 1]);
    ChainsMeet(held, obj, now, whole, part);
  }

  lemma ChainsMeet(held: seq<Held>, obj: nat, now: int, whole: seq<nat>, part: seq<nat>)
    requires Orderly(held, obj) && NoneAhead(held, obj, now)
    requires BackToBack(held, obj, now, whole) && BackToBack(held, obj, now, part)
    requires !HasPredecessor(held, obj, whole[|whole| - 1])
    ensures MeetsEnd(held, obj, whole[|whole| - 1], part[|part| - 1])
  {
    CurrentBlocks(held, obj, now, part[0], whole[0]);
    if held[part[0]].validFrom == held[whole[0]].validFrom {
      OnTheWay(held, obj, whole, part);
    } else if Precedes(held, obj, part[0], whole[0]) {
      PathGrows(held, obj, whole[0], part);
      OnTheWay(held, obj, whole, [whole[0]] + part);
    } else {
      PathGrows(held, obj, part[0], whole);
      OnTheWay(held, obj, [part[0]] + whole, part);
    }
  }

  // ---------------------------------------------------------------- the two loops

  /** After a row that follows up another comes one that begins with it, or with its predecessor. */
  lemma NextRow(held: seq<Held>, obj: nat, history: seq<nat>, k: nat) returns (r: nat)
    requires Orderly(held, obj) && IsHistory(held, obj, history) && 0 < k < |history|
    requires MayFollowUp(held, obj, history[k - 1])
    ensures IsBlock(held, history[k], obj) && Precedes(held, obj, r, history[k - 1])
    ensures held[history[k]].validFrom in {held[history[k - 1]].validFrom, held[r].validFrom}
  {
    var last, x := history[k - 1], history[k];
    r :| LatestBefore(held, obj, r, last) && held[r].validTo == Some(held[last].validFrom);
    assert r in history && last in history && x in history;
  }

  /** The chain up to now that ends with `last` also goes back to where its predecessor begins. */
  lemma LastsLonger(held: seq<Held>, obj: nat, now: int, last: nat, r: nat, x: nat)
    requires LastsSince(held, obj, now, last) && Precedes(held, obj, r, last) && IsBlock(held, x, obj)
    requires held[x].validFrom in {held[last].validFrom, held[r].validFrom}
    ensures LastsSince(held, obj, now, x)
  {
    var chain :| BackToBack(held, obj, now, chain) && EndsTogether(held, obj, chain, last);
    if held[x].validFrom == held[last].validFrom {
      assert EndsTogether(held, obj, chain, x);
    } else {
      ChainGrows(held, obj, now, chain, r);
      assert EndsTogether(held, obj, chain + [r], x);
    }
  }

  /** Every row the second loop comes to begins on the chain. */
  lemma {:induction false} SeekReaches(held: seq<Held>, obj: nat, now: int, history: seq<nat>, p: nat, q: nat, k: nat)
    requires Orderly(held, obj) && StopsAt(held, obj, now, history, p, q) && p <= k <= q
    ensures LastsSince(held, obj, now, history[k])
    decreases k
  {
    if k == p {
      assert history[p] in history;
      assert BackToBack(held, obj, now, [history[p]]) && EndsTogether(held, obj, [history[p]], history[p]);
    } else {
      SeekReaches(held, obj, now, history, p, q, k - 1);
      assert MayFollowUp(held, obj, history[k - 1]);
      var r := NextRow(held, obj, history, k);
      LastsLonger(held, obj, now, history[k - 1], r, history[k]);
    }
  }

  /** A row on the chain that may pass for its beginning though it has a predecessor: the predecessor is tied. */
  lemma MissedOnChain(held: seq<Held>, obj: nat, now: int, start: nat)
    requires Orderly(held, obj) && LastsSince(held, obj, now, start) && HasPredecessor(held, obj, start)
    requires start < |held| && MayBegin(held, obj, start)
    ensures TieContinued(held, obj, now)
  {
    var r: nat :| Precedes(held, obj, r, start);
    var chain :| BackToBack(held, obj, now, chain) && EndsTogether(held, obj, chain, start);
    MissedIfTied(held, obj, r, start);
    ChainGrows(held, obj, now, chain, r);
    assert Tied(held, obj, (chain + [r])[|chain|]);
  }

  /** A row at which the loops stop begins on the chain: either where that starts, or with a predecessor. */
  lemma SeekMayStay(held: seq<Held>, obj: nat, now: int, start: nat)
    requires Orderly(held, obj) && Found(held, obj, now, start)
    ensures LastsSince(held, obj, now, start)
    ensures IsChainStart(held, obj, now, start) <==> !HasPredecessor(held, obj, start)
  {
    var history, p, q :| StopsAt(held, obj, now, history, p, q) && history[q] == start;
    SeekReaches(held, obj, now, history, p, q, q);
  }

  /** Unless the chain passes a tie, the loops stop where it begins, whatever the queries return. */
  lemma SeekIsRight(held: seq<Held>, obj: nat, now: int, start: nat)
    requires Orderly(held, obj) && Found(held, obj, now, start) && !TieContinued(held, obj, now)
    ensures IsChainStart(held, obj, now, start)
  {
    SeekMayStay(held, obj, now, start);
    if HasPredecessor(held, obj, start) {
      MissedOnChain(held, obj, now, start);
    }
  }

  lemma {:induction false} SomeHistory(held: seq<Held>, rows: set<int>) returns (history: seq<nat>)
    requires forall i :: i in rows ==> 0 <= i < |held|
    ensures forall i :: i in history <==> i in rows
    ensures LatestFirst(held, history)
  {
    if x :| x in rows {
      LatestExists(held, rows, x);
      var i :| i in rows && forall j :: j in rows ==> held[j].validFrom <= held[i].validFrom;
      var rest := SomeHistory(held, rows - {i});
      history := [i] + rest;
      assert forall k :: 0 <= k < |rest| ==> rest[k] in rest;
    } else {
      history := [];
    }
  }

  /** A block that begins on a path, but after its end, has a predecessor. */
  lemma {:induction false} BeforeTheEnd(held: seq<Held>, obj: nat, path: seq<nat>, k: nat, x: nat)
    requires Orderly(held, obj) && IsPath(held, obj, path) && k < |path| && IsBlock(held, x, obj)
    requires IsBlock(held, path[k], obj) && held[path[k]].validFrom < held[x].validFrom <= held[path[0]].validFrom
    ensures HasPredecessor(held, obj, x)
  {
    OnPath(held, obj, path, k);
    OnPath(held, obj, path, k - 1);
    if held[path[k - 1]].validFrom < held[x].validFrom {
      BeforeTheEnd(held, obj, path, k - 1, x);
    } else if held[x].validFrom < held[path[k - 1]].validFrom {
      NoneBetween(held, obj, path[k], path[k - 1], x);
    } else {
      assert Precedes(held, obj, path[k], x);
    }
  }

  lemma HistoryExists(held: seq<Held>, obj: nat) returns (history: seq<nat>)
    ensures IsHistory(held, obj, history)
  {
    history := SomeHistory(held, set i | 0 <= i < |held| && IsBlock(held, i, obj));
  }

  lemma RowIsBlock(held: seq<Held>, obj: nat, history: seq<nat>, k: nat)
    requires IsHistory(held, obj, history) && k < |history|
    ensures IsBlock(held, history[k], obj)
  {
    assert history[k] in history;
  }

  lemma PositionOf(held: seq<Held>, obj: nat, history: seq<nat>, x: nat) returns (at: nat)
    requires IsHistory(held, obj, history) && IsBlock(held, x, obj)
    ensures at < |history| && history[at] == x
  {
    assert x in history;
    at :| 0 <= at < |history| && history[at] == x;
  }

  /** If the chain passes a tie, the loops may stop at a row that does follow up another. */
  lemma SeekCanFail(held: seq<Held>, obj: nat, now: int) returns (start: nat)
    requires Orderly(held, obj) && NoneAhead(held, obj, now) && TieContinued(held, obj, now)
    ensures Found(held, obj, now, start) && HasPredecessor(held, obj, start)
  {
    var chain, k :| BackToBack(held, obj, now, chain) && 0 < k < |chain| && Tied(held, obj, chain[k]);
    start := SeekFailsAt(held, obj, now, chain, k);
  }

  lemma SeekFailsAt(held: seq<Held>, obj: nat, now: int, chain: seq<nat>, k: nat) returns (start: nat)
    requires Orderly(held, obj) && NoneAhead(held, obj, now)
    requires BackToBack(held, obj, now, chain) && 0 < k < |chain| && Tied(held, obj, chain[k])
    ensures Found(held, obj, now, start) && HasPredecessor(held, obj, start)
  {
    OnPath(held, obj, chain, k);
    PathGoesBack(held, obj, chain, 0, k - 1);
    var history := HistoryExists(held, obj);
    var p := FirstCurrent(held, obj, now, history, chain[0]);
    var q := FirstFrom(held, obj, now, history, p, chain, k - 1);
    StopsThere(held, obj, now, history, p, q, chain[k], chain[k - 1]);
    start := history[q];
  }

  lemma StopsThere(held: seq<Held>, obj: nat, now: int, history: seq<nat>, p: nat, q: nat, tied: nat, m: nat)
    requires Orderly(held, obj) && IsHistory(held, obj, history) && p <= q < |history|
    requires IsCurrent(held[history[p]], now) && forall k :: 0 <= k < p ==> !IsCurrent(held[history[k]], now)
    requires forall l :: p <= l < q ==> HasPredecessor(held, obj, history[l])
    requires Precedes(held, obj, tied, m) && Tied(held, obj, tied) && held[history[q]].validFrom == held[m].validFrom
    ensures Found(held, obj, now, history[q]) && HasPredecessor(held, obj, history[q])
  {
    RowIsBlock(held, obj, history, q);
    assert Precedes(held, obj, tied, history[q]);
    MissedIfTied(held, obj, tied, history[q]);
    forall l | p <= l < q
      ensures MayFollowUp(held, obj, history[l])
    {
      var r: nat :| Precedes(held, obj, r, history[l]);
      PredecessorIsLatest(held, obj, r, history[l]);
    }
    assert StopsAt(held, obj, now, history, p, q);
  }

  lemma FirstCurrent(held: seq<Held>, obj: nat, now: int, history: seq<nat>, x: nat) returns (p: nat)
    requires IsHistory(held, obj, history) && IsBlock(held, x, obj) && IsCurrent(held[x], now)
    ensures p < |history| && IsCurrent(held[history[p]], now) && held[x].validFrom <= held[history[p]].validFrom
    ensures forall k :: 0 <= k < p ==> !IsCurrent(held[history[k]], now)
  {
    var l := PositionOf(held, obj, history, x);
    p := 0;
    while !IsCurrent(held[history[p]], now)
      invariant p <= l
      invariant forall k :: 0 <= k < p ==> !IsCurrent(held[history[k]], now)
      decreases l - p
    {
      p := p + 1;
    }
  }

  /** Blocks that begin after row `k` of the chain, but not after a current block ahead of it, have predecessors. */
  lemma AfterRow(held: seq<Held>, obj: nat, now: int, chain: seq<nat>, k: nat, first: nat, x: nat)
    requires Orderly(held, obj) && NoneAhead(held, obj, now) && BackToBack(held, obj, now, chain) && k < |chain|
    requires IsBlock(held, first, obj) && IsCurrent(held[first], now) && IsBlock(held, x, obj)
    requires IsBlock(held, chain[k], obj) && held[chain[0]].validFrom <= held[first].validFrom
    requires held[chain[k]].validFrom < held[x].validFrom <= held[first].validFrom
    ensures HasPredecessor(held, obj, x)
  {
    CurrentBlocks(held, obj, now, chain[0], first);
    if held[chain[0]].validFrom == held[first].validFrom {
      BeforeTheEnd(held, obj, chain, k, x);
    } else {
      PathGrows(held, obj, first, chain);
      BeforeTheEnd(held, obj, [first] + chain, k + 1, x);
    }
  }

  lemma EarlierRow(held: seq<Held>, history: seq<nat>, k: nat, l: nat)
    requires LatestFirst(held, history) && k < |history| && l < |history|
    requires held[history[l]].validFrom < held[history[k]].validFrom
    ensures k < l
  {
  }

  /**
   From the first current row on, the rows up to the first that begins with row `k` of the chain have
   predecessors.
   */
  lemma FirstFrom(held: seq<Held>, obj: nat, now: int, history: seq<nat>, p: nat, chain: seq<nat>, k: nat)
    returns (q: nat)
    requires Orderly(held, obj) && NoneAhead(held, obj, now) && IsHistory(held, obj, history) && p < |history|
    requires IsCurrent(held[history[p]], now)
    requires BackToBack(held, obj, now, chain) && k < |chain| && IsBlock(held, chain[k], obj)
    requires held[chain[k]].validFrom <= held[chain[0]].validFrom <= held[history[p]].validFrom
    ensures p <= q < |history| && held[history[q]].validFrom == held[chain[k]].validFrom
    ensures forall l :: p <= l < q ==> HasPredecessor(held, obj, history[l])
  {
    var at := PositionOf(held, obj, history, chain[k]);
    RowIsBlock(held, obj, history, p);
    q := p;
    while held[chain[k]].validFrom < held[history[q]].validFrom
      invariant p <= q < |history|
      invariant q <= at || q == p
      invariant forall l :: p <= l < q ==> HasPredecessor(held, obj, history[l])
      decreases |history| - q
    {
      RowIsBlock(held, obj, history, q);
      EarlierRow(held, history, q, at);
      AfterRow(held, obj, now, chain, k, history[p], history[q]);
      q := q + 1;
    }
  }

  /** Every row the loops may stop at is where the chain starts, if and only if the chain passes no tie. */
  lemma SeekLaw(held: seq<Held>, obj: nat, now: int)
    requires Orderly(held, obj) && NoneAhead(held, obj, now)
    ensures (forall start: nat :: Found(held, obj, now, start) ==> IsChainStart(held, obj, now, start))
       <==> !TieContinued(held, obj, now)
  {
    if TieContinued(held, obj, now) {
      var start := SeekCanFail(held, obj, now);
      assert Found(held, obj, now, start) && !IsChainStart(held, obj, now, start);
    } else {
      forall start: nat | Found(held, obj, now, start)
        ensures IsChainStart(held, obj, now, start)
      {
        SeekIsRight(held, obj, now, start);
      }
    }
  }

  /**
   serverBlocked itself is on the list of states to restore exactly if the row to restore from follows up
   another block.
   */
  lemma BlockedOnTheList(env: Env, held: seq<Held>, obj: nat, start: nat)
    requires Orderly(held, obj) && IsBlock(held, start, obj) && IsServerState(env, SERVER_BLOCKED)
    ensures ToRestore(env, held, start, SERVER_BLOCKED) <==> HasPredecessor(held, obj, start)
  {
    if ToRestore(env, held, start, SERVER_BLOCKED) {
      var j :| HeldJustBefore(held, j, start) && held[j].state == SERVER_BLOCKED;
      assert Precedes(held, obj, j, start);
    }
    if j: nat :| Precedes(held, obj, j, start) {
      assert HeldJustBefore(held, j, start);
    }
  }

  /** serverBlocked itself is never on the list of states to restore, if and only if the chain passes no tie. */
  lemma BlockedIsNotRestored(env: Env, held: seq<Held>, obj: nat)
    requires Orderly(held, obj) && NoneAhead(held, obj, env.now) && IsServerState(env, SERVER_BLOCKED)
    ensures (forall start: nat :: start < |held| && Found(held, obj, env.now, start) ==>
              !ToRestore(env, held, start, SERVER_BLOCKED))
       <==> !TieContinued(held, obj, env.now)
  {
    if TieContinued(held, obj, env.now) {
      var start := SeekCanFail(held, obj, env.now);
      BlockedOnTheList(env, held, obj, start);
    } else {
      forall start: nat | start < |held| && Found(held, obj, env.now, start)
        ensures !ToRestore(env, held, start, SERVER_BLOCKED)
      {
        SeekIsRight(held, obj, env.now, start);
        BlockedOnTheList(env, held, obj, start);
      }
    }
  }
}
