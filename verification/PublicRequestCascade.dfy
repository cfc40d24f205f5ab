/**
 What a cascade closes. It closes only requests that a chain of cancellations reaches, and all of them where
 no type escapes; which ones it closes never depends on the order in which queries return rows.
 */
module PublicRequestCascade {
  import opened Prelude
  import opened PublicRequestModel
  import opened PublicRequestSweep

  // ---------------------------------------------------------------- paths of types

  /** A path of types: the first is a root, invalidating each cancels the next. */
  ghost predicate IsPath(types: Types, roots: seq<Iface>, path: seq<Iface>) {
    && 0 < |path|
    && path[0] in roots
    && forall k :: 0 < k < |path| ==> Follows(types, path[k - 1], path[k])
  }

  /** Invalidating a request as `t` is possible and cancels nothing called `name`. */
  ghost predicate Spares(types: Types, t: Iface, name: string) {
    var cancelled := types.OnUpdate(t, Opened, Invalidated);
    cancelled.Some? && !types.Names(cancelled.value, name)
  }

  /** A path to a type called `a` on which every type spares `name`. */
  ghost predicate SparingPath(types: Types, roots: seq<Iface>, path: seq<Iface>, a: string, name: string) {
    && IsPath(types, roots, path)
    && types.Name(path[|path| - 1]) == a
    && forall k :: 0 <= k < |path| ==> Spares(types, path[k], name)
  }

  /** Requests of type `a` can be closed before anything called `name` is cancelled. */
  ghost predicate ClosedFirst(types: Types, roots: seq<Iface>, a: string, name: string) {
    exists path :: SparingPath(types, roots, path, a, name)
  }

  /**
   The requests of type `v` are reached along `path`, but every type on it shares its name with one that
   can close the requests first and leave those of `v` alone.
   */
  ghost predicate EscapesAlong(types: Types, roots: seq<Iface>, path: seq<Iface>, v: Iface) {
    && IsPath(types, roots, path)
    && Follows(types, path[|path| - 1], v)
    && forall k :: 0 <= k < |path| ==> ClosedFirst(types, roots, types.Name(path[k]), types.Name(v))
  }

  /** This takes two implementations of one type name that cancel different types. */
  ghost predicate Escapes(types: Types, roots: seq<Iface>, v: Iface) {
    !types.Names(roots, types.Name(v)) && exists path :: EscapesAlong(types, roots, path, v)
  }

  // ---------------------------------------------------------------- what Sweep closes, and along which types

  /** A path to a type called `name`, over names in `open`, on which every type spares everything in `left`. */
  ghost predicate IsWay(types: Types, roots: seq<Iface>, open: multiset<string>, left: multiset<string>,
                        path: seq<Iface>, name: string) {
    && IsPath(types, roots, path)
    && types.Name(path[|path| - 1]) == name
    && forall k :: 0 <= k < |path| ==> IsStop(types, open, left, path[k])
  }

  ghost predicate IsStop(types: Types, open: multiset<string>, left: multiset<string>, t: Iface) {
    && types.Name(t) in open
    && types.OnUpdate(t, Opened, Invalidated).Some?
    && forall n :: n in left ==> Spares(types, t, n)
  }

  /** A way still is one where more may be opened, less is left, or there are more roots. */
  lemma WayWeakens(types: Types, ts: seq<Iface>, open: multiset<string>, left: multiset<string>, path: seq<Iface>,
                   name: string, roots: seq<Iface>, more: multiset<string>, less: multiset<string>)
    requires IsWay(types, ts, open, left, path, name) && path[0] in roots && open <= more && less <= left
    ensures IsWay(types, roots, more, less, path, name)
  {
    forall k | 0 <= k < |path|
      ensures IsStop(types, more, less, path[k])
    {
      assert IsStop(types, open, left, path[k]);
    }
  }

  /** Whatever Sweep closes, it closes along types that spare whatever it leaves. */
  lemma {:induction false} SweepWay(types: Types, open: multiset<string>, ts: seq<Iface>, name: string)
    returns (path: seq<Iface>)
    requires Sweep(types, open, ts).Some? && name in open && name !in Sweep(types, open, ts).value
    ensures IsWay(types, ts, open, Sweep(types, open, ts).value, path, name)
    decreases |open|, |ts|
  {
    var left, next, rest := Sweep(types, open, ts).value, Visit(types, open, ts[0]).value, ts[1..];
    if name in next {
      SubmultisetSize(next, open);
      path := SweepWay(types, next, rest, name);
      WayWeakens(types, rest, next, left, path, name, ts, open, left);
    } else {
      path := VisitWay(types, open, ts[0], name);
      WayWeakens(types, [ts[0]], open, next, path, name, ts, open, left);
    }
  }

  lemma {:induction false} VisitWay(types: Types, open: multiset<string>, t: Iface, name: string)
    returns (path: seq<Iface>)
    requires Visit(types, open, t).Some? && name in open && name !in Visit(types, open, t).value
    ensures IsWay(types, [t], open, Visit(types, open, t).value, path, name)
    decreases |open|, 0
  {
    var inner, fewer := types.OnUpdate(t, Opened, Invalidated).value, open - multiset{types.Name(t)};
    var after, left := Sweep(types, fewer, inner).value, Visit(types, open, t).value;
    VisitorStops(types, open, t);
    path := [t];
    if name == types.Name(t) {
      assert path[0] == t;
    } else {
      var tail := SweepWay(types, fewer, inner, name);
      WayWeakens(types, inner, fewer, after, tail, name, inner, open, left);
      path := WayFrom(types, open, left, t, tail, name);
    }
  }

  /** The visited type itself spares whatever the visit leaves. */
  lemma VisitorStops(types: Types, open: multiset<string>, t: Iface)
    requires Visit(types, open, t).Some? && types.Name(t) in open
    ensures IsStop(types, open, Visit(types, open, t).value, t)
  {
    var inner, fewer := types.OnUpdate(t, Opened, Invalidated).value, open - multiset{types.Name(t)};
    var left := Visit(types, open, t).value;
    forall n | n in left
      ensures Spares(types, t, n)
    {
      if types.Names(inner, n) {
        var k :| 0 <= k < |inner| && types.Name(inner[k]) == n;
        SweepExhausts(types, fewer, inner, inner[k]);
      }
    }
  }

  lemma WayFrom(types: Types, open: multiset<string>, left: multiset<string>, t: Iface, tail: seq<Iface>, name: string)
    returns (path: seq<Iface>)
    requires IsStop(types, open, left, t)
    requires IsWay(types, types.OnUpdate(t, Opened, Invalidated).value, open, left, tail, name)
    ensures IsWay(types, [t], open, left, path, name)
  {
    path := [t] + tail;
    forall k | 0 < k < |path|
      ensures Follows(types, path[k - 1], path[k]) && IsStop(types, open, left, path[k])
    {
      assert path[k] == tail[k - 1] && IsStop(types, open, left, tail[k - 1]);
      assert k > 1 ==> Follows(types, tail[k - 2], tail[k - 1]);
    }
  }

  // ---------------------------------------------------------------- when Sweep leaves nothing that is reached

  /** A path over names in `open` leads from the roots to a type called `name`. */
  ghost predicate IsRoute(types: Types, roots: seq<Iface>, open: multiset<string>, path: seq<Iface>, name: string) {
    && IsPath(types, roots, path)
    && types.Name(path[|path| - 1]) == name
    && forall k :: 0 <= k < |path| ==> types.Name(path[k]) in open
  }

  ghost predicate Reached(types: Types, roots: seq<Iface>, open: multiset<string>, name: string) {
    exists path :: IsRoute(types, roots, open, path, name)
  }

  /** Whatever numbers of requests of each type are opened, none of a type that is reached is left. */
  ghost predicate SweepIsExact(types: Types, roots: seq<Iface>) {
    forall open, name :: Sweep(types, open, roots).Some? && Reached(types, roots, open, name) ==>
      name !in Sweep(types, open, roots).value
  }

  /** A type that is reached and left comes with one on the way to it that escapes. */
  lemma {:induction false} LeftEscapes(types: Types, roots: seq<Iface>, open: multiset<string>, path: seq<Iface>,
                                       name: string) returns (m: nat)
    requires Sweep(types, open, roots).Some? && IsRoute(types, roots, open, path, name)
    requires name in Sweep(types, open, roots).value
    ensures m < |path| && Escapes(types, roots, path[m])
    decreases |path|
  {
    var left := Sweep(types, open, roots).value;
    m := |path| - 1;
    if k :| 0 <= k < m && types.Name(path[k]) in left {
      var shorter := path[..k + 1];
      assert forall l :: 0 <= l <= k ==> shorter[l] == path[l];
      m := LeftEscapes(types, roots, open, shorter, types.Name(path[k]));
    } else {
      FirstLeftEscapes(types, roots, open, path, name);
    }
  }

  lemma FirstLeftEscapes(types: Types, roots: seq<Iface>, open: multiset<string>, path: seq<Iface>, name: string)
    requires Sweep(types, open, roots).Some? && IsRoute(types, roots, open, path, name)
    requires name in Sweep(types, open, roots).value
    requires forall k :: 0 <= k < |path| - 1 ==> types.Name(path[k]) !in Sweep(types, open, roots).value
    ensures Escapes(types, roots, path[|path| - 1])
  {
    var v, init := path[|path| - 1], path[..|path| - 1];
    if types.Names(roots, name) {
      var r :| 0 <= r < |roots| && types.Name(roots[r]) == name;
      SweepExhausts(types, open, roots, roots[r]);
    }
    assert forall k :: 0 <= k < |init| ==> init[k] == path[k];
    forall k | 0 <= k < |init|
      ensures ClosedFirst(types, roots, types.Name(init[k]), name)
    {
      assert types.Name(path[k]) in open;
      var way := SweepWay(types, open, roots, types.Name(path[k]));
      assert forall l :: 0 <= l < |way| ==> IsStop(types, open, Sweep(types, open, roots).value, way[l]);
      assert SparingPath(types, roots, way, types.Name(init[k]), name);
    }
    assert Follows(types, path[|path| - 2], v);
    assert EscapesAlong(types, roots, init, v);
  }

  /** Where no type escapes, nothing that is reached is left. */
  lemma NoEscapeIsExact(types: Types, roots: seq<Iface>)
    requires !exists v :: Escapes(types, roots, v)
    ensures SweepIsExact(types, roots)
  {
    forall open, name | Sweep(types, open, roots).Some? && Reached(types, roots, open, name)
      ensures name !in Sweep(types, open, roots).value
    {
      if name in Sweep(types, open, roots).value {
        var path :| IsRoute(types, roots, open, path, name);
        var m := LeftEscapes(types, roots, open, path, name);
      }
    }
  }

  // ---------------------------------------------------------------- tables with given numbers

  /** The types along a chain of cancellations. */
  function Ifaces(chain: seq<Link>): (path: seq<Iface>)
    ensures |path| == |chain| && forall k :: 0 <= k < |chain| ==> path[k] == chain[k].iface
  {
    seq(|chain|, k requires 0 <= k < |chain| => chain[k].iface)
  }

  function OpenedRow(obj: nat, name: string): Request {
    Request(obj, name, Opened, None, None, None, None, None, None, None, Processed)
  }

  function CancelledRow(stamp: Stamp, obj: nat, name: string): Request {
    Request(obj, name, Invalidated, Some(stamp.now), None, None, None,
            if stamp.registrarId.Some? then stamp.registrarId.value else None, None, stamp.logReq, Processed)
  }

  /** One request for each name, of which the first `m` have been cancelled. */
  function Requests(stamp: Stamp, obj: nat, names: seq<string>, m: nat): Rows {
    map i: nat | i < |names| :: if i < m then CancelledRow(stamp, obj, names[i]) else OpenedRow(obj, names[i])
  }

  /** A path over the named types to `a` on which everything can be invalidated and spares the names from `m` on. */
  ghost predicate Closes(types: Types, roots: seq<Iface>, names: seq<string>, m: nat, path: seq<Iface>, a: string) {
    && IsPath(types, roots, path)
    && types.Name(path[|path| - 1]) == a
    && forall k :: 0 <= k < |path| ==>
         && types.Name(path[k]) in names
         && types.OnUpdate(path[k], Opened, Invalidated).Some?
         && forall j :: m <= j < |names| ==> Spares(types, path[k], names[j])
  }

  ghost predicate CanClose(types: Types, roots: seq<Iface>, names: seq<string>, m: nat, a: string) {
    exists path :: Closes(types, roots, names, m, path, a)
  }

  function IndexOf(names: seq<string>, a: string): (i: nat)
    requires a in names
    ensures i < |names| && names[i] == a
  {
    if names[0] == a then 0 else 1 + IndexOf(names[1..], a)
  }

  /** The chain that closes request `i` along a path. */
  lemma ChainAlong(types: Types, stamp: Stamp, obj: nat, roots: seq<Iface>, names: seq<string>, m: nat,
                   path: seq<Iface>, i: nat)
    returns (chain: seq<Link>)
    requires i < |names| && IsPath(types, roots, path) && types.Name(path[|path| - 1]) == names[i]
    requires forall k :: 0 <= k < |path| ==> types.Name(path[k]) in names
    ensures IsChain(types, Requests(stamp, obj, names, 0), obj, roots, chain, i) && Ifaces(chain) == path
  {
    chain := seq(|path|, k requires 0 <= k < |path| =>
      Link(if k == |path| - 1 then i else IndexOf(names, types.Name(path[k])), path[k]));
  }

  lemma ClosedIsJustified(types: Types, stamp: Stamp, obj: nat, roots: seq<Iface>, names: seq<string>, m: nat, i: nat)
    requires i < m <= |names| && CanClose(types, roots, names, m, names[i])
    ensures Justified(types, Requests(stamp, obj, names, 0), Requests(stamp, obj, names, m), obj, roots, i)
  {
    var end := Requests(stamp, obj, names, m);
    var path :| Closes(types, roots, names, m, path, names[i]);
    var chain := ChainAlong(types, stamp, obj, roots, names, m, path, i);
    forall k | 0 <= k < |chain|
      ensures Exhausted(types, end, obj, chain[k].iface)
    {
      assert chain[k].iface == Ifaces(chain)[k] == path[k];
    }
    assert JustifiedBy(types, Requests(stamp, obj, names, 0), end, obj, roots, chain, i);
  }

  /** If every one of the first `m` requests is closed along some path, a cascade may close exactly them. */
  lemma CascadeOf(types: Types, stamp: Stamp, obj: nat, roots: seq<Iface>, names: seq<string>, m: nat)
    requires stamp.types == types && m <= |names|
    requires forall j :: m <= j < |names| ==> !types.Names(roots, names[j])
    requires forall i :: 0 <= i < m ==> CanClose(types, roots, names, m, names[i])
    ensures Cascaded(types, stamp, obj, roots, Requests(stamp, obj, names, 0), Requests(stamp, obj, names, m))
  {
    var start, end := Requests(stamp, obj, names, 0), Requests(stamp, obj, names, m);
    forall i | 0 <= i < m
      ensures InvalidatedBy(stamp, start[i], end[i])
    {
      assert types.Name(Fake(names[i])) == names[i] && types.Action(Fake(names[i]), Invalidated) == Processed;
    }
    forall i: nat | ClosedBetween(start, end, i)
      ensures Justified(types, start, end, obj, roots, i)
    {
      ClosedIsJustified(types, stamp, obj, roots, names, m, i);
    }
  }

  /** `names` holds the names of `open`, in some order. */
  lemma {:induction false} SomeOrder(open: multiset<string>) returns (names: seq<string>)
    ensures multiset(names) == open
  {
    names := [];
    if n :| n in open {
      var others := SomeOrder(open - multiset{n});
      names := others + [n];
    }
  }

  lemma {:induction false} OpenOfRequests(stamp: Stamp, obj: nat, names: seq<string>, m: nat)
    requires m <= |names|
    ensures Open(Requests(stamp, obj, names, m), obj) == multiset(names[m..])
    decreases |names| - m
  {
    var a := Requests(stamp, obj, names, m);
    if m == |names| {
      forall n
        ensures Open(a, obj)[n] == 0
      {
        OpenNumber(a, obj, n);
        assert IdsOf(a, obj, n) == {};
      }
      assert Open(a, obj) == multiset{};
    } else {
      var b := Requests(stamp, obj, names, m + 1);
      OpenOfRequests(stamp, obj, names, m + 1);
      assert b == a[m := b[m]];
      CloseOne(a, b, obj, m);
      OpenOrNot(a, obj, names[m]);
      assert m in IdsOf(a, obj, names[m]);
      assert names[m..] == [names[m]] + names[m + 1..];
    }
  }

  /** The closed names first, then those that are left. */
  lemma InOrder(open: multiset<string>, left: multiset<string>) returns (names: seq<string>, m: nat)
    requires left <= open
    ensures m <= |names| && multiset(names) == open && multiset(names[m..]) == left
    ensures forall i :: 0 <= i < m ==> names[i] in open - left
    ensures forall i :: m <= i < |names| ==> names[i] in left
    ensures forall n :: n in open ==> n in names
  {
    var closed := SomeOrder(open - left);
    var others := SomeOrder(left);
    names, m := closed + others, |closed|;
    assert names[m..] == others;
    assert forall i :: 0 <= i < m ==> names[i] in multiset(closed);
    assert forall i :: m <= i < |names| ==> names[i] in multiset(others);
    assert forall n :: n in open ==> n in multiset(names);
  }

  /** Every result of Sweep is that of a cascade over some table. */
  lemma SweepHappens(types: Types, stamp: Stamp, obj: nat, roots: seq<Iface>, open: multiset<string>)
    returns (names: seq<string>, m: nat)
    requires stamp.types == types && Sweep(types, open, roots).Some?
    ensures m <= |names| && (forall n :: n in open ==> n in names)
    ensures forall i :: 0 <= i < |names| && names[i] in Sweep(types, open, roots).value ==> m <= i
    ensures Open(Requests(stamp, obj, names, 0), obj) == open
    ensures Cascaded(types, stamp, obj, roots, Requests(stamp, obj, names, 0), Requests(stamp, obj, names, m))
    ensures Swept(types, obj, roots, Requests(stamp, obj, names, 0), Requests(stamp, obj, names, m))
  {
    var left := Sweep(types, open, roots).value;
    names, m := InOrder(open, left);
    assert names[0..] == names;
    OpenOfRequests(stamp, obj, names, 0);
    OpenOfRequests(stamp, obj, names, m);
    forall i | 0 <= i < m
      ensures names[i] !in left && CanClose(types, roots, names, m, names[i])
    {
      AllOrNothing(types, open, roots, names[i]);
      var way := SweepWay(types, open, roots, names[i]);
      WayCloses(types, roots, open, left, names, m, way, names[i]);
    }
    forall j | m <= j < |names|
      ensures !types.Names(roots, names[j])
    {
      if types.Names(roots, names[j]) {
        var r :| 0 <= r < |roots| && types.Name(roots[r]) == names[j];
        SweepExhausts(types, open, roots, roots[r]);
      }
    }
    CascadeOf(types, stamp, obj, roots, names, m);
  }

  lemma WayCloses(types: Types, roots: seq<Iface>, open: multiset<string>, left: multiset<string>, names: seq<string>,
                  m: nat, way: seq<Iface>, a: string)
    requires IsWay(types, roots, open, left, way, a) && m <= |names|
    requires forall n :: n in open ==> n in names
    requires forall j :: m <= j < |names| ==> names[j] in left
    ensures CanClose(types, roots, names, m, a)
  {
    assert forall k :: 0 <= k < |way| ==> IsStop(types, open, left, way[k]);
    assert Closes(types, roots, names, m, way, a);
  }

  // ---------------------------------------------------------------- the laws

  /** Cascades over `roots` close exactly the requests that a chain of cancellations reaches. */
  ghost predicate AlwaysExact(types: Types, stamp: Stamp, obj: nat, roots: seq<Iface>) {
    forall start, end, i ::
      Cascaded(types, stamp, obj, roots, start, end) && Swept(types, obj, roots, start, end) ==>
        (ClosedBetween(start, end, i) <==> Reachable(types, start, obj, roots, i))
  }

  /** What is closed is always reachable, on cyclic type graphs too. */
  lemma ClosedIsReachable(types: Types, stamp: Stamp, obj: nat, roots: seq<Iface>, start: Rows, end: Rows, i: nat)
    requires Cascaded(types, stamp, obj, roots, start, end) && ClosedBetween(start, end, i)
    ensures Reachable(types, start, obj, roots, i)
  {
    var chain: seq<Link> :| JustifiedBy(types, start, end, obj, roots, chain, i);
    assert IsChain(types, start, obj, roots, chain, i);
  }

  /** A chain to a request is a route to the name of its type. */
  lemma ChainIsRoute(types: Types, obj: nat, roots: seq<Iface>, start: Rows, chain: seq<Link>, i: nat)
    requires IsChain(types, start, obj, roots, chain, i)
    ensures i in start && start[i].status.Opened? && start[i].objectId == obj
    ensures IsRoute(types, roots, Open(start, obj), Ifaces(chain), start[i].typeName)
  {
    var path := Ifaces(chain);
    assert IsLink(types, start, obj, chain[|chain| - 1]);
    forall k | 0 <= k < |path|
      ensures types.Name(path[k]) in Open(start, obj)
    {
      assert IsLink(types, start, obj, chain[k]);
      assert chain[k].id in IdsOf(start, obj, types.Name(path[k]));
      OpenOrNot(start, obj, types.Name(path[k]));
    }
    forall k | 0 < k < |path|
      ensures Follows(types, path[k - 1], path[k])
    {
      assert Follows(types, chain[k - 1].iface, chain[k].iface);
    }
  }

  lemma ReachableIsClosed(types: Types, stamp: Stamp, obj: nat, roots: seq<Iface>, start: Rows, end: Rows, i: nat)
    requires SweepIsExact(types, roots)
    requires Cascaded(types, stamp, obj, roots, start, end) && Swept(types, obj, roots, start, end)
    requires Reachable(types, start, obj, roots, i)
    ensures ClosedBetween(start, end, i)
  {
    var chain :| IsChain(types, start, obj, roots, chain, i);
    ChainIsRoute(types, obj, roots, start, chain, i);
    assert Reached(types, roots, Open(start, obj), start[i].typeName);
    SweptDecides(types, stamp, obj, roots, start, end, i);
  }

  /** A type that is reached and left, as a request of some table that is reached and left. */
  lemma LeftHappens(types: Types, stamp: Stamp, obj: nat, roots: seq<Iface>, open: multiset<string>, name: string)
    requires stamp.types == types && Sweep(types, open, roots).Some? && Reached(types, roots, open, name)
    requires name in Sweep(types, open, roots).value
    ensures !AlwaysExact(types, stamp, obj, roots)
  {
    var names, m := SweepHappens(types, stamp, obj, roots, open);
    var start, end := Requests(stamp, obj, names, 0), Requests(stamp, obj, names, m);
    var path :| IsRoute(types, roots, open, path, name);
    assert types.Name(path[|path| - 1]) in open;
    var i := IndexOf(names, name);
    var chain := ChainAlong(types, stamp, obj, roots, names, 0, path, i);
    assert Reachable(types, start, obj, roots, i) && !ClosedBetween(start, end, i);
  }

  /**
   Whether cascades close all that chains reach, over all tables, is decided by the numbers of opened
   requests of each type alone.
   */
  lemma CascadeIsReachability(types: Types, stamp: Stamp, obj: nat, roots: seq<Iface>)
    requires stamp.types == types
    ensures AlwaysExact(types, stamp, obj, roots) <==> SweepIsExact(types, roots)
  {
    if SweepIsExact(types, roots) {
      forall start, end, i | Cascaded(types, stamp, obj, roots, start, end) && Swept(types, obj, roots, start, end)
        ensures ClosedBetween(start, end, i) <==> Reachable(types, start, obj, roots, i)
      {
        if ClosedBetween(start, end, i) {
          ClosedIsReachable(types, stamp, obj, roots, start, end, i);
        }
        if Reachable(types, start, obj, roots, i) {
          ReachableIsClosed(types, stamp, obj, roots, start, end, i);
        }
      }
    } else {
      var open, name :| Sweep(types, open, roots).Some? && Reached(types, roots, open, name)
                        && name in Sweep(types, open, roots).value;
      LeftHappens(types, stamp, obj, roots, open, name);
    }
  }

  ghost predicate SameOutcome(b: Rows, c: Rows) {
    b.Keys == c.Keys && forall i :: i in b ==> b[i].status == c[i].status && b[i].resolveTime == c[i].resolveTime
  }

  /** Cascades that leave the same numbers opened close the same requests. */
  lemma SweptTheSame(types: Types, stamp: Stamp, obj: nat, roots: seq<Iface>, start: Rows, b: Rows, c: Rows)
    requires OnlyInvalidates(stamp, obj, start, b) && Swept(types, obj, roots, start, b)
    requires OnlyInvalidates(stamp, obj, start, c) && Swept(types, obj, roots, start, c)
    ensures SameOutcome(b, c)
  {
    forall i | i in start
      ensures b[i].status == c[i].status && b[i].resolveTime == c[i].resolveTime
    {
      if start[i].status.Opened? && start[i].objectId == obj {
        SweptDecides(types, stamp, obj, roots, start, b, i);
        SweptDecides(types, stamp, obj, roots, start, c, i);
      }
    }
  }

  /**
   Two executions of the same update leave the same status, resolve time and letters everywhere, on any
   type graph: the order in which queries return rows does not matter.
   */
  lemma UpdateIsDeterministic(types: Types, env: Env, a: Tables, b: Tables, c: Tables, id: nat, t: Iface,
                              p: UpdateParams, logReq: Option<nat>)
    requires UpdateStep(types, env, a, b, id, t, p, logReq) && UpdateStep(types, env, a, c, id, t, p, logReq)
    ensures SameOutcome(b.rows, c.rows) && b.letters == c.letters
  {
    var start := Start(types, env, a.rows, id, t, p, logReq);
    SweptTheSame(types, StampOf(types, env, p, logReq), a.rows[id].objectId, Roots(types, a.rows, id, t, p), start,
                 b.rows, c.rows);
    SameLetters(a.messages, a.rows, b.rows, c.rows, a.letters, b.letters, c.letters);
  }

  /** Two executions of the same batch close the same requests, whichever of them the queries return first. */
  lemma BatchClosesTheSame(types: Types, env: Env, a: Tables, b: Tables, c: Tables, obj: nat, t: Iface,
                           p: UpdateParams, logReq: Option<nat>, these: seq<nat>, those: seq<nat>, i: nat)
    requires BatchStep(types, env, a, b, obj, t, p, logReq, these)
    requires BatchStep(types, env, a, c, obj, t, p, logReq, those)
    requires i in a.rows
    ensures i in b.rows && i in c.rows && (b.rows[i].status.Opened? <==> c.rows[i].status.Opened?)
  {
    if a.rows[i].status.Opened? && a.rows[i].objectId == obj {
      BatchDecides(types, env, a, b, obj, t, p, logReq, these, i);
      BatchDecides(types, env, a, c, obj, t, p, logReq, those, i);
    } else {
      assert i !in these && i !in those;
    }
  }

  lemma BatchDecides(types: Types, env: Env, a: Tables, b: Tables, obj: nat, t: Iface, p: UpdateParams,
                     logReq: Option<nat>, affected: seq<nat>, i: nat)
    requires BatchStep(types, env, a, b, obj, t, p, logReq, affected)
    requires i in a.rows && a.rows[i].status.Opened? && a.rows[i].objectId == obj
    ensures b.rows[i].status.Opened? <==> a.rows[i].typeName in Open(b.rows, obj)
  {
    BatchAllOrNothing(types, Open(a.rows, obj), types.Name(t), BatchRoots(types, t, p), Open(b.rows, obj),
                      a.rows[i].typeName);
    forall k | k in b.rows && b.rows[k].status.Opened?
      ensures a.rows[k] == b.rows[k]
    {
      assert k !in affected;
    }
    NumbersDecide(a.rows, b.rows, obj, i);
  }

  lemma SameLetters(messages: set<(nat, nat)>, a: Rows, b: Rows, c: Rows, la: Letters, lb: Letters, lc: Letters)
    requires SameOutcome(b, c)
    requires LettersStopped(messages, a, b, la, lb) && LettersStopped(messages, a, c, la, lc)
    ensures lb == lc
  {
    forall l | l in la
      ensures StopDue(messages, a, b, l) <==> StopDue(messages, a, c, l)
    {
    }
  }

  // ---------------------------------------------------------------- when types escape, and when not

  /**
   The types of `world` behave by name: it holds the roots and everything cancelled by its members,
   and two members with one name cancel the same names. (A FakePublicRequestForInvalidating next to
   the type it borrows its name from breaks this.)
   */
  ghost predicate Coherent(types: Types, world: set<Iface>, roots: seq<Iface>) {
    && (forall t :: t in roots ==> t in world)
    && (forall t, u :: t in world && Follows(types, t, u) ==> u in world)
    && (forall t, u, v :: t in world && u in world && types.Name(t) == types.Name(u) && Follows(types, t, v) ==>
         !Spares(types, u, types.Name(v)))
  }

  lemma {:induction false} PathInWorld(types: Types, world: set<Iface>, roots: seq<Iface>, path: seq<Iface>, k: nat)
    requires Coherent(types, world, roots) && IsPath(types, roots, path) && k < |path|
    ensures path[k] in world
  {
    if k > 0 {
      PathInWorld(types, world, roots, path, k - 1);
      assert Follows(types, path[k - 1], path[k]);
    }
  }

  /** Where types behave by name, none escapes. */
  lemma CoherentTypesDoNotEscape(types: Types, world: set<Iface>, roots: seq<Iface>, v: Iface)
    requires Coherent(types, world, roots)
    ensures !Escapes(types, roots, v)
  {
    if Escapes(types, roots, v) {
      var path :| EscapesAlong(types, roots, path, v);
      var t := path[|path| - 1];
      assert ClosedFirst(types, roots, types.Name(t), types.Name(v));
      var way :| SparingPath(types, roots, way, types.Name(t), types.Name(v));
      PathInWorld(types, world, roots, path, |path| - 1);
      PathInWorld(types, world, roots, way, |way| - 1);
      AlikeCancelAlike(types, world, roots, t, way[|way| - 1], v);
    }
  }

  lemma AlikeCancelAlike(types: Types, world: set<Iface>, roots: seq<Iface>, t: Iface, u: Iface, v: Iface)
    requires Coherent(types, world, roots) && t in world && u in world && types.Name(t) == types.Name(u)
    requires Follows(types, t, v)
    ensures !Spares(types, u, types.Name(v))
  {
  }

  function TypeCalled(name: string, cancels: seq<Iface>): Traits {
    Traits(name, Some([]), (_, _) => Some(cancels), _ => Processed)
  }

  /** X cancels A and Y, Y cancels an A of its own; only the A of Y cancels B. */
  function TwoOfOneName(): Types {
    Types(Listed)
  }

  function Listed(k: nat): Traits {
    if k == 0 then TypeCalled("X", [Concrete(1), Concrete(2)])
    else if k == 1 then TypeCalled("A", [])
    else if k == 2 then TypeCalled("Y", [Concrete(3)])
    else if k == 3 then TypeCalled("A", [Concrete(4)])
    else TypeCalled("B", [])
  }

  /**
   Two types called A in two different lists let B escape: of one request of each type, visited in the
   order of their names, the one of type B stays opened although a chain reaches it.
   */
  lemma TwoOfOneNameEscape(stamp: Stamp, obj: nat)
    requires stamp.types == TwoOfOneName()
    ensures Sweep(TwoOfOneName(), multiset{"X", "A", "Y", "B"}, [Concrete(0)]) == Some(multiset{"B"})
    ensures Reached(TwoOfOneName(), [Concrete(0)], multiset{"X", "A", "Y", "B"}, "B")
    ensures !AlwaysExact(TwoOfOneName(), stamp, obj, [Concrete(0)])
  {
    BIsSparedBySweep();
    BIsReached();
    LeftHappens(TwoOfOneName(), stamp, obj, [Concrete(0)], multiset{"X", "A", "Y", "B"}, "B");
  }

  lemma SweepOfOne(types: Types, open: multiset<string>, t: Iface)
    ensures Sweep(types, open, [t]) == Visit(types, open, t)
  {
    assert [t][1..] == [];
  }

  /** Y finds A closed. */
  lemma YLeavesB()
    ensures Visit(TwoOfOneName(), multiset{"Y", "B"}, Concrete(2)) == Some(multiset{"B"})
  {
    assert multiset{"Y", "B"} - multiset{"Y"} == multiset{"B"} == multiset{"B"}["Y" := 0];
    SweepOfOne(TwoOfOneName(), multiset{"B"}, Concrete(3));
  }

  /** The A in the list of X cancels nothing. */
  lemma ALeavesB()
    ensures Visit(TwoOfOneName(), multiset{"A", "Y", "B"}, Concrete(1)) == Some(multiset{"Y", "B"})
  {
    assert multiset{"A", "Y", "B"} - multiset{"A"} == multiset{"Y", "B"} == multiset{"Y", "B"}["A" := 0];
  }

  lemma BIsSparedBySweep()
    ensures Sweep(TwoOfOneName(), multiset{"X", "A", "Y", "B"}, [Concrete(0)]) == Some(multiset{"B"})
  {
    var all, rest := multiset{"X", "A", "Y", "B"}, multiset{"A", "Y", "B"};
    SweepOfOne(TwoOfOneName(), all, Concrete(0));
    assert all - multiset{"X"} == rest && multiset{"B"}["X" := 0] == multiset{"B"};
    BelowXBStays();
  }

  lemma BelowXBStays()
    ensures Sweep(TwoOfOneName(), multiset{"A", "Y", "B"}, [Concrete(1), Concrete(2)]) == Some(multiset{"B"})
  {
    ALeavesB();
    YLeavesB();
    SweepOfOne(TwoOfOneName(), multiset{"Y", "B"}, Concrete(2));
    assert [Concrete(1), Concrete(2)][1..] == [Concrete(2)];
  }

  lemma BIsReached()
    ensures Reached(TwoOfOneName(), [Concrete(0)], multiset{"X", "A", "Y", "B"}, "B")
  {
    var path := [Concrete(0), Concrete(2), Concrete(3), Concrete(4)];
    assert [Concrete(1), Concrete(2)][1] == Concrete(2);
    assert IsRoute(TwoOfOneName(), [Concrete(0)], multiset{"X", "A", "Y", "B"}, path, "B");
  }

  // ---------------------------------------------------------------- an escape that never happens

  /** R cancels M and N; this M cancels another N, this N another M, and the others both cancel V. */
  function Crossed(): Types {
    Types(CrossedTraits)
  }

  function CrossedTraits(k: nat): Traits {
    if k == 0 then TypeCalled("R", [Concrete(1), Concrete(2)])
    else if k == 1 then TypeCalled("M", [Concrete(4)])
    else if k == 2 then TypeCalled("N", [Concrete(3)])
    else if k == 3 then TypeCalled("M", [Concrete(5)])
    else if k == 4 then TypeCalled("N", [Concrete(5)])
    else TypeCalled("V", [])
  }

  /** V escapes, for M may be closed first by the one, and N by the other; but no cascade does both. */
  lemma EscapeIsNotNecessary(stamp: Stamp, obj: nat)
    requires stamp.types == Crossed()
    ensures Escapes(Crossed(), [Concrete(0)], Concrete(5))
    ensures AlwaysExact(Crossed(), stamp, obj, [Concrete(0)])
  {
    CrossedEscape();
    CrossedIsExact();
    CascadeIsReachability(Crossed(), stamp, obj, [Concrete(0)]);
  }

  lemma CrossedEscape()
    ensures Escapes(Crossed(), [Concrete(0)], Concrete(5))
  {
    var types, roots := Crossed(), [Concrete(0)];
    assert [Concrete(1), Concrete(2)][0] == Concrete(1) && [Concrete(1), Concrete(2)][1] == Concrete(2);
    assert SparingPath(types, roots, [Concrete(0)], "R", "V");
    assert SparingPath(types, roots, [Concrete(0), Concrete(1)], "M", "V");
    assert SparingPath(types, roots, [Concrete(0), Concrete(2)], "N", "V");
    assert EscapesAlong(types, roots, [Concrete(0), Concrete(1), Concrete(4)], Concrete(5));
  }

  /** What the routes of this graph pass through. */
  lemma CrossedRoute(open: multiset<string>, path: seq<Iface>, name: string)
    requires IsRoute(Crossed(), [Concrete(0)], open, path, name)
    ensures "R" in open && name in {"R", "M", "N", "V"} && (name == "V" ==> "M" in open && "N" in open)
  {
    assert path[0] == Concrete(0);
    if |path| > 1 {
      assert Follows(Crossed(), path[0], path[1]);
      assert path[1] in {Concrete(1), Concrete(2)};
    }
    if |path| > 2 {
      assert Follows(Crossed(), path[1], path[2]);
      assert path[2] == if path[1] == Concrete(1) then Concrete(4) else Concrete(3);
    }
    if |path| > 3 {
      assert Follows(Crossed(), path[2], path[3]);
      assert path[3] == Concrete(5);
    }
    assert |path| <= 4 || Follows(Crossed(), path[3], path[4]);
  }

  lemma CrossedIsExact()
    ensures SweepIsExact(Crossed(), [Concrete(0)])
  {
    forall open, name | Sweep(Crossed(), open, [Concrete(0)]).Some? && Reached(Crossed(), [Concrete(0)], open, name)
      ensures name !in Sweep(Crossed(), open, [Concrete(0)]).value
    {
      var path :| IsRoute(Crossed(), [Concrete(0)], open, path, name);
      CrossedRoute(open, path, name);
      CrossedLeaves(open);
    }
  }

  /** With an R opened, nothing of R, M and N is left, and nothing of V if there were both M and N. */
  lemma CrossedLeaves(open: multiset<string>)
    requires "R" in open && Sweep(Crossed(), open, [Concrete(0)]).Some?
    ensures var left := Sweep(Crossed(), open, [Concrete(0)]).value;
      && "R" !in left && "M" !in left && "N" !in left
      && ("M" in open && "N" in open ==> "V" !in left)
  {
    var types, ts, rest := Crossed(), [Concrete(1), Concrete(2)], open - multiset{"R"};
    SweepOfOne(types, open, Concrete(0));
    SweepExhausts(types, open, [Concrete(0)], Concrete(0));
    var after := Sweep(types, rest, ts).value;
    assert ts[0] == Concrete(1) && ts[1] == Concrete(2);
    SweepExhausts(types, rest, ts, ts[0]);
    SweepExhausts(types, rest, ts, ts[1]);
    if "M" in open && "N" in open {
      MClosesV(rest);
      assert after <= Visit(types, rest, ts[0]).value;
    }
  }

  /** This M brings the N that cancels V. */
  lemma MClosesV(open: multiset<string>)
    requires "M" in open && "N" in open && Visit(Crossed(), open, Concrete(1)).Some?
    ensures "V" !in Visit(Crossed(), open, Concrete(1)).value
  {
    VisitClosesOver(Crossed(), open, Concrete(1), Concrete(4), Concrete(5));
  }

  /** A visit leaves nothing of a type that a type it cancels cancels, if there was a request of that. */
  lemma VisitClosesOver(types: Types, open: multiset<string>, t: Iface, u: Iface, w: Iface)
    requires types.Name(t) in open && Visit(types, open, t).Some?
    requires types.OnUpdate(t, Opened, Invalidated) == Some([u]) && types.OnUpdate(u, Opened, Invalidated) == Some([w])
    requires types.Name(u) in open && types.Name(u) != types.Name(t)
    ensures types.Name(w) !in Visit(types, open, t).value
  {
    var fewer := open - multiset{types.Name(t)};
    VisitBelow(types, open, t);
    SweepOfOne(types, fewer, u);
    VisitBelow(types, fewer, u);
    SweepExhausts(types, fewer - multiset{types.Name(u)}, [w], w);
  }

  /** A visit leaves no more than what the type cancels leaves. */
  lemma VisitBelow(types: Types, open: multiset<string>, t: Iface)
    requires types.Name(t) in open && Visit(types, open, t).Some?
    ensures var cancelled := types.OnUpdate(t, Opened, Invalidated);
      && cancelled.Some?
      && Sweep(types, open - multiset{types.Name(t)}, cancelled.value).Some?
      && Visit(types, open, t).value <= Sweep(types, open - multiset{types.Name(t)}, cancelled.value).value
  {
  }

  /** An update that cancels nothing changes only its own row. */
  lemma NoRootsNoCascade(types: Types, stamp: Stamp, obj: nat, start: Rows, end: Rows)
    requires Cascaded(types, stamp, obj, [], start, end)
    ensures start == end
  {
    forall i | i in start
      ensures start[i] == end[i]
    {
      assert !Justified(types, start, end, obj, [], i);
      assert !ClosedBetween(start, end, i);
    }
  }
}
