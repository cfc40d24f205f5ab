/**
 ParamQuery, which composes parameterized SQL: a list of text and parameters is turned into one text
 with numbered placeholders and one list of values, reusable parameters taking one place each.
 */
module ParamQueryComposition {
  import opened Prelude
  import opened Decimal

  datatype QueryParam = QueryParam(isNull: bool, isBinary: bool, buffer: string)

  /** The identity of the object is what the original keeps in its `lid_` pointer. */
  class ReusableParameter {
    const value: QueryParam
    const typeName: string

    constructor (value: QueryParam, typeName: string)
      ensures this.value == value && this.typeName == typeName
    {
      this.value := value;
      this.typeName := typeName;
    }
  }

  datatype Element =
    | Text(text: string)
    | Param(value: QueryParam, typeName: string)
    | Reusable(parameter: ReusableParameter)

  // ---------------------------------------------------------------- what a query means

  /** A query with its parameters in place: characters of SQL and values. `Missing` is a placeholder without a value. */
  datatype Piece = Ch(c: char) | Val(v: QueryParam) | Missing(n: nat)

  function Chars(s: string): (out: seq<Piece>)
    ensures |out| == |s| && forall i :: 0 <= i < |s| ==> out[i] == Ch(s[i])
  {
    seq(|s|, i requires 0 <= i < |s| => Ch(s[i]))
  }

  function ExpandOne(e: Element): seq<Piece> {
    match e
    case Text(s) => Chars(s)
    case Param(v, t) => [Val(v)] + Chars("::" + t)
    case Reusable(p) => [Val(p.value)] + Chars("::" + p.typeName)
  }

  /** The elements put one after another, each parameter with its own value. */
  function Expand(es: seq<Element>): seq<Piece> {
    if es == [] then [] else Expand(es[..|es| - 1]) + ExpandOne(es[|es| - 1])
  }

  function Value(params: seq<QueryParam>, n: nat): Piece {
    if 1 <= n <= |params| then Val(params[n - 1]) else Missing(n)
  }

  /** Reads a text from left to right and puts the n-th value in the place of every "$n". */
  function Substitute(text: string, params: seq<QueryParam>): seq<Piece>
    decreases |text|
  {
    if text == "" then []
    else if text[0] == '$' && |text| > 1 && IsDigit(text[1]) then
      var d := LeadingDigits(text[1..]);
      [Value(params, ValueOf(text[1..][..d]))] + Substitute(text[1..][d..], params)
    else [Ch(text[0])] + Substitute(text[1..], params)
  }

  /** Literal text that would itself be read as a placeholder: a dollar sign directly before a digit. */
  predicate LooksLikePlaceholder(q: seq<Piece>, k: int) {
    0 <= k && k + 1 < |q| && q[k] == Ch('$') && q[k + 1].Ch? && IsDigit(q[k + 1].c)
  }

  ghost predicate HasPlaceholderText(q: seq<Piece>) {
    exists k :: LooksLikePlaceholder(q, k)
  }

  // ---------------------------------------------------------------- what get_query computes

  /** Who takes a place in the list of values. */
  datatype Slot = Plain(value: QueryParam) | Shared(parameter: ReusableParameter)

  function SlotValue(s: Slot): QueryParam {
    match s
    case Plain(v) => v
    case Shared(p) => p.value
  }

  /**
   The places of the list of values, in order: one for each plain parameter, one for each reusable parameter
   where it first occurs.
   */
  function Slots(es: seq<Element>): seq<Slot> {
    if es == [] then [] else
      var before := Slots(es[..|es| - 1]);
      match es[|es| - 1]
      case Text(_) => before
      case Param(v, _) => before + [Plain(v)]
      case Reusable(p) => if Shared(p) in before then before else before + [Shared(p)]
  }

  function Values(slots: seq<Slot>): (vs: seq<QueryParam>)
    ensures |vs| == |slots| && forall i :: 0 <= i < |slots| ==> vs[i] == SlotValue(slots[i])
  {
    seq(|slots|, i requires 0 <= i < |slots| => SlotValue(slots[i]))
  }

  /** The first place of `s`, counted from one. */
  function PlaceOf(slots: seq<Slot>, s: Slot): (n: nat)
    requires s in slots
    ensures 1 <= n <= |slots| && slots[n - 1] == s
    ensures forall i :: 0 <= i < n - 1 ==> slots[i] != s
  {
    if slots[0] == s then 1 else 1 + PlaceOf(slots[1..], s)
  }

  /** A symbol of the generated text: a character, or a placeholder. */
  datatype Symbol = C(c: char) | Placeholder(n: nat)

  function Literal(s: string): (out: seq<Symbol>)
    ensures |out| == |s| && forall i :: 0 <= i < |s| ==> out[i] == C(s[i])
  {
    seq(|s|, i requires 0 <= i < |s| => C(s[i]))
  }

  /** `n` is a placeholder followed by the cast to the type `t`. */
  function Cast(n: nat, t: string): seq<Symbol> {
    [Placeholder(n)] + Literal("::" + t)
  }

  /** The symbols of an element, given the places up to and including its own. */
  function ElementSymbols(e: Element, slots: seq<Slot>): seq<Symbol>
    requires e.Reusable? ==> Shared(e.parameter) in slots
  {
    match e
    case Text(s) => Literal(s)
    case Param(_, t) => Cast(|slots|, t)
    case Reusable(p) => Cast(PlaceOf(slots, Shared(p)), p.typeName)
  }

  function Symbols(es: seq<Element>): seq<Symbol> {
    if es == [] then [] else Symbols(es[..|es| - 1]) + ElementSymbols(es[|es| - 1], Slots(es))
  }

  function SymbolText(s: Symbol): string {
    match s
    case C(c) => [c]
    case Placeholder(n) => "$" + Digits(n)
  }

  function Render(ss: seq<Symbol>): string {
    if ss == [] then "" else SymbolText(ss[0]) + Render(ss[1..])
  }

  // ---------------------------------------------------------------- the class

  class ParamQuery {
    var elements: seq<Element>

    constructor ()
      ensures elements == []
    {
      elements := [];
    }

    constructor FromText(s: string)
      ensures elements == [Text(s)]
    {
      elements := [Text(s)];
    }

    /** operator() for a query; inserting a vector into itself is not allowed. */
    method AddQuery(q: ParamQuery)
      requires q != this
      modifies this
      ensures elements == old(elements) + q.elements
      ensures Expand(elements) == Expand(old(elements)) + Expand(q.elements)
    {
      elements := elements + q.elements;
      ExpandConcat(old(elements), q.elements);
    }

    /** operator() for text. */
    method AddText(s: string)
      modifies this
      ensures elements == old(elements) + [Text(s)]
      ensures Expand(elements) == Expand(old(elements)) + Chars(s)
    {
      elements := elements + [Text(s)];
    }

    method AddParam(value: QueryParam, typeName: string)
      modifies this
      ensures elements == old(elements) + [Param(value, typeName)]
      ensures Expand(elements) == Expand(old(elements)) + [Val(value)] + Chars("::" + typeName)
    {
      elements := elements + [Param(value, typeName)];
    }

    method AddReusable(p: ReusableParameter)
      modifies this
      ensures elements == old(elements) + [Reusable(p)]
      ensures Expand(elements) == Expand(old(elements)) + [Val(p.value)] + Chars("::" + p.typeName)
    {
      elements := elements + [Reusable(p)];
    }

    /** get_query. */
    method GetQuery() returns (text: string, params: seq<QueryParam>)
      ensures text == Render(Symbols(elements)) && params == Values(Slots(elements))
      ensures Substitute(text, params) == Expand(elements) <==> !HasPlaceholderText(Expand(elements))
    {
      text, params := "", [];
      var positions: map<ReusableParameter, nat> := map[];
      var i := 0;
      while i < |elements|
        invariant i <= |elements|
        invariant Compiled(elements[..i], text, params, positions)
      {
        ghost var es := elements[..i + 1];
        PrefixGrows(elements, i);
        match elements[i] {
          case Text(s) =>
            TextStep(es, s, text, params, positions);
            text := text + s;
          case Param(v, t) =>
            ParamStep(es, v, t, text, params, positions);
            params := params + [v];
            var pos := Digits(|params|);
            text := text + ("$" + pos + "::" + t);
          case Reusable(p) =>
            ReusableStep(es, p, text, params, positions);
            if p !in positions {
              params := params + [p.value];
              positions := positions[p := |params|];
            }
            text := text + ("$" + Digits(positions[p]) + "::" + p.typeName);
        }
        i := i + 1;
      }
      assert elements[..i] == elements;
      CompilationPreservesMeaning(elements);
    }
  }

  lemma PrefixGrows(es: seq<Element>, i: nat)
    requires i < |es|
    ensures |es[..i + 1]| == i + 1 && es[..i + 1][i] == es[i] && es[..i + 1][..i] == es[..i]
  {
  }

  // ---------------------------------------------------------------- rendering

  lemma RenderCons(s: Symbol, ss: seq<Symbol>)
    ensures Render([s] + ss) == SymbolText(s) + Render(ss)
  {
    assert ([s] + ss)[1..] == ss;
  }

  lemma {:induction false} RenderConcat(a: seq<Symbol>, b: seq<Symbol>)
    ensures Render(a + b) == Render(a) + Render(b)
  {
    if a == [] {
      assert a + b == b;
    } else {
      var first, rest := a[0], a[1..];
      RenderConcat(rest, b);
      assert (a + b)[0] == first && (a + b)[1..] == rest + b;
      ConcatAssociates(SymbolText(first), Render(rest), Render(b));
    }
  }

  /** The map of get_query: the place of every reusable parameter met so far. */
  ghost predicate PositionsOf(positions: map<ReusableParameter, nat>, slots: seq<Slot>) {
    && (forall i :: 0 <= i < |slots| && slots[i].Shared? ==> slots[i].parameter in positions)
    && (forall p :: p in positions ==> Shared(p) in slots)
    && forall p :: p in positions ==> positions[p] == PlaceOf(slots, Shared(p))
  }

  lemma {:induction false} RenderLast(es: seq<Element>)
    requires es != []
    ensures Render(Symbols(es)) == Render(Symbols(es[..|es| - 1])) + Render(ElementSymbols(es[|es| - 1], Slots(es)))
  {
    RenderConcat(Symbols(es[..|es| - 1]), ElementSymbols(es[|es| - 1], Slots(es)));
  }

  /** The state of the loop of get_query after the elements `es`. */
  ghost predicate Compiled(es: seq<Element>, text: string, params: seq<QueryParam>,
                           positions: map<ReusableParameter, nat>) {
    text == Render(Symbols(es)) && params == Values(Slots(es)) && PositionsOf(positions, Slots(es))
  }

  lemma {:induction false} TextStep(es: seq<Element>, s: string, text: string, params: seq<QueryParam>,
                                    positions: map<ReusableParameter, nat>)
    requires es != [] && es[|es| - 1] == Text(s) && Compiled(es[..|es| - 1], text, params, positions)
    ensures Compiled(es, text + s, params, positions)
  {
    RenderLast(es);
    RenderLiteral(s);
  }

  lemma {:induction false} ParamStep(es: seq<Element>, v: QueryParam, t: string, text: string, params: seq<QueryParam>,
                                     positions: map<ReusableParameter, nat>)
    requires es != [] && es[|es| - 1] == Param(v, t) && Compiled(es[..|es| - 1], text, params, positions)
    ensures Compiled(es, text + ("$" + Digits(|params| + 1) + "::" + t), params + [v], positions)
  {
    RenderLast(es);
    PlainPlace(es, v, t);
    RenderCast(|params| + 1, t);
  }

  lemma {:induction false} PlainPlace(es: seq<Element>, v: QueryParam, t: string)
    requires es != [] && es[|es| - 1] == Param(v, t)
    ensures Slots(es) == Slots(es[..|es| - 1]) + [Plain(v)] && Values(Slots(es)) == Values(Slots(es[..|es| - 1])) + [v]
    ensures forall p :: Shared(p) in Slots(es[..|es| - 1]) ==>
      Shared(p) in Slots(es) && PlaceOf(Slots(es), Shared(p)) == PlaceOf(Slots(es[..|es| - 1]), Shared(p))
  {
    PlacesStay(es);
  }

  lemma {:induction false} ReusableStep(es: seq<Element>, p: ReusableParameter, text: string, params: seq<QueryParam>,
                                        positions: map<ReusableParameter, nat>)
    requires es != [] && es[|es| - 1] == Reusable(p) && Compiled(es[..|es| - 1], text, params, positions)
    ensures p in positions ==> Compiled(es, text + ("$" + Digits(positions[p]) + "::" + p.typeName), params, positions)
    ensures p !in positions ==>
      Compiled(es, text + ("$" + Digits(|params| + 1) + "::" + p.typeName), params + [p.value],
               positions[p := |params| + 1])
  {
    var n := PlaceOf(Slots(es), Shared(p));
    RenderLast(es);
    RenderCast(n, p.typeName);
    assert Render(Symbols(es)) == text + ("$" + Digits(n) + "::" + p.typeName);
    ReusablePlace(es, p);
    if p !in positions {
      NewPosition(Slots(es[..|es| - 1]), p, positions);
    }
  }

  lemma {:induction false} NewPosition(slots: seq<Slot>, p: ReusableParameter, positions: map<ReusableParameter, nat>)
    requires PositionsOf(positions, slots) && Shared(p) !in slots
    ensures PositionsOf(positions[p := |slots| + 1], slots + [Shared(p)])
  {
    var more, extended := slots + [Shared(p)], positions[p := |slots| + 1];
    PlacesOfLonger(slots, Shared(p));
    forall q | q in extended
      ensures Shared(q) in more && extended[q] == PlaceOf(more, Shared(q))
    {
      assert q != p ==> q in positions;
    }
  }

  lemma {:induction false} PlacesOfLonger(slots: seq<Slot>, s: Slot)
    requires s !in slots
    ensures s in slots + [s] && PlaceOf(slots + [s], s) == |slots| + 1
    ensures forall x :: x in slots ==> x in slots + [s] && PlaceOf(slots + [s], x) == PlaceOf(slots, x)
  {
    var more := slots + [s];
    assert more[|slots|] == s;
    forall x | x in slots
      ensures x in more && PlaceOf(more, x) == PlaceOf(slots, x)
    {
      var n := PlaceOf(slots, x);
      assert more[n - 1] == x;
      assert forall i :: 0 <= i < n - 1 ==> more[i] == slots[i] != x;
    }
  }

  /** A reusable parameter met again adds nothing to the list of values; one met first goes to its end. */
  lemma {:induction false} ReusablePlace(es: seq<Element>, p: ReusableParameter)
    requires es != [] && es[|es| - 1] == Reusable(p)
    ensures var before := Slots(es[..|es| - 1]);
      if Shared(p) in before then Slots(es) == before
      else
        && Slots(es) == before + [Shared(p)]
        && Values(Slots(es)) == Values(before) + [p.value]
        && PlaceOf(Slots(es), Shared(p)) == |before| + 1
  {
    var before := Slots(es[..|es| - 1]);
    if Shared(p) !in before {
      assert (before + [Shared(p)])[|before|] == Shared(p);
    }
  }

  lemma {:induction false} RenderLiteral(s: string)
    ensures Render(Literal(s)) == s
  {
    if s != "" {
      RenderLiteral(s[1..]);
      assert Literal(s)[1..] == Literal(s[1..]);
    }
  }

  lemma RenderCast(n: nat, t: string)
    ensures Render(Cast(n, t)) == "$" + Digits(n) + "::" + t
  {
    RenderLiteral("::" + t);
    RenderCons(Placeholder(n), Literal("::" + t));
    ConcatAssociates("$" + Digits(n), "::", t);
  }

  /** A place once given to a reusable parameter stays its place. */
  lemma {:induction false} PlacesStay(es: seq<Element>)
    requires es != []
    ensures var before, after := Slots(es[..|es| - 1]), Slots(es);
      |before| <= |after| && after[..|before|] == before
      && (forall p :: Shared(p) in before ==>
           Shared(p) in after && PlaceOf(after, Shared(p)) == PlaceOf(before, Shared(p)))
  {
  }

  // ---------------------------------------------------------------- meaning

  lemma {:induction false} ExpandConcat(a: seq<Element>, b: seq<Element>)
    ensures Expand(a + b) == Expand(a) + Expand(b)
  {
    if b == [] {
      assert a + b == a;
    } else {
      var init, last := b[..|b| - 1], b[|b| - 1];
      ExpandConcat(a, init);
      assert (a + b)[..|a + b| - 1] == a + init && (a + b)[|a + b| - 1] == last;
      ConcatAssociates(Expand(a), Expand(init), ExpandOne(last));
    }
  }

  function PieceOf(s: Symbol, params: seq<QueryParam>): Piece {
    match s
    case C(c) => Ch(c)
    case Placeholder(n) => Value(params, n)
  }

  /** The symbols with the values put in the place of the placeholders. */
  function Meaning(ss: seq<Symbol>, params: seq<QueryParam>): (out: seq<Piece>)
    ensures |out| == |ss| && forall i :: 0 <= i < |ss| ==> out[i] == PieceOf(ss[i], params)
  {
    seq(|ss|, i requires 0 <= i < |ss| => PieceOf(ss[i], params))
  }

  /** Every placeholder is followed by a character that is not a digit. */
  ghost predicate Separated(ss: seq<Symbol>) {
    forall k :: 0 <= k < |ss| && ss[k].Placeholder? ==> k + 1 < |ss| && ss[k + 1] == C(':')
  }

  /** Every placeholder has a value. */
  ghost predicate InRange(ss: seq<Symbol>, n: nat) {
    forall k :: 0 <= k < |ss| && ss[k].Placeholder? ==> 1 <= ss[k].n <= n
  }

  /** Substitution undoes rendering exactly when no literal text looks like a placeholder. */
  lemma {:induction false} SubstituteRendered(ss: seq<Symbol>, params: seq<QueryParam>)
    requires Separated(ss)
    ensures Substitute(Render(ss), params) == Meaning(ss, params) <==> !HasPlaceholderText(Meaning(ss, params))
    decreases |ss|
  {
    if ss != [] {
      var rest := ss[1..];
      assert Separated(rest) by {
        assert forall k :: 0 <= k < |rest| ==> rest[k] == ss[k + 1];
      }
      SubstituteRendered(rest, params);
      var m := Meaning(ss, params);
      assert m == [m[0]] + Meaning(rest, params);
      PlaceholderTextTail(m);
      if LooksLikePlaceholder(m, 0) {
        ReadsPlaceholder(ss, params);
      } else {
        ReadsSymbol(ss, params);
      }
    }
  }

  lemma PlaceholderTextTail(m: seq<Piece>)
    requires m != []
    ensures HasPlaceholderText(m) <==> LooksLikePlaceholder(m, 0) || HasPlaceholderText(m[1..])
  {
    assert forall k :: LooksLikePlaceholder(m[1..], k) ==> LooksLikePlaceholder(m, k + 1);
    assert forall k :: LooksLikePlaceholder(m, k) && k > 0 ==> LooksLikePlaceholder(m[1..], k - 1);
  }

  /** Literal text that looks like a placeholder is read as one. */
  lemma ReadsPlaceholder(ss: seq<Symbol>, params: seq<QueryParam>)
    requires LooksLikePlaceholder(Meaning(ss, params), 0)
    ensures Substitute(Render(ss), params) != [] && !Substitute(Render(ss), params)[0].Ch?
  {
    assert PieceOf(ss[0], params) == Ch('$') && ss[0] == C('$');
    assert PieceOf(ss[1], params).Ch? && ss[1].C?;
    var text := Render(ss);
    assert text == "$" + Render(ss[1..]);
    assert ss[1..][0] == ss[1];
    assert Render(ss[1..]) == [ss[1].c] + Render(ss[1..][1..]);
    assert text[1] == ss[1].c;
  }

  /** Any other first symbol is read as what it is. */
  lemma ReadsSymbol(ss: seq<Symbol>, params: seq<QueryParam>)
    requires ss != [] && Separated(ss) && !LooksLikePlaceholder(Meaning(ss, params), 0)
    ensures Substitute(Render(ss), params) == [PieceOf(ss[0], params)] + Substitute(Render(ss[1..]), params)
  {
    var rest := ss[1..];
    match ss[0] {
      case C(c) =>
        if c == '$' && Render(rest) != "" {
          FirstOfRendered(rest);
          assert Meaning(ss, params)[1] == PieceOf(rest[0], params);
        }
        ReadsCharacter(c, Render(rest), params);
      case Placeholder(n) =>
        assert rest[0] == C(':');
        assert Render(rest) == ":" + Render(rest[1..]);
        ReadsNumber(n, Render(rest), params);
    }
  }

  lemma ReadsCharacter(c: char, tail: string, params: seq<QueryParam>)
    requires c == '$' && tail != "" ==> !IsDigit(tail[0])
    ensures Substitute([c] + tail, params) == [Ch(c)] + Substitute(tail, params)
  {
    assert ([c] + tail)[1..] == tail;
  }

  lemma ReadsNumber(n: nat, tail: string, params: seq<QueryParam>)
    requires tail != "" && !IsDigit(tail[0])
    ensures Substitute("$" + Digits(n) + tail, params) == [Value(params, n)] + Substitute(tail, params)
  {
    DigitsReadBack(n);
    LeadingDigitsOf(Digits(n), tail);
    var text := "$" + Digits(n) + tail;
    var after := Digits(n) + tail;
    assert text[1..] == after && text[1] == Digits(n)[0];
    assert after[..|Digits(n)|] == Digits(n) && after[|Digits(n)|..] == tail;
  }

  lemma FirstOfRendered(ss: seq<Symbol>)
    requires Render(ss) != ""
    ensures ss != [] && Render(ss)[0] == if ss[0].C? then ss[0].c else '$'
  {
  }

  /** The symbols mean the elements: every placeholder has its own value, also after more elements were added. */
  lemma {:induction false} SymbolsMeanElements(es: seq<Element>)
    ensures Separated(Symbols(es)) && InRange(Symbols(es), |Slots(es)|)
    ensures Meaning(Symbols(es), Values(Slots(es))) == Expand(es)
  {
    if es != [] {
      var init := es[..|es| - 1];
      SymbolsMeanElements(init);
      PlacesStay(es);
      ElementMeans(es[|es| - 1], Slots(es));
      var a, b := Symbols(init), ElementSymbols(es[|es| - 1], Slots(es));
      MeaningStays(a, Values(Slots(init)), Values(Slots(es)));
      MeaningConcat(a, b, Values(Slots(es)));
      SeparatedConcat(a, b);
    }
  }

  lemma ElementMeans(e: Element, slots: seq<Slot>)
    requires e.Reusable? ==> Shared(e.parameter) in slots
    requires e.Param? ==> 0 < |slots| && slots[|slots| - 1] == Plain(e.value)
    ensures Separated(ElementSymbols(e, slots)) && InRange(ElementSymbols(e, slots), |slots|)
    ensures Meaning(ElementSymbols(e, slots), Values(slots)) == ExpandOne(e)
  {
    match e
    case Text(s) =>
      assert Meaning(Literal(s), Values(slots)) == Chars(s);
    case Param(v, t) =>
      CastMeans(|slots|, t, Values(slots));
    case Reusable(p) =>
      CastMeans(PlaceOf(slots, Shared(p)), p.typeName, Values(slots));
  }

  lemma CastMeans(n: nat, t: string, params: seq<QueryParam>)
    requires 1 <= n <= |params|
    ensures Separated(Cast(n, t)) && InRange(Cast(n, t), |params|)
    ensures Meaning(Cast(n, t), params) == [Val(params[n - 1])] + Chars("::" + t)
  {
    assert Cast(n, t)[1] == C(("::" + t)[0]);
  }

  lemma MeaningStays(ss: seq<Symbol>, params: seq<QueryParam>, more: seq<QueryParam>)
    requires InRange(ss, |params|) && |params| <= |more| && more[..|params|] == params
    ensures Meaning(ss, more) == Meaning(ss, params)
  {
    forall i | 0 <= i < |ss|
      ensures PieceOf(ss[i], more) == PieceOf(ss[i], params)
    {
      assert ss[i].Placeholder? ==> more[ss[i].n - 1] == more[..|params|][ss[i].n - 1];
    }
  }

  lemma MeaningConcat(a: seq<Symbol>, b: seq<Symbol>, params: seq<QueryParam>)
    ensures Meaning(a + b, params) == Meaning(a, params) + Meaning(b, params)
  {
  }

  lemma SeparatedConcat(a: seq<Symbol>, b: seq<Symbol>)
    requires Separated(a) && Separated(b)
    ensures Separated(a + b)
  {
    forall k | 0 <= k < |a + b| && (a + b)[k].Placeholder?
      ensures k + 1 < |a + b| && (a + b)[k + 1] == C(':')
    {
      if k < |a| {
        assert a[k].Placeholder?;
      } else {
        assert b[k - |a|].Placeholder?;
      }
    }
  }

  /**
   Replacing every "$n" of the generated text by the n-th value gives back the elements with their own
   values if and only if no literal text puts a dollar sign directly before a digit.
   */
  lemma CompilationPreservesMeaning(es: seq<Element>)
    ensures Substitute(Render(Symbols(es)), Values(Slots(es))) == Expand(es) <==> !HasPlaceholderText(Expand(es))
  {
    SymbolsMeanElements(es);
    SubstituteRendered(Symbols(es), Values(Slots(es)));
  }

  /** The law does fail: text that contains "$1" next to a parameter is read as a second use of it. */
  lemma PlaceholderInTextIsRead(v: QueryParam)
    ensures var es := [Text("$1 "), Param(v, "text")];
      Substitute(Render(Symbols(es)), Values(Slots(es))) != Expand(es)
  {
    var es := [Text("$1 "), Param(v, "text")];
    ExpandConcat([Text("$1 ")], [Param(v, "text")]);
    assert [Text("$1 ")] + [Param(v, "text")] == es;
    assert Expand([Text("$1 ")]) == Chars("$1 ") by {
      assert [Text("$1 ")][..0] == [];
    }
    assert LooksLikePlaceholder(Expand(es), 0);
    CompilationPreservesMeaning(es);
  }

  // ---------------------------------------------------------------- the list of values

  function PlainCount(es: seq<Element>): nat {
    if es == [] then 0 else PlainCount(es[..|es| - 1]) + if es[|es| - 1].Param? then 1 else 0
  }

  function ReusedParameters(es: seq<Element>): set<ReusableParameter> {
    if es == [] then {} else
      var last := es[|es| - 1];
      ReusedParameters(es[..|es| - 1]) + if last.Reusable? then {last.parameter} else {}
  }

  /** One value for each plain parameter and one for each distinct reusable parameter. */
  lemma {:induction false} OneValueEach(es: seq<Element>)
    ensures |Slots(es)| == PlainCount(es) + |ReusedParameters(es)|
    ensures forall p :: Shared(p) in Slots(es) <==> p in ReusedParameters(es)
  {
    if es != [] {
      OneValueEach(es[..|es| - 1]);
      if es[|es| - 1].Reusable? && Shared(es[|es| - 1].parameter) in Slots(es[..|es| - 1]) {
        assert ReusedParameters(es) == ReusedParameters(es[..|es| - 1]);
      }
    }
  }

  /** Every value of the list is referred to by the text. */
  lemma {:induction false} EveryValueIsUsed(es: seq<Element>, n: nat)
    requires 1 <= n <= |Slots(es)|
    ensures Placeholder(n) in Symbols(es)
  {
    var init := es[..|es| - 1];
    if n <= |Slots(init)| {
      EveryValueIsUsed(init, n);
    } else {
      PlacesStay(es);
      assert ElementSymbols(es[|es| - 1], Slots(es))[0] == Placeholder(n);
    }
  }
}
