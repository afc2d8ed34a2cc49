/** What mg_json_get finds at a path of two indices, and when that is not the element asked for. */
module JsonIndices {
  import opened Bytes
  import opened JsonLex
  import opened Json
  import opened JsonDocument
  import opened JsonLookup
  import opened JsonPath

  predicate Filled(v: Doc)
  {
    v.Node? && v.items.Cons?
  }

  predicate IsArray(v: Doc)
  {
    v.Node? && !v.obj
  }

  /** The first item from index `n` on that is an array or object with something inside, or the number
      of items. */
  function NextFilled(items: Items, n: nat): (m: nat)
    ensures m <= Count(items)
    ensures m < Count(items) ==> m >= n && Filled(Element(items, m))
  {
    match items
    case Nil => 0
    case Cons(_, v, _, rest) =>
      if n == 0 then if Filled(v) then 0 else 1 + NextFilled(rest, 0)
      else 1 + NextFilled(rest, n - 1)
  }

  /** Item `m` is an array whose first element is not nested too deep. */
  predicate Misleads(items: Items, m: nat)
  {
    && m < Count(items) && IsArray(Element(items, m)) && Filled(Element(items, m))
    && Depth(Element(Element(items, m).items, 0)) <= MAX_DEPTH - 2
  }

  /** Where that first element starts in the text of the items. */
  function MisledStart(items: Items, m: nat): nat
    requires Misleads(items, m)
  {
    ElementStart(false, items, m) + 1 + ElementStart(false, Element(items, m).items, 0)
  }

  function MisledText(items: Items, m: nat): seq<byte>
    requires Misleads(items, m)
  {
    Text(Element(Element(items, m).items, 0))
  }

  // ----- behind the array that the second index went into -----

  /** Back in the outer array, with both counters equal and the path used up. */
  predicate Beyond(path: seq<byte>, st: State)
  {
    && st.nesting == [LBRACKET] && st.ed == 2 && st.ci == st.ei >= 0
    && At(path, st.pos) == 0 && At(path, st.pos - 1) == RBRACKET && 1 <= st.pos <= |path| && path[st.pos..] == []
  }

  lemma BeyondEnd(s: seq<byte>, path: seq<byte>, st: State)
    requires Beyond(path, st) && st.expecting == CommaOrEnd && st.i < |s| && s[st.i] == Closing(false)
    ensures !Run(s, path, st).Found?
  {
    hide Run;
    var end := st.(nesting := [], i := st.i + 1);
    assert Step(s, path, st) == Go(end);
    RunStep(s, path, st);
    NothingLeft(s, path, end);
  }

  /** The run of a state whose step is known. */
  lemma RunStep(s: seq<byte>, path: seq<byte>, st: State)
    requires st.i < |s|
    ensures Run(s, path, st) == Continue(s, path, Step(s, path, st))
  {
  }

  function Inside(st: State, obj: bool): State
  {
    st.(nesting := st.nesting + [Opening(obj)], expecting := if obj then Key else Value, i := st.i + 1)
  }

  /** A bracket opened outside of what the path went into is not asked for. */
  lemma OpenOutside(s: seq<byte>, path: seq<byte>, st: State, obj: bool)
    requires |st.nesting| < st.ed && |st.nesting| < MAX_DEPTH && st.expecting == Value && st.i < |s|
    requires s[st.i] == Opening(obj)
    ensures Run(s, path, st) == Run(s, path, Inside(st, obj))
  {
    assert Step(s, path, st) == Go(Inside(st, obj));
  }

  lemma BeyondOpen(s: seq<byte>, path: seq<byte>, st: State, obj: bool)
    requires Beyond(path, st) && st.expecting == Value && st.i < |s| && s[st.i] == Opening(obj)
    ensures Run(s, path, st) == Run(s, path, Inside(st, obj))
  {
    hide Run;
    OpenOutside(s, path, st, obj);
  }

  /** An array or object without items is passed. */
  lemma BeyondEmpty(s: seq<byte>, path: seq<byte>, st: State, v: Doc) returns (j: nat)
    requires Beyond(path, st) && st.expecting == Value && v.Node? && v.items.Nil? && Ok(v) && Holds(s, st.i, Text(v))
    ensures Run(s, path, st) == Run(s, path, st.(i := st.i + |Text(v)|, j := j, expecting := CommaOrEnd))
  {
    hide *;
    NodeParts(s, st.i, v, v.pad);
    DocUnfold(v);
    BeyondOpen(s, path, st, v.obj);
    InsideFieldsOf(st, v.obj);
    var inside := Inside(st, v.obj);
    SpaceSkipped(s, path, inside, v.pad);
    var end := inside.(i := inside.i + |v.pad|);
    j := if v.obj then st.j else end.i;
    EmptyClosed(s, path, st, end, v.obj, j);
  }

  lemma EmptyClosed(s: seq<byte>, path: seq<byte>, st: State, end: State, obj: bool, j: nat)
    requires Beyond(path, st) && end == Inside(st, obj).(i := end.i) && end.i < |s| && s[end.i] == Closing(obj)
    requires j == if obj then st.j else end.i
    ensures Run(s, path, end) == Run(s, path, st.(i := end.i + 1, j := j, expecting := CommaOrEnd))
  {
    assert end.nesting[..|end.nesting| - 1] == st.nesting;
  }

  lemma BeyondScalar(s: seq<byte>, path: seq<byte>, st: State, v: Doc)
    requires Beyond(path, st) && st.expecting == Value && !v.Node?
    requires Ok(v) && Holds(s, st.i, Text(v)) && Ends(s, st.i + |Text(v)|, v)
    ensures Run(s, path, st) == Run(s, path, st.(i := st.i + |Text(v)|, expecting := CommaOrEnd))
  {
    hide Run, Text, Ok, Holds, Ends;
    ScalarStep(s, path, st, v);
  }

  /** In an object the next name ends the search. */
  lemma BeyondObject(s: seq<byte>, path: seq<byte>, st: State, v: Doc)
    requires Beyond(path, st) && st.expecting == Value && v.Node? && v.obj && v.items.Cons? && Ok(v)
    requires Holds(s, st.i, Text(v))
    ensures !Run(s, path, st).Found?
  {
    hide *;
    HeldInside(s, st.i, v);
    NodeParts(s, st.i, v, ItemsText(true, v.items));
    BeyondOpen(s, path, st, true);
    ItemParts(s, st.i + 1, true, v.items);
    LeadParts(s, st.i + 1, v.items.lead);
    ItemsSteps(true, v.items, 0, 0);
    LeadUnfold(v.items.lead);
    InsideFieldsOf(st, true);
    SpaceSkipped(s, path, Inside(st, true), v.items.lead.before);
    QuotedName(s, st.i + 1 + |v.items.lead.before|, v.items.lead.name);
    NameRefused(s, path, st, Inside(st, true).(i := st.i + 1 + |v.items.lead.before|));
  }

  lemma InsideFieldsOf(st: State, obj: bool)
    ensures Inside(st, obj).i == st.i + 1 && Inside(st, obj).expecting == if obj then Key else Value
  {
  }

  lemma NameRefused(s: seq<byte>, path: seq<byte>, st: State, at: State)
    requires Beyond(path, st) && at == Inside(st, true).(i := at.i) && at.i < |s| && s[at.i] == QUOTE
    ensures !Run(s, path, at).Found?
  {
    hide PassString, KeyMatches;
  }

  /** In an array the first element is taken for the one asked for. */
  lemma BeyondArray(s: seq<byte>, path: seq<byte>, st: State, v: Doc)
    requires Beyond(path, st) && st.expecting == Value && v.Node? && !v.obj && v.items.Cons? && Ok(v)
    requires Holds(s, st.i, Text(v))
    ensures Count(v.items) > 0
    ensures Run(s, path, st) == if Depth(Element(v.items, 0)) > MAX_DEPTH - 2 then TooDeep
                                else Found(st.i + 1 + ElementStart(false, v.items, 0), |Text(Element(v.items, 0))|)
  {
    hide *;
    HeldInside(s, st.i, v);
    NodeParts(s, st.i, v, ItemsText(false, v.items));
    BeyondOpen(s, path, st, false);
    InsideFieldsOf(st, false);
    ItemParts(s, st.i + 1, false, v.items);
    ItemsSteps(false, v.items, 0, 0);
    CountFacts(v.items);
    LeadRun(s, path, Inside(st, false), false, v.items.lead);
    var at := Inside(st, false).(expecting := Value, i := st.i + 1 + |LeadText(false, v.items.lead)|);
    BeyondValue(path, st, at);
    ElementHeld(s, st.i + 1, false, v.items, 0);
    GoalRun(s, path, at, v.items.v);
  }

  lemma BeyondValue(path: seq<byte>, st: State, at: State)
    requires Beyond(path, st) && at == Inside(st, false).(i := at.i)
    ensures AtValue(path, at, []) && Room(at) == MAX_DEPTH - 2
  {
  }

  lemma BeyondFields(path: seq<byte>, st: State, other: State)
    requires Beyond(path, st) && other == st.(i := other.i, j := other.j, expecting := other.expecting)
    ensures Beyond(path, other) && |other.nesting| > 0 && other.nesting[|other.nesting| - 1] == Opening(false)
  {
  }

  /** `r` is what is found from items at offset `i`: the first array or object with something inside,
      from item `n` on, decides. */
  predicate WrongFound(r: Result, i: nat, items: Items, n: nat)
  {
    var m := NextFilled(items, n);
    if Misleads(items, m) then r == Found(i + MisledStart(items, m), |MisledText(items, m)|) else !r.Found?
  }

  lemma WrongHere(r: Result, i: nat, items: Items)
    requires items.Cons? && Filled(items.v)
    requires if IsArray(items.v) && Depth(Element(items.v.items, 0)) <= MAX_DEPTH - 2
             then r == Found(i + ElementStart(false, items, 0) + 1 + ElementStart(false, items.v.items, 0),
                             |Text(Element(items.v.items, 0))|)
             else !r.Found?
    ensures WrongFound(r, i, items, 0)
  {
    hide Text, LeadText, Depth;
    assert Element(items, 0) == items.v;
  }

  /** What holds for the items behind the first one holds for all. */
  lemma WrongLater(r: Result, i: nat, items: Items, n: nat)
    requires items.Cons? && (n == 0 ==> !Filled(items.v))
    requires WrongFound(r, i + |LeadText(false, items.lead)| + |Text(items.v)| + |items.after| + 1, items.rest,
            if n == 0 then 0 else n - 1)
    ensures WrongFound(r, i, items, n)
  {
    hide Text, LeadText, Depth;
    var m := NextFilled(items.rest, if n == 0 then 0 else n - 1);
    assert NextFilled(items, n) == m + 1;
    if m < Count(items.rest) {
      assert Element(items, m + 1) == Element(items.rest, m);
    }
  }

  lemma NoneLater(r: Result, i: nat, n: nat)
    requires !r.Found?
    ensures WrongFound(r, i, Nil, n)
  {
  }

  lemma {:induction false} BeyondRun(s: seq<byte>, path: seq<byte>, st: State, items: Items)
    requires Beyond(path, st) && st.expecting == Value
    requires items.Cons? && ItemsOk(items) && Holds(s, st.i, ItemsText(false, items) + [Closing(false)])
    ensures WrongFound(Run(s, path, st), st.i, items, 0)
    decreases items
  {
    hide *;
    ItemParts(s, st.i, false, items);
    ItemsSteps(false, items, 0, 0);
    LeadRun(s, path, st, false, items.lead);
    var at := st.(expecting := Value, i := st.i + |LeadText(false, items.lead)|);
    BeyondFields(path, st, at);
    FilledUnfold(items.v);
    if Filled(items.v) {
      if items.v.obj {
        BeyondObject(s, path, at, items.v);
      } else {
        BeyondArray(s, path, at, items.v);
      }
      WrongHere(Run(s, path, st), st.i, items);
    } else {
      var j := st.j;
      if items.v.Node? {
        j := BeyondEmpty(s, path, at, items.v);
      } else {
        BeyondScalar(s, path, at, items.v);
        assert at.j == j;
      }
      var behind := at.(i := at.i + |Text(items.v)|, j := j, expecting := CommaOrEnd);
      BeyondFields(path, st, behind);
      NextBeyond(s, path, st.i, behind, items);
      WrongLater(Run(s, path, behind), st.i, items, 0);
    }
  }

  /** Behind an item that decides nothing the next one is looked at; the items start at offset `i`. */
  lemma {:induction false} NextBeyond(s: seq<byte>, path: seq<byte>, i: nat, behind: State, items: Items)
    requires items.Cons? && ItemsOk(items) && Holds(s, i, ItemsText(false, items) + [Closing(false)])
    requires Beyond(path, behind) && behind.expecting == CommaOrEnd
    requires behind.i == i + |LeadText(false, items.lead)| + |Text(items.v)|
    ensures WrongFound(Run(s, path, behind), behind.i + |items.after| + 1, items.rest, 0)
    decreases items, 0
  {
    hide *;
    ItemParts(s, i, false, items);
    ItemsSteps(false, items, 0, 0);
    BeyondFields(path, behind, behind);
    NextItem(s, path, behind, false, items.after, items.rest.Nil?);
    var end := behind.(i := behind.i + |items.after|);
    BeyondFields(path, behind, end);
    if items.rest.Nil? {
      BeyondEnd(s, path, end);
      NoneLater(Run(s, path, end), end.i + 1, 0);
      assert items.rest == Nil;
    } else {
      var next := end.(expecting := Value, i := end.i + 1);
      BeyondFields(path, behind, next);
      BeyondRun(s, path, next, items.rest);
    }
  }

  lemma FilledUnfold(v: Doc)
    ensures Filled(v) <==> v.Node? && v.items.Cons?
    ensures IsArray(v) <==> v.Node? && !v.obj
  {
  }

  // ----- the items from one on -----

  function From(items: Items, k: nat): Items
    requires k < Count(items)
  {
    if k == 0 then items else From(items.rest, k - 1)
  }

  function FromStart(items: Items, k: nat): nat
    requires k < Count(items)
  {
    if k == 0 then 0
    else |LeadText(false, items.lead)| + |Text(items.v)| + |items.after| + 1 + FromStart(items.rest, k - 1)
  }

  lemma FromSteps(items: Items, k: nat)
    requires k < Count(items)
    ensures k == 0 ==> From(items, k) == items && FromStart(items, k) == 0
    ensures k > 0 ==>
              && From(items, k) == From(items.rest, k - 1)
              && FromStart(items, k)
                  == |LeadText(false, items.lead)| + |Text(items.v)| + |items.after| + 1 + FromStart(items.rest, k - 1)
  {
    hide Text, LeadText;
  }

  lemma {:induction false} FromHeld(s: seq<byte>, i: nat, items: Items, k: nat)
    requires k < Count(items) && ItemsOk(items) && Holds(s, i, ItemsText(false, items) + [Closing(false)])
    ensures var from := From(items, k);
            && from.Cons? && from.v == Element(items, k) && ItemsOk(from)
            && Holds(s, i + FromStart(items, k), ItemsText(false, from) + [Closing(false)])
            && ElementStart(false, items, k) == FromStart(items, k) + |LeadText(false, from.lead)|
    decreases items
  {
    hide *;
    CountFacts(items);
    ItemParts(s, i, false, items);
    ItemsSteps(false, items, k, 0);
    FromSteps(items, k);
    if k > 0 {
      FromHeld(s, i + |LeadText(false, items.lead)| + |Text(items.v)| + |items.after| + 1, items.rest, k - 1);
    }
  }

  /** What the items behind item `k` decide. */
  lemma {:induction false} WrongBehind(r: Result, i: nat, items: Items, k: nat)
    requires k < Count(items)
    requires var from := From(items, k);
             && from.Cons?
             && WrongFound(r, i + FromStart(items, k) + |LeadText(false, from.lead)| + |Text(from.v)|
                              + |from.after| + 1, from.rest, 0)
    ensures WrongFound(r, i, items, k + 1)
    decreases items
  {
    hide *;
    CountFacts(items);
    FromSteps(items, k);
    if k > 0 {
      CountStep(items);
      WrongBehind(r, i + |LeadText(false, items.lead)| + |Text(items.v)| + |items.after| + 1, items.rest, k - 1);
    }
    WrongLater(r, i, items, k + 1);
  }

  lemma CountStep(items: Items)
    requires items.Cons?
    ensures Count(items) == 1 + Count(items.rest)
  {
  }

  // ----- the first index -----

  /** After a value that is no array the first index cannot be reached again. */
  lemma NoArray(s: seq<byte>, path: seq<byte>, st: State, i: nat, items: Items, text: seq<byte>)
    requires AtValue(path, st, text) && text != [] && text[0] == LBRACKET
    requires items.Cons? && AtElement(path, st, 0) && st.i == i + |LeadText(false, items.lead)|
    requires ItemsOk(items) && Holds(s, i, ItemsText(false, items) + [Closing(false)]) && !IsArray(items.v)
    ensures !Run(s, path, st).Found?
  {
    hide *;
    ItemParts(s, i, false, items);
    ItemsSteps(false, items, 0, 0);
    NotAsked(s, path, st, items.v, text);
    ValueRun(s, path, st, items.v);
    var behind := st.(j := st.i, ci := st.ci + 1, expecting := CommaOrEnd, i := st.i + |Text(items.v)|);
    NotAskedPassed(s, path, st, behind, items.v, text);
    if |st.nesting| + Depth(items.v) <= MAX_DEPTH {
      NextItem(s, path, behind, false, items.after, items.rest.Nil?);
      var end := behind.(i := behind.i + |items.after|);
      ElementMoved(path, behind, end.i, -1);
      if items.rest.Nil? {
        EndOfArray(s, path, end, -1);
      } else {
        var next := end.(expecting := Value, i := end.i + 1);
        NextElement(path, end, next, -1);
        var j := ElementsPassed(s, path, next, items.rest, -1);
      }
    }
  }

  lemma NextElement(path: seq<byte>, st: State, next: State, k: int)
    requires AtElement(path, st, k) && next == st.(expecting := Value, i := next.i)
    ensures AtElement(path, next, k)
  {
  }

  lemma NotAsked(s: seq<byte>, path: seq<byte>, st: State, v: Doc, text: seq<byte>)
    requires AtValue(path, st, text) && text != [] && text[0] == LBRACKET && !IsArray(v)
    ensures v.Node? ==> Quiet(path, st, v.obj)
    ensures st.expecting == Value && |st.nesting| <= MAX_DEPTH
  {
  }

  lemma NotAskedPassed(s: seq<byte>, path: seq<byte>, st: State, behind: State, v: Doc, text: seq<byte>)
    requires AtValue(path, st, text) && text != [] && text[0] == LBRACKET && AtElement(path, st, 0)
    requires 0 < |Text(v)| && st.i + |Text(v)| <= |s|
    requires behind == st.(j := st.i, ci := st.ci + 1, expecting := CommaOrEnd, i := st.i + |Text(v)|)
    ensures Outcomes(s, path, st, |Text(v)|, Depth(v)) == if |st.nesting| + Depth(v) > MAX_DEPTH then TooDeep
                                                          else Run(s, path, behind)
    ensures AtElement(path, behind, -1) && |behind.nesting| > 0
    ensures behind.nesting[|behind.nesting| - 1] == Opening(false)
  {
    hide Run, Text, Depth;
    assert At(path, st.pos) == text[0];
  }

  // ----- the second index -----

  /** Inside the array with the first index: an index beyond its elements finds nothing there, and at its
      end the search goes on. */
  lemma InnerRun(s: seq<byte>, path: seq<byte>, st: State, v: Doc, d: seq<byte>) returns (j: nat)
    requires AtValue(path, st, IndexText(d)) && st.nesting == [LBRACKET] && AllDigits(d)
    requires IsArray(v) && Ok(v) && Holds(s, st.i, Text(v)) && Decimal(d) >= Count(v.items)
    ensures var k := Decimal(d);
            var behind := BeyondInner(st, v, d, j);
            if k == Count(v.items) && Shallow(v.items, k, MAX_DEPTH - 2)
            then Beyond(path, behind) && Run(s, path, st) == Run(s, path, behind)
            else !Run(s, path, st).Found?
  {
    hide *;
    j := 0;
    FilledUnfold(v);
    IndexOk(d);
    var inner := if v.items.Nil? then v.pad else ItemsText(false, v.items);
    var inside, k := InArray(st, IndexText(d)), Decimal(d);
    NodeParts(s, st.i, v, inner);
    DocUnfold(v);
    OpensWith(false);
    IndexEntered(s, path, st, d);
    InsideFields(st, IndexText(d));
    CountFacts(v.items);
    if v.items.Nil? {
      SpaceSkipped(s, path, inside, v.pad);
      var end := inside.(i := inside.i + |v.pad|);
      ElementMoved(path, inside, end.i, k);
      if k > 0 {
        EmptyArray(s, path, end, k);
      } else {
        j := InnerClosed(s, path, st, v, d, end);
        NothingBefore(v.items, MAX_DEPTH - 2);
      }
    } else {
      var last := ElementsPassed(s, path, inside, v.items, k);
      if k == Count(v.items) && Shallow(v.items, k, MAX_DEPTH - 2) {
        var end := Reached(inside, v.items, k, last);
        ReachedEnd(path, inside, v.items, last);
        ReachedPath(inside, v.items, last);
        j := InnerClosed(s, path, st, v, d, end);
      }
    }
  }

  lemma ReachedPath(st: State, items: Items, j: nat)
    ensures Reached(st, items, Count(items), j).ei == st.ei
  {
  }

  lemma NothingBefore(items: Items, room: int)
    ensures Shallow(items, 0, room)
  {
  }

  function BeyondInner(st: State, v: Doc, d: seq<byte>, j: nat): State
    requires AllDigits(d)
  {
    State(st.i + |Text(v)|, CommaOrEnd, [LBRACKET], j, 2, st.pos + |d| + 2, Decimal(d), Decimal(d))
  }

  lemma IndexEntered(s: seq<byte>, path: seq<byte>, st: State, d: seq<byte>)
    requires AtValue(path, st, IndexText(d)) && st.nesting == [LBRACKET] && AllDigits(d) && st.i < |s|
    requires s[st.i] == LBRACKET
    ensures var inside := InArray(st, IndexText(d));
            && AtElement(path, inside, Decimal(d)) && Run(s, path, st) == Run(s, path, inside)
            && Room(inside) == MAX_DEPTH - 2
  {
    IndexOk(d);
    hide Run, Decimal, HopEnd, HopOk, IndexDigits, IndexText;
    ArrayEntered(s, path, st, IndexText(d));
  }

  lemma InnerClosed(s: seq<byte>, path: seq<byte>, st: State, v: Doc, d: seq<byte>, end: State) returns (j: nat)
    requires AtValue(path, st, IndexText(d)) && st.nesting == [LBRACKET] && AllDigits(d) && |Text(v)| > 0
    requires end.i + 1 == st.i + |Text(v)| && end.i < |s| && s[end.i] == Closing(false)
    requires var inside := InArray(st, IndexText(d));
             end == inside.(i := end.i, j := end.j, ci := end.ci, expecting := end.expecting)
    requires AtElement(path, end, 0) && (end.expecting == CommaOrEnd || end.expecting == Value)
    ensures Beyond(path, BeyondInner(st, v, d, j)) && Run(s, path, end) == Run(s, path, BeyondInner(st, v, d, j))
  {
    hide *;
    IndexOk(d);
    j := if end.expecting == Value then end.i else end.j;
    InsideEnd(st, IndexText(d), end);
    PastArrayHere(s, path, st, IndexText(d), end);
    ValueFacts(path, st, IndexText(d));
    AfterHop(path, st.pos, IndexText(d));
    BeyondAt(path, st, v, d, end, j);
  }

  lemma InsideEnd(st: State, text: seq<byte>, end: State)
    requires text != [] && end == InArray(st, text).(i := end.i, j := end.j, ci := end.ci, expecting := end.expecting)
    ensures end.nesting == InArray(st, text).nesting
  {
  }

  lemma PastArrayHere(s: seq<byte>, path: seq<byte>, st: State, text: seq<byte>, end: State)
    requires text != [] && AtElement(path, end, 0) && end.nesting == InArray(st, text).nesting && end.i < |s|
    requires s[end.i] == Closing(false)
    requires end.expecting == CommaOrEnd || end.expecting == Value
    ensures Run(s, path, end)
         == Run(s, path,
             end.(j := if end.expecting == Value then end.i else end.j, nesting := st.nesting,
                 expecting := CommaOrEnd, i := end.i + 1))
  {
    hide Run;
    PastArray(s, path, end);
    assert end.nesting[..|end.nesting| - 1] == st.nesting;
  }

  lemma AfterHop(path: seq<byte>, pos: nat, text: seq<byte>)
    requires text != [] && HopEnd(text) <= |text| && pos <= |path| && path[pos..] == text
    ensures pos + HopEnd(text) <= |path| && path[pos + HopEnd(text)..] == text[HopEnd(text)..]
  {
    hide HopEnd;
  }

  lemma BeyondAt(path: seq<byte>, st: State, v: Doc, d: seq<byte>, end: State, j: nat)
    requires AtValue(path, st, IndexText(d)) && st.nesting == [LBRACKET] && AllDigits(d)
    requires end.i + 1 == st.i + |Text(v)|
    requires var inside := InArray(st, IndexText(d));
             end == inside.(i := end.i, j := end.j, ci := end.ci, expecting := end.expecting)
    requires AtElement(path, end, 0) && HopEnd(IndexText(d)) == |IndexText(d)| && IndexDigits(IndexText(d)) == d
    requires st.pos + HopEnd(IndexText(d)) <= |path| && path[st.pos + HopEnd(IndexText(d))..] == []
    ensures Beyond(path, BeyondInner(st, v, d, j))
    ensures BeyondInner(st, v, d, j) == end.(j := j, nesting := st.nesting, expecting := CommaOrEnd, i := end.i + 1)
  {
    hide Text, HopEnd, IndexDigits, Decimal;
  }

  // ----- "$[a][b]" -----

  /** The path behind the "$". */
  function TwoIndices(da: seq<byte>, db: seq<byte>): seq<byte>
  {
    IndexText(da) + IndexText(db)
  }

  /** The array that the second index looks into. */
  predicate InnerArray(v: Doc, da: seq<byte>)
    requires v.Node? && AllDigits(da)
  {
    Decimal(da) < Count(v.items) && IsArray(Element(v.items, Decimal(da)))
  }

  lemma TwoIndicesOk(v: Doc, da: seq<byte>, db: seq<byte>)
    requires AllDigits(da) && AllDigits(db) && v.Node? && !v.obj
    ensures var text := TwoIndices(da, db);
            && PathOk(text, false) && text != [] && text[0] == LBRACKET && HopOk(text) && IndexDigits(text) == da
            && Pick(v, text, Fitting) == Decimal(da)
            && (Decimal(da) < Count(v.items) ==> Behind(v, text, Fitting) == IndexText(db))
  {
    IndexOk(db);
    IndexHop(da, IndexText(db));
    hide IndexText, IndexDigits, Decimal, AllDigits, Count;
    AnyPath(IndexText(db), true);
  }

  /** When two indices lead to a value, and to which. */
  lemma TwoIndicesLead(v: Doc, da: seq<byte>, db: seq<byte>)
    requires AllDigits(da) && AllDigits(db) && v.Node? && !v.obj
    ensures var text, a, b := TwoIndices(da, db), Decimal(da), Decimal(db);
            && (Leads(v, text, Fitting) <==> InnerArray(v, da) && b < Count(Element(v.items, a).items))
            && (Leads(v, text, Fitting) ==>
                  var inner := Element(v.items, a).items;
                  && Goal(v, text, Fitting) == Element(inner, b)
                  && Offset(v, text, Fitting) == 1 + ElementStart(false, v.items, a) + 1 + ElementStart(false, inner, b)
                  && (Clear(v, text, MAX_DEPTH, Fitting)
                      <==> Shallow(v.items, a, MAX_DEPTH - 1) && Shallow(inner, b + 1, MAX_DEPTH - 2)))
  {
    hide *;
    var text, a := TwoIndices(da, db), Decimal(da);
    DepthLimit();
    TwoIndicesOk(v, da, db);
    LeadsUnfold(v, text, MAX_DEPTH);
    if a < Count(v.items) {
      var e := Element(v.items, a);
      IndexOk(db);
      FilledUnfold(e);
      InnerUnfold(v, da);
      LeadsUnfold(e, IndexText(db), MAX_DEPTH - 1);
      if IsArray(e) {
        IndexPick(e, db);
        OneHop(e, IndexText(db), MAX_DEPTH - 1);
      } else if e.Node? {
        ObjectPick(e, db);
      }
    } else {
      InnerUnfold(v, da);
    }
  }

  lemma DepthLimit()
    ensures MAX_DEPTH > 2
  {
  }

  lemma ObjectPick(e: Doc, d: seq<byte>)
    requires e.Node? && e.obj && AllDigits(d)
    ensures IndexText(d) != [] && Pick(e, IndexText(d), Fitting) == Count(e.items)
  {
  }

  lemma InnerUnfold(v: Doc, da: seq<byte>)
    requires v.Node? && AllDigits(da)
    ensures InnerArray(v, da) <==> Decimal(da) < Count(v.items) && IsArray(Element(v.items, Decimal(da)))
  {
  }

  /** What is found when the two indices lead to nothing: usually nothing, but with the number of the
      inner elements as index, what the items behind decide. */
  predicate Misses(r: Result, i: nat, v: Doc, da: seq<byte>, db: seq<byte>)
    requires v.Node? && AllDigits(da) && AllDigits(db)
  {
    var a, b := Decimal(da), Decimal(db);
    if InnerArray(v, da) && b == Count(Element(v.items, a).items) && Shallow(v.items, a, MAX_DEPTH - 1)
       && Shallow(Element(v.items, a).items, b, MAX_DEPTH - 2)
    then WrongFound(r, i + 1, v.items, a + 1)
    else !r.Found?
  }

  lemma MissesNothing(r: Result, i: nat, v: Doc, da: seq<byte>, db: seq<byte>)
    requires v.Node? && AllDigits(da) && AllDigits(db) && !r.Found?
    requires InnerArray(v, da) && Shallow(v.items, Decimal(da), MAX_DEPTH - 1) ==>
               !(Decimal(db) == Count(Element(v.items, Decimal(da)).items)
                   && Shallow(Element(v.items, Decimal(da)).items, Decimal(db), MAX_DEPTH - 2))
    ensures Misses(r, i, v, da, db)
  {
  }

  /** The outermost array ends before the element with the first index. */
  lemma OuterClosed(s: seq<byte>, path: seq<byte>, st: State, text: seq<byte>, end: State)
    requires AtValue(path, st, text) && st.nesting == [] && text != [] && AtElement(path, end, 0)
    requires end.nesting == InArray(st, text).nesting && end.i < |s| && s[end.i] == Closing(false)
    requires end.expecting == CommaOrEnd || end.expecting == Value
    ensures !Run(s, path, end).Found?
  {
    hide Run;
    PastArray(s, path, end);
    assert end.nesting[..|end.nesting| - 1] == [];
    NothingLeft(s, path,
        end.(j := if end.expecting == Value then end.i else end.j, nesting := [], expecting := CommaOrEnd,
            i := end.i + 1));
  }

  /** The run from the array itself, when the indices lead to nothing. */
  lemma OuterRun(s: seq<byte>, path: seq<byte>, st: State, v: Doc, da: seq<byte>, db: seq<byte>)
    requires v.Node? && !v.obj && Ok(v) && Holds(s, st.i, Text(v)) && AllDigits(da) && AllDigits(db)
    requires AtValue(path, st, TwoIndices(da, db)) && st.nesting == [] && Room(st) == MAX_DEPTH
    requires InnerArray(v, da) ==> Decimal(db) >= Count(Element(v.items, Decimal(da)).items)
    ensures Misses(Run(s, path, st), st.i, v, da, db)
  {
    hide *;
    var text, a := TwoIndices(da, db), Decimal(da);
    var inner := if v.items.Nil? then v.pad else ItemsText(false, v.items);
    TwoIndicesOk(v, da, db);
    var inside := InArray(st, text);
    NodeParts(s, st.i, v, inner);
    DocUnfold(v);
    DepthLimit();
    OpensWith(false);
    ArrayEntered(s, path, st, text);
    InsideFields(st, text);
    CountFacts(v.items);
    InnerUnfold(v, da);
    if v.items.Nil? {
      SpaceSkipped(s, path, inside, v.pad);
      var end := inside.(i := inside.i + |v.pad|);
      ElementMoved(path, inside, end.i, a);
      if a > 0 {
        EmptyArray(s, path, end, a);
      } else {
        OuterClosed(s, path, st, text, end);
      }
      MissesNothing(Run(s, path, st), st.i, v, da, db);
    } else {
      var j := ElementsPassed(s, path, inside, v.items, a);
      if a > Count(v.items) || !Shallow(v.items, a, MAX_DEPTH - 1) {
        MissesNothing(Run(s, path, st), st.i, v, da, db);
      } else if a == Count(v.items) {
        ReachedEnd(path, inside, v.items, j);
        OuterClosed(s, path, st, text, Reached(inside, v.items, a, j));
        MissesNothing(Run(s, path, st), st.i, v, da, db);
      } else {
        ElementRun(s, path, st, v, da, db, j);
      }
    }
  }

  /** At the element with the first index. */
  lemma ElementRun(s: seq<byte>, path: seq<byte>, st: State, v: Doc, da: seq<byte>, db: seq<byte>, j: nat)
    requires v.Node? && !v.obj && v.items.Cons? && ItemsOk(v.items) && AllDigits(da) && AllDigits(db)
    requires Holds(s, st.i + 1, ItemsText(false, v.items) + [Closing(false)])
    requires AtValue(path, st, TwoIndices(da, db)) && st.nesting == [] && Room(st) == MAX_DEPTH
    requires InnerArray(v, da) ==> Decimal(db) >= Count(Element(v.items, Decimal(da)).items)
    requires Decimal(da) < Count(v.items) && Shallow(v.items, Decimal(da), MAX_DEPTH - 1) && TwoIndices(da, db) != []
    requires Run(s, path, st) == Run(s, path, Reached(InArray(st, TwoIndices(da, db)), v.items, Decimal(da), j))
    ensures Misses(Run(s, path, st), st.i, v, da, db)
  {
    hide *;
    var text, a := TwoIndices(da, db), Decimal(da);
    var at, from := Reached(InArray(st, text), v.items, a, j), From(v.items, a);
    var start := st.i + 1 + FromStart(v.items, a);
    TwoIndicesOk(v, da, db);
    DepthLimit();
    InnerUnfold(v, da);
    FromHeld(s, st.i + 1, v.items, a);
    ElementHeld(s, st.i + 1, false, v.items, a);
    ReachedAt(InArray(st, text), v.items, a, j);
    ElementReached(path, st, v, text, a, at, false);
    IndexOk(db);
    ReachedInside(path, st, text, v.items, a, j);
    FilledUnfold(from.v);
    if !IsArray(from.v) {
      NoArray(s, path, at, start, from, IndexText(db));
      MissesNothing(Run(s, path, st), st.i, v, da, db);
    } else {
      var last := InnerRun(s, path, at, from.v, db);
      if Decimal(db) == Count(from.v.items) && Shallow(from.v.items, Decimal(db), MAX_DEPTH - 2) {
        var behind := BeyondInner(at, from.v, db, last);
        BehindFields(at, from.v, db, last);
        NextBeyond(s, path, start, behind, from);
        WrongBehind(Run(s, path, st), st.i + 1, v.items, a);
        MissesWrong(Run(s, path, st), st.i, v, da, db);
      } else {
        MissesNothing(Run(s, path, st), st.i, v, da, db);
      }
    }
  }

  lemma MissesWrong(r: Result, i: nat, v: Doc, da: seq<byte>, db: seq<byte>)
    requires v.Node? && AllDigits(da) && AllDigits(db) && WrongFound(r, i + 1, v.items, Decimal(da) + 1)
    requires InnerArray(v, da) && Decimal(db) == Count(Element(v.items, Decimal(da)).items)
    requires Shallow(v.items, Decimal(da), MAX_DEPTH - 1)
    requires Shallow(Element(v.items, Decimal(da)).items, Decimal(db), MAX_DEPTH - 2)
    ensures Misses(r, i, v, da, db)
  {
  }

  lemma BehindFields(st: State, v: Doc, d: seq<byte>, j: nat)
    requires AllDigits(d)
    ensures BeyondInner(st, v, d, j).i == st.i + |Text(v)| && BeyondInner(st, v, d, j).expecting == CommaOrEnd
  {
  }

  lemma ReachedFields(st: State, text: seq<byte>, items: Items, k: nat, j: nat)
    requires text != [] && k < Count(items)
    ensures var at := Reached(InArray(st, text), items, k, j);
            && at.nesting == st.nesting + [LBRACKET] && at.ed == st.ed + 1 && at.pos == st.pos + HopEnd(text)
            && at.ci == at.ei == Decimal(IndexDigits(text))
  {
    hide HopEnd, IndexDigits, Decimal, ElementStart;
  }

  lemma ReachedInside(path: seq<byte>, st: State, text: seq<byte>, items: Items, k: nat, j: nat)
    requires AtValue(path, st, text) && text != [] && text[0] == LBRACKET && HopOk(text) && st.nesting == []
    requires k < Count(items)
    ensures var at := Reached(InArray(st, text), items, k, j); at.nesting == [LBRACKET] && AtElement(path, at, 0)
  {
    hide *;
    ValueFacts(path, st, text);
    IndexRead(path, st.pos, text);
    ReachedFields(st, text, items, k, j);
    InElement(path, Reached(InArray(st, text), items, k, j), st, text);
  }

  lemma InElement(path: seq<byte>, at: State, st: State, text: seq<byte>)
    requires AtValue(path, st, text) && st.nesting == [] && at.nesting == st.nesting + [LBRACKET] && at.ed == st.ed + 1
    requires at.ci == at.ei >= 0 && At(path, at.pos - 1) == RBRACKET
    ensures at.nesting == [LBRACKET] && AtElement(path, at, 0)
  {
  }

  /** The path "$[a][b]" on an array.  If element a is an array with more than b elements, the span of its
      element b is found, exactly, unless something is nested too deep.  If not, nothing is found, but for
      one case: b is the number of elements of element a.  Then the search goes on behind it, and finds
      the first element of the next array with something inside, if no object with something inside comes
      first. */
  lemma IndexPair(before: seq<byte>, v: Doc, tail: seq<byte>, da: seq<byte>, db: seq<byte>)
    requires Blank(before) && Ok(v) && v.Node? && !v.obj && AllDigits(da) && AllDigits(db)
    ensures var a, b, found := Decimal(da), Decimal(db), Get(before + Text(v) + tail, [DOLLAR] + TwoIndices(da, db));
            if InnerArray(v, da) && b < Count(Element(v.items, a).items) then
              var inner := Element(v.items, a).items;
              found == if Shallow(v.items, a, MAX_DEPTH - 1) && Shallow(inner, b + 1, MAX_DEPTH - 2)
                       then Found(|before| + 1 + ElementStart(false, v.items, a) + 1 + ElementStart(false, inner, b),
                           |Text(Element(inner, b))|)
                       else TooDeep
            else Misses(found, |before|, v, da, db)
  {
    hide *;
    var s, text, st := before + Text(v) + tail, TwoIndices(da, db), START.(i := |before|);
    var path := [DOLLAR] + text;
    TwoIndicesOk(v, da, db);
    TwoIndicesLead(v, da, db);
    GetStart(s, before, v, tail, text, false);
    StartFields(|before|);
    if Leads(v, text, Fitting) {
      GetRun(before, v, tail, text, false);
    } else {
      SpaceSkipped(s, path, START, before);
      assert START.(i := START.i + |before|) == st;
      OuterRun(s, path, st, v, da, db);
    }
  }

  lemma StartFields(i: nat)
    ensures START.(i := i).nesting == []
  {
  }

  // ----- an index just behind the end of an inner array -----

  function OneDigit(c: byte): Doc
  {
    Node(false, [], Cons(Lead([], [], [], []), Num(Number(false, [c], [], [], [])), [], Nil))
  }

  lemma OneDigitText(c: byte)
    requires Digit(c)
    ensures Text(OneDigit(c)) == [LBRACKET, c, RBRACKET] && Ok(OneDigit(c)) && Depth(OneDigit(c)) == 1
    ensures OneDigit(c).items.Cons? && Count(OneDigit(c).items) == 1 && Element(OneDigit(c).items, 0).Num?
    ensures |Text(Element(OneDigit(c).items, 0))| == 1 && ElementStart(false, OneDigit(c).items, 0) == 0
  {
    var n := Number(false, [c], [], [], []);
    var items := OneDigit(c).items;
    assert NumberText(n) == [c];
    assert ItemsText(false, items) == [c] && ItemsDepth(items) == 0;
  }

  /** `[[5],[6]]`. */
  function Nested(): Doc
  {
    Node(false, [], Cons(Lead([], [], [], []), OneDigit(53), [], Cons(Lead([], [], [], []), OneDigit(54), [], Nil)))
  }

  lemma NestedText()
    ensures Text(Nested()) == [91, 91, 53, 93, 44, 91, 54, 93, 93] && Ok(Nested())
    ensures var items := Nested().items;
            && Count(items) == 2 && Element(items, 0) == OneDigit(53) && Element(items, 1) == OneDigit(54)
            && ElementStart(false, items, 1) == 4
  {
    OneDigitText(53);
    OneDigitText(54);
    var last := Cons(Lead([], [], [], []), OneDigit(54), [], Nil);
    assert ItemsText(false, last) == [91, 54, 93];
    assert ItemsText(false, Nested().items) == [91, 53, 93, 44, 91, 54, 93];
    assert ElementStart(false, last, 0) == 0;
  }

  /** Of its two arrays the first has one element, and the second comes next. */
  lemma NestedMisleads()
    ensures var items := Nested().items;
            && InnerArray(Nested(), [48]) && Shallow(items, 0, MAX_DEPTH - 1)
            && Shallow(Element(items, 0).items, 1, MAX_DEPTH - 2)
            && Count(Element(items, 0).items) == 1 && NextFilled(items, 1) == 1 && Misleads(items, 1)
            && MisledStart(items, 1) == 5 && |MisledText(items, 1)| == 1
  {
    NestedText();
    OneDigitText(53);
    OneDigitText(54);
    hide Text, Ok, LeadText, ElementStart;
    assert Decimal([48]) == 0;
    var items, first := Nested().items, OneDigit(53).items;
    assert Depth(Element(first, 0)) == 0 && Shallow(first.rest, 0, MAX_DEPTH - 2);
    assert items.rest.Cons? && Filled(items.rest.v) && NextFilled(items.rest, 0) == 0;
  }

  lemma DigitIndices()
    ensures AllDigits([48]) && AllDigits([49]) && Decimal([48]) == 0 && Decimal([49]) == 1
    ensures [DOLLAR] + TwoIndices([48], [49]) == [36, 91, 48, 93, 91, 49, 93]
  {
    assert [48][..0] == [49][..0] == [];
  }

  lemma MissesUnfold(r: Result, i: nat, v: Doc, da: seq<byte>, db: seq<byte>)
    requires v.Node? && AllDigits(da) && AllDigits(db) && Misses(r, i, v, da, db) && InnerArray(v, da)
    requires Decimal(db) == Count(Element(v.items, Decimal(da)).items) && Shallow(v.items, Decimal(da), MAX_DEPTH - 1)
    requires Shallow(Element(v.items, Decimal(da)).items, Decimal(db), MAX_DEPTH - 2)
    requires Misleads(v.items, NextFilled(v.items, Decimal(da) + 1))
    ensures var m := NextFilled(v.items, Decimal(da) + 1);
            r == Found(i + 1 + MisledStart(v.items, m), |MisledText(v.items, m)|)
  {
    hide Shallow, Misleads, MisledStart, MisledText;
  }

  lemma NestedShape()
    ensures Nested().Node? && !Nested().obj && Blank([])
  {
  }

  /** "$[0][1]" finds the 6 in "[[5],[6]]". */
  lemma WrongElement()
    ensures Get([91, 91, 53, 93, 44, 91, 54, 93, 93], [36, 91, 48, 93, 91, 49, 93]) == Found(6, 1)
  {
    hide *;
    NestedText();
    NestedMisleads();
    NestedShape();
    DigitIndices();
    var s := [] + Text(Nested()) + [];
    assert s == Text(Nested());
    IndexPair([], Nested(), [], [48], [49]);
    MissesUnfold(Get(s, [DOLLAR] + TwoIndices([48], [49])), 0, Nested(), [48], [49]);
  }
}
