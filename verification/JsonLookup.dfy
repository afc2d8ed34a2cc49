/** What mg_json_get finds at a path of names and indices. */
module JsonLookup {
  import opened Bytes
  import opened JsonLex
  import opened Json
  import opened JsonDocument

  // ----- the items of an array or object -----

  function Count(items: Items): nat
  {
    match items
    case Nil => 0
    case Cons(_, _, _, rest) => 1 + Count(rest)
  }

  function Element(items: Items, k: nat): Doc
    requires k < Count(items)
  {
    if k == 0 then items.v else Element(items.rest, k - 1)
  }

  /** Where the value of item `k` starts in the text of the items. */
  function ElementStart(obj: bool, items: Items, k: nat): nat
    requires k < Count(items)
  {
    var before := |LeadText(obj, items.lead)|;
    if k == 0 then before
    else before + |Text(items.v)| + |items.after| + 1 + ElementStart(obj, items.rest, k - 1)
  }

  /** None of the first `n` items is nested deeper than there is room for. */
  predicate Shallow(items: Items, n: nat, room: int)
  {
    items.Cons? && n > 0 ==> Depth(items.v) <= room && Shallow(items.rest, n - 1, room)
  }

  /** Items within the nesting limit are not too deep. */
  lemma {:induction false} DepthIsEnough(items: Items, n: nat, room: nat)
    requires ItemsDepth(items) <= room
    ensures Shallow(items, n, room)
  {
    if items.Cons? && n > 0 {
      DepthIsEnough(items.rest, n - 1, room);
    }
  }

  lemma ItemsSteps(obj: bool, items: Items, k: nat, room: int)
    requires items.Cons? && ItemsOk(items)
    ensures LeadOk(items.lead) && Ok(items.v) && Blank(items.after) && ItemsOk(items.rest) && |Text(items.v)| > 0
    ensures Count(items) == 1 + Count(items.rest) && (items.rest.Nil? ==> Count(items) == 1)
    ensures Shallow(items, 0, room)
    ensures k > 0 ==> (Shallow(items, k, room) <==> Depth(items.v) <= room && Shallow(items.rest, k - 1, room))
    ensures items.rest.Nil? ==> Shallow(items.rest, 0, room)
    ensures Element(items, 0) == items.v && ElementStart(obj, items, 0) == |LeadText(obj, items.lead)|
    ensures 0 < k < Count(items) ==>
              && Element(items, k) == Element(items.rest, k - 1)
              && ElementStart(obj, items, k) == |LeadText(obj, items.lead)| + |Text(items.v)| + |items.after| + 1
                                                + ElementStart(obj, items.rest, k - 1)
  {
    hide Depth, LeadText;
  }

  /** Where an item's value lies in the text. */
  lemma {:induction false} ElementHeld(s: seq<byte>, i: nat, obj: bool, items: Items, k: nat)
    requires k < Count(items) && ItemsOk(items) && Holds(s, i, ItemsText(obj, items) + [Closing(obj)])
    ensures var v, start := Element(items, k), i + ElementStart(obj, items, k);
            Ok(v) && Holds(s, start, Text(v)) && Ends(s, start + |Text(v)|, v)
    decreases items
  {
    hide *;
    CountFacts(items);
    ItemParts(s, i, obj, items);
    ItemsSteps(obj, items, k, 0);
    if k > 0 {
      ElementHeld(s, i + |LeadText(obj, items.lead)| + |Text(items.v)| + |items.after| + 1, obj, items.rest, k - 1);
    }
  }

  lemma CountFacts(items: Items)
    ensures items.Cons? <==> Count(items) > 0
  {
  }

  // ----- elements of an array -----

  /** At the first byte of an element of the array that the path descends into, `k` elements before
      the one wanted; or at the closing bracket. */
  predicate AtElement(path: seq<byte>, st: State, k: int)
  {
    && 1 <= |st.nesting| == st.ed <= MAX_DEPTH && st.nesting[|st.nesting| - 1] == LBRACKET
    && At(path, st.pos - 1) == RBRACKET && st.ci >= 0 && st.ei == st.ci + k >= 0
  }

  function Room(st: State): int
  {
    MAX_DEPTH - |st.nesting|
  }

  /** The state at the first byte of element `k`, or at the closing bracket if `k` is their number. */
  function Reached(st: State, items: Items, k: nat, j: nat): State
    requires k <= Count(items)
  {
    if k < Count(items) then st.(i := st.i + ElementStart(false, items, k), j := j, ci := st.ei)
    else st.(i := st.i + |ItemsText(false, items)|, j := j, ci := st.ei,
        expecting := if items.Nil? then Value else CommaOrEnd)
  }

  lemma EndOfArray(s: seq<byte>, path: seq<byte>, st: State, k: int)
    requires AtElement(path, st, k) && k != 0 && st.expecting == CommaOrEnd && st.i < |s| && s[st.i] == Closing(false)
    ensures Run(s, path, st) == NotFound
  {
  }

  lemma ElementUnfold(s: seq<byte>, path: seq<byte>, st: State, items: Items, k: int)
    requires AtElement(path, st, k) && st.expecting == Value && k != 0
    requires items.Cons? && st.i + |LeadText(false, items.lead)| + |Text(items.v)| <= |s| && |Text(items.v)| > 0
    ensures var len := |Text(items.v)|;
            var atValue := st.(i := st.i + |LeadText(false, items.lead)|);
            var behind := atValue.(j := atValue.i, ci := st.ci + 1, expecting := CommaOrEnd, i := atValue.i + len);
            var end := behind.(i := behind.i + |items.after|);
            && (items.v.Node? ==> Quiet(path, atValue, items.v.obj)) && 1 <= |st.nesting| <= MAX_DEPTH
            && st.nesting[|st.nesting| - 1] == Opening(false)
            && AtElement(path, end, k - 1) && AtElement(path, end.(expecting := Value, i := end.i + 1), k - 1)
            && Room(end) == Room(st) == Room(end.(expecting := Value, i := end.i + 1))
            && Outcomes(s, path, atValue, len, Depth(items.v))
            == if Depth(items.v) > Room(st) then TooDeep else Run(s, path, behind)
  {
    hide Run, Text, LeadText;
  }

  lemma ReachedUnfold(st: State, items: Items, k: nat, j: nat)
    requires items.Cons? && k <= Count(items)
    ensures k == 0 ==> Reached(st, items, 0, st.j) == st.(i := st.i + |LeadText(false, items.lead)|, ci := st.ei)
    ensures var end := st.(i := st.i + |LeadText(false, items.lead)| + |Text(items.v)| + |items.after|,
                           j := st.i + |LeadText(false, items.lead)|, ci := st.ci + 1, expecting := CommaOrEnd);
            && (k == 1 && items.rest.Nil? ==>
                  Reached(st, items, k, end.j) == end.(i := st.i + |ItemsText(false, items)|, ci := st.ei))
            && (k > 0 && items.rest.Cons? ==>
                  && k - 1 <= Count(items.rest)
                  && Reached(st, items, k, j)
                      == Reached(end.(expecting := st.expecting, i := end.i + 1), items.rest, k - 1, j))
  {
    hide Text, LeadText;
  }

  /** The elements before the one wanted are passed, unless one of them is nested too deep; an index
      beyond the number of elements finds nothing.  `j` is where the last element passed began. */
  lemma {:induction false} ElementsPassed(s: seq<byte>, path: seq<byte>, st: State, items: Items, k: int)
    returns (j: nat)
    requires AtElement(path, st, k) && st.expecting == Value
    requires items.Cons? && ItemsOk(items) && Holds(s, st.i, ItemsText(false, items) + [Closing(false)])
    ensures if 0 <= k <= Count(items)
            then Run(s, path, st) == if Shallow(items, k, Room(st)) then Run(s, path, Reached(st, items, k, j))
                                     else TooDeep
            else !Run(s, path, st).Found?
    decreases items
  {
    hide *;
    j := st.j;
    ItemParts(s, st.i, false, items);
    ItemsSteps(false, items, if k < 0 then 0 else k, Room(st));
    LeadRun(s, path, st, false, items.lead);
    var atValue := st.(i := st.i + |LeadText(false, items.lead)|);
    assert atValue == st.(expecting := Value, i := st.i + |LeadText(false, items.lead)|);
    if k == 0 {
      StartFacts(path, st);
      ReachedUnfold(st, items, 0, j);
    } else {
      ElementUnfold(s, path, st, items, k);
      ValueRun(s, path, atValue, items.v);
      if Depth(items.v) <= Room(st) {
        var behind := atValue.(j := atValue.i, ci := st.ci + 1, expecting := CommaOrEnd,
            i := atValue.i + |Text(items.v)|);
        NextItem(s, path, behind, false, items.after, items.rest.Nil?);
        var end := behind.(i := behind.i + |items.after|);
        if items.rest.Nil? {
          j := end.j;
          if k == 1 {
            AtEnd(path, st, end);
            ReachedUnfold(st, items, 1, j);
          } else {
            EndOfArray(s, path, end, k - 1);
          }
        } else {
          j := ElementsPassed(s, path, end.(expecting := Value, i := end.i + 1), items.rest, k - 1);
          if 0 < k <= Count(items) {
            ReachedUnfold(st, items, k, j);
          }
        }
      }
    }
  }

  lemma StartFacts(path: seq<byte>, st: State)
    requires AtElement(path, st, 0)
    ensures st.(ci := st.ei) == st
  {
  }

  lemma AtEnd(path: seq<byte>, st: State, end: State)
    requires AtElement(path, st, 1) && end.ci == st.ci + 1 && end.ei == st.ei
    ensures end.ci == end.ei == st.ei
  {
  }

  // ----- members of an object -----

  /** How many bytes the name at the start of a path takes. */
  function NameEnd(text: seq<byte>): (n: nat)
    ensures n <= |text| && forall k :: 0 <= k < n ==> text[k] != DOT && text[k] != LBRACKET
    ensures n < |text| ==> text[n] == DOT || text[n] == LBRACKET
  {
    if text == [] || text[0] == DOT || text[0] == LBRACKET then 0 else 1 + NameEnd(text[1..])
  }

  /** A name or an index ends at offset `p`. */
  predicate Boundary(text: seq<byte>, p: nat)
  {
    p <= |text| && (p < |text| ==> text[p] == DOT || text[p] == LBRACKET)
  }

  /** The code accepts a member for the name at the start of `text`: its name may go on over the dots
      and indices that follow in the path. */
  predicate Fits(name: seq<byte>, text: seq<byte>)
  {
    name <= text && Boundary(text, |name|)
  }

  /** The first member that fits, or the number of members. */
  function FirstMatch(items: Items, text: seq<byte>): (k: nat)
    ensures k <= Count(items)
  {
    match items
    case Nil => 0
    case Cons(lead, _, _, rest) => if Fits(lead.name, text) then 0 else 1 + FirstMatch(rest, text)
  }

  function NameOf(items: Items, k: nat): seq<byte>
    requires k < Count(items)
  {
    if k == 0 then items.lead.name else NameOf(items.rest, k - 1)
  }

  /** Inside the object that the path descends into, no name matched yet. */
  predicate AtMember(path: seq<byte>, st: State, text: seq<byte>)
  {
    && 0 !in text && NameEnd(text) > 0 && 1 <= st.pos <= |path| && path[st.pos..] == text && At(path, st.pos - 1) == DOT
    && 1 <= |st.nesting| == st.ed <= MAX_DEPTH && st.nesting[|st.nesting| - 1] == LBRACE && st.ci == st.ei == -1
  }

  lemma MatchIsFit(s: seq<byte>, path: seq<byte>, pos: nat, text: seq<byte>, from: nat, to: nat)
    requires 0 !in text && pos <= |path| && path[pos..] == text && from <= to <= |s|
    ensures KeyMatches(s, path, pos, from, to) <==> Fits(s[from..to], text)
  {
    var n := to - from;
    if n <= |text| {
      assert path[pos..pos + n] == text[..n];
      assert At(path, pos + n) == if n < |text| then text[n] else 0;
    }
  }

  function NameFound(st: State, key: seq<byte>, text: seq<byte>): State
  {
    st.(pos := if Fits(key, text) then st.pos + |key| else st.pos)
  }

  lemma KeyStepAsked(s: seq<byte>, path: seq<byte>, st: State, text: seq<byte>, at: nat)
    requires AtMember(path, st, text) && st.expecting == Key
    requires st.i < at < |s| && s[st.i] == QUOTE && PassString(s, st.i + 1) == QuoteAt(at)
    ensures Run(s, path, st)
         == Run(s, path,
             st.(pos := if KeyMatches(s, path, st.pos, st.i + 1, at) then st.pos + (at - st.i - 1) else st.pos,
                                                 expecting := Colon, i := at + 1))
  {
    hide KeyMatches, PassString;
  }

  lemma AskedNameStep(s: seq<byte>, path: seq<byte>, st: State, key: seq<byte>, text: seq<byte>)
    requires AtMember(path, st, text) && st.expecting == Key
    requires StringBody(key) && Holds(s, st.i, [QUOTE] + key + [QUOTE])
    ensures Run(s, path, st) == Run(s, path, NameFound(st, key, text).(expecting := Colon, i := st.i + |key| + 2))
  {
    hide *;
    QuotedName(s, st.i, key);
    MemberFacts(path, st, text);
    MatchIsFit(s, path, st.pos, text, st.i + 1, st.i + 1 + |key|);
    KeyStepAsked(s, path, st, text, st.i + 1 + |key|);
    FoundFields(st, key, text);
  }

  lemma MemberFacts(path: seq<byte>, st: State, text: seq<byte>)
    requires AtMember(path, st, text)
    ensures 0 !in text && st.pos <= |path| && path[st.pos..] == text
    ensures 1 <= |st.nesting| <= MAX_DEPTH && st.nesting[|st.nesting| - 1] == Opening(true)
  {
  }

  lemma AskedLead(s: seq<byte>, path: seq<byte>, st: State, l: Lead, text: seq<byte>)
    requires AtMember(path, st, text) && st.expecting == Key && LeadOk(l) && Holds(s, st.i, LeadText(true, l))
    ensures Run(s, path, st)
         == Run(s, path, NameFound(st, l.name, text).(expecting := Value, i := st.i + |LeadText(true, l)|))
  {
    hide *;
    LeadParts(s, st.i, l);
    LeadUnfold(l);
    SpaceSkipped(s, path, st, l.before);
    var st1 := st.(i := st.i + |l.before|);
    SameMember(path, st, st1, text);
    AskedNameStep(s, path, st1, l.name, text);
    FoundFields(st, l.name, text);
    FoundFields(st1, l.name, text);
    var st2 := NameFound(st1, l.name, text).(expecting := Colon, i := st1.i + |l.name| + 2);
    SpaceSkipped(s, path, st2, l.mid);
    var st3 := st2.(i := st2.i + |l.mid|);
    ColonStep(s, path, st3);
    var st4 := st3.(expecting := Value, i := st3.i + 1);
    SpaceSkipped(s, path, st4, l.between);
    assert st4.(i := st4.i + |l.between|)
        == NameFound(st, l.name, text).(expecting := Value, i := st.i + |LeadText(true, l)|);
  }

  lemma SameMember(path: seq<byte>, st: State, other: State, text: seq<byte>)
    requires AtMember(path, st, text) && other == st.(i := other.i, j := other.j, expecting := other.expecting)
    ensures AtMember(path, other, text) && Room(other) == Room(st)
  {
  }

  lemma FoundFields(st: State, key: seq<byte>, text: seq<byte>)
    ensures NameFound(st, key, text) == st.(pos := NameFound(st, key, text).pos)
    ensures NameFound(st, key, text).pos == if Fits(key, text) then st.pos + |key| else st.pos
  {
  }

  /** The state at the value of member `k`. */
  function Matched(st: State, items: Items, k: nat, j: nat): State
    requires k < Count(items)
  {
    st.(i := st.i + ElementStart(true, items, k), j := j, pos := st.pos + |NameOf(items, k)|, expecting := Value)
  }

  lemma MemberUnfold(s: seq<byte>, path: seq<byte>, st: State, items: Items, text: seq<byte>)
    requires AtMember(path, st, text) && st.expecting == Key && items.Cons? && !Fits(items.lead.name, text)
    requires st.i + |LeadText(true, items.lead)| + |Text(items.v)| <= |s| && |Text(items.v)| > 0
    ensures var len, start := |Text(items.v)|, st.i + |LeadText(true, items.lead)|;
            var atValue := st.(expecting := Value, i := start);
            && (items.v.Node? ==> Quiet(path, atValue, items.v.obj))
            && Outcomes(s, path, atValue, len, Depth(items.v))
            == if Depth(items.v) > Room(st) then TooDeep
               else Run(s, path, st.(j := start, expecting := CommaOrEnd, i := start + len))
  {
    hide Run, Text, LeadText, Fits;
    assert At(path, st.pos) == text[0];
  }

  lemma MemberSteps(st: State, items: Items, text: seq<byte>, j: nat)
    requires items.Cons?
    ensures var k := FirstMatch(items, text);
            && k <= Count(items) && Count(items) > 0
            && (Fits(items.lead.name, text) ==>
                  && k == 0
                  && Matched(st, items, 0, st.j)
                      == st.(i := st.i + |LeadText(true, items.lead)|, pos := st.pos + |items.lead.name|,
                          expecting := Value))
            && (!Fits(items.lead.name, text) ==>
                  && k == 1 + FirstMatch(items.rest, text) && (items.rest.Nil? ==> k == 1)
                  && (k < Count(items) ==>
                        && k - 1 < Count(items.rest)
                        && Matched(st, items, k, j)
                        == Matched(st.(j := st.i + |LeadText(true, items.lead)|, expecting := Key,
                                       i := st.i + |LeadText(true, items.lead)| + |Text(items.v)| + |items.after| + 1),
                                   items.rest, k - 1, j)))
  {
    hide Text, LeadText, Fits;
  }

  /** At the end of the object the name has not been found. */
  lemma NotNamedAtEnd(s: seq<byte>, path: seq<byte>, st: State, text: seq<byte>)
    requires AtMember(path, st, text) && st.expecting == CommaOrEnd && st.i < |s| && s[st.i] == Closing(true)
    ensures Run(s, path, st) == NotFound
  {
  }

  /** The members before the first one that fits are passed, unless one of them is nested too deep. */
  lemma {:induction false} MembersPassed(s: seq<byte>, path: seq<byte>, st: State, items: Items, text: seq<byte>)
    returns (j: nat)
    requires AtMember(path, st, text) && st.expecting == Key
    requires items.Cons? && ItemsOk(items) && Holds(s, st.i, ItemsText(true, items) + [Closing(true)])
    ensures var k := FirstMatch(items, text);
            Run(s, path, st) == if !Shallow(items, k, Room(st)) then TooDeep
                                else if k < Count(items) then Run(s, path, Matched(st, items, k, j)) else NotFound
    decreases items
  {
    hide *;
    j := st.j;
    ItemParts(s, st.i, true, items);
    ItemsSteps(true, items, FirstMatch(items, text), Room(st));
    MemberSteps(st, items, text, j);
    AskedLead(s, path, st, items.lead, text);
    FoundFields(st, items.lead.name, text);
    if !Fits(items.lead.name, text) {
      var atValue := st.(expecting := Value, i := st.i + |LeadText(true, items.lead)|);
      MemberFacts(path, st, text);
      MemberUnfold(s, path, st, items, text);
      ValueRun(s, path, atValue, items.v);
      if Depth(items.v) <= Room(st) {
        var behind := st.(j := atValue.i, expecting := CommaOrEnd, i := atValue.i + |Text(items.v)|);
        NextItem(s, path, behind, true, items.after, items.rest.Nil?);
        var next := behind.(i := behind.i + |items.after|);
        SameMember(path, st, next, text);
        if items.rest.Nil? {
          NotNamedAtEnd(s, path, next, text);
        } else {
          var following := next.(expecting := Key, i := next.i + 1);
          SameMember(path, st, following, text);
          j := MembersPassed(s, path, following, items.rest, text);
          MemberSteps(st, items, text, j);
        }
      }
    }
  }
}
