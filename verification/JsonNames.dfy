/** A name in a path means the member with that name; the code takes the first member that fits.  When
    the two readings agree, and what mg_json_get then finds. */
module JsonNames {
  import opened Bytes
  import opened JsonLex
  import opened Json
  import opened JsonDocument
  import opened JsonLookup
  import opened JsonPath

  /** Wherever the path leads, the first member that fits is the one named. */
  predicate Straight(v: Doc, text: seq<byte>)
    decreases |text|
  {
    v.Node? && text != [] ==>
      && Pick(v, text, Fitting) == Pick(v, text, Exact)
      && (Pick(v, text, Exact) < Count(v.items) ==> Straight(Picked(v, text, Exact), Behind(v, text, Exact)))
  }

  /** The path leads to a value, and nothing up to its end is too deep. */
  predicate Reaches(v: Doc, text: seq<byte>, rule: Rule)
  {
    Leads(v, text, rule) && Clear(v, text, MAX_DEPTH, rule)
  }

  lemma OneStep(v: Doc, text: seq<byte>, room: int, rule: Rule)
    requires v.Node? && text != []
    ensures Leads(v, text, rule) <==>
              Pick(v, text, rule) < Count(v.items) && Leads(Picked(v, text, rule), Behind(v, text, rule), rule)
    ensures Leads(v, text, rule) ==>
              var k, below, rest := Pick(v, text, rule), Picked(v, text, rule), Behind(v, text, rule);
              && Goal(v, text, rule) == Goal(below, rest, rule)
              && Offset(v, text, rule) == 1 + ElementStart(v.obj, v.items, k) + Offset(below, rest, rule)
              && (Clear(v, text, room, rule) <==>
                    room > 0 && Shallow(v.items, k, room - 1) && Clear(below, rest, room - 1, rule))
  {
  }

  lemma NoStep(v: Doc, text: seq<byte>, room: int, rule: Rule)
    requires !v.Node? || text == []
    ensures Leads(v, text, rule) <==> text == []
    ensures text == [] ==>
              Goal(v, text, rule) == v && Offset(v, text, rule) == 0
                  && (Clear(v, text, room, rule) <==> Depth(v) <= room)
  {
  }

  lemma SamePick(v: Doc, text: seq<byte>)
    requires v.Node? && text != [] && Pick(v, text, Fitting) == Pick(v, text, Exact) < Count(v.items)
    ensures Picked(v, text, Fitting) == Picked(v, text, Exact) && Behind(v, text, Fitting) == Behind(v, text, Exact)
  {
    hide Pick;
  }

  lemma StraightStep(v: Doc, text: seq<byte>)
    requires v.Node? && text != []
    ensures Straight(v, text) <==>
              && Pick(v, text, Fitting) == Pick(v, text, Exact)
              && (Pick(v, text, Exact) < Count(v.items) ==> Straight(Picked(v, text, Exact), Behind(v, text, Exact)))
  {
  }

  /** Then both readings of the path agree in everything. */
  lemma {:induction false} StraightAgrees(v: Doc, text: seq<byte>, room: int)
    requires Straight(v, text)
    ensures Leads(v, text, Exact) <==> Leads(v, text, Fitting)
    ensures Leads(v, text, Exact) ==>
              && Goal(v, text, Exact) == Goal(v, text, Fitting) && Offset(v, text, Exact) == Offset(v, text, Fitting)
              && (Clear(v, text, room, Exact) <==> Clear(v, text, room, Fitting))
    decreases |text|
  {
    hide *;
    if v.Node? && text != [] {
      StraightStep(v, text);
      OneStep(v, text, room, Exact);
      OneStep(v, text, room, Fitting);
      if Pick(v, text, Exact) < Count(v.items) {
        SamePick(v, text);
        StraightAgrees(Picked(v, text, Exact), Behind(v, text, Exact), room - 1);
      }
    } else {
      NoStep(v, text, room, Exact);
      NoStep(v, text, room, Fitting);
    }
  }

  // ----- names without a dot or a bracket -----

  /** No member's name could be taken for more than one name of a path. */
  predicate PlainNames(v: Doc)
    decreases v
  {
    v.Node? ==> PlainItems(v.obj, v.items)
  }

  predicate PlainItems(obj: bool, items: Items)
    decreases items
  {
    items.Cons? ==>
      && (obj ==> DOT !in items.lead.name && LBRACKET !in items.lead.name)
      && PlainNames(items.v) && PlainItems(obj, items.rest)
  }

  lemma {:induction false} NameEndsAt(name: seq<byte>, text: seq<byte>)
    requires DOT !in name && LBRACKET !in name && Fits(name, text)
    ensures NameEnd(text) == |name|
    decreases |name|
  {
    if name != [] {
      assert name[0] in name && name[1..] <= text[1..];
      NameEndsAt(name[1..], text[1..]);
    }
  }

  /** Such a name fits just when it is the whole first name of the path. */
  lemma FitsIsName(name: seq<byte>, text: seq<byte>)
    requires DOT !in name && LBRACKET !in name
    ensures Fits(name, text) <==> name == text[..NameEnd(text)]
  {
    if Fits(name, text) {
      NameEndsAt(name, text);
    }
  }

  lemma {:induction false} PlainMatch(items: Items, text: seq<byte>)
    requires PlainItems(true, items)
    ensures FirstMatch(items, text) == FirstNamed(items, text[..NameEnd(text)])
    decreases items
  {
    if items.Cons? {
      FitsIsName(items.lead.name, text);
      PlainMatch(items.rest, text);
    }
  }

  lemma {:induction false} PlainElement(obj: bool, items: Items, k: nat)
    requires PlainItems(obj, items) && k < Count(items)
    ensures PlainNames(Element(items, k))
    decreases items
  {
    if k > 0 {
      PlainElement(obj, items.rest, k - 1);
    }
  }

  lemma PlainPick(v: Doc, text: seq<byte>)
    requires PlainNames(v) && v.Node? && text != []
    ensures Pick(v, text, Fitting) == Pick(v, text, Exact)
    ensures Pick(v, text, Exact) < Count(v.items) ==> PlainNames(Picked(v, text, Exact))
  {
    if v.obj {
      PlainMatch(v.items, text[1..]);
    }
    if Pick(v, text, Exact) < Count(v.items) {
      PlainElement(v.obj, v.items, Pick(v, text, Exact));
    }
  }

  lemma {:induction false} PlainIsStraight(v: Doc, text: seq<byte>)
    requires PlainNames(v)
    ensures Straight(v, text)
    decreases |text|
  {
    hide PlainNames, Pick, Picked, Behind;
    if v.Node? && text != [] {
      PlainPick(v, text);
      if Pick(v, text, Exact) < Count(v.items) {
        PlainIsStraight(Picked(v, text, Exact), Behind(v, text, Exact));
      }
    }
  }

  // ----- what is found -----

  /** The exact span of the value that the path leads to, or nothing if there is none or something is too deep. */
  predicate Right(found: Result, at: nat, v: Doc, text: seq<byte>)
  {
    if Reaches(v, text, Exact) then found == Found(at + Offset(v, text, Exact), |Text(Goal(v, text, Exact))|)
    else !found.Found?
  }

  /** A path that leads straight to a value finds it, and the span returned is exactly its text; only nesting
      beyond the limit, up to its end, is in the way. */
  lemma PathFinds(before: seq<byte>, v: Doc, tail: seq<byte>, text: seq<byte>)
    requires Blank(before) && Ok(v) && (v.Num? ==> Stops(before + Text(v) + tail, |before + Text(v)|))
    requires PathOk(text, false) && Leads(v, text, Exact) && Straight(v, text)
    ensures Get(before + Text(v) + tail, [DOLLAR] + text)
         == if Clear(v, text, MAX_DEPTH, Exact) then
             Found(|before| + Offset(v, text, Exact), |Text(Goal(v, text, Exact))|)
            else TooDeep
    ensures Holds(before + Text(v) + tail, |before| + Offset(v, text, Exact), Text(Goal(v, text, Exact)))
  {
    hide *;
    StraightAgrees(v, text, MAX_DEPTH);
    GetRun(before, v, tail, text, false);
    GetStart(before + Text(v) + tail, before, v, tail, text, false);
    GoalHeld(before + Text(v) + tail, |before|, v, text);
  }

  /** With a direct path, what the code finds is what its own reading of the path leads to. */
  lemma DirectFollows(before: seq<byte>, v: Doc, tail: seq<byte>, text: seq<byte>)
    requires Blank(before) && Ok(v) && (v.Num? ==> Stops(before + Text(v) + tail, |before + Text(v)|))
    requires PathOk(text, true)
    ensures Get(before + Text(v) + tail, [DOLLAR] + text).Found? <==> Reaches(v, text, Fitting)
    ensures Reaches(v, text, Fitting) ==>
              Get(before + Text(v) + tail, [DOLLAR] + text)
              == Found(|before| + Offset(v, text, Fitting), |Text(Goal(v, text, Fitting))|)
  {
    GetRun(before, v, tail, text, true);
    hide Get, Text, Offset, Clear, Leads, Goal;
  }

  /** With a direct path the answer is right exactly when the path is straight, or when neither the members named
      nor the members that fit lead anywhere. */
  lemma DirectPath(before: seq<byte>, v: Doc, tail: seq<byte>, text: seq<byte>)
    requires Blank(before) && Ok(v) && (v.Num? ==> Stops(before + Text(v) + tail, |before + Text(v)|))
    requires PathOk(text, true)
    ensures Right(Get(before + Text(v) + tail, [DOLLAR] + text), |before|, v, text)
            <==> Straight(v, text) || (!Reaches(v, text, Exact) && !Reaches(v, text, Fitting))
  {
    hide *;
    DirectFollows(before, v, tail, text);
    var found := Get(before + Text(v) + tail, [DOLLAR] + text);
    if Straight(v, text) {
      StraightAgrees(v, text, MAX_DEPTH);
      ReachesUnfold(v, text);
      RightUnfold(found, |before|, v, text);
    } else {
      RightUnfold(found, |before|, v, text);
      ReachesUnfold(v, text);
      if Reaches(v, text, Exact) && Reaches(v, text, Fitting) {
        NamesApart(v, text);
      }
    }
  }

  lemma ReachesUnfold(v: Doc, text: seq<byte>)
    ensures Reaches(v, text, Exact) <==> Leads(v, text, Exact) && Clear(v, text, MAX_DEPTH, Exact)
    ensures Reaches(v, text, Fitting) <==> Leads(v, text, Fitting) && Clear(v, text, MAX_DEPTH, Fitting)
  {
  }

  lemma RightUnfold(found: Result, at: nat, v: Doc, text: seq<byte>)
    ensures Right(found, at, v, text)
            <==> if Reaches(v, text, Exact) then
                   Leads(v, text, Exact) && found == Found(at + Offset(v, text, Exact), |Text(Goal(v, text, Exact))|)
                 else !found.Found?
  {
    hide Offset, Goal, Clear, Text;
  }

  // ----- a member that fits too well lies before the one named -----

  lemma ElementEnd(obj: bool, items: Items, k: nat)
    requires k < Count(items)
    ensures ElementStart(obj, items, k) + |Text(Element(items, k))| <= |ItemsText(obj, items)|
  {
    hide LeadText;
    if k > 0 {
      ElementEnd(obj, items.rest, k - 1);
    }
  }

  lemma {:induction false} ElementsApart(obj: bool, items: Items, a: nat, b: nat)
    requires a < b < Count(items)
    ensures ElementStart(obj, items, a) + |Text(Element(items, a))| < ElementStart(obj, items, b)
  {
    hide LeadText, Text;
    if a > 0 {
      ElementsApart(obj, items.rest, a - 1, b - 1);
    }
  }

  lemma NodeLength(v: Doc)
    requires v.Node? && v.items.Cons?
    ensures |Text(v)| == |ItemsText(v.obj, v.items)| + 2
  {
    hide ItemsText;
  }

  lemma TextNotEmpty(v: Doc)
    requires Ok(v)
    ensures |Text(v)| > 0
  {
    if v.Num? {
      assert |NumberText(v.n)| > 0 by {
        NumberStarts(NumberText(v.n), 0, v.n);
      }
    }
  }

  lemma PickedFacts(v: Doc, text: seq<byte>, rule: Rule)
    requires v.Node? && text != [] && Pick(v, text, rule) < Count(v.items)
    ensures v.items.Cons? && Picked(v, text, rule) == Element(v.items, Pick(v, text, rule))
  {
    hide Pick;
  }

  /** The value led to lies inside. */
  lemma {:induction false} GoalInside(v: Doc, text: seq<byte>, rule: Rule)
    requires Leads(v, text, rule)
    ensures Offset(v, text, rule) + |Text(Goal(v, text, rule))| <= |Text(v)|
    decreases |text|
  {
    hide *;
    if v.Node? && text != [] {
      OneStep(v, text, 0, rule);
      PickedFacts(v, text, rule);
      NodeLength(v);
      ElementEnd(v.obj, v.items, Pick(v, text, rule));
      GoalInside(Picked(v, text, rule), Behind(v, text, rule), rule);
    } else {
      NoStep(v, text, 0, rule);
    }
  }

  /** The first member that fits is not behind the one named. */
  lemma {:induction false} NamedFits(items: Items, text: seq<byte>)
    ensures FirstMatch(items, text) <= FirstNamed(items, text[..NameEnd(text)])
  {
    if items.Cons? && items.lead.name != text[..NameEnd(text)] {
      NamedFits(items.rest, text);
    }
  }

  lemma FittingFirst(v: Doc, text: seq<byte>)
    requires v.Node? && text != []
    ensures Pick(v, text, Fitting) <= Pick(v, text, Exact)
  {
    if v.obj {
      NamedFits(v.items, text[1..]);
    }
  }

  lemma OkElement(v: Doc, text: seq<byte>, rule: Rule)
    requires Ok(v) && v.Node? && text != [] && Pick(v, text, rule) < Count(v.items)
    ensures Ok(Picked(v, text, rule))
  {
    OkItem(v.items, Pick(v, text, rule));
  }

  lemma {:induction false} OkItem(items: Items, k: nat)
    requires ItemsOk(items) && k < Count(items)
    ensures Ok(Element(items, k))
  {
    if k > 0 {
      OkItem(items.rest, k - 1);
    }
  }

  /** Where the readings differ, the value found lies before the value meant. */
  lemma {:induction false} NamesApart(v: Doc, text: seq<byte>)
    requires Ok(v) && !Straight(v, text) && Leads(v, text, Exact) && Leads(v, text, Fitting)
    ensures Offset(v, text, Fitting) < Offset(v, text, Exact)
    decreases |text|
  {
    hide *;
    if v.Node? && text != [] {
      var k, j := Pick(v, text, Exact), Pick(v, text, Fitting);
      OneStep(v, text, 0, Exact);
      OneStep(v, text, 0, Fitting);
      StraightStep(v, text);
      PickedFacts(v, text, Exact);
      PickedFacts(v, text, Fitting);
      OkElement(v, text, Fitting);
      FittingFirst(v, text);
      if j < k {
        ElementsApart(v.obj, v.items, j, k);
        GoalInside(Picked(v, text, Fitting), Behind(v, text, Fitting), Fitting);
      } else {
        SamePick(v, text);
        NamesApart(Picked(v, text, Exact), Behind(v, text, Exact));
      }
    } else {
      StraightHere(v, text);
    }
  }

  lemma StraightHere(v: Doc, text: seq<byte>)
    requires !v.Node? || text == []
    ensures Straight(v, text)
  {
  }
}
