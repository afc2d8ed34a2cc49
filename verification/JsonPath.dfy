/** The value that a path of names and indices leads to, and that mg_json_get finds it. */
module JsonPath {
  import opened Bytes
  import opened JsonLex
  import opened Json
  import opened JsonDocument
  import opened JsonLookup

  // ----- paths -----

  /** How many digits stand at the start. */
  function DigitsEnd(text: seq<byte>): (n: nat)
    ensures n <= |text| && AllDigits(text[..n])
  {
    if text == [] || !Digit(text[0]) then 0
    else
      assert forall k :: 0 < k < 1 + DigitsEnd(text[1..]) ==> text[k] == text[1..][..DigitsEnd(text[1..])][k - 1];
      1 + DigitsEnd(text[1..])
  }

  /** The digits of an index at the start of a path. */
  function IndexDigits(text: seq<byte>): (d: seq<byte>)
    requires text != []
    ensures AllDigits(d) && |d| < |text|
  {
    text[1..][..DigitsEnd(text[1..])]
  }

  /** How long the first name or index is. */
  function HopEnd(text: seq<byte>): (n: nat)
    requires text != []
    ensures n > 0
  {
    if text[0] == DOT then 1 + NameEnd(text[1..]) else 2 + |IndexDigits(text)|
  }

  predicate HopOk(text: seq<byte>)
    requires text != []
  {
    || (text[0] == DOT && NameEnd(text[1..]) > 0)
    || (text[0] == LBRACKET && HopEnd(text) <= |text| && text[HopEnd(text) - 1] == RBRACKET)
  }

  /** A path behind its "$": names, each after a dot, and indices in brackets.  In a direct path only
      the last one may be an index. */
  predicate Hops(text: seq<byte>, direct: bool)
    decreases |text|
  {
    text != [] ==>
      && HopOk(text) && HopEnd(text) <= |text| && Hops(text[HopEnd(text)..], direct)
      && (direct && text[0] == LBRACKET ==> HopEnd(text) == |text|)
  }

  predicate PathOk(text: seq<byte>, direct: bool)
  {
    0 !in text && Hops(text, direct)
  }

  lemma HopInner(text: seq<byte>, p: nat)
    requires text != [] && HopOk(text) && 0 < p < HopEnd(text) <= |text|
    ensures text[p] != DOT && text[p] != LBRACKET
  {
    if text[0] == DOT {
      assert text[p] == text[1..][p - 1];
    } else if p < HopEnd(text) - 1 {
      assert text[p] == IndexDigits(text)[p - 1];
    }
  }

  lemma HopLast(text: seq<byte>)
    requires text != [] && HopOk(text) && HopEnd(text) <= |text|
    ensures HopEnd(text) > 1 && text[HopEnd(text) - 1] != DOT
  {
    HopInner(text, HopEnd(text) - 1);
  }

  /** The first name or index ends at the boundary or before it. */
  lemma FirstHop(text: seq<byte>, p: nat, direct: bool)
    requires Hops(text, direct) && 0 < p && Boundary(text, p)
    ensures text != [] && HopEnd(text) <= p <= |text| && Hops(text[HopEnd(text)..], direct)
    ensures p == HopEnd(text) ==> text[p - 1] != DOT
    ensures p > HopEnd(text) ==> Boundary(text[HopEnd(text)..], p - HopEnd(text))
  {
    hide HopOk, HopEnd, Hops;
    HopsUnfold(text, direct);
    var h := HopEnd(text);
    if p < h {
      HopInner(text, p);
    } else if p == h {
      HopLast(text);
    }
  }

  lemma HopsUnfold(text: seq<byte>, direct: bool)
    requires Hops(text, direct) && text != []
    ensures HopOk(text) && HopEnd(text) <= |text| && Hops(text[HopEnd(text)..], direct)
  {
  }

  lemma TailTail(text: seq<byte>, h: nat, p: nat)
    requires h < p <= |text|
    ensures text[h..][p - h..] == text[p..] && text[h..][p - h - 1] == text[p - 1]
  {
  }

  /** What follows a boundary in a path is a path again. */
  lemma {:induction false} BoundaryOk(text: seq<byte>, p: nat, direct: bool)
    requires Hops(text, direct) && 0 < p && Boundary(text, p)
    ensures p <= |text| && Hops(text[p..], direct) && text[p - 1] != DOT
    decreases |text|
  {
    hide *;
    FirstHop(text, p, direct);
    var h := HopEnd(text);
    if p > h {
      TailTail(text, h, p);
      BoundaryOk(text[h..], p - h, direct);
    }
  }

  // ----- what a path leads to -----

  /** The name at the start of a path. */
  function HopName(text: seq<byte>): seq<byte>
    requires text != []
  {
    if text[0] == DOT then text[1..][..NameEnd(text[1..])] else []
  }

  /** The first member with this name, or the number of members. */
  function FirstNamed(items: Items, name: seq<byte>): (k: nat)
    ensures k <= Count(items)
    ensures k < Count(items) ==> NameOf(items, k) == name
  {
    match items
    case Nil => 0
    case Cons(lead, _, _, rest) => if lead.name == name then 0 else 1 + FirstNamed(rest, name)
  }

  /** Which members a name in a path asks for: those with this name, or, as in the code, all that fit. */
  datatype Rule = Exact | Fitting

  /** The item that the first name or index asks for, or the number of items if there is none. */
  function Pick(v: Doc, text: seq<byte>, rule: Rule): nat
    requires v.Node? && text != []
  {
    if v.obj != (text[0] == DOT) then Count(v.items)
    else if !v.obj then Decimal(IndexDigits(text))
    else if rule.Exact? then FirstNamed(v.items, HopName(text))
    else FirstMatch(v.items, text[1..])
  }

  /** How much of the path asks for that item. */
  function Used(v: Doc, text: seq<byte>, rule: Rule): (n: nat)
    requires v.Node? && text != [] && Pick(v, text, rule) < Count(v.items)
    ensures n > 0
  {
    if text[0] == DOT then 1 + |NameOf(v.items, Pick(v, text, rule))| else HopEnd(text)
  }

  function Behind(v: Doc, text: seq<byte>, rule: Rule): (rest: seq<byte>)
    requires v.Node? && text != [] && Pick(v, text, rule) < Count(v.items)
    ensures |rest| < |text|
  {
    if Used(v, text, rule) <= |text| then text[Used(v, text, rule)..] else []
  }

  function Picked(v: Doc, text: seq<byte>, rule: Rule): Doc
    requires v.Node? && text != [] && Pick(v, text, rule) < Count(v.items)
  {
    Element(v.items, Pick(v, text, rule))
  }

  /** The path leads to a value inside `v`. */
  predicate Leads(v: Doc, text: seq<byte>, rule: Rule)
    decreases |text|
  {
    text == []
    || (v.Node? && Pick(v, text, rule) < Count(v.items) && Leads(Picked(v, text, rule), Behind(v, text, rule), rule))
  }

  function Goal(v: Doc, text: seq<byte>, rule: Rule): Doc
    requires Leads(v, text, rule)
    decreases |text|
  {
    if text == [] then v else Goal(Picked(v, text, rule), Behind(v, text, rule), rule)
  }

  /** Where that value starts in the text. */
  function Offset(v: Doc, text: seq<byte>, rule: Rule): nat
    requires Leads(v, text, rule)
    decreases |text|
  {
    if text == [] then 0
    else
      1 + ElementStart(v.obj, v.items, Pick(v, text, rule)) + Offset(Picked(v, text, rule), Behind(v, text, rule), rule)
  }

  /** Nothing up to the end of that value is nested deeper than there is room for. */
  predicate Clear(v: Doc, text: seq<byte>, room: int, rule: Rule)
    requires Leads(v, text, rule)
    decreases |text|
  {
    if text == [] then Depth(v) <= room
    else
      && room > 0 && Shallow(v.items, Pick(v, text, rule), room - 1)
      && Clear(Picked(v, text, rule), Behind(v, text, rule), room - 1, rule)
  }

  // ----- the way down -----

  /** At a value that the path, of which `text` is left, leads to or through. */
  predicate AtValue(path: seq<byte>, st: State, text: seq<byte>)
  {
    && st.expecting == Value && |st.nesting| == st.ed <= MAX_DEPTH && st.ci == st.ei
    && 1 <= st.pos <= |path| && path[st.pos..] == text && 0 !in text && At(path, st.pos - 1) != DOT
  }

  predicate Braces(nesting: seq<byte>)
  {
    forall k :: 0 <= k < |nesting| ==> nesting[k] == LBRACE
  }

  /** The goal itself is found, unless it is too deep. */
  lemma GoalRun(s: seq<byte>, path: seq<byte>, st: State, v: Doc)
    requires AtValue(path, st, []) && Ok(v) && Holds(s, st.i, Text(v)) && Ends(s, st.i + |Text(v)|, v)
    ensures Run(s, path, st) == if Depth(v) <= Room(st) then Found(st.i, |Text(v)|) else TooDeep
  {
    ValueRun(s, path, st, v);
    hide Run, Text, Depth, Ok;
  }

  /** Outside the object that the path went into, or behind a value that it could not go into, nothing
      is found any more: in an object no name can match. */
  lemma {:induction false} Lost(s: seq<byte>, path: seq<byte>, st: State)
    requires Braces(st.nesting) && (st.expecting == CommaOrEnd || st.expecting == Key)
    requires st.expecting == Key ==> st.nesting != []
    requires |st.nesting| < st.ed || (|st.nesting| == st.ed && At(path, st.pos - 1) != DOT)
    ensures !Run(s, path, st).Found?
    decreases |s| - st.i
  {
    if st.i < |s| {
      LostStep(s, path, st);
      if Step(s, path, st).Go? {
        Lost(s, path, Step(s, path, st).next);
      }
    }
  }

  lemma LostStep(s: seq<byte>, path: seq<byte>, st: State)
    requires Braces(st.nesting) && (st.expecting == CommaOrEnd || st.expecting == Key)
    requires st.expecting == Key ==> st.nesting != []
    requires |st.nesting| < st.ed || (|st.nesting| == st.ed && At(path, st.pos - 1) != DOT)
    requires st.i < |s|
    ensures match Step(s, path, st)
            case Done(r) => !r.Found?
            case Go(next) =>
              && Braces(next.nesting) && (next.expecting == CommaOrEnd || next.expecting == Key)
              && (next.expecting == Key ==> next.nesting != []) && next.pos == st.pos && next.ed == st.ed
              && next.i > st.i
              && (|next.nesting| < next.ed || (|next.nesting| == next.ed && At(path, next.pos - 1) != DOT))
  {
    hide PassString, KeyMatches;
  }

  /** A value that the path cannot go into is passed over. */
  lemma WrongKind(s: seq<byte>, path: seq<byte>, st: State, v: Doc, text: seq<byte>)
    requires AtValue(path, st, text) && text != [] && (text[0] == DOT || text[0] == LBRACKET)
    requires v.Node? ==> v.obj != (text[0] == DOT)
    requires Ok(v) && Holds(s, st.i, Text(v)) && Ends(s, st.i + |Text(v)|, v) && Braces(st.nesting)
    ensures !Run(s, path, st).Found?
  {
    hide Text, Depth, Ok, Run;
    ValueRun(s, path, st, v);
    var passed := JsonDocument.Passed(st, |Text(v)|);
    assert At(path, st.pos) == text[0];
    assert Finish(path, passed).Go?;
    Lost(s, path, Finish(path, passed).next);
  }

  // ----- into an object -----

  function InObject(st: State): State
  {
    State(st.i + 1, Key, st.nesting + [LBRACE], st.i, st.ed + 1, st.pos + 1, -1, -1)
  }

  lemma ObjectEntered(s: seq<byte>, path: seq<byte>, st: State, text: seq<byte>)
    requires AtValue(path, st, text) && text != [] && text[0] == DOT && NameEnd(text[1..]) > 0
    requires st.i < |s| && s[st.i] == LBRACE
    ensures if Room(st) == 0 then Run(s, path, st) == TooDeep
            else AtMember(path, InObject(st), text[1..]) && Run(s, path, st) == Run(s, path, InObject(st))
    ensures Room(InObject(st)) == Room(st) - 1 && Room(st) >= 0
  {
    assert At(path, st.pos) == text[0] && path[st.pos + 1..] == text[1..];
    if Room(st) > 0 {
      assert OpenObject(path, st.(j := st.i)) == Go(InObject(st));
      assert Step(s, path, st) == Go(InObject(st));
    }
  }

  /** An object without members has no value to find. */
  lemma EmptyObject(s: seq<byte>, path: seq<byte>, st: State, text: seq<byte>)
    requires AtMember(path, st, text) && st.expecting == Key && st.i < |s| && s[st.i] == Closing(true)
    ensures Run(s, path, st)
         == Run(s, path, st.(nesting := st.nesting[..|st.nesting| - 1], expecting := CommaOrEnd, i := st.i + 1))
  {
    hide PassString, KeyMatches, NameEnd;
  }

  // ----- into an array -----

  lemma {:induction false} IndexParsed(path: seq<byte>, at: nat, d: seq<byte>, n: nat)
    requires AllDigits(d) && n <= |d| && at + |d| < |path| && path[at..at + |d|] == d && path[at + |d|] == RBRACKET
    ensures ParseIndex(path, at + n, Decimal(d[..n])) == (Decimal(d), at + |d|)
    decreases |d| - n
  {
    if n < |d| {
      assert d[..n + 1][..n] == d[..n];
      assert path[at + n] == path[at..at + |d|][n];
      IndexParsed(path, at, d, n + 1);
    } else {
      assert d[..n] == d;
    }
  }

  function InArray(st: State, text: seq<byte>): State
    requires text != []
  {
    State(st.i + 1, Value, st.nesting + [LBRACKET], st.i, st.ed + 1, st.pos + HopEnd(text), 0,
        Decimal(IndexDigits(text)))
  }

  lemma IndexRead(path: seq<byte>, pos: nat, text: seq<byte>)
    requires text != [] && text[0] == LBRACKET && HopOk(text) && pos <= |path| && path[pos..] == text
    ensures At(path, pos) == LBRACKET && At(path, pos + HopEnd(text) - 1) == RBRACKET
    ensures ParseIndex(path, pos + 1, 0) == (Decimal(IndexDigits(text)), pos + HopEnd(text) - 1)
  {
    var d := IndexDigits(text);
    assert path[pos] == text[0] && path[pos + HopEnd(text) - 1] == text[HopEnd(text) - 1];
    assert path[pos + 1..pos + 1 + |d|] == d;
    assert d[..0] == [];
    IndexParsed(path, pos + 1, d, 0);
  }

  lemma ArrayOpened(path: seq<byte>, st: State, ei: nat, pos: nat)
    requires |st.nesting| == st.ed < MAX_DEPTH && st.ci == st.ei && At(path, st.pos) == LBRACKET
    requires ParseIndex(path, st.pos + 1, 0) == (ei, pos) && At(path, pos) == RBRACKET
    ensures OpenArray(path, st)
         == Go(State(st.i + 1, st.expecting, st.nesting + [LBRACKET], st.j, st.ed + 1, pos + 1, 0, ei))
  {
    hide ParseIndex;
  }

  lemma ArrayStep(s: seq<byte>, path: seq<byte>, st: State, next: State)
    requires st.expecting == Value && |st.nesting| == st.ed && st.i < |s| && s[st.i] == LBRACKET
    requires OpenArray(path, st.(j := st.i)) == if |st.nesting| >= MAX_DEPTH then Done(TooDeep) else Go(next)
    ensures Run(s, path, st) == if |st.nesting| >= MAX_DEPTH then TooDeep else Run(s, path, next)
  {
    hide OpenArray;
  }

  lemma NoRoom(path: seq<byte>, st: State)
    requires |st.nesting| >= MAX_DEPTH
    ensures OpenArray(path, st) == Done(TooDeep)
  {
  }

  lemma ArrayFields(path: seq<byte>, st: State, text: seq<byte>)
    requires AtValue(path, st, text) && text != [] && At(path, st.pos + HopEnd(text) - 1) == RBRACKET
    ensures st.expecting == Value && |st.nesting| == st.ed <= MAX_DEPTH && st.ci == st.ei
    ensures Room(st) == MAX_DEPTH - |st.nesting| >= 0 && Room(InArray(st, text)) == Room(st) - 1
    ensures Room(st) > 0 ==> AtElement(path, InArray(st, text), Decimal(IndexDigits(text)))
    ensures InArray(st, text)
         == State(st.i + 1, Value, st.nesting + [LBRACKET], st.i, st.ed + 1, st.pos + HopEnd(text), 0,
                  Decimal(IndexDigits(text)))
  {
    hide IndexDigits, Decimal, HopEnd;
  }

  lemma ArrayEntered(s: seq<byte>, path: seq<byte>, st: State, text: seq<byte>)
    requires AtValue(path, st, text) && text != [] && text[0] == LBRACKET && HopOk(text)
    requires st.i < |s| && s[st.i] == LBRACKET
    ensures if Room(st) == 0 then Run(s, path, st) == TooDeep
            else && AtElement(path, InArray(st, text), Decimal(IndexDigits(text)))
                 && Run(s, path, st) == Run(s, path, InArray(st, text))
    ensures Room(InArray(st, text)) == Room(st) - 1 && Room(st) >= 0
  {
    hide *;
    ValueFacts(path, st, text);
    IndexRead(path, st.pos, text);
    ArrayFields(path, st, text);
    if Room(st) > 0 {
      ArrayOpened(path, st.(j := st.i), Decimal(IndexDigits(text)), st.pos + HopEnd(text) - 1);
    } else {
      NoRoom(path, st.(j := st.i));
    }
    ArrayStep(s, path, st, InArray(st, text));
  }

  lemma ElementMoved(path: seq<byte>, st: State, i: nat, k: int)
    requires AtElement(path, st, k)
    ensures AtElement(path, st.(i := i), k)
  {
  }

  /** The bracket that ends an array, with the number of elements asked for. */
  lemma PastArray(s: seq<byte>, path: seq<byte>, st: State)
    requires 1 <= |st.nesting| == st.ed && st.nesting[|st.nesting| - 1] == LBRACKET && At(path, st.pos - 1) == RBRACKET
    requires st.ci == st.ei && st.i < |s| && s[st.i] == Closing(false)
    requires st.expecting == CommaOrEnd || st.expecting == Value
    ensures Run(s, path, st)
         == Run(s, path, st.(j := if st.expecting == Value then st.i else st.j,
                             nesting := st.nesting[..|st.nesting| - 1], expecting := CommaOrEnd, i := st.i + 1))
  {
  }

  lemma EmptyArray(s: seq<byte>, path: seq<byte>, st: State, k: int)
    requires AtElement(path, st, k) && k != 0 && st.expecting == Value && st.i < |s| && s[st.i] == Closing(false)
    ensures Run(s, path, st) == NotFound
  {
  }

  // ----- all the way -----

  lemma LeadsHere(v: Doc)
    ensures Leads(v, [], Fitting) && Goal(v, [], Fitting) == v && Offset(v, [], Fitting) == 0
  {
  }

  lemma LeadsUnfold(v: Doc, text: seq<byte>, room: int)
    requires text != []
    ensures !v.Node? ==> !Leads(v, text, Fitting)
    ensures v.Node? ==>
              var k := Pick(v, text, Fitting);
              && (Leads(v, text, Fitting)
                  <==> k < Count(v.items) && Leads(Element(v.items, k), Behind(v, text, Fitting), Fitting))
              && (Leads(v, text, Fitting) ==>
                    && Goal(v, text, Fitting) == Goal(Element(v.items, k), Behind(v, text, Fitting), Fitting)
                    && Offset(v, text, Fitting)
                        == 1 + ElementStart(v.obj, v.items, k)
                            + Offset(Element(v.items, k), Behind(v, text, Fitting), Fitting)
                    && (Clear(v, text, room, Fitting) <==>
                          room > 0 && Shallow(v.items, k, room - 1)
                              && Clear(Element(v.items, k), Behind(v, text, Fitting), room - 1, Fitting)))
  {
  }

  lemma PickUnfold(v: Doc, text: seq<byte>)
    requires v.Node? && text != []
    ensures v.obj != (text[0] == DOT) ==> Pick(v, text, Fitting) == Count(v.items)
    ensures v.obj && text[0] == DOT ==> Pick(v, text, Fitting) == FirstMatch(v.items, text[1..])
    ensures !v.obj && text[0] == LBRACKET ==> Pick(v, text, Fitting) == Decimal(IndexDigits(text))
    ensures v.items.Nil? <==> Count(v.items) == 0
    ensures Pick(v, text, Fitting) < Count(v.items) ==>
              Picked(v, text, Fitting) == Element(v.items, Pick(v, text, Fitting))
  {
  }

  lemma PathUnfold(text: seq<byte>, direct: bool)
    requires text != [] && PathOk(text, direct)
    ensures HopOk(text) && (text[0] == DOT || text[0] == LBRACKET) && 0 !in text
    ensures text[0] == DOT ==> NameEnd(text[1..]) > 0
  {
  }

  lemma DocUnfold(v: Doc)
    requires v.Node? && Ok(v)
    ensures ItemsOk(v.items) && Blank(v.pad)
  {
  }

  lemma {:induction false} MatchFits(items: Items, text: seq<byte>)
    requires FirstMatch(items, text) < Count(items)
    ensures Fits(NameOf(items, FirstMatch(items, text)), text)
  {
    if !Fits(items.lead.name, text) {
      MatchFits(items.rest, text);
    }
  }

  lemma RestOfPath(path: seq<byte>, pos: nat, text: seq<byte>, p: nat)
    requires pos <= |path| && path[pos..] == text && 0 < p <= |text| && 0 !in text
    ensures path[pos + p..] == text[p..] && At(path, pos + p - 1) == text[p - 1] && 0 !in text[p..]
  {
  }

  /** A member that fits ends at a boundary of the path. */
  lemma MemberBehind(v: Doc, text: seq<byte>, direct: bool)
    requires PathOk(text, direct) && text != [] && text[0] == DOT && v.Node? && v.obj
    requires Pick(v, text, Fitting) < Count(v.items)
    ensures var p := 1 + |NameOf(v.items, Pick(v, text, Fitting))|;
            p <= |text| && Behind(v, text, Fitting) == text[p..] && text[p - 1] != DOT && PathOk(text[p..], direct)
  {
    hide *;
    var name := NameOf(v.items, Pick(v, text, Fitting));
    PickUnfold(v, text);
    MatchFits(v.items, text[1..]);
    NameBoundary(text, name);
    PathParts(text, direct);
    BoundaryOk(text, 1 + |name|, direct);
    PathParts(text[1 + |name|..], direct);
    BehindName(v, text);
  }

  lemma PathParts(text: seq<byte>, direct: bool)
    ensures PathOk(text, direct) <==> 0 !in text && Hops(text, direct)
  {
  }

  /** The end of a name that fits is a boundary of the path. */
  lemma NameBoundary(text: seq<byte>, name: seq<byte>)
    requires text != [] && Fits(name, text[1..])
    ensures 1 + |name| <= |text| && Boundary(text, 1 + |name|)
  {
  }

  lemma BehindName(v: Doc, text: seq<byte>)
    requires text != [] && text[0] == DOT && v.Node? && Pick(v, text, Fitting) < Count(v.items)
    ensures var p := 1 + |NameOf(v.items, Pick(v, text, Fitting))|;
            p <= |text| ==> Behind(v, text, Fitting) == text[p..]
  {
    hide Pick, NameOf;
  }

  /** One level further down, with the rest of the path. */
  lemma OneLevelDown(path: seq<byte>, st: State, next: State, text: seq<byte>, rest: seq<byte>, bracket: byte)
    requires AtValue(path, st, text) && Room(st) > 0 && next.expecting == Value
    requires next.nesting == st.nesting + [bracket] && next.ed == st.ed + 1 && next.ci == next.ei
    requires 1 <= next.pos <= |path| && path[next.pos..] == rest && 0 !in rest && At(path, next.pos - 1) != DOT
    ensures AtValue(path, next, rest) && Room(next) == Room(st) - 1
    ensures bracket == LBRACE && Braces(st.nesting) ==> Braces(next.nesting)
  {
  }

  lemma MatchedFields(st: State, items: Items, k: nat, j: nat)
    requires k < Count(items)
    ensures var next := Matched(InObject(st), items, k, j);
            && next.expecting == Value && next.nesting == st.nesting + [LBRACE] && next.ed == st.ed + 1
            && next.ci == next.ei
            && next.pos == st.pos + (1 + |NameOf(items, k)|) && next.j == j
            && next.i == st.i + 1 + ElementStart(true, items, k)
  {
    hide NameOf, ElementStart;
  }

  lemma ValueFacts(path: seq<byte>, st: State, text: seq<byte>)
    requires AtValue(path, st, text)
    ensures st.pos <= |path| && path[st.pos..] == text && 0 !in text
  {
  }

  /** At the value of the member that fits, the rest of the path is left. */
  lemma MemberReached(path: seq<byte>, st: State, v: Doc, text: seq<byte>, k: nat, j: nat, direct: bool)
    requires AtValue(path, st, text) && PathOk(text, direct) && text != [] && text[0] == DOT && v.Node? && v.obj
    requires Room(st) > 0 && k == Pick(v, text, Fitting) < Count(v.items)
    ensures var next := Matched(InObject(st), v.items, k, j);
            && AtValue(path, next, Behind(v, text, Fitting)) && PathOk(Behind(v, text, Fitting), direct)
            && Room(next) == Room(st) - 1
            && next.i == st.i + 1 + ElementStart(true, v.items, k)
            && (Braces(st.nesting) ==> Braces(next.nesting))
  {
    hide *;
    MemberBehind(v, text, direct);
    MatchedFields(st, v.items, k, j);
    ValueFacts(path, st, text);
    RestOfPath(path, st.pos, text, 1 + |NameOf(v.items, k)|);
    OneLevelDown(path, st, Matched(InObject(st), v.items, k, j), text, Behind(v, text, Fitting), LBRACE);
  }

  /** At the element with the index, the rest of the path is left. */
  lemma ElementReached(path: seq<byte>, st: State, v: Doc, text: seq<byte>, k: nat, next: State, direct: bool)
    requires AtValue(path, st, text) && PathOk(text, direct) && text != [] && text[0] == LBRACKET && v.Node? && !v.obj
    requires Room(st) > 0 && k == Pick(v, text, Fitting) < Count(v.items)
    requires next == Reached(InArray(st, text), v.items, k, next.j)
    ensures AtValue(path, next, Behind(v, text, Fitting)) && PathOk(Behind(v, text, Fitting), false)
    ensures Room(next) == Room(st) - 1
    ensures next.i == st.i + 1 + ElementStart(false, v.items, k)
  {
    var h := HopEnd(text);
    AnyPath(text, direct);
    IndexRead(path, st.pos, text);
    assert path[st.pos + h..] == text[h..];
  }

  lemma {:induction false} AnyPath(text: seq<byte>, direct: bool)
    requires Hops(text, direct)
    ensures Hops(text, false)
    decreases |text|
  {
    if text != [] {
      AnyPath(text[HopEnd(text)..], direct);
    }
  }

  /** A value that the path leads to is found, and its span is exact; if the path is direct, nothing is
      found when it leads nowhere. */
  predicate FindsAt(s: seq<byte>, path: seq<byte>, st: State, v: Doc, text: seq<byte>, direct: bool)
  {
    && (Leads(v, text, Fitting) ==>
          Run(s, path, st) == if Clear(v, text, Room(st), Fitting) then
              Found(st.i + Offset(v, text, Fitting), |Text(Goal(v, text, Fitting))|) else TooDeep)
    && (direct && !Leads(v, text, Fitting) ==> !Run(s, path, st).Found?)
  }

  lemma {:induction false} PathRun(s: seq<byte>, path: seq<byte>, st: State, v: Doc, text: seq<byte>, direct: bool)
    requires AtValue(path, st, text) && PathOk(text, direct) && (direct ==> Braces(st.nesting))
    requires Ok(v) && Holds(s, st.i, Text(v)) && Ends(s, st.i + |Text(v)|, v)
    ensures FindsAt(s, path, st, v, text, direct)
    decreases |text|, 1
  {
    if text == [] {
      GoalRun(s, path, st, v);
    } else {
      hide *;
      PathUnfold(text, direct);
      LeadsUnfold(v, text, Room(st));
      if v.Node? && v.obj == (text[0] == DOT) {
        if v.obj {
          ObjectRun(s, path, st, v, text, direct);
        } else {
          ArrayRun(s, path, st, v, text, direct);
        }
      } else {
        if direct {
          WrongKind(s, path, st, v, text);
        }
        if v.Node? {
          PickUnfold(v, text);
        }
        FindsNothing(s, path, st, v, text, direct);
      }
    }
  }

  lemma FindsNothing(s: seq<byte>, path: seq<byte>, st: State, v: Doc, text: seq<byte>, direct: bool)
    requires !Leads(v, text, Fitting) && (direct ==> !Run(s, path, st).Found?)
    ensures FindsAt(s, path, st, v, text, direct)
  {
  }

  lemma FindsTooDeep(s: seq<byte>, path: seq<byte>, st: State, v: Doc, text: seq<byte>, direct: bool)
    requires Run(s, path, st) == TooDeep && (Leads(v, text, Fitting) ==> !Clear(v, text, Room(st), Fitting))
    ensures FindsAt(s, path, st, v, text, direct)
  {
  }

  /** Found below, found here. */
  lemma FindsBelow(s: seq<byte>, path: seq<byte>, st: State, v: Doc, text: seq<byte>, next: State, direct: bool,
      below: bool)
    requires text != [] && v.Node? && Pick(v, text, Fitting) < Count(v.items)
    requires direct ==> below || Behind(v, text, Fitting) == []
    requires FindsAt(s, path, next, Picked(v, text, Fitting), Behind(v, text, Fitting), below)
    requires Run(s, path, st) == Run(s, path, next) && Room(next) == Room(st) - 1 && Room(st) > 0
    requires Shallow(v.items, Pick(v, text, Fitting), Room(st) - 1)
    requires next.i == st.i + 1 + ElementStart(v.obj, v.items, Pick(v, text, Fitting))
    ensures FindsAt(s, path, st, v, text, direct)
  {
    hide Run, Element, ElementStart, Shallow, Room, Pick, Behind, Text;
  }

  lemma LastHop(v: Doc, text: seq<byte>)
    requires PathOk(text, true) && text != [] && text[0] == LBRACKET && v.Node?
    requires Pick(v, text, Fitting) < Count(v.items)
    ensures Behind(v, text, Fitting) == []
  {
  }

  lemma {:induction false} ObjectRun(s: seq<byte>, path: seq<byte>, st: State, v: Doc, text: seq<byte>, direct: bool)
    requires AtValue(path, st, text) && PathOk(text, direct) && (direct ==> Braces(st.nesting))
    requires text != [] && text[0] == DOT && v.Node? && v.obj && Ok(v) && Holds(s, st.i, Text(v))
    ensures FindsAt(s, path, st, v, text, direct)
    decreases |text|, 0
  {
    hide *;
    var inner := if v.items.Nil? then v.pad else ItemsText(true, v.items);
    var inside, k := InObject(st), Pick(v, text, Fitting);
    NodeParts(s, st.i, v, inner);
    DocUnfold(v);
    PathUnfold(text, direct);
    PickUnfold(v, text);
    LeadsUnfold(v, text, Room(st));
    OpensWith(true);
    ObjectEntered(s, path, st, text);
    InsideFields(st, text);
    if Room(st) == 0 {
      FindsTooDeep(s, path, st, v, text, direct);
    } else if v.items.Nil? {
      SpaceSkipped(s, path, inside, v.pad);
      var end := inside.(i := inside.i + |v.pad|);
      SameMember(path, inside, end, text[1..]);
      EmptyObject(s, path, end, text[1..]);
      ClosedFields(st, text);
      if direct {
        Lost(s, path, end.(nesting := end.nesting[..|end.nesting| - 1], expecting := CommaOrEnd, i := end.i + 1));
      }
      FindsNothing(s, path, st, v, text, direct);
    } else {
      var j := MembersPassed(s, path, inside, v.items, text[1..]);
      if !Shallow(v.items, k, Room(st) - 1) {
        FindsTooDeep(s, path, st, v, text, direct);
      } else if k < Count(v.items) {
        var next := Matched(inside, v.items, k, j);
        ElementHeld(s, st.i + 1, true, v.items, k);
        MemberReached(path, st, v, text, k, j, direct);
        PathRun(s, path, next, Element(v.items, k), Behind(v, text, Fitting), direct);
        FindsBelow(s, path, st, v, text, next, direct, direct);
      } else {
        FindsNothing(s, path, st, v, text, direct);
      }
    }
  }

  lemma ReachedAt(st: State, items: Items, k: nat, j: nat)
    requires k < Count(items)
    ensures Reached(st, items, k, j).j == j
  {
  }

  lemma OpensWith(obj: bool)
    ensures Opening(obj) == if obj then LBRACE else LBRACKET
  {
  }

  lemma InsideFields(st: State, text: seq<byte>)
    requires text != []
    ensures InObject(st).i == st.i + 1 && InObject(st).expecting == Key
    ensures InArray(st, text).i == st.i + 1 && InArray(st, text).expecting == Value
  {
  }

  lemma ClosedFields(st: State, text: seq<byte>)
    requires text != []
    ensures |st.nesting| == st.ed ==> |st.nesting| < InObject(st).ed && |st.nesting| < InArray(st, text).ed
    ensures InObject(st).nesting[..|InObject(st).nesting| - 1] == st.nesting
    ensures InArray(st, text).nesting[..|InArray(st, text).nesting| - 1] == st.nesting
  {
  }

  lemma {:induction false} ArrayRun(s: seq<byte>, path: seq<byte>, st: State, v: Doc, text: seq<byte>, direct: bool)
    requires AtValue(path, st, text) && PathOk(text, direct) && (direct ==> Braces(st.nesting))
    requires text != [] && text[0] == LBRACKET && v.Node? && !v.obj && Ok(v) && Holds(s, st.i, Text(v))
    ensures FindsAt(s, path, st, v, text, direct)
    decreases |text|, 0
  {
    hide *;
    var inner := if v.items.Nil? then v.pad else ItemsText(false, v.items);
    var inside, k := InArray(st, text), Pick(v, text, Fitting);
    NodeParts(s, st.i, v, inner);
    DocUnfold(v);
    PathUnfold(text, direct);
    PickUnfold(v, text);
    LeadsUnfold(v, text, Room(st));
    OpensWith(false);
    ArrayEntered(s, path, st, text);
    InsideFields(st, text);
    if Room(st) == 0 {
      FindsTooDeep(s, path, st, v, text, direct);
    } else if v.items.Nil? {
      SpaceSkipped(s, path, inside, v.pad);
      var end := inside.(i := inside.i + |v.pad|);
      ElementMoved(path, inside, end.i, k);
      if direct {
        PastLast(s, path, st, text, end, k);
      }
      FindsNothing(s, path, st, v, text, direct);
    } else {
      var j := ElementsPassed(s, path, inside, v.items, k);
      if k > Count(v.items) {
        FindsNothing(s, path, st, v, text, direct);
      } else if !Shallow(v.items, k, Room(st) - 1) {
        FindsTooDeep(s, path, st, v, text, direct);
      } else if k < Count(v.items) {
        var next := Reached(inside, v.items, k, j);
        ElementHeld(s, st.i + 1, false, v.items, k);
        ReachedAt(inside, v.items, k, j);
        ElementReached(path, st, v, text, k, next, direct);
        PathRun(s, path, next, Element(v.items, k), Behind(v, text, Fitting), false);
        if direct {
          LastHop(v, text);
        }
        FindsBelow(s, path, st, v, text, next, direct, false);
      } else {
        var end := Reached(inside, v.items, k, j);
        ReachedEnd(path, inside, v.items, j);
        if direct {
          PastLast(s, path, st, text, end, 0);
        }
        FindsNothing(s, path, st, v, text, direct);
      }
    }
  }

  lemma ReachedEnd(path: seq<byte>, st: State, items: Items, j: nat)
    requires AtElement(path, st, Count(items)) && items.Cons?
    ensures var end := Reached(st, items, Count(items), j);
            && AtElement(path, end, 0) && end.i == st.i + |ItemsText(false, items)| && end.expecting == CommaOrEnd
            && end.nesting == st.nesting && end.ed == st.ed && end.pos == st.pos
  {
  }

  /** At the end of the array that the direct path went into nothing is found any more. */
  lemma PastLast(s: seq<byte>, path: seq<byte>, st: State, text: seq<byte>, end: State, k: int)
    requires AtValue(path, st, text) && Braces(st.nesting) && text != []
    requires end.nesting == InArray(st, text).nesting && end.ed == InArray(st, text).ed && AtElement(path, end, k)
    requires k == 0 || end.expecting == Value
    requires (end.expecting == CommaOrEnd || end.expecting == Value) && end.i < |s| && s[end.i] == Closing(false)
    ensures !Run(s, path, end).Found?
  {
    hide Run;
    ClosedFields(st, text);
    if k == 0 {
      PastArray(s, path, end);
      Lost(s, path, end.(j := if end.expecting == Value then end.i else end.j, nesting := st.nesting,
          expecting := CommaOrEnd, i := end.i + 1));
    } else {
      EmptyArray(s, path, end, k);
    }
  }

  // ----- mg_json_get -----

  lemma GetStart(s: seq<byte>, before: seq<byte>, v: Doc, tail: seq<byte>, text: seq<byte>, direct: bool)
    requires s == before + Text(v) + tail && PathOk(text, direct)
    ensures Holds(s, 0, before) && Holds(s, |before|, Text(v)) && START.i == 0
    ensures Get(s, [DOLLAR] + text) == Run(s, [DOLLAR] + text, START)
    ensures AtValue([DOLLAR] + text, START.(i := |before|), text) && Braces(START.nesting)
    ensures Room(START.(i := |before|)) == MAX_DEPTH
  {
    hide Run, Text;
    assert ([DOLLAR] + text)[1..] == text;
  }

  lemma FindsUnfold(s: seq<byte>, path: seq<byte>, st: State, v: Doc, text: seq<byte>, direct: bool)
    requires FindsAt(s, path, st, v, text, direct)
    ensures Leads(v, text, Fitting) ==>
              Run(s, path, st) == if Clear(v, text, Room(st), Fitting) then
                  Found(st.i + Offset(v, text, Fitting), |Text(Goal(v, text, Fitting))|) else TooDeep
    ensures direct && !Leads(v, text, Fitting) ==> !Run(s, path, st).Found?
  {
  }

  lemma TextEnds(s: seq<byte>, at: nat, v: Doc)
    requires v.Num? ==> Stops(s, at)
    ensures Ends(s, at, v)
  {
  }

  lemma GetRun(before: seq<byte>, v: Doc, tail: seq<byte>, text: seq<byte>, direct: bool)
    requires Blank(before) && Ok(v) && (v.Num? ==> Stops(before + Text(v) + tail, |before + Text(v)|))
    requires PathOk(text, direct)
    ensures var found := Get(before + Text(v) + tail, [DOLLAR] + text);
            && (Leads(v, text, Fitting) ==>
                  found == if Clear(v, text, MAX_DEPTH, Fitting) then
                      Found(|before| + Offset(v, text, Fitting), |Text(Goal(v, text, Fitting))|) else TooDeep)
            && (direct && !Leads(v, text, Fitting) ==> !found.Found?)
  {
    hide *;
    var s, path, st := before + Text(v) + tail, [DOLLAR] + text, START.(i := |before|);
    GetStart(s, before, v, tail, text, direct);
    SpaceSkipped(s, path, START, before);
    assert START.(i := START.i + |before|) == st;
    TextEnds(s, |before + Text(v)|, v);
    PathRun(s, path, st, v, text, direct);
    FindsUnfold(s, path, st, v, text, direct);
  }

  lemma HeldInside(s: seq<byte>, i: nat, v: Doc)
    requires v.Node? && v.items.Cons? && Ok(v) && Holds(s, i, Text(v))
    ensures ItemsOk(v.items) && Holds(s, i + 1, ItemsText(v.obj, v.items) + [Closing(v.obj)])
  {
    NodeParts(s, i, v, ItemsText(v.obj, v.items));
  }

  /** The text of the value that a path leads to lies at its offset. */
  lemma {:induction false} GoalHeld(s: seq<byte>, i: nat, v: Doc, text: seq<byte>)
    requires Leads(v, text, Fitting) && Ok(v) && Holds(s, i, Text(v))
    ensures Holds(s, i + Offset(v, text, Fitting), Text(Goal(v, text, Fitting)))
    decreases |text|
  {
    hide *;
    if text == [] {
      LeadsHere(v);
    } else {
      LeadsUnfold(v, text, 0);
      var k := Pick(v, text, Fitting);
      CountFacts(v.items);
      HeldInside(s, i, v);
      ElementHeld(s, i + 1, v.obj, v.items, k);
      GoalHeld(s, i + 1 + ElementStart(v.obj, v.items, k), Element(v.items, k), Behind(v, text, Fitting));
    }
  }

  // ----- paths of one index or one name -----

  function IndexText(d: seq<byte>): seq<byte>
  {
    [LBRACKET] + d + [RBRACKET]
  }

  lemma {:induction false} DigitsCounted(d: seq<byte>, rest: seq<byte>)
    requires AllDigits(d) && (rest != [] ==> !Digit(rest[0]))
    ensures DigitsEnd(d + rest) == |d|
    decreases |d|
  {
    if d == [] {
      assert d + rest == rest;
    } else {
      assert (d + rest)[1..] == d[1..] + rest;
      DigitsCounted(d[1..], rest);
    }
  }

  /** An index at the start of a path. */
  lemma IndexHop(d: seq<byte>, rest: seq<byte>)
    requires AllDigits(d)
    ensures var text := IndexText(d) + rest;
            && text[0] == LBRACKET && HopOk(text) && HopEnd(text) == |d| + 2 <= |text|
            && IndexDigits(text) == d && text[HopEnd(text)..] == rest
            && (0 !in rest ==> 0 !in text)
  {
    var text := IndexText(d) + rest;
    assert text[1..] == d + ([RBRACKET] + rest);
    DigitsCounted(d, [RBRACKET] + rest);
    assert text[1..][..|d|] == d && text[|d| + 1] == RBRACKET;
  }

  lemma IndexOk(d: seq<byte>)
    requires AllDigits(d)
    ensures PathOk(IndexText(d), true) && IndexText(d) != [] && IndexText(d)[0] == LBRACKET
    ensures IndexDigits(IndexText(d)) == d
    ensures HopEnd(IndexText(d)) == |IndexText(d)|
  {
    IndexHop(d, []);
    assert IndexText(d) + [] == IndexText(d);
  }

  lemma {:induction false} ShallowNext(items: Items, k: nat, room: int)
    requires k < Count(items)
    ensures Shallow(items, k + 1, room) <==> Shallow(items, k, room) && Depth(Element(items, k)) <= room
  {
    if k > 0 {
      ShallowNext(items.rest, k - 1, room);
    }
  }

  /** A path of one name or index. */
  lemma OneHop(v: Doc, text: seq<byte>, room: nat)
    requires v.Node? && text != [] && (Pick(v, text, Fitting) < Count(v.items) ==> Used(v, text, Fitting) == |text|)
    ensures Leads(v, text, Fitting) <==> Pick(v, text, Fitting) < Count(v.items)
    ensures Leads(v, text, Fitting) ==>
              var k := Pick(v, text, Fitting);
              && Offset(v, text, Fitting) == 1 + ElementStart(v.obj, v.items, k)
              && Goal(v, text, Fitting) == Element(v.items, k)
              && (Clear(v, text, room, Fitting) <==> room > 0 && Shallow(v.items, k + 1, room - 1))
  {
    if Pick(v, text, Fitting) < Count(v.items) {
      assert Behind(v, text, Fitting) == [];
      ShallowNext(v.items, Pick(v, text, Fitting), room - 1);
    }
  }

  lemma IndexPick(v: Doc, d: seq<byte>)
    requires v.Node? && !v.obj && AllDigits(d)
    ensures IndexText(d) != [] && Pick(v, IndexText(d), Fitting) == Decimal(d) && MAX_DEPTH > 0
    ensures Pick(v, IndexText(d), Fitting) < Count(v.items) ==> Used(v, IndexText(d), Fitting) == |IndexText(d)|
  {
    IndexOk(d);
  }

  /** On an array of N elements the path "$[k]" gives the exact span of element k when k < N, and a
      negative result otherwise; only nesting beyond the limit, up to that element, is in the way. */
  lemma ArrayElement(before: seq<byte>, v: Doc, tail: seq<byte>, d: seq<byte>)
    requires Blank(before) && Ok(v) && v.Node? && !v.obj && AllDigits(d)
    ensures var k, found := Decimal(d), Get(before + Text(v) + tail, [DOLLAR] + IndexText(d));
            if k < Count(v.items) && Shallow(v.items, k + 1, MAX_DEPTH - 1)
            then found == Found(|before| + 1 + ElementStart(false, v.items, k), |Text(Element(v.items, k))|)
            else !found.Found?
  {
    hide *;
    IndexOk(d);
    IndexPick(v, d);
    GetRun(before, v, tail, IndexText(d), true);
    OneHop(v, IndexText(d), MAX_DEPTH);
  }

  /** A name that a path can ask for: no byte of it ends the name. */
  predicate Askable(name: seq<byte>)
  {
    name != [] && forall k :: 0 <= k < |name| ==> name[k] != 0 && name[k] != DOT && name[k] != LBRACKET
  }

  /** When the path ends with the name, only the name itself fits. */
  lemma {:induction false} FitsIsEqual(items: Items, name: seq<byte>)
    requires Askable(name)
    ensures FirstMatch(items, name) == FirstNamed(items, name)
    ensures FirstMatch(items, name) < Count(items) ==> NameOf(items, FirstMatch(items, name)) == name
  {
    if items.Cons? {
      assert Fits(items.lead.name, name) <==> items.lead.name == name by {
        assert |items.lead.name| < |name| ==> name[|items.lead.name|] != DOT && name[|items.lead.name|] != LBRACKET;
      }
      FitsIsEqual(items.rest, name);
    }
  }

  lemma {:induction false} WholeName(name: seq<byte>)
    requires forall k :: 0 <= k < |name| ==> name[k] != DOT && name[k] != LBRACKET
    ensures NameEnd(name) == |name|
  {
    if name != [] {
      WholeName(name[1..]);
    }
  }

  lemma NameOk(name: seq<byte>)
    requires Askable(name)
    ensures PathOk([DOT] + name, true) && ([DOT] + name)[1..] == name
  {
    var text := [DOT] + name;
    assert text[1..] == name;
    WholeName(name);
    assert HopEnd(text) == |text| && text[|text|..] == [];
  }

  lemma NamePick(v: Doc, name: seq<byte>)
    requires v.Node? && v.obj && Askable(name)
    ensures Pick(v, [DOT] + name, Fitting) == FirstNamed(v.items, name) && MAX_DEPTH > 0
    ensures Pick(v, [DOT] + name, Fitting) < Count(v.items) ==> Used(v, [DOT] + name, Fitting) == |[DOT] + name|
  {
    NameOk(name);
    FitsIsEqual(v.items, name);
  }

  /** On an object the path "$.name" gives the exact span of the value of the first member with that name,
      and a negative result if there is none; only nesting beyond the limit, up to that member, is in the
      way. */
  lemma ObjectMember(before: seq<byte>, v: Doc, tail: seq<byte>, name: seq<byte>)
    requires Blank(before) && Ok(v) && v.Node? && v.obj && Askable(name)
    ensures var k, found := FirstNamed(v.items, name), Get(before + Text(v) + tail, [DOLLAR] + ([DOT] + name));
            if k < Count(v.items) && Shallow(v.items, k + 1, MAX_DEPTH - 1)
            then found == Found(|before| + 1 + ElementStart(true, v.items, k), |Text(Element(v.items, k))|)
            else !found.Found?
  {
    hide *;
    NameOk(name);
    NamePick(v, name);
    GetRun(before, v, tail, [DOT] + name, true);
    OneHop(v, [DOT] + name, MAX_DEPTH);
  }
}
