/** A path with an index before its last place finds, in some documents, a value it does not lead to. */
module JsonDetours {
  import opened Bytes
  import opened JsonLex
  import opened Json
  import opened JsonDocument
  import opened JsonLookup
  import opened JsonPath
  import opened JsonNames
  import opened JsonIndices

  // ----- documents made for a path -----

  function RestOf(text: seq<byte>): (rest: seq<byte>)
    requires text != []
    ensures |rest| < |text|
  {
    if HopEnd(text) <= |text| then text[HopEnd(text)..] else []
  }

  function HopCount(text: seq<byte>): nat
    decreases |text|
  {
    if text == [] then 0 else 1 + HopCount(RestOf(text))
  }

  /** A JSON text can have these names. */
  predicate Spellable(text: seq<byte>)
    decreases |text|
  {
    text != [] ==> StringBody(HopName(text)) && Spellable(RestOf(text))
  }

  /** Items without white space around them. */
  function Item(name: seq<byte>, v: Doc, rest: Items): Items
  {
    Cons(Lead([], name, [], []), v, [], rest)
  }

  /** `n` times null, then the others. */
  function Nulls(n: nat, others: Items): Items
  {
    if n == 0 then others else Item([], Word(NULL), Nulls(n - 1, others))
  }

  /** A document that the path leads through to a null. */
  function Leading(text: seq<byte>): Doc
    decreases |text|
  {
    if text == [] then Word(NULL)
    else if text[0] == DOT then Node(true, [], Item(HopName(text), Leading(RestOf(text)), Nil))
    else Node(false, [], Nulls(Decimal(IndexDigits(text)), Item([], Leading(RestOf(text)), Nil)))
  }

  /** What the path goes into in vain: an empty object, or an array that ends just before the index. */
  function Dead(text: seq<byte>): Doc
    requires text != []
  {
    if text[0] == DOT then Node(true, [], Nil) else Node(false, [], Nulls(Decimal(IndexDigits(text)), Nil))
  }

  /** What is then taken for it. */
  function Trap(text: seq<byte>): Doc
    requires text != []
  {
    if text[0] == DOT then Leading(text) else Node(false, [], Item([], Leading(RestOf(text)), Nil))
  }

  /** The document that misleads a path: at its first index that is not its end the element asked for is
      such a dead end, and the trap comes behind it. */
  function Detour(text: seq<byte>): Doc
    decreases |text|
  {
    if text == [] || RestOf(text) == [] then Word(NULL)
    else if text[0] == DOT then Node(true, [], Item(HopName(text), Detour(RestOf(text)), Nil))
    else Node(false, [],
        Nulls(Decimal(IndexDigits(text)), Item([], Dead(RestOf(text)), Item([], Trap(RestOf(text)), Nil))))
  }

  // ----- what they are -----

  lemma NullFacts()
    ensures Ok(Word(NULL)) && Depth(Word(NULL)) == 0 && LeadOk(Lead([], [], [], []))
  {
  }

  lemma {:induction false} NullsFacts(n: nat, others: Items, room: nat)
    requires ItemsOk(others)
    ensures ItemsOk(Nulls(n, others)) && Count(Nulls(n, others)) == n + Count(others)
    ensures Shallow(Nulls(n, others), n, room)
    ensures ItemsDepth(Nulls(n, others)) == ItemsDepth(others)
    ensures others.Cons? ==> Element(Nulls(n, others), n) == others.v && From(Nulls(n, others), n) == others
  {
    NullFacts();
    hide Ok, Depth, LeadOk;
    if n > 0 {
      NullsFacts(n - 1, others, room);
    }
  }

  lemma HopFacts(text: seq<byte>, direct: bool)
    requires PathOk(text, direct) && text != []
    ensures HopOk(text) && (text[0] == DOT || text[0] == LBRACKET) && HopEnd(text) <= |text|
    ensures RestOf(text) == text[HopEnd(text)..] && PathOk(RestOf(text), direct)
    ensures HopCount(text) == 1 + HopCount(RestOf(text))
    ensures text[0] == DOT ==> Fits(HopName(text), text[1..]) && HopEnd(text) == 1 + |HopName(text)|
  {
    if text[0] == DOT {
      var n := NameEnd(text[1..]);
      assert text[1..][..n] <= text[1..];
    }
  }

  lemma OnlyMember(name: seq<byte>, v: Doc)
    requires StringBody(name) && Ok(v)
    ensures var d := Node(true, [], Item(name, v, Nil));
            Ok(d) && Depth(d) == 1 + Depth(v) && Count(d.items) == 1 && Element(d.items, 0) == v
                && NameOf(d.items, 0) == name
  {
    hide StringBody, Ok;
    var items := Item(name, v, Nil);
    assert LeadOk(items.lead);
    assert ItemsOk(items) by {
      assert ItemsOk(Nil);
    }
    OkNode(true, items);
  }

  lemma OkNode(obj: bool, items: Items)
    requires ItemsOk(items)
    ensures Ok(Node(obj, [], items)) && Depth(Node(obj, [], items)) == 1 + ItemsDepth(items)
  {
  }

  lemma OneItem(v: Doc)
    requires Ok(v)
    ensures ItemsOk(Item([], v, Nil)) && Count(Item([], v, Nil)) == 1 && ItemsDepth(Item([], v, Nil)) == Depth(v)
  {
    hide Ok, Depth;
    assert LeadOk(Lead([], [], [], []));
    assert ItemsOk(Nil) && ItemsDepth(Nil) == 0;
  }

  /** Such a document is well-formed, the path leads to its null, and it is as deep as the path is long. */
  lemma {:induction false} LeadingLeads(text: seq<byte>, room: nat)
    requires PathOk(text, false) && Spellable(text) && HopCount(text) <= room
    ensures Ok(Leading(text)) && Depth(Leading(text)) == HopCount(text)
    ensures Leads(Leading(text), text, Fitting) && Clear(Leading(text), text, room, Fitting)
    decreases |text|
  {
    hide *;
    if text == [] {
      LeadingHere(room);
    } else {
      HopFacts(text, false);
      SpellableRest(text);
      LeadingShape(text);
      var v, below, rest := Leading(text), Leading(RestOf(text)), RestOf(text);
      LeadingLeads(rest, room - 1);
      if text[0] == DOT {
        OnlyMember(HopName(text), below);
        MemberLeads(v, text, below, room);
      } else {
        OneItem(below);
        NullsFacts(Decimal(IndexDigits(text)), Item([], below, Nil), room - 1);
        OkNode(false, v.items);
        ElementLeads(v, text, below, room);
      }
    }
  }

  lemma LeadingHere(room: nat)
    ensures HopCount([]) == 0 && Ok(Leading([])) && Depth(Leading([])) == 0
    ensures Leads(Leading([]), [], Fitting) && Clear(Leading([]), [], room, Fitting)
  {
  }

  lemma LeadingShape(text: seq<byte>)
    requires text != []
    ensures Leading(text) == if text[0] == DOT then Node(true, [], Item(HopName(text), Leading(RestOf(text)), Nil))
                             else Node(false, [],
                                 Nulls(Decimal(IndexDigits(text)), Item([], Leading(RestOf(text)), Nil)))
    ensures Item([], Leading(RestOf(text)), Nil).Cons?
    ensures Item([], Leading(RestOf(text)), Nil).v == Leading(RestOf(text))
  {
  }

  lemma MemberLeads(v: Doc, text: seq<byte>, below: Doc, room: nat)
    requires PathOk(text, false) && text != [] && text[0] == DOT && room > 0
    requires v == Node(true, [], Item(HopName(text), below, Nil))
    ensures Pick(v, text, Fitting) == 0 && Behind(v, text, Fitting) == RestOf(text) && Element(v.items, 0) == below
    ensures Count(v.items) == 1
    ensures Leads(v, text, Fitting) <==> Leads(below, RestOf(text), Fitting)
    ensures Leads(v, text, Fitting) ==>
            (Clear(v, text, room, Fitting) <==> Clear(below, RestOf(text), room - 1, Fitting))
  {
    HopFacts(text, false);
    hide NameEnd, HopName, HopEnd, HopOk, IndexDigits, RestOf, Hops, Fits;
    assert FirstMatch(v.items, text[1..]) == 0;
  }

  lemma ElementLeads(v: Doc, text: seq<byte>, below: Doc, room: nat)
    requires PathOk(text, false) && text != [] && text[0] == LBRACKET && room > 0 && v.Node? && !v.obj
    requires var a := Decimal(IndexDigits(text));
             a < Count(v.items) && Element(v.items, a) == below && Shallow(v.items, a, room - 1)
    ensures Pick(v, text, Fitting) == Decimal(IndexDigits(text)) && Behind(v, text, Fitting) == RestOf(text)
    ensures Leads(v, text, Fitting) <==> Leads(below, RestOf(text), Fitting)
    ensures Leads(v, text, Fitting) ==>
            (Clear(v, text, room, Fitting) <==> Clear(below, RestOf(text), room - 1, Fitting))
  {
    HopFacts(text, false);
  }

  lemma RestDirect(text: seq<byte>)
    requires PathOk(text, false) && text != []
    ensures text[0] == DOT ==> (Hops(text, true) <==> Hops(RestOf(text), true))
    ensures RestOf(text) == [] ==> Hops(text, true)
  {
    HopFacts(text, false);
  }

  lemma DeadFacts(text: seq<byte>, room: nat)
    requires PathOk(text, false) && text != []
    ensures Ok(Dead(text)) && !Leads(Dead(text), text, Fitting) && Dead(text).Node?
    ensures Dead(text).obj == (text[0] == DOT)
    ensures text[0] == DOT ==> Dead(text).items.Nil?
    ensures text[0] == LBRACKET ==>
              var b := Decimal(IndexDigits(text));
              Count(Dead(text).items) == b && Shallow(Dead(text).items, b, room) && (Dead(text).items.Nil? <==> b == 0)
  {
    HopFacts(text, false);
    NullsFacts(Decimal(IndexDigits(text)), Nil, room);
  }

  lemma TrapOk(text: seq<byte>)
    requires PathOk(text, false) && Spellable(text) && text != []
    ensures Ok(Trap(text))
  {
    LeadingLeads(text, HopCount(text));
    if text[0] != DOT {
      HopFacts(text, false);
      LeadingLeads(RestOf(text), HopCount(text));
      hide Ok;
      OneItem(Leading(RestOf(text)));
      OkNode(false, Item([], Leading(RestOf(text)), Nil));
    }
  }

  /** The items of the array where the path is misled. */
  function DetourItems(text: seq<byte>): Items
    requires text != [] && RestOf(text) != []
  {
    Nulls(Decimal(IndexDigits(text)), Item([], Dead(RestOf(text)), Item([], Trap(RestOf(text)), Nil)))
  }

  lemma DetourItemsFacts(text: seq<byte>, room: nat)
    requires PathOk(text, false) && Spellable(text) && text != [] && text[0] == LBRACKET && RestOf(text) != []
    ensures var a, items := Decimal(IndexDigits(text)), DetourItems(text);
            && ItemsOk(items) && Count(items) == a + 2 && Element(items, a) == Dead(RestOf(text))
            && Shallow(items, a, room)
            && From(items, a) == Item([], Dead(RestOf(text)), Item([], Trap(RestOf(text)), Nil))
  {
    HopFacts(text, false);
    DeadFacts(RestOf(text), 0);
    TrapOk(RestOf(text));
    hide Ok, Dead, Trap, RestOf, IndexDigits, Decimal, PathOk;
    OneItem(Trap(RestOf(text)));
    var others := Item([], Dead(RestOf(text)), Item([], Trap(RestOf(text)), Nil));
    assert LeadOk(Lead([], [], [], []));
    assert ItemsOk(others) && Count(others) == 2;
    NullsFacts(Decimal(IndexDigits(text)), others, room);
  }

  /** The path does not lead to anything in the document that misleads it. */
  lemma {:induction false} DetourLeadsNowhere(text: seq<byte>)
    requires PathOk(text, false) && !Hops(text, true) && Spellable(text)
    ensures Ok(Detour(text)) && !Leads(Detour(text), text, Fitting)
    decreases |text|
  {
    hide *;
    NoHops();
    HopFacts(text, false);
    RestDirect(text);
    SpellableRest(text);
    DetourShape(text);
    var v := Detour(text);
    if text[0] == DOT {
      DetourLeadsNowhere(RestOf(text));
      OnlyMember(HopName(text), Detour(RestOf(text)));
      MemberLeads(v, text, Detour(RestOf(text)), 1);
    } else {
      DetourItemsFacts(text, 0);
      DeadFacts(RestOf(text), 0);
      OkNode(false, v.items);
      ElementLeads(v, text, Dead(RestOf(text)), 1);
    }
  }

  // ----- the search in them -----

  /** Into the only member of an object. */
  lemma IntoMember(s: seq<byte>, path: seq<byte>, st: State, text: seq<byte>, below: Doc) returns (next: State)
    requires AtValue(path, st, text) && PathOk(text, false) && text != [] && text[0] == DOT && Room(st) > 0
    requires StringBody(HopName(text)) && Ok(below)
    requires Holds(s, st.i, Text(Node(true, [], Item(HopName(text), below, Nil))))
    ensures Run(s, path, st) == Run(s, path, next) && AtValue(path, next, RestOf(text)) && Room(next) == Room(st) - 1
    ensures Holds(s, next.i, Text(below)) && Ends(s, next.i + |Text(below)|, below)
  {
    hide *;
    var v := Node(true, [], Item(HopName(text), below, Nil));
    ItemShapeOf(HopName(text), below, Nil);
    OnlyMember(HopName(text), below);
    HeldInside(s, st.i, v);
    NodeParts(s, st.i, v, ItemsText(true, v.items));
    PathUnfold(text, false);
    OpensWith(true);
    ObjectEntered(s, path, st, text);
    InsideFields(st, text);
    MemberLeads(v, text, below, 1);
    PickUnfold(v, text);
    ElementHeld(s, st.i + 1, true, v.items, 0);
    MatchedFields(st, v.items, 0, 0);
    var j := MembersPassed(s, path, InObject(st), v.items, text[1..]);
    NothingBefore(v.items, Room(st) - 1);
    next := Matched(InObject(st), v.items, 0, j);
    MemberReached(path, st, v, text, 0, j, false);
  }

  lemma ItemShapeOf(name: seq<byte>, v: Doc, rest: Items)
    ensures Item(name, v, rest) == Cons(Lead([], name, [], []), v, [], rest)
    ensures LeadText(false, Lead([], name, [], [])) == []
  {
  }

  /** Outside of what the path went into in vain, the array around it still open. */
  predicate Astray(path: seq<byte>, st: State, text: seq<byte>)
    requires text != []
  {
    && st.ed == |st.nesting| + 1 <= MAX_DEPTH && st.ci == st.ei && 1 <= st.pos <= |path| && 0 !in text
    && if text[0] == DOT then
        path[st.pos..] == text[1..] && At(path, st.pos - 1) == DOT && st.ci == -1 && NameEnd(text[1..]) > 0
       else path[st.pos..] == RestOf(text) && At(path, st.pos - 1) == RBRACKET && 0 !in RestOf(text)
  }

  lemma DeadObject(s: seq<byte>, path: seq<byte>, st: State, text: seq<byte>) returns (j: nat, behind: State)
    requires AtValue(path, st, text) && PathOk(text, false) && text != [] && text[0] == DOT && Room(st) > 0
    requires Holds(s, st.i, Text(Node(true, [], Nil)))
    ensures behind
         == st.(i := st.i + 2, j := j, expecting := CommaOrEnd, ed := behind.ed, pos := behind.pos, ci := behind.ci,
             ei := behind.ei)
    ensures Run(s, path, st) == Run(s, path, behind) && Astray(path, behind, text)
  {
    PathUnfold(text, false);
    NodeParts(s, st.i, Node(true, [], Nil), []);
    hide Run, Text, PathOk, HopOk, NameEnd;
    ObjectEntered(s, path, st, text);
    EmptyObject(s, path, InObject(st), text[1..]);
    j := st.i;
    behind := InObject(st).(nesting := st.nesting, expecting := CommaOrEnd, i := st.i + 2);
    assert InObject(st).nesting[..|InObject(st).nesting| - 1] == st.nesting;
  }

  lemma DeadArray(s: seq<byte>, path: seq<byte>, st: State, text: seq<byte>) returns (j: nat, behind: State)
    requires AtValue(path, st, text) && PathOk(text, false) && text != [] && text[0] == LBRACKET && Room(st) > 0
    requires Holds(s, st.i, Text(Dead(text)))
    ensures behind
         == st.(i := st.i + |Text(Dead(text))|, j := j, expecting := CommaOrEnd, ed := behind.ed, pos := behind.pos,
                          ci := behind.ci, ei := behind.ei)
    ensures Run(s, path, st) == Run(s, path, behind) && Astray(path, behind, text)
  {
    hide *;
    var v, b := Dead(text), Decimal(IndexDigits(text));
    DeadFacts(text, Room(st) - 1);
    BracketsDiffer();
    HopFacts(text, false);
    var inner := if v.items.Nil? then v.pad else ItemsText(false, v.items);
    NodeParts(s, st.i, v, inner);
    DocUnfold(v);
    OpensWith(false);
    ArrayEntered(s, path, st, text);
    InsideFields(st, text);
    var end := InArray(st, text);
    if v.items.Nil? {
      DeadPad(text);
    } else {
      var last := ElementsPassed(s, path, end, v.items, b);
      end := Reached(InArray(st, text), v.items, b, last);
      ReachedEnd(path, InArray(st, text), v.items, last);
    }
    j, behind := DeadClosed(s, path, st, text, end);
  }

  lemma BracketsDiffer()
    ensures DOT != LBRACKET
  {
  }

  lemma DeadPad(text: seq<byte>)
    requires text != []
    ensures Dead(text).pad == []
  {
  }

  lemma DeadClosed(s: seq<byte>, path: seq<byte>, st: State, text: seq<byte>, end: State)
    returns (j: nat, behind: State)
    requires AtValue(path, st, text) && PathOk(text, false) && text != [] && text[0] == LBRACKET && Room(st) > 0
    requires AtElement(path, end, 0) && (end.expecting == CommaOrEnd || end.expecting == Value) && end.i < |s|
    requires s[end.i] == Closing(false)
    requires var inside := InArray(st, text);
             end.nesting == inside.nesting && end.ed == inside.ed && end.pos == inside.pos
    ensures behind
         == st.(i := end.i + 1, j := j, expecting := CommaOrEnd, ed := behind.ed, pos := behind.pos, ci := behind.ci,
             ei := behind.ei)
    ensures Run(s, path, end) == Run(s, path, behind) && Astray(path, behind, text)
  {
    hide *;
    PastArrayHere(s, path, st, text, end);
    j := if end.expecting == Value then end.i else end.j;
    behind := end.(j := j, nesting := st.nesting, expecting := CommaOrEnd, i := end.i + 1);
    HopFacts(text, false);
    NoZeroBehind(text);
    ValueFacts(path, st, text);
    AfterHop(path, st.pos, text);
    StraysBehind(path, st, text, end, behind);
  }

  lemma StraysBehind(path: seq<byte>, st: State, text: seq<byte>, end: State, behind: State)
    requires text != [] && text[0] == LBRACKET && AtValue(path, st, text) && Room(st) > 0 && HopEnd(text) <= |text|
    requires st.pos + HopEnd(text) <= |path| && path[st.pos + HopEnd(text)..] == RestOf(text) && 0 !in RestOf(text)
    requires AtElement(path, end, 0) && end.ed == InArray(st, text).ed && end.pos == InArray(st, text).pos
    requires behind == end.(j := behind.j, nesting := st.nesting, expecting := CommaOrEnd, i := end.i + 1)
    ensures Astray(path, behind, text)
  {
    hide HopEnd, RestOf, IndexDigits, Decimal;
  }

  lemma NoZeroBehind(text: seq<byte>)
    requires PathOk(text, false) && text != []
    ensures 0 !in RestOf(text)
  {
    HopFacts(text, false);
  }

  /** The trap is taken for what the path went into. */
  lemma TrapRun(s: seq<byte>, path: seq<byte>, st: State, text: seq<byte>)
    requires text != [] && Astray(path, st, text) && st.expecting == Value && PathOk(text, false) && Spellable(text)
    requires HopCount(text) <= MAX_DEPTH - |st.nesting| && Holds(s, st.i, Text(Trap(text)))
    ensures Run(s, path, st).Found?
  {
    hide *;
    TrapOk(text);
    PathUnfold(text, false);
    HopFacts(text, false);
    var rest, v := RestOf(text), Trap(text);
    var room := MAX_DEPTH - |st.nesting| - 1;
    LeadingLeads(rest, room) by {
      SpellableRest(text);
    }
    TrapShape(text);
    HeldInside(s, st.i, v);
    NodeParts(s, st.i, v, ItemsText(v.obj, v.items));
    AstrayLow(path, st, text);
    OpenOutside(s, path, st, v.obj);
    InsideFieldsOf(st, v.obj);
    ElementHeld(s, st.i + 1, v.obj, v.items, 0);
    var next := Inside(st, v.obj);
    if v.obj {
      AstrayInObject(path, st, text);
      FirstFits(text, v);
      var j := MembersPassed(s, path, next, v.items, text[1..]);
      NothingBefore(v.items, Room(next));
      MatchedInTrap(path, st, text, v.items, j);
      next := Matched(next, v.items, 0, j);
    } else {
      AstrayInArray(path, st, text);
      StartsAtOnce(v.items.lead, v);
    }
    PathRun(s, path, next, Leading(rest), rest, false);
    FindsUnfold(s, path, next, Leading(rest), rest, false);
  }

  lemma SpellableRest(text: seq<byte>)
    requires Spellable(text) && text != []
    ensures Spellable(RestOf(text)) && StringBody(HopName(text))
  {
  }

  lemma TrapShape(text: seq<byte>)
    requires text != [] && (text[0] == DOT || text[0] == LBRACKET)
    ensures var v := Trap(text);
            && v.Node? && v.obj == (text[0] == DOT) && v.items.Cons? && Count(v.items) == 1
            && Element(v.items, 0) == v.items.v == Leading(RestOf(text))
            && v.items.lead == Lead([], if v.obj then HopName(text) else [], [], []) && v.items.rest == Nil
  {
  }

  lemma AstrayLow(path: seq<byte>, st: State, text: seq<byte>)
    requires text != [] && Astray(path, st, text)
    ensures |st.nesting| < st.ed && |st.nesting| < MAX_DEPTH
  {
  }

  lemma AstrayInObject(path: seq<byte>, st: State, text: seq<byte>)
    requires text != [] && text[0] == DOT && Astray(path, st, text)
    ensures AtMember(path, Inside(st, true), text[1..]) && Room(Inside(st, true)) == MAX_DEPTH - |st.nesting| - 1
  {
  }

  lemma FirstFits(text: seq<byte>, v: Doc)
    requires text != [] && v.Node? && v.items.Cons? && v.items.lead.name == HopName(text)
    requires Fits(HopName(text), text[1..])
    ensures FirstMatch(v.items, text[1..]) == 0 && Count(v.items) > 0
  {
  }

  lemma MatchedInTrap(path: seq<byte>, st: State, text: seq<byte>, items: Items, j: nat)
    requires PathOk(text, false) && text != [] && text[0] == DOT && Astray(path, st, text)
    requires items.Cons? && items.lead.name == HopName(text)
    ensures Count(items) > 0
    ensures var next := Matched(Inside(st, true), items, 0, j);
            && AtValue(path, next, RestOf(text)) && Room(next) == MAX_DEPTH - |st.nesting| - 1
            && next.i == st.i + 1 + ElementStart(true, items, 0)
  {
    hide *;
    HopFacts(text, false);
    NoZeroBehind(text);
    BoundaryAtHop(text);
    TrapFields(path, st, text, items, j);
  }

  lemma BoundaryAtHop(text: seq<byte>)
    requires PathOk(text, false) && text != [] && text[0] == DOT
    ensures var n := |HopName(text)|;
            0 < n < |text| && text[n] != DOT && text[1..][n..] == RestOf(text) && text[n] == text[1..][n - 1]
  {
    HopFacts(text, false);
    HopLast(text);
    hide NameEnd, HopName, HopEnd, HopOk, RestOf, Hops, IndexDigits;
    assert text[1..][|HopName(text)|..] == text[HopEnd(text)..];
  }

  lemma TrapFields(path: seq<byte>, st: State, text: seq<byte>, items: Items, j: nat)
    requires text != [] && text[0] == DOT && Astray(path, st, text) && items.Cons? && items.lead.name == HopName(text)
    requires var n := |HopName(text)|;
             0 < n < |text| && text[n] != DOT && text[1..][n..] == RestOf(text) && text[n] == text[1..][n - 1]
    requires 0 !in RestOf(text)
    ensures Count(items) > 0
    ensures var next := Matched(Inside(st, true), items, 0, j);
            && AtValue(path, next, RestOf(text)) && Room(next) == MAX_DEPTH - |st.nesting| - 1
            && next.i == st.i + 1 + ElementStart(true, items, 0)
  {
    hide NameEnd, HopName, RestOf, ElementStart;
    var n := |HopName(text)|;
    assert NameOf(items, 0) == HopName(text);
    assert path[st.pos + n..] == path[st.pos..][n..];
    assert path[st.pos + n - 1] == path[st.pos..][n - 1];
  }

  lemma AstrayInArray(path: seq<byte>, st: State, text: seq<byte>)
    requires text != [] && text[0] != DOT && Astray(path, st, text)
    ensures AtValue(path, Inside(st, false), RestOf(text)) && Room(Inside(st, false)) == MAX_DEPTH - |st.nesting| - 1
  {
  }

  lemma StartsAtOnce(lead: Lead, v: Doc)
    requires v.Node? && v.items.Cons? && v.items.lead == lead && lead.before == []
    ensures Count(v.items) > 0 && ElementStart(false, v.items, 0) == 0
  {
  }

  lemma DetourShape(text: seq<byte>)
    requires text != [] && RestOf(text) != []
    ensures Detour(text) == if text[0] == DOT then Node(true, [], Item(HopName(text), Detour(RestOf(text)), Nil))
                            else Node(false, [], DetourItems(text))
  {
  }

  /** From the end of the dead end to the start of the trap. */
  lemma TrapStarts(s: seq<byte>, path: seq<byte>, start: nat, behind: State, rest: seq<byte>, items: Items)
    returns (next: State)
    requires rest != [] && Astray(path, behind, rest) && behind.expecting == CommaOrEnd
    requires |behind.nesting| > 0 && behind.nesting[|behind.nesting| - 1] == Opening(false)
    requires items == Item([], Dead(rest), Item([], Trap(rest), Nil)) && ItemsOk(items)
    requires Holds(s, start, ItemsText(false, items) + [Closing(false)]) && behind.i == start + |Text(Dead(rest))|
    ensures Run(s, path, behind) == Run(s, path, next) && Astray(path, next, rest) && next.expecting == Value
    ensures next.nesting == behind.nesting && Holds(s, next.i, Text(Trap(rest)))
  {
    hide *;
    ItemShapeOf([], Dead(rest), Item([], Trap(rest), Nil));
    ItemShapeOf([], Trap(rest), Nil);
    ItemParts(s, start, false, items);
    ItemsSteps(false, items, 0, 0);
    ItemParts(s, start + |Text(Dead(rest))| + 1, false, items.rest);
    NextItem(s, path, behind, false, [], false);
    next := behind.(expecting := Value, i := behind.i + 1);
    AstrayMoved(path, behind, next, rest);
  }

  lemma AstrayMoved(path: seq<byte>, st: State, other: State, text: seq<byte>)
    requires text != [] && Astray(path, st, text) && other == st.(i := other.i, expecting := other.expecting)
    ensures Astray(path, other, text)
  {
  }

  /** At the index that misleads. */
  lemma DetourArray(s: seq<byte>, path: seq<byte>, st: State, text: seq<byte>)
    requires AtValue(path, st, text) && PathOk(text, false) && text != [] && text[0] == LBRACKET && RestOf(text) != []
    requires Spellable(text) && HopCount(text) <= Room(st) && Holds(s, st.i, Text(Node(false, [], DetourItems(text))))
    ensures Run(s, path, st).Found?
  {
    hide *;
    var items, a, rest := DetourItems(text), Decimal(IndexDigits(text)), RestOf(text);
    PathUnfold(text, false);
    HopFacts(text, false);
    SpellableRest(text);
    DetourItemsFacts(text, Room(st) - 1);
    CountFacts(items);
    var v, start := Node(false, [], items), st.i + 1 + FromStart(items, a);
    OkNode(false, items);
    HeldInside(s, st.i, v);
    NodeParts(s, st.i, v, ItemsText(false, items));
    OpensWith(false);
    ArrayEntered(s, path, st, text);
    InsideFields(st, text);
    ElementLeads(v, text, Dead(rest), Room(st));
    var j := ElementsPassed(s, path, InArray(st, text), items, a);
    var next := Reached(InArray(st, text), items, a, j);
    ReachedAt(InArray(st, text), items, a, j);
    ElementReached(path, st, v, text, a, next, false);
    FromHeld(s, st.i + 1, items, a);
    ElementHeld(s, st.i + 1, false, items, a);
    ItemShapeOf([], Dead(rest), Item([], Trap(rest), Nil));
    ReachedTop(path, st, text, items, a, j);
    PathUnfold(rest, false);
    HopFacts(rest, false);
    DeadShape(rest);
    var last, behind := 0, next;
    if rest[0] == DOT {
      last, behind := DeadObject(s, path, next, rest);
    } else {
      last, behind := DeadArray(s, path, next, rest);
    }
    var at := TrapStarts(s, path, start, behind, rest, From(items, a));
    RoomFacts(st, next);
    TrapRun(s, path, at, rest);
  }

  lemma RoomFacts(st: State, next: State)
    ensures Room(st) == MAX_DEPTH - |st.nesting| && Room(next) == MAX_DEPTH - |next.nesting|
  {
  }

  lemma DeadShape(text: seq<byte>)
    requires text != []
    ensures text[0] == DOT ==> Dead(text) == Node(true, [], Nil) && |Text(Dead(text))| == 2
  {
  }

  lemma ReachedTop(path: seq<byte>, st: State, text: seq<byte>, items: Items, k: nat, j: nat)
    requires text != [] && k < Count(items)
    ensures var nesting := Reached(InArray(st, text), items, k, j).nesting;
            |nesting| > 0 && nesting[|nesting| - 1] == Opening(false)
  {
    hide ElementStart, HopEnd, IndexDigits, Decimal;
  }

  lemma {:induction false} DetourRun(s: seq<byte>, path: seq<byte>, st: State, text: seq<byte>)
    requires AtValue(path, st, text) && PathOk(text, false) && !Hops(text, true) && Spellable(text)
    requires HopCount(text) <= Room(st) && Holds(s, st.i, Text(Detour(text)))
    ensures Run(s, path, st).Found?
    decreases |text|
  {
    hide *;
    NoHops();
    HopFacts(text, false);
    RestDirect(text);
    SpellableRest(text);
    DetourShape(text);
    if text[0] == DOT {
      DetourLeadsNowhere(RestOf(text));
      var next := IntoMember(s, path, st, text, Detour(RestOf(text)));
      DetourRun(s, path, next, RestOf(text));
    } else {
      DetourArray(s, path, st, text);
    }
  }

  lemma NoHops()
    ensures Hops([], true)
  {
  }

  // ----- its names -----

  lemma {:induction false} NullsPlain(n: nat, others: Items)
    requires PlainItems(false, others)
    ensures PlainItems(false, Nulls(n, others))
  {
    if n > 0 {
      NullsPlain(n - 1, others);
      assert PlainNames(Word(NULL));
    }
  }

  lemma NamePlain(text: seq<byte>)
    requires text != []
    ensures DOT !in HopName(text) && LBRACKET !in HopName(text)
  {
  }

  lemma OnlyMemberPlain(name: seq<byte>, v: Doc)
    requires DOT !in name && LBRACKET !in name && PlainNames(v)
    ensures PlainNames(Node(true, [], Item(name, v, Nil)))
  {
    assert PlainItems(true, Nil);
    assert PlainItems(true, Item(name, v, Nil));
  }

  lemma OneItemPlain(v: Doc)
    requires PlainNames(v)
    ensures PlainItems(false, Item([], v, Nil))
  {
    assert PlainItems(false, Nil);
  }

  lemma ArrayPlain(items: Items)
    requires PlainItems(false, items)
    ensures PlainNames(Node(false, [], items))
  {
  }

  lemma PlainHere()
    ensures PlainNames(Leading([]))
  {
  }

  lemma {:induction false} LeadingPlain(text: seq<byte>)
    ensures PlainNames(Leading(text))
    decreases |text|
  {
    hide *;
    if text == [] {
      PlainHere();
    } else {
      LeadingShape(text);
      NamePlain(text);
      LeadingPlain(RestOf(text));
      if text[0] == DOT {
        OnlyMemberPlain(HopName(text), Leading(RestOf(text)));
      } else {
        OneItemPlain(Leading(RestOf(text)));
        NullsPlain(Decimal(IndexDigits(text)), Item([], Leading(RestOf(text)), Nil));
        ArrayPlain(Leading(text).items);
      }
    }
  }

  lemma TrapPlain(text: seq<byte>)
    requires text != []
    ensures PlainNames(Trap(text))
  {
    LeadingPlain(text);
    LeadingPlain(RestOf(text));
    hide PlainNames, PlainItems, Leading;
    OneItemPlain(Leading(RestOf(text)));
    ArrayPlain(Item([], Leading(RestOf(text)), Nil));
  }

  lemma DeadPlain(text: seq<byte>)
    requires text != []
    ensures PlainNames(Dead(text))
  {
    NullsPlain(Decimal(IndexDigits(text)), Nil);
  }

  lemma DetourItemsPlain(text: seq<byte>)
    requires text != [] && RestOf(text) != []
    ensures PlainItems(false, DetourItems(text))
  {
    TrapPlain(RestOf(text));
    DeadPlain(RestOf(text));
    hide PlainNames, Trap, Dead;
    OneItemPlain(Trap(RestOf(text)));
    NullsPlain(Decimal(IndexDigits(text)), Item([], Dead(RestOf(text)), Item([], Trap(RestOf(text)), Nil)));
  }

  lemma {:induction false} DetourPlain(text: seq<byte>)
    requires PathOk(text, false) && !Hops(text, true)
    ensures PlainNames(Detour(text))
    decreases |text|
  {
    hide *;
    NoHops();
    HopFacts(text, false);
    RestDirect(text);
    DetourShape(text);
    if text[0] == DOT {
      DetourPlain(RestOf(text));
      NamePlain(text);
      OnlyMemberPlain(HopName(text), Detour(RestOf(text)));
    } else {
      DetourItemsPlain(text);
      ArrayPlain(DetourItems(text));
    }
  }

  /** A path with an index before its last place is not safe: in some document that it does not lead into, by either
      reading of names, something is found. */
  lemma OnlyDirectPathsAreSafe(text: seq<byte>) returns (v: Doc)
    requires PathOk(text, false) && !PathOk(text, true) && Spellable(text) && HopCount(text) <= MAX_DEPTH
    ensures Ok(v) && !v.Num? && PlainNames(v) && !Leads(v, text, Exact) && !Leads(v, text, Fitting)
    ensures Get(Text(v), [DOLLAR] + text).Found?
  {
    hide *;
    v := Detour(text);
    IndirectUnfold(text);
    HopFacts(text, false);
    RestDirect(text);
    DetourShape(text);
    DetourLeadsNowhere(text);
    DetourPlain(text);
    PlainIsStraight(v, text);
    StraightAgrees(v, text, 0);
    assert [] + Text(v) + [] == Text(v);
    GetStart(Text(v), [], v, [], text, false);
    StartHere();
    DetourRun(Text(v), [DOLLAR] + text, START, text);
  }

  lemma IndirectUnfold(text: seq<byte>)
    requires PathOk(text, false) && !PathOk(text, true)
    ensures text != [] && !Hops(text, true)
  {
  }

  lemma StartHere()
    ensures START.(i := 0) == START
  {
  }
}
