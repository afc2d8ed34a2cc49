/** Which paths of mg_json_get are right in every document: those of one name or index, and where no name has a dot
    or a bracket those without an index before the last place. */
module JsonSafe {
  import opened Bytes
  import opened JsonLex
  import opened Json
  import opened JsonDocument
  import opened JsonLookup
  import opened JsonPath
  import opened JsonNames
  import opened JsonDetours

  // ----- a name that swallows the path -----

  /** The first character or escape of a string body, whatever follows the body. */
  lemma FirstCharacter(a: seq<byte>, b: seq<byte>) returns (n: nat)
    requires StringBody(a) && a != []
    ensures 0 < n <= |a| && StringBody(a[n..]) && (StringBody((a + b)[n..]) ==> StringBody(a + b))
  {
    n := if UnicodeEscape(a) then 6 else if a[0] == BACKSLASH then 2 else 1;
    assert (a + b)[0] == a[0] && (|a| > 1 ==> (a + b)[1] == a[1]);
    if n == 6 {
      assert forall k :: 2 <= k < 6 ==> (a + b)[k] == a[k];
    }
  }

  lemma {:induction false} BodiesJoined(a: seq<byte>, b: seq<byte>)
    requires StringBody(a) && StringBody(b)
    ensures StringBody(a + b)
    decreases |a|
  {
    hide *;
    if a == [] {
      assert a + b == b;
    } else {
      var n := FirstCharacter(a, b);
      assert (a + b)[n..] == a[n..] + b;
      BodiesJoined(a[n..], b);
    }
  }

  lemma {:induction false} DigitsBody(d: seq<byte>)
    requires AllDigits(d)
    ensures StringBody(d)
  {
    if d != [] {
      DigitsBody(d[1..]);
    }
  }

  lemma OneBody(c: byte)
    requires c == DOT || c == LBRACKET || c == RBRACKET
    ensures StringBody([c])
  {
    assert StringBody([c][1..]);
  }

  lemma NameHop(text: seq<byte>)
    requires text != [] && text[0] == DOT
    ensures HopEnd(text) <= |text| && text[..HopEnd(text)] == [DOT] + HopName(text)
  {
    hide IndexDigits;
  }

  lemma IndexAtStart(text: seq<byte>)
    requires text != [] && text[0] == LBRACKET && HopOk(text)
    ensures HopEnd(text) <= |text| && AllDigits(IndexDigits(text))
    ensures text[..HopEnd(text)] == IndexText(IndexDigits(text))
  {
    var d := IndexDigits(text);
    assert text[1..1 + |d|] == d;
    hide IndexDigits, AllDigits;
    assert text[..HopEnd(text)] == [text[0]] + text[1..1 + |d|] + [text[1 + |d|]];
  }

  lemma IndexBody(d: seq<byte>)
    requires AllDigits(d)
    ensures StringBody(IndexText(d))
  {
    DigitsBody(d);
    OneBody(LBRACKET);
    OneBody(RBRACKET);
    hide StringBody;
    BodiesJoined([LBRACKET], d);
    BodiesJoined([LBRACKET] + d, [RBRACKET]);
  }

  lemma HopBody(text: seq<byte>)
    requires PathOk(text, false) && text != [] && StringBody(HopName(text))
    ensures HopEnd(text) <= |text| && StringBody(text[..HopEnd(text)])
  {
    hide *;
    HopFacts(text, false);
    if text[0] == DOT {
      NameHop(text);
      OneBody(DOT);
      BodiesJoined([DOT], HopName(text));
    } else {
      IndexAtStart(text);
      IndexBody(IndexDigits(text));
    }
  }

  lemma NothingBody()
    ensures StringBody([])
  {
  }

  /** A JSON text can have the path itself as a name. */
  lemma {:induction false} PathBody(text: seq<byte>)
    requires PathOk(text, false) && Spellable(text)
    ensures StringBody(text)
    decreases |text|
  {
    hide *;
    if text == [] {
      NothingBody();
    } else {
      HopFacts(text, false);
      SpellableRest(text);
      HopBody(text);
      PathBody(RestOf(text));
      BodiesJoined(text[..HopEnd(text)], RestOf(text));
      assert text == text[..HopEnd(text)] + text[HopEnd(text)..];
    }
  }

  /** One member, with the whole path behind its first dot as a name. */
  function Swallowing(text: seq<byte>): Doc
    requires text != []
  {
    Node(true, [], Item(text[1..], Word(NULL), Nil))
  }

  lemma BodyTail(text: seq<byte>)
    requires StringBody(text) && text != [] && text[0] == DOT
    ensures StringBody(text[1..])
  {
  }

  lemma SwallowingLeads(text: seq<byte>)
    requires PathOk(text, false) && text != [] && text[0] == DOT && RestOf(text) != []
    ensures Leads(Swallowing(text), text, Fitting) && Clear(Swallowing(text), text, MAX_DEPTH, Fitting)
    ensures !Leads(Swallowing(text), text, Exact)
  {
    var v := Swallowing(text);
    HopFacts(text, false);
    hide HopOk, Hops, NameEnd;
    assert Fits(text[1..], text[1..]);
    assert FirstMatch(v.items, text[1..]) == 0;
    assert Count(v.items) == 1 && NameOf(v.items, 0) == text[1..] && Element(v.items, 0) == Word(NULL);
    assert Behind(v, text, Fitting) == [];
    assert |HopName(text)| < |text[1..]|;
    assert FirstNamed(v.items, HopName(text)) == 1;
    assert Shallow(v.items, 0, MAX_DEPTH - 1);
  }

  /** So a path of more than one name or index is not safe in every document. */
  lemma NamesMislead(text: seq<byte>) returns (v: Doc)
    requires PathOk(text, false) && text != [] && text[0] == DOT && RestOf(text) != [] && Spellable(text)
    ensures Ok(v) && !v.Num? && !Leads(v, text, Exact) && Get(Text(v), [DOLLAR] + text).Found?
  {
    hide *;
    v := Swallowing(text);
    PathBody(text);
    BodyTail(text);
    NullFacts();
    OnlyMember(text[1..], Word(NULL));
    SwallowingShape(text);
    SwallowingLeads(text);
    GetRun([], v, [], text, false);
    assert [] + Text(v) + [] == Text(v);
    NoBlank();
  }

  lemma NoBlank()
    ensures Blank([])
  {
  }

  lemma SwallowingShape(text: seq<byte>)
    requires text != []
    ensures Swallowing(text) == Node(true, [], Item(text[1..], Word(NULL), Nil))
  {
  }

  // ----- which paths are safe -----

  /** In this text what is found at the path is right. */
  predicate Faithful(text: seq<byte>, before: seq<byte>, v: Doc, tail: seq<byte>)
  {
    Blank(before) && Ok(v) && (v.Num? ==> Stops(before + Text(v) + tail, |before + Text(v)|)) ==>
      Right(Get(before + Text(v) + tail, [DOLLAR] + text), |before|, v, text)
  }

  lemma Unfaithful(text: seq<byte>, v: Doc)
    requires Ok(v) && !v.Num? && !Leads(v, text, Exact) && Get(Text(v), [DOLLAR] + text).Found?
    ensures !Faithful(text, [], v, [])
  {
    hide Text, Get, Leads, Ok;
    assert [] + Text(v) + [] == Text(v);
  }

  lemma StraightIsFaithful(text: seq<byte>, before: seq<byte>, v: Doc, tail: seq<byte>)
    requires PathOk(text, true) && Straight(v, text)
    ensures Faithful(text, before, v, tail)
  {
    hide PathOk, Straight, Text, Get, Right, Ok;
    if Blank(before) && Ok(v) && (v.Num? ==> Stops(before + Text(v) + tail, |before + Text(v)|)) {
      DirectPath(before, v, tail, text);
    }
  }

  /** A path of one name or index is straight in every document. */
  lemma OneHopStraight(v: Doc, text: seq<byte>)
    requires PathOk(text, false) && text != [] && HopEnd(text) == |text|
    ensures Straight(v, text) && PathOk(text, true)
  {
    HopFacts(text, false);
    if v.Node? {
      if text[0] == DOT && v.obj {
        assert HopName(text) == text[1..];
        FitsIsEqual(v.items, text[1..]);
      }
      if Pick(v, text, Exact) < Count(v.items) {
        assert Behind(v, text, Exact) == [];
      }
    }
  }

  /** Over all texts, the paths whose answer is right in every one of them are "$" and those of one name or index. */
  lemma SafePaths(text: seq<byte>)
    requires PathOk(text, false) && Spellable(text) && HopCount(text) <= MAX_DEPTH
    ensures (forall before, v, tail :: Faithful(text, before, v, tail)) <==> text == [] || HopEnd(text) == |text|
  {
    if text == [] || HopEnd(text) == |text| {
      forall before, v, tail
        ensures Faithful(text, before, v, tail)
      {
        if text != [] {
          OneHopStraight(v, text);
        }
        StraightIsFaithful(text, before, v, tail);
      }
    } else {
      HopFacts(text, false);
      var v;
      if text[0] == DOT {
        v := NamesMislead(text);
      } else {
        v := OnlyDirectPathsAreSafe(text);
      }
      Unfaithful(text, v);
    }
  }

  /** Over the texts without a dot or a bracket in their names, they are the direct paths: those without an index
      before the last place. */
  lemma PlainSafePaths(text: seq<byte>)
    requires PathOk(text, false) && Spellable(text) && HopCount(text) <= MAX_DEPTH
    ensures (forall before, v, tail :: PlainNames(v) ==> Faithful(text, before, v, tail)) <==> PathOk(text, true)
  {
    if PathOk(text, true) {
      forall before, v, tail | PlainNames(v)
        ensures Faithful(text, before, v, tail)
      {
        PlainIsStraight(v, text);
        StraightIsFaithful(text, before, v, tail);
      }
    } else {
      var v := OnlyDirectPathsAreSafe(text);
      Unfaithful(text, v);
    }
  }

  // ----- the member "a.b" for the member b of the member a -----

  /** A member whose value is one digit. */
  function DigitDoc(c: byte): Doc
  {
    Num(Number(false, [c], [], [], []))
  }

  /** `{"a.b":1,"a":{"b":2}}`. */
  function Dotted(): Doc
  {
    Node(true, [], Item([97, 46, 98], DigitDoc(49), DottedLast()))
  }

  lemma DottedItem(name: seq<byte>, v: Doc, rest: Items)
    ensures var items := Item(name, v, rest);
            && items.rest == rest && Count(items) == 1 + Count(rest) && Element(items, 0) == v
            && NameOf(items, 0) == name
            && ItemsText(true, items)
               == [QUOTE] + name + [QUOTE, COLON] + Text(v)
                   + (if rest.Nil? then [] else [COMMA] + ItemsText(true, rest))
            && Text(Node(true, [], items)) == [LBRACE] + ItemsText(true, items) + [RBRACE]
            && ElementStart(true, items, 0) == |name| + 3
            && (rest.Cons? ==>
                  && ElementStart(true, items, 1) == |name| + 3 + |Text(v)| + 1 + ElementStart(true, rest, 0)
                  && Element(items, 1) == Element(rest, 0) && NameOf(items, 1) == NameOf(rest, 0))
  {
    assert LeadText(true, Lead([], name, [], [])) == [QUOTE] + name + [QUOTE, COLON];
    hide LeadText;
  }

  lemma DigitDocText(c: byte)
    requires Digit(c)
    ensures Text(DigitDoc(c)) == [c] && Ok(DigitDoc(c)) && Depth(DigitDoc(c)) == 0
  {
  }

  lemma LetterBody(c: byte)
    requires 97 <= c <= 122
    ensures StringBody([c]) && StringBody([c, DOT, c + 1])
  {
    assert [c][1..] == [] && [DOT, c + 1][1..] == [c + 1] && [c + 1][1..] == [];
    assert [c, DOT, c + 1][1..] == [DOT, c + 1];
    assert StringBody([c + 1]) && StringBody([DOT, c + 1]);
  }

  /** `{"b":2}`. */
  function DottedInner(): Doc
  {
    Node(true, [], Item([98], DigitDoc(50), Nil))
  }

  lemma DottedInnerText()
    ensures Text(DottedInner()) == [123, 34, 98, 34, 58, 50, 125] && Ok(DottedInner())
    ensures Count(DottedInner().items) == 1 && Element(DottedInner().items, 0) == DigitDoc(50)
    ensures NameOf(DottedInner().items, 0) == [98] && ElementStart(true, DottedInner().items, 0) == 4
  {
    DigitDocText(50);
    LetterBody(98);
    hide StringBody, Ok, Text, ItemsText, ElementStart, DigitDoc;
    OnlyMember([98], DigitDoc(50));
    DottedItem([98], DigitDoc(50), Nil);
  }

  /** `"a":{"b":2}`, the last of the items. */
  function DottedLast(): Items
  {
    Item([97], DottedInner(), Nil)
  }

  lemma DottedShape()
    ensures Dotted() == Node(true, [], Item([97, 46, 98], DigitDoc(49), DottedLast())) && DottedLast().Cons?
    ensures [DOLLAR] + [46, 97, 46, 98] == [36, 46, 97, 46, 98]
  {
  }

  lemma DottedLastText()
    ensures ItemsText(true, DottedLast()) == [34, 97, 34, 58, 123, 34, 98, 34, 58, 50, 125]
    ensures Count(DottedLast()) == 1 && ElementStart(true, DottedLast(), 0) == 4
    ensures Element(DottedLast(), 0) == DottedInner() && NameOf(DottedLast(), 0) == [97]
  {
    DottedInnerText();
    hide Ok, Text, ItemsText, ElementStart, DottedInner, Element, Count, NameOf;
    DottedItem([97], DottedInner(), Nil);
    NoItems();
  }

  lemma NoItems()
    ensures Count(Nil) == 0
  {
  }

  /** What the lemmas about its parts make of the text. */
  lemma DottedJoined(first: seq<byte>, last: seq<byte>)
    requires first == [34, 97, 46, 98] + [34, 58] + [49] && last == [34, 97, 34, 58, 123, 34, 98, 34, 58, 50, 125]
    ensures [123] + (first + ([44] + last)) + [125]
         == [123, 34, 97, 46, 98, 34, 58, 49, 44, 34, 97, 34, 58, 123, 34, 98, 34, 58, 50, 125, 125]
  {
  }

  lemma DottedText()
    ensures Text(Dotted()) == [123, 34, 97, 46, 98, 34, 58, 49, 44, 34, 97, 34, 58, 123, 34, 98, 34, 58, 50, 125, 125]
  {
    DigitDocText(49);
    DottedLastText();
    DottedShape();
    hide Ok, Text, ItemsText, ElementStart, DigitDoc, Element, Count, NameOf, StringBody, DottedLast, Dotted, Item;
    DottedItem([97, 46, 98], DigitDoc(49), DottedLast());
    var first := [QUOTE] + [97, 46, 98] + [QUOTE, COLON] + [49];
    assert first == [34, 97, 46, 98] + [34, 58] + [49];
    DottedJoined(first, ItemsText(true, DottedLast()));
  }

  lemma DottedParts()
    ensures Dotted().items == Item([97, 46, 98], DigitDoc(49), DottedLast()) && Ok(Dotted()) && Dotted().obj
    ensures var items := Dotted().items;
            && Count(items) == 2 && Element(items, 0) == DigitDoc(49) && Element(items, 1) == DottedInner()
            && NameOf(items, 0) == [97, 46, 98] && NameOf(items, 1) == [97]
            && ElementStart(true, items, 0) == 6 && ElementStart(true, items, 1) == 12
  {
    DottedOk();
    DigitDocText(49);
    DottedLastText();
    DottedItem([97, 46, 98], DigitDoc(49), DottedLast());
    hide *;
    DottedShape();
  }

  lemma DottedOk()
    ensures Ok(Dotted())
  {
    DottedInnerText();
    DigitDocText(49);
    LetterBody(97);
    hide StringBody, Text, ItemsText, ElementStart, Element, NameOf;
    assert ItemsOk(Nil);
    assert LeadOk(Lead([], [97], [], [])) && LeadOk(Lead([], [97, 46, 98], [], []));
    assert ItemsOk(DottedLast());
    assert ItemsOk(Item([97, 46, 98], DigitDoc(49), DottedLast()));
  }

  lemma DottedPath()
    ensures PathOk([46, 97, 46, 98], true) && NameEnd([97, 46, 98]) == 1 && HopName([46, 97, 46, 98]) == [97]
    ensures HopName([46, 98]) == [98]
  {
    var text: seq<byte> := [46, 97, 46, 98];
    assert text[1..] == [97, 46, 98] && [97, 46, 98][1..] == [46, 98] && [46, 98][1..] == [98] && [98][1..] == [];
    assert NameEnd([98]) == 1;
    assert text[HopEnd(text)..] == [46, 98];
    assert HopEnd([46, 98]) == 2 && Hops([], true);
    assert Hops([46, 98], true);
  }

  lemma DottedFits()
    ensures Leads(Dotted(), [46, 97, 46, 98], Fitting) && Offset(Dotted(), [46, 97, 46, 98], Fitting) == 7
    ensures Goal(Dotted(), [46, 97, 46, 98], Fitting) == DigitDoc(49)
    ensures Clear(Dotted(), [46, 97, 46, 98], MAX_DEPTH, Fitting)
  {
    DottedParts();
    DigitDocText(49);
    hide Text, Ok, ElementStart, DigitDoc;
    var v, text: seq<byte> := Dotted(), [46, 97, 46, 98];
    assert text[1..] == [97, 46, 98] && Fits([97, 46, 98], [97, 46, 98]);
    assert Pick(v, text, Fitting) == 0;
    assert Picked(v, text, Fitting) == DigitDoc(49) && Behind(v, text, Fitting) == [];
    assert Shallow(v.items, 0, MAX_DEPTH - 1);
  }

  lemma DottedMeans()
    ensures Leads(Dotted(), [46, 97, 46, 98], Exact) && Offset(Dotted(), [46, 97, 46, 98], Exact) == 18
    ensures Goal(Dotted(), [46, 97, 46, 98], Exact) == DigitDoc(50)
  {
    DottedParts();
    DottedInnerText();
    DottedPath();
    hide Text, Ok, Depth, ElementStart, NameEnd, HopName, Element, NameOf, Count, DigitDoc;
    var v, text: seq<byte> := Dotted(), [46, 97, 46, 98];
    assert FirstNamed(DottedLast(), [97]) == 0;
    assert Pick(v, text, Exact) == 1;
    assert Picked(v, text, Exact) == DottedInner() && Behind(v, text, Exact) == [46, 98];
    assert Pick(DottedInner(), [46, 98], Exact) == 0 && Behind(DottedInner(), [46, 98], Exact) == [];
  }

  /** "$.a.b" finds the 1 in `{"a.b":1,"a":{"b":2}}`, where it leads to the 2. */
  lemma DottedName()
    ensures Text(Dotted()) == [123, 34, 97, 46, 98, 34, 58, 49, 44, 34, 97, 34, 58, 123, 34, 98, 34, 58, 50, 125, 125]
    ensures Get(Text(Dotted()), [36, 46, 97, 46, 98]) == Found(7, 1)
    ensures Leads(Dotted(), [46, 97, 46, 98], Exact) && Offset(Dotted(), [46, 97, 46, 98], Exact) == 18
  {
    hide *;
    DottedText();
    DottedParts();
    DottedPath();
    DottedFits();
    DottedMeans();
    DigitDocText(49);
    NoBlank();
    assert [] + Text(Dotted()) + [] == Text(Dotted());
    DottedShape();
    GetRun([], Dotted(), [], [46, 97, 46, 98], true);
  }
}
