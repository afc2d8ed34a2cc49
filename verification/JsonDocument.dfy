/** JSON texts as trees of tokens and white space, and what mg_json_get finds in them. */
module JsonDocument {
  import opened Bytes
  import opened JsonLex
  import opened Json

  // ----- the grammar of RFC 8259 -----

  /** What stands before a value inside brackets: white space, and in an object the name as well. */
  datatype Lead = Lead(before: seq<byte>, name: seq<byte>, mid: seq<byte>, between: seq<byte>)

  datatype Doc = Word(text: seq<byte>) | Num(n: Number) | Str(body: seq<byte>)
               | Node(obj: bool, pad: seq<byte>, items: Items)

  datatype Items = Nil | Cons(lead: Lead, v: Doc, after: seq<byte>, rest: Items)

  predicate Blank(ws: seq<byte>)
  {
    forall k :: 0 <= k < |ws| ==> Space(ws[k])
  }

  predicate LeadOk(l: Lead)
  {
    Blank(l.before) && StringBody(l.name) && Blank(l.mid) && Blank(l.between)
  }

  predicate Ok(v: Doc)
  {
    match v
    case Word(text) => text == TRUE || text == NULL || text == FALSE
    case Num(n) => NumberOk(n) && PowerFits(n)
    case Str(body) => StringBody(body)
    case Node(_, pad, items) => Blank(pad) && ItemsOk(items)
  }

  predicate ItemsOk(items: Items)
  {
    match items
    case Nil => true
    case Cons(lead, v, after, rest) => LeadOk(lead) && Ok(v) && Blank(after) && ItemsOk(rest)
  }

  function Opening(obj: bool): byte
  {
    if obj then LBRACE else LBRACKET
  }

  function Closing(obj: bool): byte
  {
    if obj then RBRACE else RBRACKET
  }

  function LeadText(obj: bool, l: Lead): seq<byte>
  {
    if obj then l.before + ([QUOTE] + l.name + [QUOTE]) + l.mid + [COLON] + l.between else l.before
  }

  function Text(v: Doc): seq<byte>
    decreases v
  {
    match v
    case Word(text) => text
    case Num(n) => NumberText(n)
    case Str(body) => [QUOTE] + body + [QUOTE]
    case Node(obj, pad, items) =>
      [Opening(obj)] + (if items.Nil? then pad else ItemsText(obj, items)) + [Closing(obj)]
  }

  function ItemsText(obj: bool, items: Items): seq<byte>
    decreases items
  {
    match items
    case Nil => []
    case Cons(lead, v, after, rest) =>
      LeadText(obj, lead) + Text(v) + after + if rest.Nil? then [] else [COMMA] + ItemsText(obj, rest)
  }

  function Max(a: nat, b: nat): nat
  {
    if a < b then b else a
  }

  /** How deep brackets are nested. */
  function Depth(v: Doc): nat
  {
    match v
    case Node(_, _, items) => 1 + ItemsDepth(items)
    case _ => 0
  }

  function ItemsDepth(items: Items): nat
  {
    match items
    case Nil => 0
    case Cons(_, v, _, rest) => Max(Depth(v), ItemsDepth(rest))
  }

  // ----- tokens -----

  function Continue(s: seq<byte>, path: seq<byte>, out: Outcome): Result
  {
    match out
    case Done(r) => r
    case Go(next) => Run(s, path, next)
  }

  lemma {:induction false} SpaceSkipped(s: seq<byte>, path: seq<byte>, st: State, ws: seq<byte>)
    requires Blank(ws) && Holds(s, st.i, ws)
    ensures Run(s, path, st) == Run(s, path, st.(i := st.i + |ws|))
    decreases |ws|
  {
    if ws == [] {
      assert st.(i := st.i + |ws|) == st;
    } else {
      assert s[st.i + 0] == ws[0];
      HoldsTail(s, st.i, ws, 1);
      var next := st.(i := st.i + 1);
      assert Step(s, path, st) == Go(next);
      SpaceSkipped(s, path, next, ws[1..]);
      assert next.(i := next.i + |ws[1..]|) == st.(i := st.i + |ws|);
    }
  }

  /** The text of a value ends at `end`: only a number needs that said. */
  predicate Ends(s: seq<byte>, end: nat, v: Doc)
  {
    v.Num? ==> Stops(s, end)
  }

  predicate Bracket(c: byte)
  {
    c == LBRACE || c == LBRACKET || c == RBRACE || c == RBRACKET
  }

  lemma NoWord(s: seq<byte>, i: nat)
    requires i < |s| && s[i] != TRUE[0] && s[i] != NULL[0] && s[i] != FALSE[0]
    ensures !Holds(s, i, TRUE) && !Holds(s, i, NULL) && !Holds(s, i, FALSE)
  {
    WordStarts(s, i, TRUE);
    WordStarts(s, i, NULL);
    WordStarts(s, i, FALSE);
  }

  lemma WordRead(s: seq<byte>, i: nat, text: seq<byte>)
    requires (text == TRUE || text == NULL || text == FALSE) && Holds(s, i, text)
    ensures i < |s| && !Space(s[i]) && !Bracket(s[i]) && ScalarLast(s, i) == i + |text| - 1
  {
    HoldsFirst(s, i, text);
    WordStarts(s, i, TRUE);
    WordStarts(s, i, NULL);
  }

  /** A quoted string lies between its quotes. */
  lemma QuotedName(s: seq<byte>, i: nat, key: seq<byte>)
    requires StringBody(key) && Holds(s, i, [QUOTE] + key + [QUOTE])
    ensures i + |key| + 2 <= |s| && s[i] == QUOTE && PassString(s, i + 1) == QuoteAt(i + 1 + |key|)
    ensures s[i + 1..i + 1 + |key|] == key
  {
    hide StringBody, Holds, PassString;
    HoldsBoth(s, i, [QUOTE] + key, [QUOTE]);
    HoldsBoth(s, i, [QUOTE], key);
    HoldsFirst(s, i, [QUOTE]);
    HoldsFirst(s, i + |[QUOTE] + key|, [QUOTE]);
    KeyHeld(s, i + 1, key);
    BodyPassed(s, i + 1, key);
  }

  lemma KeyHeld(s: seq<byte>, at: nat, key: seq<byte>)
    requires Holds(s, at, key)
    ensures at + |key| <= |s| && s[at..at + |key|] == key
  {
    HoldsSlice(s, at, key, 0, |key|);
    assert key[0..|key|] == key;
  }

  lemma StringRead(s: seq<byte>, i: nat, body: seq<byte>)
    requires StringBody(body) && Holds(s, i, [QUOTE] + body + [QUOTE])
    ensures i < |s| && !Space(s[i]) && !Bracket(s[i]) && ScalarLast(s, i) == i + |body| + 1
  {
    QuotedName(s, i, body);
    NoWord(s, i);
    hide StringBody, Holds, PassString, NumberEnd;
  }

  lemma NumeralRead(s: seq<byte>, i: nat, n: Number)
    requires NumberOk(n) && PowerFits(n) && Holds(s, i, NumberText(n)) && Stops(s, i + |NumberText(n)|)
    ensures |NumberText(n)| > 0 && i < |s| && !Space(s[i]) && !Bracket(s[i])
    ensures ScalarLast(s, i) == i + |NumberText(n)| - 1
  {
    NumberRead(s, i, n);
    NumberStarts(s, i, n);
    NoWord(s, i);
    hide NumberText, NumberOk, PowerFits, Stops, Holds, NumberEnd, PassString;
  }

  /** Words, numbers and strings are read to their last byte. */
  lemma ScalarRead(s: seq<byte>, i: nat, v: Doc)
    requires Ok(v) && !v.Node? && Holds(s, i, Text(v)) && Ends(s, i + |Text(v)|, v)
    ensures |Text(v)| > 0 && !Space(s[i]) && !Bracket(s[i])
    ensures ScalarLast(s, i) == i + |Text(v)| - 1
  {
    hide ScalarLast, Space, Bracket, Holds, NumberText;
    match v
    case Word(text) => WordRead(s, i, text);
    case Num(n) => NumeralRead(s, i, n);
    case Str(body) => StringRead(s, i, body);
  }

  lemma NumberStarts(s: seq<byte>, i: nat, n: Number)
    requires NumberOk(n) && Holds(s, i, NumberText(n))
    ensures |NumberText(n)| > 0 && (s[i] == MINUS || Digit(s[i]))
  {
    assert s[i + 0] == NumberText(n)[0];
    assert NumberText(n)[0] == if n.neg then MINUS else n.whole[0];
  }

  /** A bracket of this kind opened here is not the one the path descends into. */
  predicate Quiet(path: seq<byte>, st: State, obj: bool)
  {
    && |st.nesting| >= st.ed
    && (|st.nesting| == st.ed ==> At(path, st.pos) != (if obj then DOT else LBRACKET) || st.ci != st.ei)
  }

  /** The state at the first byte of a value becomes this one at its last byte. */
  function Passed(st: State, len: nat): State
    requires len > 0
  {
    st.(j := if |st.nesting| == st.ed then st.i else st.j, i := st.i + len - 1)
  }

  lemma ScalarStep(s: seq<byte>, path: seq<byte>, st: State, v: Doc)
    requires st.expecting == Value
    requires Ok(v) && !v.Node? && Holds(s, st.i, Text(v)) && Ends(s, st.i + |Text(v)|, v)
    ensures |Text(v)| > 0 && Run(s, path, st) == Continue(s, path, Finish(path, Passed(st, |Text(v)|)))
  {
    hide Ok, Text, Ends, Holds, ScalarLast, Finish;
    ScalarRead(s, st.i, v);
    var last := st.i + |Text(v)| - 1;
    assert ValueStep(s, path, st) == Finish(path, Passed(st, |Text(v)|));
  }

  /** The state behind an opening bracket that the path does not ask for. */
  function Opened(st: State, obj: bool): State
  {
    st.(j := if |st.nesting| == st.ed then st.i else st.j, nesting := st.nesting + [Opening(obj)],
        expecting := if obj then Key else Value, i := st.i + 1)
  }

  lemma OpenStep(s: seq<byte>, path: seq<byte>, st: State, obj: bool)
    requires st.expecting == Value && st.i < |s| && s[st.i] == Opening(obj) && Quiet(path, st, obj)
    ensures |st.nesting| >= MAX_DEPTH ==> Run(s, path, st) == TooDeep
    ensures |st.nesting| < MAX_DEPTH ==>
              Run(s, path, st) == Run(s, path, Opened(st, obj))
  {
    if |st.nesting| < MAX_DEPTH {
      assert Step(s, path, st) == Go(Opened(st, obj));
    }
  }

  /** The closing bracket ends a value of the level below. */
  lemma CloseStep(s: seq<byte>, path: seq<byte>, st: State, obj: bool)
    requires st.i < |s| && s[st.i] == Closing(obj)
    requires |st.nesting| > st.ed && st.nesting[|st.nesting| - 1] == Opening(obj)
    requires st.expecting == CommaOrEnd || st.expecting == if obj then Key else Value
    ensures var popped := st.(nesting := st.nesting[..|st.nesting| - 1], expecting := Value);
            Run(s, path, st) == Continue(s, path, Finish(path, popped))
  {
    CloserStep(s, path, st, obj);
    hide Step, Finish;
  }

  lemma CloserStep(s: seq<byte>, path: seq<byte>, st: State, obj: bool)
    requires st.i < |s| && s[st.i] == Closing(obj)
    requires |st.nesting| > st.ed && st.nesting[|st.nesting| - 1] == Opening(obj)
    requires st.expecting == CommaOrEnd || st.expecting == if obj then Key else Value
    ensures Step(s, path, st) == Finish(path, st.(nesting := st.nesting[..|st.nesting| - 1], expecting := Value))
  {
    hide PassString, KeyMatches, ScalarLast;
  }

  // ----- what stands around a value -----

  lemma LeadParts(s: seq<byte>, i: nat, l: Lead)
    requires Holds(s, i, LeadText(true, l))
    ensures var q := i + |l.before|; var e := q + |l.name| + 2; var m := e + |l.mid|;
            && Holds(s, i, l.before) && Holds(s, q, [QUOTE] + l.name + [QUOTE]) && Holds(s, e, l.mid)
            && m < |s| && s[m] == COLON && Holds(s, m + 1, l.between)
            && m + 1 + |l.between| == i + |LeadText(true, l)|
  {
    var name := [QUOTE] + l.name + [QUOTE];
    HoldsBoth(s, i, l.before + name + l.mid + [COLON], l.between);
    HoldsBoth(s, i, l.before + name + l.mid, [COLON]);
    HoldsBoth(s, i, l.before + name, l.mid);
    HoldsBoth(s, i, l.before, name);
    assert s[i + |l.before + name + l.mid| + 0] == [COLON][0];
  }

  /** The quoted name at the head of an object member. */
  lemma NameStep(s: seq<byte>, path: seq<byte>, st: State, name: seq<byte>)
    requires st.expecting == Key && |st.nesting| > st.ed
    requires StringBody(name) && Holds(s, st.i, [QUOTE] + name + [QUOTE])
    ensures Run(s, path, st) == Run(s, path, st.(expecting := Colon, i := st.i + |name| + 2))
  {
    var v := Str(name);
    HoldsBoth(s, st.i, [QUOTE] + name, [QUOTE]);
    HoldsBoth(s, st.i, [QUOTE], name);
    assert s[st.i + 0] == ([QUOTE] + name + [QUOTE])[0];
    assert s[st.i + |[QUOTE] + name| + 0] == QUOTE;
    BodyPassed(s, st.i + 1, name);
    assert Step(s, path, st) == Go(st.(expecting := Colon, i := st.i + |name| + 2));
  }

  /** From the start of an item to its value. */
  lemma LeadRun(s: seq<byte>, path: seq<byte>, st: State, obj: bool, l: Lead)
    requires LeadOk(l) && Holds(s, st.i, LeadText(obj, l))
    requires st.expecting == if obj then Key else Value
    requires obj ==> |st.nesting| > st.ed
    ensures Run(s, path, st) == Run(s, path, st.(expecting := Value, i := st.i + |LeadText(obj, l)|))
  {
    if obj {
      NamedLead(s, path, st, l);
    } else {
      SpaceSkipped(s, path, st, l.before);
      hide Run, Holds;
      assert st.(i := st.i + |l.before|) == st.(expecting := Value, i := st.i + |LeadText(obj, l)|);
    }
  }

  lemma LeadUnfold(l: Lead)
    requires LeadOk(l)
    ensures Blank(l.before) && Blank(l.mid) && Blank(l.between) && StringBody(l.name)
  {
  }

  lemma NamedLead(s: seq<byte>, path: seq<byte>, st: State, l: Lead)
    requires LeadOk(l) && Holds(s, st.i, LeadText(true, l))
    requires st.expecting == Key && |st.nesting| > st.ed
    ensures Run(s, path, st) == Run(s, path, st.(expecting := Value, i := st.i + |LeadText(true, l)|))
  {
    hide *;
    LeadParts(s, st.i, l);
    LeadUnfold(l);
    SpaceSkipped(s, path, st, l.before);
    var st1 := st.(i := st.i + |l.before|);
    NameStep(s, path, st1, l.name);
    var st2 := st1.(expecting := Colon, i := st1.i + |l.name| + 2);
    SpaceSkipped(s, path, st2, l.mid);
    var st3 := st2.(i := st2.i + |l.mid|);
    ColonStep(s, path, st3);
    var st4 := st3.(expecting := Value, i := st3.i + 1);
    SpaceSkipped(s, path, st4, l.between);
    assert st4.(i := st4.i + |l.between|) == st.(expecting := Value, i := st.i + |LeadText(true, l)|);
  }

  lemma ColonStep(s: seq<byte>, path: seq<byte>, st: State)
    requires st.expecting == Colon && st.i < |s| && s[st.i] == COLON
    ensures Run(s, path, st) == Run(s, path, st.(expecting := Value, i := st.i + 1))
  {
  }

  lemma CommaStep(s: seq<byte>, path: seq<byte>, st: State, obj: bool)
    requires st.expecting == CommaOrEnd && st.i < |s| && s[st.i] == COMMA
    requires |st.nesting| > 0 && st.nesting[|st.nesting| - 1] == Opening(obj)
    ensures Run(s, path, st) == Run(s, path, st.(expecting := if obj then Key else Value, i := st.i + 1))
  {
    assert Step(s, path, st) == Go(st.(expecting := if obj then Key else Value, i := st.i + 1));
  }

  /** Where the parts of an item lie; `b` is the end of its value and `c` the comma or bracket. */
  lemma ItemParts(s: seq<byte>, i: nat, obj: bool, items: Items)
    requires items.Cons? && ItemsOk(items) && Holds(s, i, ItemsText(obj, items) + [Closing(obj)])
    ensures var a := i + |LeadText(obj, items.lead)|; var b := a + |Text(items.v)|; var c := b + |items.after|;
            && Holds(s, i, LeadText(obj, items.lead)) && Holds(s, a, Text(items.v)) && Holds(s, b, items.after)
            && c < |s| && Ends(s, b, items.v)
            && if items.rest.Nil? then s[c] == Closing(obj) && c == i + |ItemsText(obj, items)|
               else && s[c] == COMMA && Holds(s, c + 1, ItemsText(obj, items.rest) + [Closing(obj)])
                    && c + 1 + |ItemsText(obj, items.rest)| == i + |ItemsText(obj, items)|
  {
    hide *;
    ItemShape(obj, items);
    var lead, text, after, tail := LeadText(obj, items.lead), Text(items.v), items.after, ItemTail(obj, items.rest);
    FourParts(s, i, lead, text, after, tail);
    BlankEnds(s, i + |lead| + |text|, after, tail, items.v);
    TailParts(s, i + |lead| + |text| + |after|, obj, items.rest);
  }

  /** What follows an item: the other items if there are more, and the closing bracket. */
  function ItemTail(obj: bool, rest: Items): seq<byte>
  {
    (if rest.Nil? then [] else [COMMA] + ItemsText(obj, rest)) + [Closing(obj)]
  }

  predicate ClosesItem(tail: seq<byte>)
  {
    |tail| > 0 && (tail[0] == COMMA || tail[0] == RBRACKET || tail[0] == RBRACE)
  }

  lemma ItemShape(obj: bool, items: Items)
    requires items.Cons? && ItemsOk(items)
    ensures Blank(items.after)
    ensures ItemsText(obj, items) + [Closing(obj)]
         == LeadText(obj, items.lead) + Text(items.v) + items.after + ItemTail(obj, items.rest)
    ensures ClosesItem(ItemTail(obj, items.rest))
    ensures |ItemTail(obj, items.rest)| == if items.rest.Nil? then 1 else |ItemsText(obj, items.rest)| + 2
  {
  }

  lemma TailShape(obj: bool, rest: Items)
    ensures ItemTail(obj, rest) == if rest.Nil? then [Closing(obj)]
                                   else [COMMA] + (ItemsText(obj, rest) + [Closing(obj)])
  {
    hide ItemsText;
  }

  lemma TailParts(s: seq<byte>, c: nat, obj: bool, rest: Items)
    requires Holds(s, c, ItemTail(obj, rest))
    ensures c < |s| && s[c] == if rest.Nil? then Closing(obj) else COMMA
    ensures rest.Cons? ==> Holds(s, c + 1, ItemsText(obj, rest) + [Closing(obj)])
  {
    hide *;
    TailShape(obj, rest);
    HoldsFirst(s, c, ItemTail(obj, rest));
    if rest.Cons? {
      HoldsBoth(s, c, [COMMA], ItemsText(obj, rest) + [Closing(obj)]);
    }
  }

  lemma FourParts(s: seq<byte>, i: nat, a: seq<byte>, b: seq<byte>, c: seq<byte>, d: seq<byte>)
    requires Holds(s, i, a + b + c + d)
    ensures Holds(s, i, a) && Holds(s, i + |a|, b) && Holds(s, i + |a| + |b|, c) && Holds(s, i + |a| + |b| + |c|, d)
  {
    HoldsBoth(s, i, a + b + c, d);
    HoldsBoth(s, i, a + b, c);
    HoldsBoth(s, i, a, b);
  }

  /** White space, a comma or a closing bracket end a number. */
  lemma BlankEnds(s: seq<byte>, i: nat, ws: seq<byte>, tail: seq<byte>, v: Doc)
    requires Blank(ws) && Holds(s, i, ws) && Holds(s, i + |ws|, tail) && ClosesItem(tail)
    ensures Ends(s, i, v)
  {
    if ws != [] {
      assert s[i + 0] == ws[0];
    } else {
      assert s[i + |ws| + 0] == tail[0];
    }
  }

  // ----- values that the path does not look into -----

  /** What happens to a value: it is too deep, or it is passed. */
  function Outcomes(s: seq<byte>, path: seq<byte>, st: State, len: nat, depth: nat): Result
    requires 0 < len && st.i + len <= |s|
  {
    if |st.nesting| + depth > MAX_DEPTH then TooDeep else Continue(s, path, Finish(path, Passed(st, len)))
  }

  lemma {:induction false} ValueRun(s: seq<byte>, path: seq<byte>, st: State, v: Doc)
    requires st.expecting == Value && (v.Node? ==> Quiet(path, st, v.obj)) && |st.nesting| <= MAX_DEPTH
    requires Ok(v) && Holds(s, st.i, Text(v)) && Ends(s, st.i + |Text(v)|, v)
    ensures |Text(v)| > 0 && Run(s, path, st) == Outcomes(s, path, st, |Text(v)|, Depth(v))
    decreases v
  {
    if v.Node? {
      NodeRun(s, path, st, v);
    } else {
      ScalarStep(s, path, st, v);
    }
  }

  lemma {:induction false} NodeRun(s: seq<byte>, path: seq<byte>, st: State, v: Doc)
    requires v.Node? && st.expecting == Value && Quiet(path, st, v.obj) && |st.nesting| <= MAX_DEPTH
    requires Ok(v) && Holds(s, st.i, Text(v))
    ensures |Text(v)| > 0 && Run(s, path, st) == Outcomes(s, path, st, |Text(v)|, Depth(v))
    decreases v, 0
  {
    hide *;
    var inner := if v.items.Nil? then v.pad else ItemsText(v.obj, v.items);
    NodeParts(s, st.i, v, inner);
    NodeUnfold(s, path, st, v);
    OpenStep(s, path, st, v.obj);
    if |st.nesting| < MAX_DEPTH {
      var inside := Opened(st, v.obj);
      var closing := inside.(i := inside.i + |inner|,
          expecting := if v.items.Nil? then inside.expecting else CommaOrEnd);
      if v.items.Nil? {
        SpaceSkipped(s, path, inside, v.pad);
        assert closing == inside.(i := inside.i + |v.pad|);
      } else {
        ItemsRun(s, path, inside, v.obj, v.items);
      }
      if |st.nesting| + Depth(v) <= MAX_DEPTH {
        NodeClosed(s, path, st, v.obj, closing, |Text(v)|);
      }
    }
  }

  lemma NodeUnfold(s: seq<byte>, path: seq<byte>, st: State, v: Doc)
    requires v.Node? && Quiet(path, st, v.obj) && Ok(v) && Holds(s, st.i, Text(v))
    ensures Depth(v) == 1 + ItemsDepth(v.items) && ItemsOk(v.items) && Blank(v.pad)
    ensures v.items.Nil? ==> Depth(v) == 1
    ensures |Text(v)| > 0 && st.i + |Text(v)| <= |s|
    ensures var inside := Opened(st, v.obj);
            && inside.i == st.i + 1 && inside.expecting == (if v.obj then Key else Value)
            && |inside.nesting| == |st.nesting| + 1 > inside.ed && inside.nesting[|st.nesting|] == Opening(v.obj)
    ensures Outcomes(s, path, st, |Text(v)|, Depth(v))
         == if |st.nesting| + Depth(v) > MAX_DEPTH then TooDeep
            else Continue(s, path, Finish(path, Passed(st, |Text(v)|)))
  {
    hide Run, Finish;
  }

  lemma NodeText(v: Doc, inner: seq<byte>)
    requires v.Node? && inner == if v.items.Nil? then v.pad else ItemsText(v.obj, v.items)
    ensures Text(v) == [Opening(v.obj)] + (inner + [Closing(v.obj)])
  {
    hide ItemsText;
    assert [Opening(v.obj)] + inner + [Closing(v.obj)] == [Opening(v.obj)] + (inner + [Closing(v.obj)]);
  }

  lemma NodeParts(s: seq<byte>, i: nat, v: Doc, inner: seq<byte>)
    requires v.Node? && inner == if v.items.Nil? then v.pad else ItemsText(v.obj, v.items)
    requires Holds(s, i, Text(v))
    ensures |Text(v)| == |inner| + 2 && i + |inner| + 2 <= |s|
    ensures s[i] == Opening(v.obj) && s[i + 1 + |inner|] == Closing(v.obj)
    ensures Holds(s, i + 1, inner) && Holds(s, i + 1, inner + [Closing(v.obj)])
  {
    hide *;
    var open, close := [Opening(v.obj)], [Closing(v.obj)];
    NodeText(v, inner);
    HoldsBoth(s, i, open, inner + close);
    HoldsFirst(s, i, open);
    HoldsBoth(s, i + 1, inner, close);
    HoldsFirst(s, i + 1 + |inner|, close);
  }

  /** At the closing bracket the state is that of the opening one, moved on. */
  lemma NodeClosed(s: seq<byte>, path: seq<byte>, st: State, obj: bool, closing: State, len: nat)
    requires |st.nesting| < MAX_DEPTH && st.expecting == Value && Quiet(path, st, obj) && len >= 2
    requires closing == Opened(st, obj).(i := st.i + len - 1, expecting := closing.expecting)
    requires closing.expecting == CommaOrEnd || closing.expecting == if obj then Key else Value
    requires closing.i < |s| && s[closing.i] == Closing(obj)
    ensures Run(s, path, closing) == Continue(s, path, Finish(path, Passed(st, len)))
  {
    CloseStep(s, path, closing, obj);
    assert closing.nesting[..|closing.nesting| - 1] == st.nesting;
    assert closing.(nesting := st.nesting, expecting := Value) == Passed(st, len);
  }

  lemma {:induction false} ItemsRun(s: seq<byte>, path: seq<byte>, st: State, obj: bool, items: Items)
    requires MAX_DEPTH >= |st.nesting| > st.ed && st.nesting[|st.nesting| - 1] == Opening(obj)
    requires st.expecting == if obj then Key else Value
    requires items.Cons? && ItemsOk(items) && Holds(s, st.i, ItemsText(obj, items) + [Closing(obj)])
    ensures Run(s, path, st) == if |st.nesting| + ItemsDepth(items) > MAX_DEPTH then TooDeep
                                else Run(s, path, st.(i := st.i + |ItemsText(obj, items)|, expecting := CommaOrEnd))
    decreases items
  {
    hide *;
    ItemParts(s, st.i, obj, items);
    var atValue := st.(expecting := Value, i := st.i + |LeadText(obj, items.lead)|);
    ItemsUnfold(path, atValue, items);
    LeadRun(s, path, st, obj, items.lead);
    ValueRun(s, path, atValue, items.v);
    PassedInside(s, path, atValue, |Text(items.v)|, Depth(items.v));
    if |st.nesting| + Depth(items.v) <= MAX_DEPTH {
      var behind := atValue.(expecting := CommaOrEnd, i := atValue.i + |Text(items.v)|);
      NextItem(s, path, behind, obj, items.after, items.rest.Nil?);
      var next := behind.(i := behind.i + |items.after|);
      if items.rest.Nil? {
        assert next == st.(i := st.i + |ItemsText(obj, items)|, expecting := CommaOrEnd);
      } else {
        next := next.(expecting := st.expecting, i := next.i + 1);
        ItemsRun(s, path, next, obj, items.rest);
        assert next.(i := next.i + |ItemsText(obj, items.rest)|, expecting := CommaOrEnd)
            == st.(i := st.i + |ItemsText(obj, items)|, expecting := CommaOrEnd);
      }
    }
  }

  /** From the end of an item to the next one, or to the closing bracket. */
  lemma NextItem(s: seq<byte>, path: seq<byte>, st: State, obj: bool, after: seq<byte>, last: bool)
    requires st.expecting == CommaOrEnd && |st.nesting| > 0 && st.nesting[|st.nesting| - 1] == Opening(obj)
    requires Blank(after) && Holds(s, st.i, after)
    requires !last ==> st.i + |after| < |s| && s[st.i + |after|] == COMMA
    ensures var end := st.(i := st.i + |after|);
            Run(s, path, st)
                == Run(s, path, if last then end else end.(expecting := if obj then Key else Value, i := end.i + 1))
  {
    SpaceSkipped(s, path, st, after);
    hide Run, Holds, Blank;
    if !last {
      CommaStep(s, path, st.(i := st.i + |after|), obj);
    }
  }

  lemma ItemsUnfold(path: seq<byte>, st: State, items: Items)
    requires items.Cons? && ItemsOk(items)
    ensures LeadOk(items.lead) && Ok(items.v) && Blank(items.after) && ItemsOk(items.rest)
    ensures ItemsDepth(items) == if Depth(items.v) < ItemsDepth(items.rest) then ItemsDepth(items.rest)
                                 else Depth(items.v)
    ensures items.rest.Nil? ==> ItemsDepth(items) == Depth(items.v)
    ensures |st.nesting| > st.ed && items.v.Node? ==> Quiet(path, st, items.v.obj)
  {
  }

  /** A value deeper than the path goes is passed over. */
  lemma PassedInside(s: seq<byte>, path: seq<byte>, st: State, len: nat, depth: nat)
    requires st.expecting == Value && |st.nesting| > st.ed && 0 < len && st.i + len <= |s|
    ensures Outcomes(s, path, st, len, depth)
         == if |st.nesting| + depth > MAX_DEPTH then TooDeep
            else Run(s, path, st.(expecting := CommaOrEnd, i := st.i + len))
  {
    hide Run;
    assert Finish(path, Passed(st, len)) == Go(st.(expecting := CommaOrEnd, i := st.i + len));
  }

  // ----- path "$" -----

  /** The whole value: its exact start and length, unless its brackets are nested too deep. */
  lemma WholeValue(before: seq<byte>, v: Doc, tail: seq<byte>)
    requires Blank(before) && Ok(v) && (v.Num? ==> Stops(before + Text(v) + tail, |before + Text(v)|))
    ensures Get(before + Text(v) + tail, [DOLLAR])
         == if Depth(v) <= 30 then Found(|before|, |Text(v)|) else TooDeep
  {
    var s, path := before + Text(v) + tail, [DOLLAR];
    var st := START.(i := |before|);
    hide Run, Text, Depth, Ok;
    assert Holds(s, 0, before) && Holds(s, |before|, Text(v));
    SpaceSkipped(s, path, START, before);
    ValueRun(s, path, st, v);
  }

  /** White space: section 2 of RFC 8259. */
  lemma SpaceIs(c: byte)
    ensures Space(c) <==> c as char in " \t\n\r"
  {
  }

  /** The three words. */
  lemma WordsFound()
    ensures Get([116, 114, 117, 101], [36]) == Found(0, 4)        // true
    ensures Get([110, 117, 108, 108], [36]) == Found(0, 4)        // null
    ensures Get([102, 97, 108, 115, 101], [36]) == Found(0, 5)    // false
  {
    hide Run;
    assert [] + TRUE + [] == TRUE && [] + NULL + [] == NULL && [] + FALSE + [] == FALSE;
    WholeValue([], Word(TRUE), []);
    WholeValue([], Word(NULL), []);
    WholeValue([], Word(FALSE), []);
  }

  /** A number with all its parts: "-1.5E+3" and "0e-1". */
  lemma NumbersFound()
    ensures Get([45, 49, 46, 53, 69, 43, 51], [36]) == Found(0, 7)
    ensures Get([48, 101, 45, 49], [36]) == Found(0, 4)
  {
    hide Run;
    var n, m := Number(true, [49], [53], [69, 43], [51]), Number(false, [48], [], [101, 45], [49]);
    assert NumberText(n) == [45, 49, 46, 53, 69, 43, 51] && NumberText(m) == [48, 101, 45, 49];
    assert [] + NumberText(n) + [] == NumberText(n) && [] + NumberText(m) + [] == NumberText(m);
    WholeValue([], Num(n), []);
    WholeValue([], Num(m), []);
  }

  /** Once the outermost bracket is closed nothing is found any more. */
  lemma {:induction false} NothingLeft(s: seq<byte>, path: seq<byte>, st: State)
    requires st.nesting == [] && st.expecting == CommaOrEnd
    ensures !Run(s, path, st).Found?
    decreases |s| - st.i
  {
    if st.i < |s| && Space(s[st.i]) {
      NothingLeft(s, path, st.(i := st.i + 1));
    }
  }

  /** The span of a number is all of it exactly when its exponent is short enough. */
  lemma NumberSpan(before: seq<byte>, n: Number, tail: seq<byte>)
    requires Blank(before) && NumberOk(n) && Stops(before + NumberText(n) + tail, |before + NumberText(n)|)
    ensures Get(before + NumberText(n) + tail, [DOLLAR]) == Found(|before|, |NumberText(n)|) <==> PowerFits(n)
  {
    hide *;
    var s, path, start := before + NumberText(n) + tail, [DOLLAR], |before|;
    BetweenHeld(before, NumberText(n), tail);
    NumberRead(s, start, n);
    NumberStarts(s, start, n);
    NumberSteps(s, start, n);
    SearchStarts(s, start);
    SpaceSkipped(s, path, START, before);
    NumberFound(s, start);
  }

  lemma BetweenHeld(before: seq<byte>, text: seq<byte>, tail: seq<byte>)
    ensures Holds(before + text + tail, 0, before) && Holds(before + text + tail, |before|, text)
    ensures |before + text| == |before| + |text| <= |before + text + tail|
  {
  }

  lemma SearchStarts(s: seq<byte>, start: nat)
    ensures Get(s, [DOLLAR]) == Run(s, [DOLLAR], START) && START.i == 0 && 0 + start == start
    ensures START.(i := START.i + start) == START.(i := start)
  {
    hide Run;
  }

  lemma NumberFound(s: seq<byte>, start: nat)
    requires start < |s| && (s[start] == MINUS || Digit(s[start]))
    ensures Run(s, [DOLLAR], START.(i := start)) == Found(start, NumberEnd(s, start) - start)
  {
    WordStarts(s, start, TRUE);
    WordStarts(s, start, NULL);
    WordStarts(s, start, FALSE);
    hide Holds, NumberEnd;
    assert ScalarLast(s, start) == NumberEnd(s, start) - 1;
    assert Step(s, [DOLLAR], START.(i := start)) == Done(Found(start, NumberEnd(s, start) - start));
  }

  /** Of the number 1e3080 the last digit is left out. */
  lemma LongExponent()
    ensures Get([49, 101, 51, 48, 56, 48], [DOLLAR]) == Found(0, 5)
  {
    var s: seq<byte> := [49, 101, 51, 48, 56, 48];
    assert SkipExponent(s, 5, 308) == 5;
    assert SkipExponent(s, 4, 30) == 5;
    assert SkipExponent(s, 3, 3) == 5;
    assert SkipExponent(s, 2, 0) == 5;
    assert SkipDigits(s, 0) == 1 && SkipFraction(s, 1) == 1 && SkipPower(s, 1) == 5;
    assert NumberEnd(s, 0) == 5;
    hide NumberEnd, Run;
    assert START.(i := 0) == START;
    NumberFound(s, 0);
  }
}
