/** Numbers with long exponents: mg_json_get stops inside them, and then finds no value that holds one. */
module JsonExponents {
  import opened Bytes
  import opened JsonLex
  import opened Json
  import opened JsonDocument

  /** A value of RFC 8259, whatever its exponents. */
  predicate Formed(v: Doc)
  {
    match v
    case Word(text) => text == TRUE || text == NULL || text == FALSE
    case Num(n) => NumberOk(n)
    case Str(body) => StringBody(body)
    case Node(_, pad, items) => Blank(pad) && ItemsFormed(items)
  }

  predicate ItemsFormed(items: Items)
  {
    match items
    case Nil => true
    case Cons(lead, v, after, rest) => LeadOk(lead) && Formed(v) && Blank(after) && ItemsFormed(rest)
  }

  /** Every number in it has an exponent that is short enough. */
  predicate PowersFit(v: Doc)
    requires Formed(v)
  {
    match v
    case Num(n) => PowerFits(n)
    case Node(_, _, items) => ItemsFit(items)
    case _ => true
  }

  predicate ItemsFit(items: Items)
    requires ItemsFormed(items)
  {
    items.Cons? ==> PowersFit(items.v) && ItemsFit(items.rest)
  }

  lemma {:induction false} OkIsFormed(v: Doc)
    ensures Ok(v) <==> Formed(v) && PowersFit(v)
    decreases v
  {
    if v.Node? {
      OkItems(v.items);
    }
  }

  lemma {:induction false} OkItems(items: Items)
    ensures ItemsOk(items) <==> ItemsFormed(items) && ItemsFit(items)
    decreases items
  {
    hide LeadOk;
    if items.Cons? {
      OkIsFormed(items.v);
      OkItems(items.rest);
    }
  }

  // ----- where the number is cut -----

  lemma {:induction false} ExponentCut(s: seq<byte>, i: nat, d: seq<byte>, k: nat, exp: nat)
    requires AllDigits(d) && k <= |d| && Holds(s, i, d) && (i + |d| < |s| ==> !Digit(s[i + |d|]))
    ensures var r := SkipExponent(s, i + k, exp); i + k <= r <= i + |d| && (r < i + |d| ==> Digit(s[r]))
    decreases |d| - k
  {
    if k < |d| {
      assert s[i + k] == d[k];
      if exp < 308 {
        ExponentCut(s, i, d, k + 1, exp * 10 + (s[i + k] - 48));
      }
    }
  }

  lemma PowerCut(s: seq<byte>, i: nat, n: Number)
    requires NumberOk(n) && Holds(s, i, n.mark + n.power) && Stops(s, i + |n.mark| + |n.power|)
    ensures var r := SkipPower(s, i);
            i <= r <= i + |n.mark| + |n.power| && (r < i + |n.mark| + |n.power| ==> Digit(s[r]))
  {
    hide SkipExponent;
    if n.mark != [] {
      HoldsBoth(s, i, n.mark, n.power);
      assert s[i + 0] == n.mark[0] && (|n.mark| == 2 ==> s[i + 1] == n.mark[1]);
      assert s[i + |n.mark| + 0] == n.power[0] && Digit(n.power[0]);
      ExponentCut(s, i + |n.mark|, n.power, 0, 0);
    }
  }

  lemma PartLengths(n: Number)
    requires NumberOk(n)
    ensures |n.whole| > 0
  {
  }

  /** A number is read to its end, or the reading stops at one of its digits. */
  lemma NumberCut(s: seq<byte>, i: nat, n: Number)
    requires NumberOk(n) && Holds(s, i, NumberText(n)) && Stops(s, i + |NumberText(n)|)
    ensures i <= |s| && var r := NumberEnd(s, i);
            i < r <= i + |NumberText(n)| && (r < i + |NumberText(n)| ==> r < |s| && Digit(s[r]))
  {
    hide *;
    var b := i + |Sign(n)| + |n.whole|;
    var c := b + |Fraction(n)|;
    NumberParts(s, i, n, b, c);
    NumberSteps(s, i, n);
    PartLengths(n);
    WholeRead(s, i, n);
    FractionRead(s, b, n);
    PowerCut(s, c, n);
    HoldsInside(s, i, NumberText(n));
  }

  // ----- inside a bracket -----

  lemma NumeralStep(s: seq<byte>, path: seq<byte>, st: State, end: nat)
    requires st.expecting == Value && |st.nesting| > st.ed && st.i < |s| && (s[st.i] == MINUS || Digit(s[st.i]))
    requires end == NumberEnd(s, st.i) > st.i
    ensures Run(s, path, st) == Run(s, path, st.(expecting := CommaOrEnd, i := end))
  {
    NoWord(s, st.i);
    hide Holds, NumberEnd;
    assert ScalarLast(s, st.i) == end - 1;
    assert Step(s, path, st) == Go(st.(expecting := CommaOrEnd, i := end));
  }

  lemma DigitRefused(s: seq<byte>, path: seq<byte>, st: State)
    requires st.expecting == CommaOrEnd && st.i < |s| && Digit(s[st.i])
    ensures !Run(s, path, st).Found?
  {
  }

  /** Behind the digit where the reading stops nothing is accepted. */
  lemma NumberRefused(s: seq<byte>, path: seq<byte>, st: State, n: Number)
    requires st.expecting == Value && |st.nesting| > st.ed
    requires NumberOk(n) && !PowerFits(n) && Holds(s, st.i, NumberText(n)) && Stops(s, st.i + |NumberText(n)|)
    ensures !Run(s, path, st).Found?
  {
    hide *;
    NumberCut(s, st.i, n);
    NumberRead(s, st.i, n);
    NumberStarts(s, st.i, n);
    var end := NumberEnd(s, st.i);
    NumeralStep(s, path, st, end);
    DigitRefused(s, path, st.(expecting := CommaOrEnd, i := end));
  }

  lemma FormedUnfold(v: Doc)
    requires Formed(v)
    ensures v.Num? ==> NumberOk(v.n) && Text(v) == NumberText(v.n) && (PowersFit(v) <==> PowerFits(v.n))
    ensures v.Node? ==> ItemsFormed(v.items) && Blank(v.pad) && (PowersFit(v) <==> ItemsFit(v.items))
    ensures !v.Num? && !v.Node? ==> PowersFit(v)
  {
  }

  lemma FormedItem(obj: bool, items: Items)
    requires items.Cons? && ItemsFormed(items)
    ensures LeadOk(items.lead) && Formed(items.v) && Blank(items.after) && ItemsFormed(items.rest)
    ensures ItemsFit(items) <==> PowersFit(items.v) && ItemsFit(items.rest)
    ensures items.rest.Nil? ==> ItemsFit(items.rest)
    ensures ItemsText(obj, items) + [Closing(obj)]
         == LeadText(obj, items.lead) + Text(items.v) + items.after + ItemTail(obj, items.rest)
    ensures ClosesItem(ItemTail(obj, items.rest))
  {
    hide LeadOk, LeadText, Text, Blank;
  }

  lemma NoneFit()
    ensures ItemsFormed(Nil) && ItemsFit(Nil)
  {
  }

  lemma EndsUnfold(s: seq<byte>, end: nat, v: Doc)
    requires Ends(s, end, v) && v.Num?
    ensures Stops(s, end)
  {
  }

  /** In a value that holds such a number, not the one that the path asks for, the search ends. */
  lemma {:induction false} ValueRefused(s: seq<byte>, path: seq<byte>, st: State, v: Doc)
    requires st.expecting == Value && |st.nesting| <= MAX_DEPTH
    requires if v.Node? then Quiet(path, st, v.obj) else |st.nesting| > st.ed
    requires Formed(v) && !PowersFit(v) && Holds(s, st.i, Text(v)) && Ends(s, st.i + |Text(v)|, v)
    ensures !Run(s, path, st).Found?
    decreases v
  {
    hide *;
    FormedUnfold(v);
    if v.Num? {
      EndsUnfold(s, st.i + |Text(v)|, v);
      NumberRefused(s, path, st, v.n);
    } else {
      NoneFit();
      NodeParts(s, st.i, v, ItemsText(v.obj, v.items));
      OpenStep(s, path, st, v.obj);
      if |st.nesting| < MAX_DEPTH {
        OpenedFields(path, st, v.obj);
        ItemsRefused(s, path, Opened(st, v.obj), v.obj, v.items);
      }
    }
  }

  lemma OpenedFields(path: seq<byte>, st: State, obj: bool)
    requires Quiet(path, st, obj) && |st.nesting| < MAX_DEPTH
    ensures var inside := Opened(st, obj);
            && inside.i == st.i + 1 && inside.expecting == (if obj then Key else Value)
            && MAX_DEPTH >= |inside.nesting| > inside.ed && inside.nesting[|inside.nesting| - 1] == Opening(obj)
  {
  }

  lemma InsideQuiet(path: seq<byte>, st: State, v: Doc)
    requires |st.nesting| > st.ed && v.Node?
    ensures Quiet(path, st, v.obj)
  {
  }

  lemma {:induction false} ItemsRefused(s: seq<byte>, path: seq<byte>, st: State, obj: bool, items: Items)
    requires MAX_DEPTH >= |st.nesting| > st.ed && st.nesting[|st.nesting| - 1] == Opening(obj)
    requires st.expecting == if obj then Key else Value
    requires items.Cons? && ItemsFormed(items) && !ItemsFit(items)
    requires Holds(s, st.i, ItemsText(obj, items) + [Closing(obj)])
    ensures !Run(s, path, st).Found?
    decreases items
  {
    hide *;
    FormedItem(obj, items);
    var lead, text := LeadText(obj, items.lead), Text(items.v);
    FourParts(s, st.i, lead, text, items.after, ItemTail(obj, items.rest));
    BlankEnds(s, st.i + |lead| + |text|, items.after, ItemTail(obj, items.rest), items.v);
    LeadRun(s, path, st, obj, items.lead);
    var atValue := st.(expecting := Value, i := st.i + |lead|);
    if items.v.Node? {
      InsideQuiet(path, atValue, items.v);
    }
    if !PowersFit(items.v) {
      ValueRefused(s, path, atValue, items.v);
    } else {
      OkIsFormed(items.v);
      ValueRun(s, path, atValue, items.v);
      PassedInside(s, path, atValue, |text|, Depth(items.v));
      if |st.nesting| + Depth(items.v) <= MAX_DEPTH {
        var behind := atValue.(expecting := CommaOrEnd, i := atValue.i + |text|);
        TailParts(s, behind.i + |items.after|, obj, items.rest);
        NextItem(s, path, behind, obj, items.after, items.rest.Nil?);
        var end := behind.(i := behind.i + |items.after|);
        ItemsRefused(s, path, end.(expecting := st.expecting, i := end.i + 1), obj, items.rest);
      }
    }
  }

  // ----- path "$" -----

  /** The whole value is found, exactly, just when its brackets are not nested too deep and every exponent in it is
      short enough. */
  lemma WholeValueExactly(before: seq<byte>, v: Doc, tail: seq<byte>)
    requires Blank(before) && Formed(v) && (v.Num? ==> Stops(before + Text(v) + tail, |before + Text(v)|))
    ensures Get(before + Text(v) + tail, [DOLLAR]) == Found(|before|, |Text(v)|)
            <==> Depth(v) <= 30 && PowersFit(v)
    ensures v.Node? && !PowersFit(v) ==> !Get(before + Text(v) + tail, [DOLLAR]).Found?
  {
    hide *;
    OkIsFormed(v);
    FormedUnfold(v);
    if PowersFit(v) {
      WholeValue(before, v, tail);
    } else if v.Num? {
      NumberSpan(before, v.n, tail);
    } else {
      var s, st := before + Text(v) + tail, START.(i := |before|);
      AtStart(before, v, tail);
      SpaceSkipped(s, [DOLLAR], START, before);
      ValueRefused(s, [DOLLAR], st, v);
    }
  }

  lemma AtStart(before: seq<byte>, v: Doc, tail: seq<byte>)
    ensures var s, st := before + Text(v) + tail, START.(i := |before|);
            && Holds(s, 0, before) && Holds(s, |before|, Text(v)) && START.(i := START.i + |before|) == st
            && START.i == 0
            && Get(s, [DOLLAR]) == Run(s, [DOLLAR], START) && st.expecting == Value && |st.nesting| <= MAX_DEPTH
            && (v.Node? ==> Quiet([DOLLAR], st, v.obj) && Ends(s, |before| + |Text(v)|, v))
  {
    hide Run, Text;
  }
}
