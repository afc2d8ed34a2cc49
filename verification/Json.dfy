/** mg_json_get: the scanner with its explicit nesting stack. */
module Json {
  import opened Bytes
  import opened JsonLex

  const MAX_DEPTH: nat := 30
  const DOLLAR: byte := 36
  const LBRACKET: byte := 91
  const RBRACKET: byte := 93
  const LBRACE: byte := 123
  const RBRACE: byte := 125
  const TRUE: seq<byte> := [116, 114, 117, 101]
  const NULL: seq<byte> := [110, 117, 108, 108]
  const FALSE: seq<byte> := [102, 97, 108, 115, 101]

  datatype Result = Found(start: nat, len: int) | TooDeep | Invalid | NotFound

  datatype Expecting = Value | Key | Colon | CommaOrEnd

  /** The variables of mg_json_get; `nesting` holds the open brackets. */
  datatype State = State(i: nat, expecting: Expecting, nesting: seq<byte>, j: nat, ed: nat, pos: nat, ci: int, ei: int)
  {
    predicate Valid()
    {
      pos > 0 && |nesting| <= MAX_DEPTH && (expecting == Key ==> |nesting| > 0)
    }
  }

  datatype Outcome = Go(next: State) | Done(result: Result)

  const START: State := State(0, Value, [], 0, 0, 1, -1, -1)

  /** A byte of a C string, whose end is a zero byte. */
  function At(path: seq<byte>, k: int): byte
  {
    if 0 <= k < |path| then path[k] else 0
  }

  /** MG_CHECKRET: the value just read is the one the path asks for. */
  predicate Target(path: seq<byte>, st: State)
  {
    |st.nesting| == st.ed && At(path, st.pos) == 0 && st.ci == st.ei
  }

  /** A value has been read whose last byte is at `i`. */
  function After(st: State): Outcome
  {
    Go(st.(ci := if |st.nesting| == st.ed && st.ei >= 0 then st.ci + 1 else st.ci, expecting := CommaOrEnd,
        i := st.i + 1))
  }

  function Finish(path: seq<byte>, st: State): (out: Outcome)
    ensures out.Go? ==> out.next.i == st.i + 1 && (st.Valid() ==> out.next.Valid())
  {
    if Target(path, st) then Done(Found(st.j, st.i - st.j + 1)) else After(st)
  }

  /** MG_EOO: the end of an object or array. */
  function Eoo(path: seq<byte>, st: State, c: byte): (out: Outcome)
    ensures out.Go? ==> |st.nesting| > 0 && out.next == st.(nesting := st.nesting[..|st.nesting| - 1])
  {
    if |st.nesting| == 0 then Done(Invalid)
    else if |st.nesting| == st.ed && st.ci != st.ei then Done(NotFound)
    else if c as int != st.nesting[|st.nesting| - 1] as int + 2 then Done(Invalid)
    else
      var popped := st.(nesting := st.nesting[..|st.nesting| - 1]);
      if Target(path, popped) then Done(Found(popped.j, popped.i - popped.j + 1)) else Go(popped)
  }

  /** The array index in the path: its value, and the offset of what ends it. */
  function ParseIndex(path: seq<byte>, pos: nat, ei: int): (r: (int, nat))
    ensures pos <= r.1
    decreases |path| - pos
  {
    if At(path, pos) == RBRACKET || At(path, pos) == 0 then (ei, pos)
    else ParseIndex(path, pos + 1, ei * 10 + (At(path, pos) as int - 48))
  }

  /** The last byte of the word, number or string at `i`, or -1. */
  function ScalarLast(s: seq<byte>, i: nat): (last: int)
    requires i < |s|
    ensures last == -1 || i <= last < |s|
  {
    if Holds(s, i, TRUE) || Holds(s, i, NULL) then i + 3
    else if Holds(s, i, FALSE) then i + 4
    else if s[i] == MINUS || Digit(s[i]) then NumberEnd(s, i) - 1
    else if s[i] == QUOTE then
      match PassString(s, i + 1)
      case NoEnd => -1
      case QuoteAt(at) => at
    else -1
  }

  function OpenObject(path: seq<byte>, st: State): (out: Outcome)
    ensures out.Go? ==> out.next.i == st.i + 1 && (st.Valid() ==> out.next.Valid())
  {
    if |st.nesting| >= MAX_DEPTH then Done(TooDeep)
    else
      var entered := if |st.nesting| == st.ed && At(path, st.pos) == DOT && st.ci == st.ei
                     then st.(ed := st.ed + 1, pos := st.pos + 1, ci := -1, ei := -1) else st;
      Go(entered.(nesting := st.nesting + [LBRACE], expecting := Key, i := st.i + 1))
  }

  function OpenArray(path: seq<byte>, st: State): (out: Outcome)
    ensures out.Go? ==> out.next.i == st.i + 1 && (st.Valid() ==> out.next.Valid())
  {
    if |st.nesting| >= MAX_DEPTH then Done(TooDeep)
    else
      var entered := if |st.nesting| == st.ed && At(path, st.pos) == LBRACKET && st.ci == st.ei then
                       var (ei, pos) := ParseIndex(path, st.pos + 1, 0);
                       st.(ed := st.ed + 1, pos := if At(path, pos) != 0 then pos + 1 else pos, ci := 0, ei := ei)
                     else st;
      Go(entered.(nesting := st.nesting + [LBRACKET], i := st.i + 1))
  }

  function ValueStep(s: seq<byte>, path: seq<byte>, state: State): (out: Outcome)
    requires state.i < |s| && state.expecting == Value
    ensures out.Go? ==> state.i < out.next.i <= |s| && (state.Valid() ==> out.next.Valid())
  {
    var c := s[state.i];
    var st: State := if |state.nesting| == state.ed then state.(j := state.i) else state;
    if c == LBRACE then OpenObject(path, st)
    else if c == LBRACKET then OpenArray(path, st)
    else if c == RBRACKET && |st.nesting| > 0 then
      match Eoo(path, st, c)
      case Done(r) => Done(r)
      case Go(popped) => Finish(path, popped)
    else
      var last := ScalarLast(s, st.i);
      if last < 0 then Done(Invalid) else Finish(path, st.(i := last))
  }

  /** The key between `from` and `to` is the next name in the path. */
  predicate KeyMatches(s: seq<byte>, path: seq<byte>, pos: nat, from: nat, to: nat)
    requires from <= to <= |s|
  {
    && pos + (to - from) <= |path| && path[pos..pos + (to - from)] == s[from..to]
    && var c := At(path, pos + (to - from)); c == 0 || c == DOT || c == LBRACKET
  }

  function KeyStep(s: seq<byte>, path: seq<byte>, st: State): (out: Outcome)
    requires st.i < |s|
    ensures out.Go? ==> st.i < out.next.i <= |s| && (st.Valid() ==> out.next.Valid())
  {
    var depth := |st.nesting|;
    if s[st.i] == QUOTE then
      match PassString(s, st.i + 1)
      case NoEnd => Done(Invalid)
      case QuoteAt(at) =>
        if depth < st.ed then Done(NotFound)
        else if depth == st.ed && At(path, st.pos - 1) != DOT then Done(NotFound)
        else
          var pos := if depth == st.ed && KeyMatches(s, path, st.pos, st.i + 1, at) then st.pos + (at - st.i - 1)
                     else st.pos;
          Go(st.(pos := pos, expecting := Colon, i := at + 1))
    else if s[st.i] == RBRACE then
      match Eoo(path, st, RBRACE)
      case Done(r) => Done(r)
      case Go(popped) => After(popped)
    else Done(Invalid)
  }

  function EndStep(s: seq<byte>, path: seq<byte>, st: State): (out: Outcome)
    requires st.i < |s|
    ensures out.Go? ==> st.i < out.next.i <= |s| && (st.Valid() ==> out.next.Valid())
  {
    var c, depth := s[st.i], |st.nesting|;
    if depth == 0 then Done(Invalid)
    else if c == COMMA then
      Go(st.(expecting := if st.nesting[depth - 1] == LBRACE then Key else Value, i := st.i + 1))
    else if c == RBRACKET || c == RBRACE then
      if depth == st.ed && c == RBRACE && At(path, st.pos - 1) == DOT then Done(NotFound)
      else if depth == st.ed && c == RBRACKET && At(path, st.pos - 1) == COMMA then Done(NotFound)
      else
        match Eoo(path, st, c)
        case Done(r) => Done(r)
        case Go(popped) => After(popped)
    else Done(Invalid)
  }

  /** One turn of the loop. */
  function Step(s: seq<byte>, path: seq<byte>, st: State): (out: Outcome)
    requires st.i < |s|
    ensures out.Go? ==> st.i < out.next.i <= |s| && (st.Valid() ==> out.next.Valid())
  {
    if Space(s[st.i]) then Go(st.(i := st.i + 1))
    else
      match st.expecting
      case Value => ValueStep(s, path, st)
      case Key => KeyStep(s, path, st)
      case Colon => if s[st.i] == COLON then Go(st.(expecting := Value, i := st.i + 1)) else Done(Invalid)
      case CommaOrEnd => EndStep(s, path, st)
  }

  /** What mg_json_get returns from a given state. */
  function Run(s: seq<byte>, path: seq<byte>, st: State): Result
    decreases |s| - st.i
  {
    if st.i >= |s| then NotFound
    else
      match Step(s, path, st)
      case Done(r) => r
      case Go(next) => Run(s, path, next)
  }

  function Get(s: seq<byte>, path: seq<byte>): Result
  {
    if At(path, 0) != DOLLAR then Invalid else Run(s, path, START)
  }


  // ----- the nesting stack -----

  /** The brackets open at `to`, read from the text alone: those open at `i`, and those opened and
      not closed since, strings skipped. */
  function Open(s: seq<byte>, i: nat, to: nat, stack: seq<byte>): seq<byte>
    decreases to - i
  {
    if i >= to || i >= |s| then stack
    else if s[i] == LBRACE || s[i] == LBRACKET then Open(s, i + 1, to, stack + [s[i]])
    else if (s[i] == RBRACE || s[i] == RBRACKET) && |stack| > 0 then Open(s, i + 1, to, stack[..|stack| - 1])
    else if s[i] == QUOTE && PassString(s, i + 1).QuoteAt? then Open(s, PassString(s, i + 1).at + 1, to, stack)
    else Open(s, i + 1, to, stack)
  }

  predicate Plain(c: byte)
  {
    c != LBRACE && c != LBRACKET && c != RBRACE && c != RBRACKET && c != QUOTE
  }

  lemma {:induction false} PlainOpen(s: seq<byte>, i: nat, j: nat, to: nat, stack: seq<byte>)
    requires i <= j <= to && j <= |s| && forall k :: i <= k < j ==> Plain(s[k])
    ensures Open(s, i, to, stack) == Open(s, j, to, stack)
    decreases j - i
  {
    if i < j {
      PlainOpen(s, i + 1, j, to, stack);
    }
  }

  lemma {:induction false} DigitsPlain(s: seq<byte>, i: nat)
    requires i <= |s|
    ensures forall k :: i <= k < SkipDigits(s, i) ==> Plain(s[k])
    decreases |s| - i
  {
    if i < |s| && Digit(s[i]) {
      DigitsPlain(s, i + 1);
    }
  }

  lemma {:induction false} ExponentPlain(s: seq<byte>, i: nat, exp: nat)
    requires i <= |s|
    ensures forall k :: i <= k < SkipExponent(s, i, exp) ==> Plain(s[k])
    decreases |s| - i
  {
    if i < |s| && Digit(s[i]) && exp < 308 {
      ExponentPlain(s, i + 1, exp * 10 + (s[i] - 48));
    }
  }

  lemma NumberPlain(s: seq<byte>, i: nat)
    requires i <= |s|
    ensures forall k :: i <= k < NumberEnd(s, i) ==> Plain(s[k])
  {
    var a := SkipSign(s, i);
    var b := SkipDigits(s, a);
    var c := SkipFraction(s, b);
    DigitsPlain(s, a);
    if c > b {
      DigitsPlain(s, b + 1);
    }
    if SkipPower(s, c) > c {
      var minus := if Is(s, c + 1, MINUS) then c + 2 else c + 1;
      ExponentPlain(s, if Is(s, minus, PLUS) then minus + 1 else minus, 0);
    }
  }

  /** Words, numbers and strings open and close no bracket. */
  lemma ScalarOpen(s: seq<byte>, i: nat, to: nat, stack: seq<byte>)
    requires i < |s| && 0 <= ScalarLast(s, i) < to
    ensures Open(s, i, to, stack) == Open(s, ScalarLast(s, i) + 1, to, stack)
  {
    var last := ScalarLast(s, i);
    if Holds(s, i, TRUE) || Holds(s, i, NULL) || Holds(s, i, FALSE) {
      var word := if Holds(s, i, TRUE) then TRUE else if Holds(s, i, NULL) then NULL else FALSE;
      forall k | i <= k <= last
        ensures Plain(s[k])
      {
        assert s[i + (k - i)] == word[k - i];
      }
      PlainOpen(s, i, last + 1, to, stack);
    } else if s[i] == MINUS || Digit(s[i]) {
      NumberPlain(s, i);
      PlainOpen(s, i, last + 1, to, stack);
    }
  }

  lemma ValueOpen(s: seq<byte>, path: seq<byte>, st: State, to: nat)
    requires st.i < |s| && ValueStep(s, path, st.(expecting := Value)).Go?
    requires ValueStep(s, path, st.(expecting := Value)).next.i <= to
    ensures var next := ValueStep(s, path, st.(expecting := Value)).next;
            Open(s, st.i, to, st.nesting) == Open(s, next.i, to, next.nesting)
  {
    var c := s[st.i];
    if c != LBRACE && c != LBRACKET && (c != RBRACKET || st.nesting == []) {
      hide Open, NumberEnd, PassString;
      ScalarOpen(s, st.i, to, st.nesting);
    } else {
      hide ScalarLast, ParseIndex;
    }
  }

  lemma KeyOpen(s: seq<byte>, path: seq<byte>, st: State, to: nat)
    requires st.i < |s| && KeyStep(s, path, st).Go? && KeyStep(s, path, st).next.i <= to
    ensures var next := KeyStep(s, path, st).next;
            Open(s, st.i, to, st.nesting) == Open(s, next.i, to, next.nesting)
  {
    hide PassString, KeyMatches;
  }

  lemma EndOpen(s: seq<byte>, path: seq<byte>, st: State, to: nat)
    requires st.i < |s| && EndStep(s, path, st).Go? && EndStep(s, path, st).next.i <= to
    ensures var next := EndStep(s, path, st).next;
            Open(s, st.i, to, st.nesting) == Open(s, next.i, to, next.nesting)
  {
  }

  /** Each step changes the nesting stack just as the bytes it reads do, whatever the input. */
  lemma StepOpen(s: seq<byte>, path: seq<byte>, st: State, to: nat)
    requires st.i < |s| && Step(s, path, st).Go? && Step(s, path, st).next.i <= to
    ensures var next := Step(s, path, st).next;
            Open(s, st.i, to, st.nesting) == Open(s, next.i, to, next.nesting)
  {
    hide ValueStep, KeyStep, EndStep;
    if !Space(s[st.i]) {
      match st.expecting
      case Value =>
        assert st.(expecting := Value) == st;
        ValueOpen(s, path, st, to);
      case Key => KeyOpen(s, path, st, to);
      case Colon =>
      case CommaOrEnd => EndOpen(s, path, st, to);
    }
  }

  /** Where the loop stands after `n` turns. */
  function Turns(s: seq<byte>, path: seq<byte>, n: nat): Outcome
  {
    if n == 0 then Go(START)
    else
      match Turns(s, path, n - 1)
      case Done(r) => Done(r)
      case Go(st) => if st.i < |s| then Step(s, path, st) else Done(NotFound)
  }

  lemma {:induction false} TurnsOpen(s: seq<byte>, path: seq<byte>, n: nat, to: nat)
    requires Turns(s, path, n).Go? && Turns(s, path, n).next.i <= to
    ensures var st := Turns(s, path, n).next;
            st.Valid() && st.i <= |s| && Open(s, 0, to, []) == Open(s, st.i, to, st.nesting)
  {
    hide Step, Open;
    if n > 0 {
      var st := Turns(s, path, n - 1).next;
      TurnsOpen(s, path, n - 1, to);
      StepOpen(s, path, st, to);
    }
  }

  /** After any number of turns, on any input, the nesting stack is exactly the brackets open in the
      bytes read so far, and no more than it has room for. */
  lemma NestingIsOpen(s: seq<byte>, path: seq<byte>, n: nat)
    requires Turns(s, path, n).Go?
    ensures var st := Turns(s, path, n).next;
            st.i <= |s| && st.nesting == Open(s, 0, st.i, []) && |st.nesting| <= 30
  {
    TurnsOpen(s, path, n, Turns(s, path, n).next.i);
  }

  // ----- the span returned -----

  lemma StepSpan(s: seq<byte>, path: seq<byte>, st: State)
    requires st.i < |s| && st.j <= st.i
    ensures match Step(s, path, st)
            case Go(next) => next.j <= next.i
            case Done(Found(start, len)) => 0 < len && start + len <= |s|
            case Done(_) => true
  {
    hide ParseIndex, PassString, NumberEnd, KeyMatches, Holds;
  }

  /** Whatever the input, a span that is found lies inside the text. */
  lemma {:induction false} SpanInside(s: seq<byte>, path: seq<byte>, st: State)
    requires st.j <= st.i
    ensures Run(s, path, st).Found? ==> 0 < Run(s, path, st).len && Run(s, path, st).start + Run(s, path, st).len <= |s|
    decreases |s| - st.i
  {
    if st.i < |s| {
      StepSpan(s, path, st);
      if Step(s, path, st).Go? {
        SpanInside(s, path, Step(s, path, st).next);
      }
    }
  }

  // ----- mg_json_get -----

  /** mg_json_get: `off` is negative when nothing is found, and then `toklen` is 0. */
  method MgJsonGet(s: seq<byte>, path: seq<byte>) returns (off: int, toklen: int)
    ensures match Get(s, path)
            case Found(start, len) => off == start && toklen == len
            case TooDeep => off == -1 && toklen == 0
            case Invalid => off == -2 && toklen == 0
            case NotFound => off == -3 && toklen == 0
  {
    if At(path, 0) != DOLLAR {
      return -2, 0;
    }
    var st := START;
    while st.i < |s|
      invariant st.Valid() && st.i <= |s| && Run(s, path, st) == Run(s, path, START)
    {
      var out := Step(s, path, st);
      match out {
        case Go(next) =>
          st := next;
        case Done(r) =>
          match r {
            case Found(start, len) => return start, len;
            case TooDeep => return -1, 0;
            case Invalid => return -2, 0;
            case NotFound => return -3, 0;
          }
      }
    }
    return -3, 0;
  }
}
