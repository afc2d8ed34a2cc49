/** A reader by recursive descent, and that the scanner of mg_json_get, with its stack, does the same on any bytes
    whatever: path "$". */
module JsonReader {
  import opened Bytes
  import opened JsonLex
  import opened Json

  /** The last byte of what was read, or the answer that there is nothing to find. */
  datatype Reading = Last(at: nat) | Stop(r: Result)

  function Blanks(s: seq<byte>, i: nat): (b: nat)
    ensures i <= b && (b < |s| ==> !Space(s[b]))
    decreases |s| - i
  {
    if i < |s| && Space(s[i]) then Blanks(s, i + 1) else i
  }

  function Opener(obj: bool): byte
  {
    if obj then 123 else 91
  }

  function Closer(obj: bool): byte
  {
    if obj then 125 else 93
  }

  /** A value, with at most `room` brackets open at a time. */
  function ReadValue(s: seq<byte>, i: nat, room: nat): (r: Reading)
    ensures r.Last? ==> i <= r.at < |s|
    decreases |s| - i, 2
  {
    var b := Blanks(s, i);
    if b >= |s| then Stop(NotFound)
    else if s[b] == Opener(true) || s[b] == Opener(false) then
      if room == 0 then Stop(TooDeep) else ReadItems(s, b + 1, s[b] == Opener(true), room - 1)
    else if ScalarLast(s, b) < 0 then Stop(Invalid)
    else Last(ScalarLast(s, b))
  }

  /** Behind an opening bracket or a comma: the closing bracket, or an item and what follows. */
  function ReadItems(s: seq<byte>, i: nat, obj: bool, room: nat): (r: Reading)
    ensures r.Last? ==> i <= r.at < |s|
    decreases |s| - i, 4
  {
    var b := Blanks(s, i);
    if b >= |s| then Stop(NotFound)
    else if s[b] == Closer(obj) then Last(b)
    else if obj then ReadMember(s, b, room)
    else ReadItem(s, b, obj, room)
  }

  /** A name, a colon, and the item. */
  function ReadMember(s: seq<byte>, i: nat, room: nat): (r: Reading)
    requires i < |s|
    ensures r.Last? ==> i <= r.at < |s|
    decreases |s| - i, 1
  {
    if s[i] != QUOTE then Stop(Invalid)
    else
      match PassString(s, i + 1)
      case NoEnd => Stop(Invalid)
      case QuoteAt(at) =>
        var c := Blanks(s, at + 1);
        if c >= |s| then Stop(NotFound) else if s[c] != 58 then Stop(Invalid) else ReadItem(s, c + 1, true, room)
  }

  function ReadItem(s: seq<byte>, i: nat, obj: bool, room: nat): (r: Reading)
    ensures r.Last? ==> i <= r.at < |s|
    decreases |s| - i, 3
  {
    match ReadValue(s, i, room)
    case Stop(r) => Stop(r)
    case Last(at) => ReadOn(s, at + 1, obj, room)
  }

  /** Behind an item: a comma and more, or the closing bracket. */
  function ReadOn(s: seq<byte>, i: nat, obj: bool, room: nat): (r: Reading)
    ensures r.Last? ==> i <= r.at < |s|
    decreases |s| - i, 1
  {
    var b := Blanks(s, i);
    if b >= |s| then Stop(NotFound)
    else if s[b] == 44 then ReadItems(s, b + 1, obj, room)
    else if s[b] == Closer(obj) then Last(b)
    else Stop(Invalid)
  }

  // ----- the scanner -----

  /** On the way for path "$". */
  predicate Scanning(st: State)
  {
    st.ed == 0 && st.pos == 1 && st.ci == st.ei == -1 && |st.nesting| <= 30
  }

  const PATH: seq<byte> := [DOLLAR]

  lemma {:induction false} BlanksSkipped(s: seq<byte>, st: State)
    ensures Run(s, PATH, st) == Run(s, PATH, st.(i := Blanks(s, st.i)))
    decreases |s| - st.i
  {
    if st.i < |s| && Space(s[st.i]) {
      var next := st.(i := st.i + 1);
      assert Step(s, PATH, st) == Go(next);
      BlanksSkipped(s, next);
    }
  }

  /** What comes of a value that has been read from the state `st`. */
  function ValueDone(s: seq<byte>, st: State, r: Reading): Result
    requires r.Last? ==> st.i <= r.at < |s|
  {
    match r
    case Stop(result) => result
    case Last(at) =>
      if st.nesting == [] then Found(Blanks(s, st.i), at - Blanks(s, st.i) + 1)
      else Run(s, PATH, st.(i := at + 1, expecting := CommaOrEnd))
  }

  /** And of the innermost open bracket, once it is closed. */
  function BracketDone(s: seq<byte>, st: State, r: Reading): Result
    requires |st.nesting| > 0 && (r.Last? ==> st.i <= r.at < |s|)
  {
    match r
    case Stop(result) => result
    case Last(at) =>
      if |st.nesting| == 1 then Found(st.j, at - st.j + 1)
      else Run(s, PATH, st.(i := at + 1, nesting := st.nesting[..|st.nesting| - 1], expecting := CommaOrEnd))
  }

  /** `obj` tells which bracket is open. */
  predicate InBracket(st: State, obj: bool)
  {
    Scanning(st) && |st.nesting| > 0 && st.nesting[|st.nesting| - 1] == Opener(obj)
  }

  lemma CloserStep(s: seq<byte>, st: State, obj: bool)
    requires InBracket(st, obj) && st.i < |s| && s[st.i] == Closer(obj)
    requires st.expecting == CommaOrEnd || st.expecting == if obj then Key else Value
    ensures Run(s, PATH, st) == BracketDone(s, st, Last(st.i))
  {
    hide PassString, KeyMatches, ScalarLast;
    var popped := st.(nesting := st.nesting[..|st.nesting| - 1]);
    assert Eoo(PATH, st, Closer(obj))
        == if |st.nesting| == 1 then Done(Found(st.j, st.i - st.j + 1)) else Go(popped);
    assert At(PATH, 0) == DOLLAR;
  }

  function Onward(s: seq<byte>, out: Outcome): Result
  {
    match out
    case Done(r) => r
    case Go(next) => Run(s, PATH, next)
  }

  /** A step of the scanner. */
  lemma OneStep(s: seq<byte>, st: State)
    ensures st.i >= |s| ==> Run(s, PATH, st) == NotFound
    ensures st.i < |s| ==> Run(s, PATH, st) == Onward(s, Step(s, PATH, st))
  {
    hide Step;
  }

  /** The state behind an opening bracket. */
  function Entered(st: State, obj: bool): State
  {
    st.(j := if st.nesting == [] then st.i else st.j, nesting := st.nesting + [Opener(obj)],
        expecting := if obj then Key else Value, i := st.i + 1)
  }

  lemma OpenerStep(s: seq<byte>, st: State, obj: bool)
    requires Scanning(st) && st.expecting == Value && st.i < |s| && s[st.i] == Opener(obj)
    ensures Step(s, PATH, st) == if |st.nesting| == 30 then Done(TooDeep) else Go(Entered(st, obj))
    ensures |st.nesting| < 30 ==> InBracket(Entered(st, obj), obj)
  {
    hide PassString, KeyMatches, ScalarLast, KeyStep, EndStep, Run;
    assert At(PATH, 1) == 0;
  }

  lemma ScalarStep(s: seq<byte>, st: State)
    requires Scanning(st) && st.expecting == Value && st.i < |s| && !Space(s[st.i])
    requires s[st.i] != Opener(true) && s[st.i] != Opener(false)
    requires s[st.i] == Closer(false) && st.nesting != [] ==> st.nesting[|st.nesting| - 1] != Opener(false)
    ensures var last := ScalarLast(s, st.i);
            Step(s, PATH, st) ==
            if last < 0 then Done(Invalid)
            else if st.nesting == [] then Done(Found(st.i, last - st.i + 1))
            else Go(st.(i := last + 1, expecting := CommaOrEnd))
  {
    hide PassString, KeyMatches, NumberEnd, Holds;
    if s[st.i] == Closer(false) {
      NoScalar(s, st.i);
    }
  }

  lemma NoScalar(s: seq<byte>, i: nat)
    requires i < |s| && s[i] == Closer(false)
    ensures ScalarLast(s, i) == -1
  {
    WordStarts(s, i, TRUE);
    WordStarts(s, i, NULL);
    WordStarts(s, i, FALSE);
  }

  lemma BlanksEnd(s: seq<byte>, i: nat)
    ensures Blanks(s, Blanks(s, i)) == Blanks(s, i)
  {
  }

  lemma ScalarValue(s: seq<byte>, st: State)
    requires Scanning(st) && st.expecting == Value && st.i < |s| && Blanks(s, st.i) == st.i
    requires s[st.i] != Opener(true) && s[st.i] != Opener(false)
    requires s[st.i] == Closer(false) && st.nesting != [] ==> st.nesting[|st.nesting| - 1] != Opener(false)
    ensures Run(s, PATH, st) == ValueDone(s, st, if ScalarLast(s, st.i) < 0 then Stop(Invalid)
                                                 else Last(ScalarLast(s, st.i)))
  {
    hide Run, Step, ScalarLast, Blanks;
    OneStep(s, st);
    ScalarStep(s, st);
  }

  lemma ValueUnfold(s: seq<byte>, i: nat, room: nat)
    ensures var b := Blanks(s, i);
            ReadValue(s, i, room) ==
            if b >= |s| then Stop(NotFound)
            else if s[b] == Opener(true) || s[b] == Opener(false) then
              if room == 0 then Stop(TooDeep) else ReadItems(s, b + 1, s[b] == Opener(true), room - 1)
            else if ScalarLast(s, b) < 0 then Stop(Invalid)
            else Last(ScalarLast(s, b))
  {
    hide Blanks, ReadItems, ScalarLast;
  }

  /** Once its bracket is closed a value has been read. */
  lemma BracketValue(s: seq<byte>, st: State, obj: bool, r: Reading)
    requires st.expecting == Value && Blanks(s, st.i) == st.i && (r.Last? ==> st.i < r.at < |s|)
    ensures BracketDone(s, Entered(st, obj), r) == ValueDone(s, st, r)
  {
    hide Run, Blanks;
    assert Entered(st, obj).nesting[..|st.nesting|] == st.nesting;
  }

  lemma BracketRun(s: seq<byte>, st: State, obj: bool, r: Reading)
    requires Scanning(st) && st.expecting == Value && st.i < |s| && s[st.i] == Opener(obj) && Blanks(s, st.i) == st.i
    requires |st.nesting| < 30 && (r.Last? ==> st.i < r.at < |s|)
    requires Run(s, PATH, Entered(st, obj)) == BracketDone(s, Entered(st, obj), r)
    ensures Run(s, PATH, st) == ValueDone(s, st, r)
  {
    OneStep(s, st);
    OpenerStep(s, st, obj);
    BracketValue(s, st, obj, r);
    hide *;
  }

  /** A value at its first byte. */
  lemma {:induction false} FirstByte(s: seq<byte>, st: State)
    requires Scanning(st) && st.expecting == Value && st.i < |s| && Blanks(s, st.i) == st.i
    requires s[st.i] == Closer(false) && st.nesting != [] ==> st.nesting[|st.nesting| - 1] != Opener(false)
    ensures Run(s, PATH, st) == ValueDone(s, st, ReadValue(s, st.i, 30 - |st.nesting|))
    decreases |s| - st.i, 1
  {
    hide Run, Step, Blanks, ScalarLast, ReadValue, ReadItems, BracketDone, ValueDone;
    ValueUnfold(s, st.i, 30 - |st.nesting|);
    if s[st.i] != Opener(true) && s[st.i] != Opener(false) {
      ScalarValue(s, st);
    } else {
      var obj := s[st.i] == Opener(true);
      OpenerStep(s, st, obj);
      if |st.nesting| < 30 {
        ItemsAgree(s, Entered(st, obj), obj);
        BracketRun(s, st, obj, ReadItems(s, st.i + 1, obj, 30 - |Entered(st, obj).nesting|));
      } else {
        DeepStop(s, st);
      }
    }
  }

  lemma DeepStop(s: seq<byte>, st: State)
    requires st.i < |s| && Step(s, PATH, st) == Done(TooDeep)
    ensures Run(s, PATH, st) == ValueDone(s, st, Stop(TooDeep))
  {
    hide Step;
  }

  /** White space in front of a value changes nothing. */
  lemma BlanksDone(s: seq<byte>, st: State, r: Reading)
    requires r.Last? ==> st.i <= Blanks(s, st.i) <= r.at < |s|
    ensures ValueDone(s, st.(i := Blanks(s, st.i)), r) == ValueDone(s, st, r)
  {
    BlanksEnd(s, st.i);
    hide Run, Blanks;
  }

  lemma BlanksRead(s: seq<byte>, i: nat, room: nat)
    ensures ReadValue(s, Blanks(s, i), room) == ReadValue(s, i, room)
    ensures Blanks(s, i) >= |s| ==> ReadValue(s, i, room) == Stop(NotFound)
  {
    BlanksEnd(s, i);
    ValueUnfold(s, i, room);
    ValueUnfold(s, Blanks(s, i), room);
    hide *;
  }

  lemma NothingRun(s: seq<byte>, st: State)
    requires st.i >= |s|
    ensures Run(s, PATH, st) == ValueDone(s, st, Stop(NotFound))
  {
  }

  lemma {:induction false} ValueAgrees(s: seq<byte>, st: State)
    requires Scanning(st) && st.expecting == Value
    requires var b := Blanks(s, st.i);
             b < |s| && s[b] == Closer(false) && st.nesting != [] ==> st.nesting[|st.nesting| - 1] != Opener(false)
    ensures Run(s, PATH, st) == ValueDone(s, st, ReadValue(s, st.i, 30 - |st.nesting|))
    decreases |s| - st.i, 2
  {
    hide Run, Step, Blanks, ScalarLast, ReadValue, ReadItems, ValueDone, BracketDone;
    var at := st.(i := Blanks(s, st.i));
    BlanksSkipped(s, st);
    BlanksEnd(s, st.i);
    BlanksRead(s, st.i, 30 - |st.nesting|);
    if at.i < |s| {
      FirstByte(s, at);
    } else {
      NothingRun(s, at);
    }
    BlanksDone(s, st, ReadValue(s, st.i, 30 - |st.nesting|));
  }

  lemma ItemsUnfold(s: seq<byte>, i: nat, obj: bool, room: nat)
    ensures var b := Blanks(s, i);
            ReadItems(s, i, obj, room) ==
            if b >= |s| then Stop(NotFound)
            else if s[b] == Closer(obj) then Last(b)
            else if obj then ReadMember(s, b, room)
            else ReadItem(s, b, obj, room)
  {
    hide Blanks, ReadMember, ReadItem;
  }

  lemma {:induction false} ItemsAgree(s: seq<byte>, st: State, obj: bool)
    requires InBracket(st, obj) && st.expecting == if obj then Key else Value
    ensures Run(s, PATH, st) == BracketDone(s, st, ReadItems(s, st.i, obj, 30 - |st.nesting|))
    decreases |s| - st.i, 4
  {
    hide Run, Step, Blanks, ScalarLast, ReadMember, ReadItems, ReadItem;
    var b := Blanks(s, st.i);
    var at := st.(i := b);
    BlanksSkipped(s, st);
    BlanksEnd(s, st.i);
    ItemsUnfold(s, st.i, obj, 30 - |st.nesting|);
    OneStep(s, at);
    if b < |s| {
      if s[b] == Closer(obj) {
        CloserStep(s, at, obj);
      } else if obj {
        MemberAgrees(s, at);
      } else {
        ItemAgrees(s, at, obj);
      }
    }
  }

  lemma MemberUnfold(s: seq<byte>, i: nat, room: nat)
    requires i < |s|
    ensures s[i] != QUOTE || PassString(s, i + 1).NoEnd? ==> ReadMember(s, i, room) == Stop(Invalid)
    ensures s[i] == QUOTE && PassString(s, i + 1).QuoteAt? ==>
              var c := Blanks(s, PassString(s, i + 1).at + 1);
              ReadMember(s, i, room) ==
              if c >= |s| then Stop(NotFound) else if s[c] != 58 then Stop(Invalid) else ReadItem(s, c + 1, true, room)
  {
    hide Blanks, ReadItem, PassString;
  }

  /** The steps at a name and at a colon. */
  lemma NameStep(s: seq<byte>, st: State)
    requires InBracket(st, true) && st.expecting == Key && st.i < |s| && !Space(s[st.i]) && s[st.i] != Closer(true)
    ensures Step(s, PATH, st) ==
            if s[st.i] == QUOTE && PassString(s, st.i + 1).QuoteAt? then
              Go(st.(expecting := Colon, i := PassString(s, st.i + 1).at + 1))
            else Done(Invalid)
  {
    hide PassString, KeyMatches;
  }

  lemma ColonStep(s: seq<byte>, st: State)
    requires st.expecting == Colon && st.i < |s| && !Space(s[st.i])
    ensures Step(s, PATH, st) == if s[st.i] == 58 then Go(st.(expecting := Value, i := st.i + 1)) else Done(Invalid)
  {
  }

  lemma {:induction false} MemberAgrees(s: seq<byte>, st: State)
    requires InBracket(st, true) && st.expecting == Key && st.i < |s| && !Space(s[st.i]) && s[st.i] != Closer(true)
    ensures Run(s, PATH, st) == BracketDone(s, st, ReadMember(s, st.i, 30 - |st.nesting|))
    decreases |s| - st.i, 1
  {
    hide Run, Step, Blanks, PassString, ReadMember, ReadItem;
    OneStep(s, st);
    NameStep(s, st);
    MemberUnfold(s, st.i, 30 - |st.nesting|);
    if s[st.i] == QUOTE && PassString(s, st.i + 1).QuoteAt? {
      var named := st.(expecting := Colon, i := PassString(s, st.i + 1).at + 1);
      var c := Blanks(s, named.i);
      BlanksSkipped(s, named);
      OneStep(s, named.(i := c));
      if c < |s| {
        ColonStep(s, named.(i := c));
        if s[c] == 58 {
          ItemAgrees(s, st.(expecting := Value, i := c + 1), true);
        }
      }
    }
  }

  lemma ItemUnfold(s: seq<byte>, i: nat, obj: bool, room: nat)
    ensures var v := ReadValue(s, i, room);
            ReadItem(s, i, obj, room) == if v.Stop? then v else ReadOn(s, v.at + 1, obj, room)
  {
    hide ReadValue, ReadOn;
  }

  lemma {:induction false} ItemAgrees(s: seq<byte>, st: State, obj: bool)
    requires InBracket(st, obj) && st.expecting == Value
    requires var b := Blanks(s, st.i); b < |s| && s[b] == Closer(false) ==> obj
    ensures Run(s, PATH, st) == BracketDone(s, st, ReadItem(s, st.i, obj, 30 - |st.nesting|))
    decreases |s| - st.i, 3
  {
    hide Run, Blanks, ReadItem, ReadValue, ReadOn;
    ItemUnfold(s, st.i, obj, 30 - |st.nesting|);
    ValueAgrees(s, st);
    match ReadValue(s, st.i, 30 - |st.nesting|)
    case Stop(_) =>
    case Last(at) => OnAgrees(s, st.(i := at + 1, expecting := CommaOrEnd), obj);
  }

  lemma OnUnfold(s: seq<byte>, i: nat, obj: bool, room: nat)
    ensures var b := Blanks(s, i);
            ReadOn(s, i, obj, room) ==
            if b >= |s| then Stop(NotFound)
            else if s[b] == 44 then ReadItems(s, b + 1, obj, room)
            else if s[b] == Closer(obj) then Last(b)
            else Stop(Invalid)
  {
    hide Blanks, ReadItems;
  }

  /** The step behind an item, but at the closing bracket. */
  lemma OnStep(s: seq<byte>, st: State, obj: bool)
    requires InBracket(st, obj) && st.expecting == CommaOrEnd && st.i < |s| && !Space(s[st.i]) && s[st.i] != Closer(obj)
    ensures Step(s, PATH, st) == if s[st.i] == 44 then Go(st.(expecting := if obj then Key else Value, i := st.i + 1))
                                 else Done(Invalid)
  {
    assert At(PATH, 0) == DOLLAR;
  }

  lemma {:induction false} OnAgrees(s: seq<byte>, st: State, obj: bool)
    requires InBracket(st, obj) && st.expecting == CommaOrEnd
    ensures Run(s, PATH, st) == BracketDone(s, st, ReadOn(s, st.i, obj, 30 - |st.nesting|))
    decreases |s| - st.i, 1
  {
    hide Run, Step, Blanks, ReadItems, ReadOn;
    var b := Blanks(s, st.i);
    var at := st.(i := b);
    BlanksSkipped(s, st);
    BlanksEnd(s, st.i);
    OnUnfold(s, st.i, obj, 30 - |st.nesting|);
    OneStep(s, at);
    if b < |s| {
      if s[b] == Closer(obj) {
        CloserStep(s, at, obj);
      } else {
        OnStep(s, at, obj);
        if s[b] == 44 {
          ItemsAgree(s, at.(expecting := if obj then Key else Value, i := b + 1), obj);
        }
      }
    }
  }

  /** For any bytes: the span of the value that stands behind the white space, as far as it can be read, or the same
      error. */
  lemma ReaderAgrees(s: seq<byte>)
    ensures Get(s, PATH) == match ReadValue(s, 0, 30)
                            case Stop(r) => r
                            case Last(at) => Found(Blanks(s, 0), at - Blanks(s, 0) + 1)
  {
    ValueAgrees(s, START);
  }
}
