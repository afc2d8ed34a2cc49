/** mg_pass_string and the bytes that mg_atod consumes: strings and numbers inside a JSON text. */
module JsonLex {
  import opened Bytes

  const QUOTE: byte := 34
  const PLUS: byte := 43
  const COMMA: byte := 44
  const MINUS: byte := 45
  const DOT: byte := 46
  const SLASH: byte := 47
  const COLON: byte := 58
  const LOWER_E: byte := 101
  const LOWER_U: byte := 117
  const UPPER_E: byte := 69
  const BACKSLASH: byte := 92

  predicate Digit(c: byte)
  {
    48 <= c <= 57
  }

  predicate Space(c: byte)
  {
    c == 32 || c == 9 || c == 10 || c == 13
  }

  lemma WordStarts(s: seq<byte>, i: nat, word: seq<byte>)
    requires i < |s| && |word| > 0
    ensures Holds(s, i, word) ==> s[i] == word[0]
  {
    assert Holds(s, i, word) ==> s[i + 0] == word[0];
  }

  // ----- escapes -----

  /** `json_esc(c, 1)`: the letter that stands for a byte in an escape, or 0. */
  function EscapeLetter(c: byte): byte
  {
    if c == 8 then 98 else if c == 12 then 102 else if c == 10 then 110 else if c == 13 then 114
    else if c == 9 then 116 else if c == BACKSLASH then BACKSLASH else if c == QUOTE then QUOTE else 0
  }

  /** `json_esc(c, 0)`: the byte that an escape letter stands for, or 0. */
  function EscapedByte(c: byte): byte
  {
    if c == 98 then 8 else if c == 102 then 12 else if c == 110 then 10 else if c == 114 then 13
    else if c == 116 then 9 else if c == BACKSLASH then BACKSLASH else if c == QUOTE then QUOTE else 0
  }

  /** The two strings of `escapeseq`: the bytes that are escaped, and their letters. */
  const ESCAPED: seq<byte> := [8, 12, 10, 13, 9, BACKSLASH, QUOTE]
  const LETTERS: seq<byte> := [98, 102, 110, 114, 116, BACKSLASH, QUOTE]

  lemma NoLetter(c: byte)
    ensures (forall j :: 0 <= j < 7 ==> ESCAPED[j] != c) ==> EscapeLetter(c) == 0
    ensures (forall j :: 0 <= j < 7 ==> LETTERS[j] != c) ==> EscapedByte(c) == 0
  {
    var e, l := ESCAPED, LETTERS;
    assert e[0] == 8 && e[1] == 12 && e[2] == 10 && e[3] == 13 && e[4] == 9 && e[5] == 92 && e[6] == 34;
    assert l[0] == 98 && l[1] == 102 && l[2] == 110 && l[3] == 114 && l[4] == 116 && l[5] == 92 && l[6] == 34;
  }

  /** json_esc, and mg_esc, which is the same. */
  method JsonEsc(c: byte, esc: bool) returns (r: byte)
    ensures r == if esc then EscapeLetter(c) else EscapedByte(c)
  {
    var esc1, esc2 := if esc then ESCAPED else LETTERS, if esc then LETTERS else ESCAPED;
    for i := 0 to |esc1|
      invariant forall j :: 0 <= j < i ==> esc1[j] != c
    {
      if esc1[i] == c {
        return esc2[i];
      }
    }
    NoLetter(c);
    return 0;
  }

  lemma EscapeInverse(c: byte)
    ensures EscapeLetter(c) != 0 ==> EscapedByte(EscapeLetter(c)) == c
    ensures EscapedByte(c) != 0 ==> EscapeLetter(EscapedByte(c)) == c
  {
  }

  // ----- strings -----

  datatype Passed = NoEnd | QuoteAt(at: nat)

  /** The closing quote that mg_pass_string finds, searching from offset `i`. */
  function PassString(s: seq<byte>, i: nat): (r: Passed)
    ensures r.QuoteAt? ==> i <= r.at < |s| && s[r.at] == QUOTE
    decreases |s| - i
  {
    if i >= |s| then NoEnd
    else if s[i] == BACKSLASH && i + 1 < |s| && EscapeLetter(s[i + 1]) != 0 then PassString(s, i + 2)
    else if s[i] == 0 then NoEnd
    else if s[i] == QUOTE then QuoteAt(i)
    else PassString(s, i + 1)
  }

  /** mg_pass_string: `at` is the offset of the closing quote behind `start`. */
  method FindQuote(s: seq<byte>, start: nat) returns (ok: bool, at: nat)
    ensures PassString(s, start) == if ok then QuoteAt(at) else NoEnd
  {
    var i := start;
    while i < |s|
      invariant PassString(s, i) == PassString(s, start)
    {
      var letter := 0;
      if s[i] == BACKSLASH && i + 1 < |s| {
        letter := JsonEsc(s[i + 1], true);
      }
      if letter != 0 {
        i := i + 1;
      } else if s[i] == 0 {
        return false, 0;
      } else if s[i] == QUOTE {
        return true, i;
      }
      i := i + 1;
    }
    return false, 0;
  }

  /** The letters that may follow a backslash, but for `u`. */
  predicate Escapable(c: byte)
  {
    c in {34, 47, 92, 98, 102, 110, 114, 116}
  }

  predicate UnicodeEscape(b: seq<byte>)
  {
    |b| >= 6 && b[0] == BACKSLASH && b[1] == LOWER_U && forall k :: 2 <= k < 6 ==> HexDigit(b[k])
  }

  /** What may stand between the quotes: section 7 of RFC 8259. */
  predicate StringBody(b: seq<byte>)
  {
    if b == [] then true
    else if UnicodeEscape(b) then StringBody(b[6..])
    else if b[0] == BACKSLASH then |b| >= 2 && Escapable(b[1]) && StringBody(b[2..])
    else b[0] >= 32 && b[0] != QUOTE && StringBody(b[1..])
  }

  lemma HoldsTail(s: seq<byte>, at: nat, b: seq<byte>, n: nat)
    requires Holds(s, at, b) && n <= |b|
    ensures Holds(s, at + n, b[n..])
  {
    assert b == b[..n] + b[n..];
    HoldsBoth(s, at, b[..n], b[n..]);
  }

  /** The search stops at the true closing quote. */
  lemma {:induction false} BodyPassed(s: seq<byte>, at: nat, b: seq<byte>)
    requires StringBody(b) && Holds(s, at, b) && at + |b| < |s| && s[at + |b|] == QUOTE
    ensures PassString(s, at) == QuoteAt(at + |b|)
    decreases |b|
  {
    hide *;
    if b == [] {
      QuoteFound(s, at);
      return;
    }
    BodyUnfold(b);
    if UnicodeEscape(b) {
      HoldsTail(s, at, b, 6);
      PlainRun(s, at, b);
      BodyPassed(s, at + 6, b[6..]);
    } else if b[0] == BACKSLASH {
      HoldsTail(s, at, b, 2);
      EscapePassed(s, at, b);
      BodyPassed(s, at + 2, b[2..]);
    } else {
      HoldsTail(s, at, b, 1);
      LetterPassed(s, at, b);
      BodyPassed(s, at + 1, b[1..]);
    }
  }

  lemma BodyUnfold(b: seq<byte>)
    requires StringBody(b) && b != []
    ensures UnicodeEscape(b) ==> |b| >= 6 && StringBody(b[6..])
    ensures !UnicodeEscape(b) && b[0] == BACKSLASH ==>
              |b| >= 2 && Escapable(b[1]) && StringBody(b[2..])
    ensures !UnicodeEscape(b) && b[0] != BACKSLASH ==> b[0] >= 32 && b[0] != QUOTE && StringBody(b[1..])
  {
  }

  lemma QuoteFound(s: seq<byte>, at: nat)
    requires at < |s| && s[at] == QUOTE
    ensures PassString(s, at) == QuoteAt(at)
  {
  }

  lemma EscapePassed(s: seq<byte>, at: nat, b: seq<byte>)
    requires |b| >= 2 && b[0] == BACKSLASH && Escapable(b[1]) && Holds(s, at, b)
    ensures PassString(s, at) == PassString(s, at + 2)
  {
    assert s[at + 0] == b[0] && s[at + 1] == b[1];
    if EscapeLetter(b[1]) == 0 {
      PlainStep(s, at);
      PlainStep(s, at + 1);
    }
  }

  lemma LetterPassed(s: seq<byte>, at: nat, b: seq<byte>)
    requires b != [] && b[0] != BACKSLASH && b[0] >= 32 && b[0] != QUOTE && Holds(s, at, b)
    ensures PassString(s, at) == PassString(s, at + 1)
  {
    assert s[at + 0] == b[0];
    PlainStep(s, at);
  }

  predicate PlainAt(s: seq<byte>, at: nat)
  {
    at < |s| && s[at] != 0 && s[at] != QUOTE && !(s[at] == BACKSLASH && at + 1 < |s| && EscapeLetter(s[at + 1]) != 0)
  }

  lemma PlainStep(s: seq<byte>, at: nat)
    requires PlainAt(s, at)
    ensures PassString(s, at) == PassString(s, at + 1)
  {
  }

  lemma PlainRun(s: seq<byte>, at: nat, b: seq<byte>)
    requires UnicodeEscape(b) && Holds(s, at, b)
    ensures PassString(s, at) == PassString(s, at + 6)
  {
    hide *;
    PlainBytes(s, at, b);
    PlainStep(s, at);
    PlainStep(s, at + 1);
    PlainStep(s, at + 2);
    PlainStep(s, at + 3);
    PlainStep(s, at + 4);
    PlainStep(s, at + 5);
  }

  lemma PlainBytes(s: seq<byte>, at: nat, b: seq<byte>)
    requires UnicodeEscape(b) && Holds(s, at, b)
    ensures PlainAt(s, at) && PlainAt(s, at + 1) && PlainAt(s, at + 2)
    ensures PlainAt(s, at + 3) && PlainAt(s, at + 4) && PlainAt(s, at + 5)
  {
    hide PassString;
    assert s[at + 0] == b[0] && s[at + 1] == b[1] && s[at + 2] == b[2];
    assert s[at + 3] == b[3] && s[at + 4] == b[4] && s[at + 5] == b[5];
  }

  // ----- numbers -----

  function SkipDigits(s: seq<byte>, i: nat): (r: nat)
    requires i <= |s|
    ensures i <= r <= |s|
    decreases |s| - i
  {
    if i < |s| && Digit(s[i]) then SkipDigits(s, i + 1) else i
  }

  /** The exponent digits are read while their value stays below 308. */
  function SkipExponent(s: seq<byte>, i: nat, exp: nat): (r: nat)
    requires i <= |s|
    ensures i <= r <= |s|
    decreases |s| - i
  {
    if i < |s| && Digit(s[i]) && exp < 308 then SkipExponent(s, i + 1, exp * 10 + (s[i] - 48)) else i
  }

  predicate Is(s: seq<byte>, i: nat, c: byte)
  {
    i < |s| && s[i] == c
  }

  function SkipSign(s: seq<byte>, i: nat): (r: nat)
    requires i <= |s|
    ensures i <= r <= |s|
  {
    if Is(s, i, MINUS) || Is(s, i, PLUS) then i + 1 else i
  }

  function SkipFraction(s: seq<byte>, i: nat): (r: nat)
    requires i <= |s|
    ensures i <= r <= |s|
  {
    if Is(s, i, DOT) then SkipDigits(s, i + 1) else i
  }

  function SkipPower(s: seq<byte>, i: nat): (r: nat)
    requires i <= |s|
    ensures i <= r <= |s|
  {
    if Is(s, i, LOWER_E) || Is(s, i, UPPER_E) then
      var minus := if Is(s, i + 1, MINUS) then i + 2 else i + 1;
      SkipExponent(s, if Is(s, minus, PLUS) then minus + 1 else minus, 0)
    else i
  }

  /** Where mg_atod stops. */
  function NumberEnd(s: seq<byte>, i: nat): (r: nat)
    requires i <= |s|
    ensures i <= r <= |s|
  {
    SkipPower(s, SkipFraction(s, SkipDigits(s, SkipSign(s, i))))
  }

  method ScanDigits(s: seq<byte>, start: nat) returns (i: nat)
    requires start <= |s|
    ensures i == SkipDigits(s, start)
  {
    i := start;
    while i < |s| && Digit(s[i])
      invariant start <= i <= |s| && SkipDigits(s, i) == SkipDigits(s, start)
    {
      i := i + 1;
    }
  }

  method ScanPower(s: seq<byte>, start: nat) returns (i: nat)
    requires start <= |s|
    ensures i == SkipPower(s, start)
  {
    i := start;
    if i < |s| && (s[i] == LOWER_E || s[i] == UPPER_E) {
      i := i + 1;
      if i < |s| && s[i] == MINUS {
        i := i + 1;
      }
      if i < |s| && s[i] == PLUS {
        i := i + 1;
      }
      ghost var first := i;
      var exp: nat := 0;
      while i < |s| && Digit(s[i]) && exp < 308
        invariant i <= |s| && SkipExponent(s, i, exp) == SkipExponent(s, first, 0)
      {
        exp := exp * 10 + (s[i] - 48);
        i := i + 1;
      }
    }
  }

  /** mg_atod, as far as the bytes it consumes. */
  method ScanNumber(s: seq<byte>, start: nat) returns (i: nat)
    requires start <= |s|
    ensures i == NumberEnd(s, start)
  {
    i := start;
    if i < |s| && s[i] == MINUS {
      i := i + 1;
    } else if i < |s| && s[i] == PLUS {
      i := i + 1;
    }
    i := ScanDigits(s, i);
    if i < |s| && s[i] == DOT {
      i := ScanDigits(s, i + 1);
    }
    i := ScanPower(s, i);
  }

  /** A number: section 6 of RFC 8259.  `frac` is empty when there is no fraction, `mark` when there
      is no exponent. */
  datatype Number = Number(neg: bool, whole: seq<byte>, frac: seq<byte>, mark: seq<byte>, power: seq<byte>)

  predicate AllDigits(d: seq<byte>)
  {
    forall k :: 0 <= k < |d| ==> Digit(d[k])
  }

  predicate ExponentMark(mark: seq<byte>)
  {
    && 1 <= |mark| <= 2 && (mark[0] == LOWER_E || mark[0] == UPPER_E)
    && (|mark| == 2 ==> mark[1] == PLUS || mark[1] == MINUS)
  }

  predicate NumberOk(n: Number)
  {
    && |n.whole| > 0 && AllDigits(n.whole) && (n.whole[0] == 48 ==> |n.whole| == 1)
    && AllDigits(n.frac)
    && if n.mark == [] then n.power == [] else ExponentMark(n.mark) && |n.power| > 0 && AllDigits(n.power)
  }

  function Sign(n: Number): seq<byte>
  {
    if n.neg then [MINUS] else []
  }

  function Fraction(n: Number): seq<byte>
  {
    if n.frac == [] then [] else [DOT] + n.frac
  }

  function NumberText(n: Number): seq<byte>
  {
    Sign(n) + n.whole + Fraction(n) + n.mark + n.power
  }

  function Decimal(d: seq<byte>): nat
    requires AllDigits(d)
  {
    if d == [] then 0 else 10 * Decimal(d[..|d| - 1]) + (d[|d| - 1] - 48)
  }

  /** The exponent is short enough: its value without the last digit is below 308. */
  predicate PowerFits(n: Number)
    requires AllDigits(n.power)
  {
    |n.power| <= 1 || Decimal(n.power[..|n.power| - 1]) < 308
  }

  lemma {:induction false} DecimalBound(d: seq<byte>)
    requires AllDigits(d) && |d| <= 2
    ensures Decimal(d) < 100
  {
    if d != [] {
      assert Decimal(d[..|d| - 1]) < 10;
    }
  }

  /** Three digits are always short enough. */
  lemma ThreeDigitsFit(n: Number)
    requires NumberOk(n) && |n.power| <= 3
    ensures PowerFits(n)
  {
    if |n.power| > 1 {
      DecimalBound(n.power[..|n.power| - 1]);
    }
  }

  /** The text of a number ends at `i`. */
  predicate Stops(s: seq<byte>, i: nat)
  {
    i < |s| ==> !Digit(s[i]) && s[i] != DOT && s[i] != LOWER_E && s[i] != UPPER_E
  }

  lemma {:induction false} DigitsSkipped(s: seq<byte>, i: nat, d: seq<byte>)
    requires AllDigits(d) && Holds(s, i, d) && (i + |d| < |s| ==> !Digit(s[i + |d|]))
    ensures SkipDigits(s, i) == i + |d|
    decreases |d|
  {
    if d != [] {
      assert s[i + 0] == d[0];
      HoldsTail(s, i, d, 1);
      DigitsSkipped(s, i + 1, d[1..]);
    }
  }

  lemma {:induction false} DecimalGrows(d: seq<byte>, k: nat)
    requires AllDigits(d) && k <= |d|
    ensures Decimal(d[..k]) <= Decimal(d)
    decreases |d|
  {
    if k < |d| {
      assert d[..|d| - 1][..k] == d[..k];
      DecimalGrows(d[..|d| - 1], k);
    } else {
      assert d[..k] == d;
    }
  }

  /** With the first `k` digits of the exponent read, the rest is read just when it fits. */
  lemma {:induction false} ExponentSkipped(s: seq<byte>, i: nat, d: seq<byte>, k: nat)
    requires AllDigits(d) && |d| > 0 && k <= |d| && Holds(s, i, d) && (i + |d| < |s| ==> !Digit(s[i + |d|]))
    requires k == |d| ==> |d| == 1 || Decimal(d[..|d| - 1]) < 308
    ensures SkipExponent(s, i + k, Decimal(d[..k])) == i + |d| <==> |d| == 1 || Decimal(d[..|d| - 1]) < 308
    decreases |d| - k
  {
    if k < |d| {
      assert s[i + k] == d[k];
      assert d[..k + 1][..k] == d[..k];
      var e := Decimal(d[..k]);
      assert Decimal(d[..k + 1]) == 10 * e + (d[k] - 48);
      assert d[..0] == [] && d[..|d| - 1][..k] == d[..k];
      DecimalGrows(d[..|d| - 1], k);
      if e < 308 {
        ExponentSkipped(s, i, d, k + 1);
      }
    }
  }

  /** No number character at `i`: digits, fraction and exponent end there. */
  predicate NoDigit(s: seq<byte>, i: nat)
  {
    i < |s| ==> !Digit(s[i])
  }

  lemma WholeRead(s: seq<byte>, i: nat, n: Number)
    requires NumberOk(n) && Holds(s, i, Sign(n) + n.whole) && NoDigit(s, i + |Sign(n)| + |n.whole|)
    ensures SkipDigits(s, SkipSign(s, i)) == i + |Sign(n)| + |n.whole|
  {
    HoldsBoth(s, i, Sign(n), n.whole);
    assert n.neg ==> s[i + 0] == Sign(n)[0];
    assert s[i + |Sign(n)| + 0] == n.whole[0];
    DigitsSkipped(s, i + |Sign(n)|, n.whole);
  }

  lemma FractionRead(s: seq<byte>, i: nat, n: Number)
    requires NumberOk(n) && Holds(s, i, Fraction(n)) && NoDigit(s, i + |Fraction(n)|)
    requires n.frac == [] ==> !Is(s, i, DOT)
    ensures SkipFraction(s, i) == i + |Fraction(n)|
  {
    if n.frac != [] {
      assert s[i + 0] == ([DOT] + n.frac)[0];
      HoldsBoth(s, i, [DOT], n.frac);
      DigitsSkipped(s, i + 1, n.frac);
    }
  }

  lemma PowerRead(s: seq<byte>, i: nat, n: Number)
    requires NumberOk(n) && Holds(s, i, n.mark + n.power) && Stops(s, i + |n.mark| + |n.power|)
    ensures SkipPower(s, i) == i + |n.mark| + |n.power| <==> PowerFits(n)
  {
    if n.mark != [] {
      HoldsBoth(s, i, n.mark, n.power);
      assert s[i + 0] == n.mark[0] && (|n.mark| == 2 ==> s[i + 1] == n.mark[1]);
      assert s[i + |n.mark| + 0] == n.power[0] && Digit(n.power[0]);
      assert n.power[..0] == [];
      ExponentSkipped(s, i + |n.mark|, n.power, 0);
    }
  }

  /** The fraction starts at `b`, the exponent at `c`. */
  lemma NumberParts(s: seq<byte>, i: nat, n: Number, b: nat, c: nat)
    requires NumberOk(n) && Holds(s, i, NumberText(n)) && Stops(s, i + |NumberText(n)|)
    requires b == i + |Sign(n)| + |n.whole| && c == b + |Fraction(n)|
    ensures Holds(s, i, Sign(n) + n.whole) && Holds(s, b, Fraction(n)) && Holds(s, c, n.mark + n.power)
    ensures NoDigit(s, b) && NoDigit(s, c) && (n.frac == [] ==> !Is(s, b, DOT)) && i <= b <= c <= |s|
    ensures c + |n.mark| + |n.power| == i + |NumberText(n)|
  {
    hide *;
    var front, tail := Sign(n) + n.whole, n.mark + n.power;
    NumberShape(n);
    HoldsBoth(s, i, front + Fraction(n), tail);
    HoldsBoth(s, i, front, Fraction(n));
    if tail != [] {
      HoldsFirst(s, c, tail);
      NoDigitAt(s, c);
    } else {
      StopsUnfold(s, c);
    }
    if Fraction(n) != [] {
      HoldsFirst(s, b, Fraction(n));
      NoDigitAt(s, b);
    }
    HoldsInside(s, i, front + Fraction(n) + tail);
  }

  lemma NumberShape(n: Number)
    requires NumberOk(n)
    ensures NumberText(n) == (Sign(n) + n.whole) + Fraction(n) + (n.mark + n.power)
    ensures n.mark + n.power == [] || (n.mark + n.power)[0] == LOWER_E || (n.mark + n.power)[0] == UPPER_E
    ensures Fraction(n) == [] <==> n.frac == []
    ensures Fraction(n) != [] ==> Fraction(n)[0] == DOT
  {
  }

  lemma NoDigitAt(s: seq<byte>, i: nat)
    requires i < |s| && (s[i] == DOT || s[i] == LOWER_E || s[i] == UPPER_E)
    ensures NoDigit(s, i) && (s[i] != DOT ==> !Is(s, i, DOT))
    ensures LOWER_E != DOT && UPPER_E != DOT
  {
  }

  lemma StopsUnfold(s: seq<byte>, i: nat)
    requires Stops(s, i)
    ensures NoDigit(s, i) && !Is(s, i, DOT)
  {
  }

  lemma HoldsInside(s: seq<byte>, at: nat, b: seq<byte>)
    requires Holds(s, at, b)
    ensures at + |b| <= |s|
  {
  }

  lemma NumberSteps(s: seq<byte>, i: nat, n: Number)
    requires NumberOk(n) && i <= |s|
    ensures AllDigits(n.power)
    ensures NumberEnd(s, i) == SkipPower(s, SkipFraction(s, SkipDigits(s, SkipSign(s, i))))
  {
  }

  /** mg_atod consumes a number, all of it exactly when its exponent is short enough. */
  lemma NumberRead(s: seq<byte>, i: nat, n: Number)
    requires NumberOk(n) && Holds(s, i, NumberText(n)) && Stops(s, i + |NumberText(n)|)
    ensures NumberEnd(s, i) == i + |NumberText(n)| <==> PowerFits(n)
  {
    hide *;
    var b := i + |Sign(n)| + |n.whole|;
    var c := b + |Fraction(n)|;
    NumberParts(s, i, n, b, c);
    NumberSteps(s, i, n);
    WholeRead(s, i, n);
    FractionRead(s, b, n);
    PowerRead(s, c, n);
  }
}
