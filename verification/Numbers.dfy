/** mg_lld and mg_to_size_t: numbers printed and read. */
module Numbers {
  import opened Bytes
  import IoBuf
  import opened JsonLex

  predicate Padding(c: byte)
  {
    c == 32 || c == 9
  }

  lemma PaddingIs(c: byte)
    ensures Padding(c) <==> c as char in " \t"
  {
  }

  // ----- mg_to_size_t -----

  predicate PaddingIn(s: seq<byte>, a: nat, b: nat)
  {
    a <= b <= |s| && forall i :: a <= i < b ==> Padding(s[i])
  }

  predicate DigitsIn(s: seq<byte>, a: nat, b: nat)
  {
    a <= b <= |s| && forall i :: a <= i < b ==> Digit(s[i])
  }

  /** The number that the digits from `a` to `b` spell. */
  function Value(s: seq<byte>, a: nat, b: nat): nat
    requires DigitsIn(s, a, b)
  {
    Decimal(s[a..b])
  }

  lemma ValueStep(s: seq<byte>, a: nat, b: nat)
    requires DigitsIn(s, a, b) && b < |s| && Digit(s[b])
    ensures DigitsIn(s, a, b + 1) && Value(s, a, b + 1) == Value(s, a, b) * 10 + (s[b] - 48)
  {
    assert s[a..b + 1][..b - a] == s[a..b];
  }

  /** Blanks, the digits from `a` to `b`, blanks. */
  predicate Numeral(s: seq<byte>, a: nat, b: nat)
  {
    a < b && PaddingIn(s, 0, a) && DigitsIn(s, a, b) && PaddingIn(s, b, |s|)
  }

  ghost predicate Spells(s: seq<byte>, v: nat)
  {
    exists a: nat, b: nat :: Numeral(s, a, b) && Value(s, a, b) == v
  }

  lemma OneNumeral(s: seq<byte>, a: nat, b: nat, c: nat, d: nat)
    requires Numeral(s, a, b) && Numeral(s, c, d)
    ensures a == c && b == d
  {
    assert Digit(s[a]) && Digit(s[c]) && Digit(s[b - 1]) && Digit(s[d - 1]);
  }

  /** A text spells one number at most. */
  lemma OneValue(s: seq<byte>, v: nat, w: nat)
    requires Spells(s, v) && Spells(s, w)
    ensures v == w
  {
    var a: nat, b: nat :| Numeral(s, a, b) && Value(s, a, b) == v;
    var c: nat, d: nat :| Numeral(s, c, d) && Value(s, c, d) == w;
    OneNumeral(s, a, b, c, d);
  }

  lemma ValueGrows(s: seq<byte>, a: nat, b: nat, d: nat)
    requires DigitsIn(s, a, d) && a <= b <= d
    ensures Value(s, a, b) <= Value(s, a, d)
  {
    assert s[a..d][..b - a] == s[a..b];
    DecimalGrows(s[a..d], b - a);
  }

  /** Once the digits read so far exceed the limit no numeral fits. */
  lemma TooLarge(s: seq<byte>, a: nat, i: nat)
    requires a < i && PaddingIn(s, 0, a) && DigitsIn(s, a, i) && Value(s, a, i) >= TWO_TO_THE_64
    ensures forall v: nat :: Spells(s, v) ==> v >= TWO_TO_THE_64
  {
    forall v: nat | Spells(s, v)
      ensures v >= TWO_TO_THE_64
    {
      var c: nat, d: nat :| Numeral(s, c, d) && Value(s, c, d) == v;
      assert Digit(s[a]) && Digit(s[c]) && c == a;
      assert Digit(s[i - 1]) && d >= i;
      ValueGrows(s, a, i, d);
    }
  }

  /** Without digits where the leading blanks end, or with something behind the trailing ones, there is no
      numeral. */
  lemma NoNumeral(s: seq<byte>, a: nat, b: nat, i: nat, v: nat)
    requires PaddingIn(s, 0, a) && DigitsIn(s, a, b) && PaddingIn(s, b, i)
    requires (a < |s| ==> !Padding(s[a])) && (b < |s| ==> !Digit(s[b])) && (i < |s| ==> !Padding(s[i]))
    requires a == b || i < |s|
    ensures !Spells(s, v)
  {
  }

  /** mg_to_size_t: it accepts just the padded numerals below 2^64, and returns their value. */
  method MgToSizeT(s: seq<byte>) returns (ok: bool, val: nat)
    ensures ok ==> Spells(s, val) && val < TWO_TO_THE_64
    ensures !ok ==> forall v: nat :: Spells(s, v) ==> v >= TWO_TO_THE_64
  {
    hide Spells, Value;
    ok, val := false, 0;
    EmptyValue(s);
    var i, max := 0, TWO_TO_THE_64 - 1;
    var result, ndigits := 0, 0;
    while i < |s| && Padding(s[i])
      invariant PaddingIn(s, 0, i)
    {
      i := i + 1;
    }
    ghost var a := i;
    if i < |s| && s[i] == MINUS {
      forall v: nat
        ensures !Spells(s, v)
      {
        NoNumeral(s, a, a, a, v);
      }
      return;
    }
    while i < |s| && Digit(s[i])
      invariant ndigits == i - a >= 0 && DigitsIn(s, a, i) && result == Value(s, a, i) <= max
    {
      var digit := s[i] - 48;
      ValueStep(s, a, i);
      if result > max / 10 {
        TooLarge(s, a, i + 1);
        return;
      }
      result := result * 10;
      if result > max - digit {
        TooLarge(s, a, i + 1);
        return;
      }
      result := result + digit;
      i, ndigits := i + 1, ndigits + 1;
    }
    ghost var b := i;
    while i < |s| && Padding(s[i])
      invariant PaddingIn(s, b, i)
    {
      i := i + 1;
    }
    if ndigits == 0 || i != |s| {
      forall v: nat
        ensures !Spells(s, v)
      {
        NoNumeral(s, a, b, i, v);
      }
      return;
    }
    NumeralSpells(s, a, b);
    ok, val := true, result;
  }

  lemma EmptyValue(s: seq<byte>)
    ensures forall a: nat :: a <= |s| ==> Value(s, a, a) == 0
  {
  }

  lemma NumeralSpells(s: seq<byte>, a: nat, b: nat)
    requires Numeral(s, a, b)
    ensures Spells(s, Value(s, a, b))
  {
  }

  // ----- mg_lld -----

  function Letter(d: nat): byte
    requires d < 16
  {
    if d < 10 then d + 48 else d + 87
  }

  /** The digits of a number, none for zero. */
  function Digits(v: nat, base: nat): seq<byte>
    requires base == 10 || base == 16
  {
    if v == 0 then [] else Digits(v / base, base) + [Letter(v % base)]
  }

  function Reversed(s: seq<byte>): (r: seq<byte>)
    ensures |r| == |s|
  {
    if s == [] then [] else Reversed(s[1..]) + [s[0]]
  }

  lemma {:induction false} ReversedAt(s: seq<byte>, k: nat)
    requires k < |s|
    ensures Reversed(s)[k] == s[|s| - 1 - k]
  {
    if k < |s| - 1 {
      ReversedAt(s[1..], k);
    }
  }

  lemma {:induction false} ReversedPush(s: seq<byte>, c: byte)
    ensures Reversed(s + [c]) == [c] + Reversed(s)
  {
    if s != [] {
      assert (s + [c])[1..] == s[1..] + [c];
      ReversedPush(s[1..], c);
    }
  }

  /** What mg_lld prints: a sign, and the digits of a 64-bit value. */
  function Printed(val: int, signed: bool, hex: bool): seq<byte>
  {
    var negative := signed && val < 0;
    var v := if negative then -val else val % TWO_TO_THE_64;
    if val == 0 then [48] else (if negative then [MINUS] else []) + Digits(v, if hex then 16 else 10)
  }

  /** mg_lld: the digits are written backwards and then reversed in place. */
  method MgLld(buf: array<byte>, val: int, signed: bool, hex: bool) returns (len: nat)
    requires -0x8000_0000_0000_0000 <= val < 0x8000_0000_0000_0000 && |Printed(val, signed, hex)| <= buf.Length
    modifies buf
    ensures len == |Printed(val, signed, hex)| && buf[..len] == Printed(val, signed, hex)
  {
    hide Digits, Reversed, Letter;
    var v: nat, s: nat := val % TWO_TO_THE_64, 0;
    if signed && val < 0 {
      buf[0] := MINUS;
      s, v := 1, -val;
    }
    ghost var sign, base := if s == 1 then [MINUS] else [], if hex then 16 else 10;
    ghost var digits := Digits(v, base);
    NoDigits(base);
    assert val != 0 ==> Printed(val, signed, hex) == sign + digits;
    assert buf[..s] == sign;
    var n := WriteDigits(buf, s, v, if hex then 16 else 10);
    Reverse(buf, s, n);
    ReversedTwice(digits);
    IoBuf.Slices(buf, s + n, s);
    if val == 0 {
      buf[n] := 48;
      n := n + 1;
    }
    len := n + s;
  }

  lemma NoDigits(base: nat)
    requires base == 10 || base == 16
    ensures Digits(0, base) == []
  {
  }

  lemma {:induction false} ReversedTwice(s: seq<byte>)
    ensures Reversed(Reversed(s)) == s
  {
    if s != [] {
      ReversedTwice(s[1..]);
      ReversedPush(Reversed(s[1..]), s[0]);
      assert [s[0]] + s[1..] == s;
    }
  }

  lemma DigitsStep(v: nat, base: nat)
    requires (base == 10 || base == 16) && v > 0
    ensures v / base < v && Digits(v, base) == Digits(v / base, base) + [Letter(v % base)]
  {
    hide Letter;
    if base == 10 {
      assert v / 10 < v;
    } else {
      assert v / 16 < v;
    }
  }

  /** The digits, least significant first. */
  method WriteDigits(buf: array<byte>, s: nat, value: nat, base: nat) returns (n: nat)
    requires (base == 10 || base == 16) && s + |Digits(value, base)| <= buf.Length
    modifies buf
    ensures n == |Digits(value, base)| && buf[s..s + n] == Reversed(Digits(value, base)) && buf[..s] == old(buf[..s])
  {
    hide Digits, Letter, Reversed;
    var v: nat := value;
    n := 0;
    ghost var rest: seq<byte> := [];
    NoDigits(base);
    assert Reversed([]) == [] by {
      EmptyReversed();
    }
    while v > 0
      invariant Digits(value, base) == Digits(v, base) + rest && n == |rest| && s + n <= buf.Length
      invariant buf[s..s + n] == Reversed(rest) && buf[..s] == old(buf[..s])
      decreases v
    {
      DigitsStep(v, base);
      FirstReversed(Letter(v % base), rest);
      ghost var was := buf[s..s + n];
      buf[s + n] := Letter(v % base);
      assert buf[s..s + n + 1] == was + [Letter(v % base)];
      rest := [Letter(v % base)] + rest;
      n, v := n + 1, v / base;
    }
    assert [] + rest == rest;
  }

  lemma EmptyReversed()
    ensures Reversed([]) == []
  {
  }

  lemma FirstReversed(c: byte, s: seq<byte>)
    ensures Reversed([c] + s) == Reversed(s) + [c]
  {
    assert ([c] + s)[1..] == s;
  }

  method Reverse(buf: array<byte>, s: nat, n: nat)
    requires s + n <= buf.Length
    modifies buf
    ensures buf[s..s + n] == Reversed(old(buf[s..s + n])) && buf[..s] == old(buf[..s])
  {
    ghost var was := buf[s..s + n];
    ghost var all := buf[..];
    for i := 0 to n / 2
      invariant forall m :: 0 <= m < s ==> buf[m] == all[m]
      invariant forall m :: s <= m < s + i ==> buf[m] == all[s + n - 1 - (m - s)]
      invariant forall m :: s + n - i <= m < s + n ==> buf[m] == all[s + n - 1 - (m - s)]
      invariant forall m :: s + i <= m < s + n - i ==> buf[m] == all[m]
    {
      var t := buf[s + i];
      buf[s + i] := buf[s + n - i - 1];
      buf[s + n - i - 1] := t;
    }
    MirrorReversed(all, buf[..], s, n);
    assert buf[..s] == buf[..][..s] && buf[s..s + n] == buf[..][s..s + n];
  }

  lemma MirrorReversed(was: seq<byte>, now: seq<byte>, s: nat, n: nat)
    requires s + n <= |was| == |now|
    requires forall m :: 0 <= m < s ==> now[m] == was[m]
    requires forall m :: s <= m < s + n ==> now[m] == was[s + n - 1 - (m - s)]
    ensures now[s..s + n] == Reversed(was[s..s + n]) && now[..s] == was[..s]
  {
    hide Reversed;
    var part, turned := now[s..s + n], Reversed(was[s..s + n]);
    forall k | 0 <= k < n
      ensures part[k] == turned[k]
    {
      ReversedAt(was[s..s + n], k);
      assert now[s + k] == was[s + n - 1 - k];
    }
  }

  // ----- printing and reading -----

  lemma {:induction false} DigitsValue(v: nat)
    ensures var d := Digits(v, 10); DigitsIn(d, 0, |d|) && Value(d, 0, |d|) == v
    decreases v
  {
    var d := Digits(v, 10);
    assert d[0..|d|] == d;
    if v > 0 {
      var front := Digits(v / 10, 10);
      DigitsValue(v / 10);
      assert front[0..|front|] == front == d[..|d| - 1];
    }
  }

  /** What mg_lld prints for a 64-bit value, unsigned and in decimal, spells that value for mg_to_size_t. */
  lemma PrintedReadsBack(val: int)
    requires -0x8000_0000_0000_0000 <= val < 0x8000_0000_0000_0000
    ensures Spells(Printed(val, false, false), val % TWO_TO_THE_64)
  {
    var s := Printed(val, false, false);
    if val == 0 {
      EmptyValue(s);
      ValueStep(s, 0, 0);
      assert Numeral(s, 0, 1);
    } else {
      DigitsValue(val % TWO_TO_THE_64);
      assert s == Digits(val % TWO_TO_THE_64, 10) != [];
      NumeralSpells(s, 0, |s|);
    }
  }

  lemma LetterIs(d: nat)
    requires d < 16
    ensures Letter(d) == "0123456789abcdef"[d] as byte && HexDigit(Letter(d)) && Nibble(Letter(d)) == d
  {
  }

  lemma {:induction false} HexDigits(v: nat)
    ensures AllHex(Digits(v, 16)) && Hex(Digits(v, 16)) == v
    decreases v
  {
    var d := Digits(v, 16);
    if v > 0 {
      var front := Digits(v / 16, 16);
      HexDigits(v / 16);
      LetterIs(v % 16);
      hide Letter, Nibble, HexDigit;
      assert d == front + [Letter(v % 16)] && d[..|d| - 1] == front;
      assert v == v / 16 * 16 + v % 16;
    }
  }

  /** In hexadecimal it is the number of section 7.1 of RFC 9112, in lower case. */
  lemma PrintedHex(val: int)
    requires -0x8000_0000_0000_0000 <= val < 0x8000_0000_0000_0000
    ensures var s := Printed(val, false, true); s != [] && AllHex(s) && Hex(s) == val % TWO_TO_THE_64
  {
    hide Digits, Printed, AllHex, Hex;
    if val == 0 {
      ZeroPrinted();
    } else {
      HexDigits(val % TWO_TO_THE_64);
      SomeDigit(val % TWO_TO_THE_64, 16);
      UnsignedPrinted(val);
    }
  }

  lemma ZeroPrinted()
    ensures Printed(0, false, true) == [48] && AllHex([48]) && Hex([48]) == 0 && 0 % TWO_TO_THE_64 == 0
  {
    assert [48][..0] == [] && Hex([]) == 0;
  }

  lemma UnsignedPrinted(val: int)
    requires -0x8000_0000_0000_0000 <= val < 0x8000_0000_0000_0000 && val != 0
    ensures 0 < val % TWO_TO_THE_64 && Printed(val, false, true) == Digits(val % TWO_TO_THE_64, 16)
  {
    hide Digits;
  }

  lemma SomeDigit(v: nat, base: nat)
    requires (base == 10 || base == 16) && v > 0
    ensures Digits(v, base) != []
  {
  }

  /** A negative number is printed as a minus and the number without its sign. */
  lemma PrintedNegative(val: int)
    requires -0x8000_0000_0000_0000 <= val < 0
    ensures var s := Printed(val, true, false); s != [] && s[0] == MINUS && Spells(s[1..], -val)
    ensures var s := Printed(val, true, true); |s| > 1 && s[0] == MINUS && AllHex(s[1..]) && Hex(s[1..]) == -val
  {
    hide *;
    NegativeDigits(val);
    HexDigits(-val);
    SomeDigit(-val, 16);
    DecimalSpells(-val);
    assert ([MINUS] + Digits(-val, 10))[1..] == Digits(-val, 10);
    assert ([MINUS] + Digits(-val, 16))[1..] == Digits(-val, 16);
  }

  lemma DecimalSpells(v: nat)
    requires v > 0
    ensures Spells(Digits(v, 10), v)
  {
    SomeDigit(v, 10);
    DigitsValue(v);
    hide Digits, Spells, Value;
    NumeralSpells(Digits(v, 10), 0, |Digits(v, 10)|);
  }

  lemma NegativeDigits(val: int)
    requires -0x8000_0000_0000_0000 <= val < 0
    ensures Printed(val, true, false) == [MINUS] + Digits(-val, 10)
    ensures Printed(val, true, true) == [MINUS] + Digits(-val, 16)
  {
  }

  lemma PrintedPositive(val: int, hex: bool)
    requires 0 <= val < 0x8000_0000_0000_0000
    ensures Printed(val, true, hex) == Printed(val, false, hex)
  {
  }
}
