/** Strings to JSON and back: qcpy, mg_json_unescape and mg_json_get_str. */
module JsonString {
  import opened Bytes
  import opened JsonLex
  import opened Json

  // ----- qcpy -----

  function EscapedChar(c: byte): seq<byte>
  {
    if EscapeLetter(c) != 0 then [BACKSLASH, EscapeLetter(c)] else [c]
  }

  /** What qcpy prints for a string without a zero byte. */
  function Escaped(s: seq<byte>): seq<byte>
  {
    if s == [] then [] else EscapedChar(s[0]) + Escaped(s[1..])
  }

  lemma {:induction false} EscapedAppend(a: seq<byte>, b: seq<byte>)
    ensures Escaped(a + b) == Escaped(a) + Escaped(b)
  {
    if a == [] {
      assert a + b == b;
    } else {
      assert (a + b)[1..] == a[1..] + b;
      EscapedAppend(a[1..], b);
      assert EscapedChar(a[0]) + (Escaped(a[1..]) + Escaped(b)) == Escaped(a) + Escaped(b);
    }
  }

  /** qcpy: it stops at a zero byte, and returns how much it printed. */
  method Qcpy(buf: seq<byte>) returns (printed: seq<byte>, n: nat)
    ensures 0 !in buf ==> printed == Escaped(buf)
    ensures exists i :: 0 <= i <= |buf| && (i < |buf| ==> buf[i] == 0) && 0 !in buf[..i] && printed == Escaped(buf[..i])
    ensures n == |printed|
  {
    printed := [];
    var i, extra := 0, 0;
    while i < |buf| && buf[i] != 0
      invariant 0 <= i <= |buf| && 0 !in buf[..i] && printed == Escaped(buf[..i])
      invariant i + extra == |printed|
    {
      EscapedAppend(buf[..i], [buf[i]]);
      assert buf[..i + 1] == buf[..i] + [buf[i]] && [buf[i]][1..] == [];
      assert Escaped([buf[i]]) == EscapedChar(buf[i]);
      var c := JsonEsc(buf[i], true);
      if c != 0 {
        printed, extra := printed + [BACKSLASH, c], extra + 1;
      } else {
        printed := printed + [buf[i]];
      }
      i := i + 1;
    }
    n := i + extra;
    assert i == |buf| ==> buf[..i] == buf;
  }

  // ----- mg_json_unescape -----

  /** Two digits, shifted and combined as bits. */
  function UnhexByte(a: byte, b: byte): byte
  {
    (((Nibble(a) as bv8) << 4) | (Nibble(b) as bv8)) as byte
  }

  lemma ShiftedNibble(x: bv8, y: bv8)
    requires x < 16 && y < 16
    ensures ((x << 4) | y) as int == ((x << 4) as int) + (y as int) && (x << 4) as int == 16 * (x as int)
  {
  }

  lemma NibbleBits(x: nat)
    requires x < 16
    ensures (x as bv8) < 16 && (x as bv8) as int == x
  {
  }

  lemma NibblesJoined(a: byte, b: byte)
    requires HexDigit(a) && HexDigit(b)
    ensures UnhexByte(a, b) == 16 * Nibble(a) + Nibble(b)
  {
    NibbleBits(Nibble(a));
    NibbleBits(Nibble(b));
    hide Nibble;
    ShiftedNibble(Nibble(a) as bv8, Nibble(b) as bv8);
  }

  /** A byte of the text, and the `len` bytes that stand for it. */
  datatype Piece = Bad | Piece(c: byte, len: nat)

  function PieceAt(s: seq<byte>, i: nat): (p: Piece)
    requires i < |s|
    ensures p.Piece? ==> 0 < p.len && i + p.len <= |s|
  {
    if s[i] == BACKSLASH && i + 5 < |s| && s[i + 1] == LOWER_U then
      if s[i + 2] != 48 || s[i + 3] != 48 then Bad else Piece(UnhexByte(s[i + 4], s[i + 5]), 6)
    else if s[i] == BACKSLASH && i + 1 < |s| then
      if EscapedByte(s[i + 1]) == 0 then Bad else Piece(EscapedByte(s[i + 1]), 2)
    else Piece(s[i], 1)
  }

  /** mg_json_unescape from offset `i` on, with `room` bytes of the destination left. */
  function Unescape(s: seq<byte>, i: nat, room: nat): Partial
    decreases |s| - i
  {
    if room == 0 then Fails
    else if i >= |s| then Yields([])
    else
      match PieceAt(s, i)
      case Bad => Fails
      case Piece(c, len) => Then([c], Unescape(s, i + len, room - 1))
  }

  lemma UnescapeStep(s: seq<byte>, i: nat, room: nat)
    ensures room == 0 ==> Unescape(s, i, room) == Fails
    ensures room > 0 && i >= |s| ==> Unescape(s, i, room) == Yields([])
    ensures room > 0 && i < |s| ==>
              var piece := PieceAt(s, i);
              Unescape(s, i, room) == if piece.Bad? then Fails
                                      else Then([piece.c], Unescape(s, i + piece.len, room - 1))
  {
    hide PieceAt;
  }

  /** mg_json_unescape: the text in `to`, ended by a zero byte. */
  method JsonUnescape(s: seq<byte>, to: array<byte>) returns (ok: bool)
    modifies to
    ensures match Unescape(s, 0, to.Length)
            case Fails => !ok
            case Yields(out) => ok && |out| < to.Length && to[..|out|] == out && to[|out|] == 0
  {
    hide Unescape, UnhexByte;
    var i, j := 0, 0;
    ghost var done: seq<byte> := [];
    while i < |s| && j < to.Length
      invariant 0 <= i <= |s| && 0 <= j <= to.Length && done == to[..j]
      invariant Unescape(s, 0, to.Length) == Then(done, Unescape(s, i, to.Length - j))
    {
      UnescapeStep(s, i, to.Length - j);
      ghost var piece := PieceAt(s, i);
      ghost var rest := if piece.Bad? then Fails else Unescape(s, i + piece.len, to.Length - j - 1);
      if s[i] == BACKSLASH && i + 5 < |s| && s[i + 1] == LOWER_U {
        if s[i + 2] != 48 || s[i + 3] != 48 {
          return false;
        }
        to[j] := UnhexByte(s[i + 4], s[i + 5]);
        i := i + 5;
      } else if s[i] == BACKSLASH && i + 1 < |s| {
        var c := JsonEsc(s[i + 1], false);
        if c == 0 {
          return false;
        }
        to[j] := c;
        i := i + 1;
      } else {
        to[j] := s[i];
      }
      assert to[..j + 1] == done + [piece.c];
      ThenTwice(done, [piece.c], rest);
      i, j, done := i + 1, j + 1, done + [piece.c];
    }
    UnescapeStep(s, i, to.Length - j);
    if j >= to.Length {
      return false;
    }
    to[j] := 0;
    assert done + [] == to[..j];
    return true;
  }

  function GetStr(json: seq<byte>, path: seq<byte>): Partial
  {
    match Get(json, path)
    case Found(start, len) =>
      if 1 < len && start + len <= |json| && json[start] == QUOTE
      then Unescape(json[start + 1..start + len - 1], 0, len) else Fails
    case _ => Fails
  }

  /** mg_json_get_str: a new string, or null when there is no string at `path`. */
  method JsonGetStr(json: seq<byte>, path: seq<byte>) returns (result: array?<byte>)
    ensures match GetStr(json, path)
            case Fails => result == null
            case Yields(out) =>
              result != null && fresh(result) && |out| < result.Length && result[..|out|] == out && result[|out|] == 0
  {
    hide Run, Unescape;
    result := null;
    var off, len := MgJsonGet(json, path);
    SpanInside(json, path, START);
    if off >= 0 && len > 1 && json[off] == QUOTE {
      var to := new byte[len];
      var ok := JsonUnescape(json[off + 1..off + len - 1], to);
      if ok {
        result := to;
      }
    }
  }

  // ----- the round trip -----

  /** The search for the closing quote passes over what qcpy prints. */
  lemma {:induction false} EscapedPassed(s: seq<byte>, at: nat, text: seq<byte>)
    requires 0 !in text && Holds(s, at, Escaped(text)) && at + |Escaped(text)| < |s| && s[at + |Escaped(text)|] == QUOTE
    ensures PassString(s, at) == QuoteAt(at + |Escaped(text)|)
    decreases |text|
  {
    if text != [] {
      var c := EscapedChar(text[0]);
      HoldsBoth(s, at, c, Escaped(text[1..]));
      assert s[at + 0] == c[0] && (|c| == 2 ==> s[at + 1] == c[1]);
      EscapedPassed(s, at + |c|, text[1..]);
    }
  }

  /** mg_json_unescape gives the text back, given room for it and its final zero. */
  lemma {:induction false} EscapeUndone(s: seq<byte>, i: nat, text: seq<byte>, room: nat)
    requires 0 !in text && i <= |s| && s[i..] == Escaped(text) && room > |text|
    ensures Unescape(s, i, room) == Yields(text)
    decreases |text|
  {
    hide PieceAt, EscapedChar, Escaped, Unescape;
    UnescapeStep(s, i, room);
    if text == [] {
      NothingEscaped();
    } else {
      var c := EscapedChar(text[0]);
      PieceBack(s, i, text);
      EscapeUndone(s, i + |c|, text[1..], room - 1);
      assert [text[0]] + text[1..] == text;
    }
  }

  lemma NothingEscaped()
    ensures Escaped([]) == []
  {
  }

  lemma PieceBack(s: seq<byte>, i: nat, text: seq<byte>)
    requires text != [] && 0 !in text && i <= |s| && s[i..] == Escaped(text)
    ensures var n := |EscapedChar(text[0])|;
            && i + n <= |s| && PieceAt(s, i) == Piece(text[0], n) && s[i + n..] == Escaped(text[1..])
  {
    hide Escaped, UnhexByte;
    var c, rest := EscapedChar(text[0]), Escaped(text[1..]);
    EscapeInverse(text[0]);
    EscapedUnfold(text);
    Front(s, i, c, rest);
  }

  lemma EscapedUnfold(text: seq<byte>)
    requires text != []
    ensures Escaped(text) == EscapedChar(text[0]) + Escaped(text[1..])
  {
  }

  lemma Front(s: seq<byte>, i: nat, c: seq<byte>, rest: seq<byte>)
    requires i <= |s| && s[i..] == c + rest && |c| > 0
    ensures i + |c| <= |s| && s[i] == c[0] && s[i + |c|..] == rest
    ensures |c| > 1 ==> s[i + 1] == c[1]
  {
    assert s[i] == s[i..][0] && (|c| > 1 ==> s[i + 1] == s[i..][1]);
    assert s[i + |c|..] == s[i..][|c|..];
  }

  /** A byte as an escape of four hexadecimal digits. */
  function UnicodeChar(c: byte): seq<byte>
  {
    [BACKSLASH, 117, 48, 48] + ["0123456789abcdef"[c / 16] as byte, "0123456789abcdef"[c % 16] as byte]
  }

  function UnicodeEscaped(text: seq<byte>): seq<byte>
  {
    if text == [] then [] else UnicodeChar(text[0]) + UnicodeEscaped(text[1..])
  }

  /** The escape of a byte, in digits of either case. */
  lemma UnicodePiece(s: seq<byte>, i: nat)
    requires i + 6 <= |s| && s[i..i + 4] == [BACKSLASH, 117, 48, 48] && HexDigit(s[i + 4]) && HexDigit(s[i + 5])
    ensures PieceAt(s, i) == Piece(16 * Nibble(s[i + 4]) + Nibble(s[i + 5]), 6)
  {
    var t := s[i..i + 4];
    assert s[i] == t[0] && s[i + 1] == t[1] && s[i + 2] == t[2] && s[i + 3] == t[3];
    NibblesJoined(s[i + 4], s[i + 5]);
    hide Nibble, UnhexByte;
  }

  lemma UnicodeBack(s: seq<byte>, i: nat, c: byte, rest: seq<byte>)
    requires i <= |s| && s[i..] == UnicodeChar(c) + rest
    ensures i + 6 <= |s| && PieceAt(s, i) == Piece(c, 6) && s[i + 6..] == rest
  {
    hide *;
    var u := UnicodeChar(c);
    UnicodeShape(c);
    Front(s, i, u, rest);
    assert s[i..][..4] == s[i..i + 4] && s[i + 4] == s[i..][4] && s[i + 5] == s[i..][5];
    assert (u + rest)[..4] == u[..4] && (u + rest)[4] == u[4] && (u + rest)[5] == u[5];
    UnicodePiece(s, i);
  }

  lemma UnicodeShape(c: byte)
    ensures var u := UnicodeChar(c);
            && |u| == 6 && u[..4] == [BACKSLASH, 117, 48, 48] && HexDigit(u[4]) && HexDigit(u[5])
            && 16 * Nibble(u[4]) + Nibble(u[5]) == c
  {
    NibbleOfDigit(c / 16);
    NibbleOfDigit(c % 16);
    hide Nibble, HexDigit;
  }

  /** mg_json_unescape gives any bytes back that are all written in this way, zero bytes included. */
  lemma {:induction false} UnicodeUndone(s: seq<byte>, i: nat, text: seq<byte>, room: nat)
    requires i <= |s| && s[i..] == UnicodeEscaped(text) && room > |text|
    ensures Unescape(s, i, room) == Yields(text)
    decreases |text|
  {
    hide PieceAt, UnicodeChar, Unescape;
    UnescapeStep(s, i, room);
    if text != [] {
      UnicodeBack(s, i, text[0], UnicodeEscaped(text[1..]));
      UnicodeUndone(s, i + 6, text[1..], room - 1);
      assert [text[0]] + text[1..] == text;
    }
  }

  lemma {:induction false} EscapedIsLonger(text: seq<byte>)
    ensures |Escaped(text)| >= |text|
  {
    if text != [] {
      EscapedIsLonger(text[1..]);
    }
  }

  function Quoted(text: seq<byte>): seq<byte>
  {
    [QUOTE] + Escaped(text) + [QUOTE]
  }

  lemma QuotedFound(text: seq<byte>, tail: seq<byte>)
    requires 0 !in text
    ensures Get(Quoted(text) + tail, [DOLLAR]) == Found(0, |Escaped(text)| + 2)
  {
    var s, n := Quoted(text) + tail, |Escaped(text)|;
    assert s[0] == QUOTE && s[1 + n] == QUOTE && Holds(s, 1, Escaped(text));
    EscapedPassed(s, 1, text);
    hide Escaped, Quoted, PassString, NumberEnd, Holds;
    QuoteStep(s, n);
  }

  lemma QuoteStep(s: seq<byte>, n: nat)
    requires |s| > 0 && s[0] == QUOTE && PassString(s, 1) == QuoteAt(1 + n)
    ensures Run(s, [DOLLAR], START) == Found(0, n + 2)
  {
    WordStarts(s, 0, TRUE);
    WordStarts(s, 0, NULL);
    WordStarts(s, 0, FALSE);
    hide PassString, NumberEnd, Holds;
    assert ScalarLast(s, 0) == 1 + n;
    assert Step(s, [DOLLAR], START) == Done(Found(0, n + 2));
  }

  /** A string without zero bytes, printed by qcpy between quotes, is read back unchanged. */
  lemma QuotedReadsBack(text: seq<byte>, tail: seq<byte>)
    requires 0 !in text
    ensures GetStr(Quoted(text) + tail, [DOLLAR]) == Yields(text)
  {
    var s, inner := Quoted(text) + tail, Escaped(text);
    QuotedFound(text, tail);
    EscapedIsLonger(text);
    assert s[1..1 + |inner|] == inner && s[0] == QUOTE;
    assert inner[0..] == inner;
    EscapeUndone(inner, 0, text, |inner| + 2);
  }
}
