/** skip_chunk, and the two passes of http_cb over a chunked body. */
module Chunked {
  import opened Bytes
  import opened IoBuf
  import Numbers

  const CR: byte := 13
  const LF: byte := 10

  /** mg_unhexn: shifted into 64 bits. */
  function Unhex(d: seq<byte>): nat
    requires AllHex(d)
  {
    if d == [] then 0 else (Unhex(d[..|d| - 1]) * 16 + Nibble(d[|d| - 1])) % TWO_TO_THE_64
  }

  /** The cast to a 32-bit int. */
  function ToInt(v: nat): int
  {
    var low := v % TWO_TO_THE_32;
    if low >= 0x8000_0000 then low - TWO_TO_THE_32 else low
  }

  function HexEnd(t: seq<byte>, i: nat, len: nat): (r: nat)
    requires i <= len <= |t|
    ensures i <= r <= len && (forall k :: i <= k < r ==> HexDigit(t[k])) && (r < len ==> !HexDigit(t[r]))
    decreases len - i
  {
    if i < len && HexDigit(t[i]) then HexEnd(t, i + 1, len) else i
  }

  /** What skip_chunk returns: more bytes are needed, an error, or a chunk of `cl` bytes with `dl` bytes
      of data at offset `pl`. */
  datatype Skip = More | Bad | Chunk(cl: nat, pl: nat, dl: nat)

  predicate CrLf(t: seq<byte>, i: nat)
  {
    i + 1 < |t| && t[i] == CR && t[i + 1] == LF
  }

  /** `t` is the memory from the chunk on, of which `len` bytes are filled; only behind the digits the
      code looks one byte further. */
  function SkipChunk(t: seq<byte>, len: nat): (r: Skip)
    requires len <= |t|
    ensures r.Chunk? ==> r.cl == r.pl + r.dl + 2 <= len && 2 <= r.pl
  {
    if len < 3 then More
    else
      var i := HexEnd(t, 0, len);
      if len < i + 1 || !CrLf(t, i) then Bad
      else
        var n := ToInt(Unhex(t[..i]));
        if n < 0 then Bad
        else if len < i + n + 4 then More
        else if !CrLf(t, i + n + 2) then Bad
        else Chunk(i + 2 + n + 2, i + 2, n)
  }

  /** The body up to the empty chunk, `end` bytes in all. */
  datatype Body = Unfinished | Invalid | Complete(end: nat, data: seq<byte>)

  function Prepend(n: nat, front: seq<byte>, b: Body): Body
  {
    match b
    case Complete(end, data) => Complete(n + end, front + data)
    case _ => b
  }

  function Decode(t: seq<byte>, len: nat): (b: Body)
    requires len <= |t|
    ensures b.Complete? ==> b.end <= len && |b.data| <= b.end
    decreases len
  {
    match SkipChunk(t, len)
    case More => Unfinished
    case Bad => Invalid
    case Chunk(cl, pl, dl) =>
      if dl == 0 then Complete(cl, []) else Prepend(cl, t[pl..pl + dl], Decode(t[cl..], len - cl))
  }

  // ----- the code -----

  method Unhexn(b: array<byte>, at: nat, n: nat) returns (v: nat)
    requires at + n <= b.Length && AllHex(b[at..at + n])
    ensures v == Unhex(b[at..at + n])
  {
    v := 0;
    for i := 0 to n
      invariant v == Unhex(b[at..at + n][..i])
    {
      ghost var d := b[at..at + n];
      assert d[..i + 1][..i] == d[..i] && d[i] == b[at + i];
      v := (v * 16 + Nibble(b[at + i])) % TWO_TO_THE_64;
    }
    assert b[at..at + n][..n] == b[at..at + n];
  }

  /** skip_chunk. */
  method Skipped(b: array<byte>, at: nat, len: nat) returns (r: Skip)
    requires at + len <= b.Length
    ensures r == SkipChunk(b[at..], len)
  {
    hide Unhex;
    ghost var t := b[at..];
    if len < 3 {
      return More;
    }
    var i := 0;
    while i < len && HexDigit(b[at + i])
      invariant 0 <= i <= len && HexEnd(t, 0, len) == HexEnd(t, i, len)
    {
      assert t[i] == b[at + i];
      i := i + 1;
    }
    assert i < len ==> t[i] == b[at + i];
    assert at + i + 1 < b.Length ==> t[i + 1] == b[at + i + 1];
    if len < i + 1 || b[at + i] != CR || at + i + 1 >= b.Length || b[at + i + 1] != LF {
      return Bad;
    }
    assert b[at..at + i] == t[..i];
    var v := Unhexn(b, at, i);
    var n := ToInt(v);
    if n < 0 {
      return Bad;
    }
    if len < i + n + 4 {
      return More;
    }
    assert t[i + n + 2] == b[at + i + n + 2] && t[i + n + 3] == b[at + i + n + 3];
    if b[at + i + n + 2] != CR || b[at + i + n + 3] != LF {
      return Bad;
    }
    r := Chunk(i + 2 + n + 2, i + 2, n);
  }

  /** The first pass looks for the empty chunk. */
  method FindEnd(b: array<byte>, s: nat, len: nat) returns (r: Skip)
    requires s + len <= b.Length
    ensures match Decode(b[s..], len)
            case Unfinished => r == More
            case Invalid => r == Bad
            case Complete(_, _) => r.Chunk?
  {
    hide SkipChunk, Decode, Prepend;
    var o := 0;
    ghost var front: seq<byte> := [];
    NoFront(Decode(b[s..], len));
    r := Skipped(b, s, len);
    while r.Chunk? && r.dl > 0
      invariant o <= len && r == SkipChunk(b[s + o..], len - o)
      invariant Decode(b[s..], len) == Prepend(o, front, Decode(b[s + o..], len - o))
      decreases len - o
    {
      NextChunk(b[s + o..], len - o, r, o, front);
      front := front + b[s + o..][r.pl..r.pl + r.dl];
      assert b[s + o..][r.cl..] == b[s + (o + r.cl)..];
      o := o + r.cl;
      r := Skipped(b, s + o, len - o);
    }
    NextChunk(b[s + o..], len - o, r, o, front);
  }

  lemma NoFront(b: Body)
    ensures Prepend(0, [], b) == b
  {
    if b.Complete? {
      assert [] + b.data == b.data;
    }
  }

  lemma PrependTwice(n: nat, a: seq<byte>, m: nat, c: seq<byte>, b: Body)
    ensures Prepend(n, a, Prepend(m, c, b)) == Prepend(n + m, a + c, b)
  {
    if b.Complete? {
      assert a + (c + b.data) == a + c + b.data;
    }
  }

  lemma DecodeUnfold(t: seq<byte>, len: nat, r: Skip)
    requires len <= |t| && r == SkipChunk(t, len)
    ensures r.More? ==> Decode(t, len) == Unfinished
    ensures r.Bad? ==> Decode(t, len) == Invalid
    ensures r.Chunk? && r.dl == 0 ==> Decode(t, len) == Complete(r.cl, [])
    ensures r.Chunk? && r.dl > 0 ==>
            Decode(t, len) == Prepend(r.cl, t[r.pl..r.pl + r.dl], Decode(t[r.cl..], len - r.cl))
  {
    hide SkipChunk, Prepend;
  }

  lemma NextChunk(t: seq<byte>, len: nat, r: Skip, n: nat, front: seq<byte>)
    requires len <= |t| && r == SkipChunk(t, len)
    ensures !r.Chunk? ==> !Prepend(n, front, Decode(t, len)).Complete?
    ensures r.More? ==> Prepend(n, front, Decode(t, len)) == Unfinished
    ensures r.Bad? ==> Prepend(n, front, Decode(t, len)) == Invalid
    ensures r.Chunk? && r.dl == 0 ==> Prepend(n, front, Decode(t, len)) == Complete(n + r.cl, front)
    ensures r.Chunk? && r.dl > 0 ==>
              Prepend(n, front, Decode(t, len))
                  == Prepend(n + r.cl, front + t[r.pl..r.pl + r.dl], Decode(t[r.cl..], len - r.cl))
  {
    hide SkipChunk, Decode;
    DecodeUnfold(t, len, r);
    assert front + [] == front;
    if r.Chunk? && r.dl > 0 {
      PrependTwice(n, front, r.cl, t[r.pl..r.pl + r.dl], Decode(t[r.cl..], len - r.cl));
    }
  }

  /** The data moves to the front; bytes not read yet stay. */
  lemma Moved(m: seq<byte>, now: seq<byte>, s: nat, n: nat, ofs: nat, r: Skip)
    requires r.Chunk? && n <= ofs && r.cl == r.pl + r.dl + 2 && s + ofs + r.cl <= |m|
    requires var to, from := s + n, s + ofs + r.pl;
             now == m[..to] + m[from..from + r.dl] + m[to + r.dl..]
    ensures |now| == |m| && now[..s] == m[..s] && now[s + ofs + r.cl..] == m[s + ofs + r.cl..]
    ensures now[s..s + n + r.dl] == m[s..s + n] + m[s + ofs..][r.pl..r.pl + r.dl]
  {
  }

  /** The two passes: once the empty chunk is there the data is moved together at `s`.  Nothing before `s`
      or behind the empty chunk changes, and nothing at all while the body is not complete; `error` is the
      call of mg_error, and without it more bytes are waited for. */
  method DecodeInPlace(b: array<byte>, s: nat, len: nat) returns (ok: bool, error: bool, bodyLen: nat, ofs: nat)
    requires s + len <= b.Length
    modifies b
    ensures ok == Decode(old(b[s..]), len).Complete? && error == Decode(old(b[s..]), len).Invalid?
    ensures !ok ==> b[..] == old(b[..])
    ensures ok ==> var d := Decode(old(b[s..]), len);
                   && ofs == d.end && bodyLen == |d.data| && s + ofs <= b.Length && bodyLen <= ofs
                   && b[..s] == old(b[..s]) && b[s..s + bodyLen] == d.data && b[s + ofs..] == old(b[s + ofs..])
  {
    hide SkipChunk, Decode, Prepend, Stripping, Stripped;
    ok, error, bodyLen, ofs := false, false, 0, 0;
    var r := FindEnd(b, s, len);
    if !r.Chunk? {
      error := r.Bad?;
      return;
    }
    ok := true;
    ghost var was := b[..];
    ghost var whole := Decode(b[s..], len);
    StripStart(was, s, len, whole);
    r := Skipped(b, s, len);
    var done := false;
    while r.Chunk? && !done
      invariant bodyLen <= ofs <= len
      invariant done ==> Stripped(b[..], was, s, bodyLen, ofs, whole)
      invariant !done ==> Stripping(b[..], was, s, len, bodyLen, ofs, whole) && r == SkipChunk(b[s + ofs..], len - ofs)
      decreases len - ofs, if done then 0 else 1
    {
      StripChunk(b, s, len, bodyLen, ofs, r, was, whole);
      ofs, bodyLen := ofs + r.cl, bodyLen + r.dl;
      if r.dl == 0 {
        done := true;
      } else {
        r := Skipped(b, s + ofs, len - ofs);
      }
    }
    if !done {
      StripOn(b[..], was, s, len, bodyLen, ofs, whole, r);
    }
    StripEnd(b[..], was, s, bodyLen, ofs, whole);
  }

  /** The second pass has come to offset `ofs`, with `n` bytes of data at `s`; nothing else has changed, and
      what is left to read decodes to the rest. */
  ghost predicate Stripping(m: seq<byte>, was: seq<byte>, s: nat, len: nat, n: nat, ofs: nat, whole: Body)
  {
    && n <= ofs <= len && s + len <= |m| == |was| && m[..s] == was[..s] && m[s + ofs..] == was[s + ofs..]
    && whole.Complete?
    && whole == Prepend(ofs, m[s..s + n], Decode(m[s + ofs..], len - ofs))
  }

  ghost predicate Stripped(m: seq<byte>, was: seq<byte>, s: nat, n: nat, ofs: nat, whole: Body)
  {
    && n <= ofs && s + ofs <= |m| == |was| && m[..s] == was[..s] && m[s + ofs..] == was[s + ofs..]
    && whole == Complete(ofs, m[s..s + n])
  }

  lemma StripStart(m: seq<byte>, s: nat, len: nat, whole: Body)
    requires s + len <= |m| && whole == Decode(m[s..], len) && whole.Complete?
    ensures Stripping(m, m, s, len, 0, 0, whole)
  {
    NoFront(whole);
    assert m[s..s] == [] && m[s + 0..] == m[s..];
  }

  /** Before the empty chunk there is always another chunk. */
  lemma StripOn(m: seq<byte>, was: seq<byte>, s: nat, len: nat, n: nat, ofs: nat, whole: Body, r: Skip)
    requires Stripping(m, was, s, len, n, ofs, whole) && r == SkipChunk(m[s + ofs..], len - ofs)
    ensures r.Chunk?
  {
    hide SkipChunk, Decode;
    NextChunk(m[s + ofs..], len - ofs, r, ofs, m[s..s + n]);
  }

  lemma StripEnd(m: seq<byte>, was: seq<byte>, s: nat, n: nat, ofs: nat, whole: Body)
    requires Stripped(m, was, s, n, ofs, whole)
    ensures whole.Complete? && ofs == whole.end && n == |whole.data| && n <= ofs && s + ofs <= |m| == |was|
    ensures m[..s] == was[..s] && m[s..s + n] == whole.data && m[s + ofs..] == was[s + ofs..]
  {
  }

  /** One turn of the second pass. */
  method StripChunk(b: array<byte>, s: nat, len: nat, n: nat, ofs: nat, r: Skip, ghost was: seq<byte>,
      ghost whole: Body)
    requires Stripping(b[..], was, s, len, n, ofs, whole) && r.Chunk? && r == SkipChunk(b[s + ofs..], len - ofs)
    modifies b
    ensures n + r.dl <= ofs + r.cl <= len
    ensures r.dl == 0 ==> Stripped(b[..], was, s, n, ofs + r.cl, whole)
    ensures r.dl > 0 ==> Stripping(b[..], was, s, len, n + r.dl, ofs + r.cl, whole)
  {
    hide SkipChunk, Decode, Prepend;
    SkipShape(b[s + ofs..], len - ofs, r);
    NextChunk(b[s + ofs..], len - ofs, r, ofs, b[s..s + n]);
    MoveChunk(b, s, n, ofs, r);
    TailOf(was, s + ofs, r.cl);
  }

  lemma SkipShape(t: seq<byte>, len: nat, r: Skip)
    requires len <= |t| && r == SkipChunk(t, len)
    ensures r.Chunk? ==> r.cl == r.pl + r.dl + 2 <= len
  {
  }

  lemma TailOf(m: seq<byte>, at: nat, n: nat)
    requires at + n <= |m|
    ensures m[at..][n..] == m[at + n..]
  {
  }

  /** The memmove of the second pass. */
  method MoveChunk(b: array<byte>, s: nat, n: nat, ofs: nat, r: Skip)
    requires r.Chunk? && n <= ofs && r.cl == r.pl + r.dl + 2 && s + ofs + r.cl <= b.Length
    modifies b
    ensures b[..s] == old(b[..s]) && b[s + ofs + r.cl..] == old(b[s + ofs..])[r.cl..]
    ensures b[s..s + n + r.dl] == old(b[s..s + n]) + old(b[s + ofs..])[r.pl..r.pl + r.dl]
  {
    ghost var m := b[..];
    MemMove(b, s + n, s + ofs + r.pl, r.dl);
    Moved(m, b[..], s, n, ofs, r);
    TailOf(m, s + ofs, r.cl);
  }

  // ----- chunked bodies, section 7.1 of RFC 9112 -----

  datatype Piece = Piece(size: seq<byte>, data: seq<byte>)

  /** The size line spells the length of the data. */
  predicate PieceOk(c: Piece)
  {
    |c.size| > 0 && AllHex(c.size) && Hex(c.size) == |c.data| < 0x8000_0000
  }

  /** What the code takes for a chunk: the low 32 bits of the number are the length, and no digits are 0. */
  predicate Accepted(c: Piece)
  {
    AllHex(c.size) && Hex(c.size) % TWO_TO_THE_32 == |c.data| < 0x8000_0000
  }

  lemma AcceptedOk(c: Piece)
    ensures PieceOk(c) <==> Accepted(c) && c.size != [] && Hex(c.size) < 0x8000_0000
  {
  }

  function PieceText(c: Piece): seq<byte>
  {
    c.size + [CR, LF] + c.data + [CR, LF]
  }

  function Text(pieces: seq<Piece>): seq<byte>
  {
    if pieces == [] then [] else PieceText(pieces[0]) + Text(pieces[1..])
  }

  function Data(pieces: seq<Piece>): seq<byte>
  {
    if pieces == [] then [] else pieces[0].data + Data(pieces[1..])
  }

  lemma {:induction false} UnhexIsHex(d: seq<byte>)
    requires AllHex(d)
    ensures Unhex(d) == Hex(d) % TWO_TO_THE_64
  {
    if d != [] {
      var front := d[..|d| - 1];
      UnhexIsHex(front);
      ModStep(Hex(front), Nibble(d[|d| - 1]));
    }
  }

  lemma ModStep(x: nat, n: nat)
    ensures (x % TWO_TO_THE_64 * 16 + n) % TWO_TO_THE_64 == (x * 16 + n) % TWO_TO_THE_64
  {
    var q, r := x / TWO_TO_THE_64, x % TWO_TO_THE_64;
    var y := r * 16 + n;
    DivModUnique(x * 16 + n, TWO_TO_THE_64, 16 * q + y / TWO_TO_THE_64, y % TWO_TO_THE_64);
  }

  lemma {:induction false} HexEndFound(t: seq<byte>, i: nat, len: nat, n: nat)
    requires i <= n < len <= |t| && (forall k :: i <= k < n ==> HexDigit(t[k])) && !HexDigit(t[n])
    ensures HexEnd(t, i, len) == n
    decreases n - i
  {
    if i < n {
      HexEndFound(t, i + 1, len, n);
    }
  }

  lemma PieceParts(t: seq<byte>, c: Piece)
    requires Holds(t, 0, PieceText(c))
    ensures var n := |c.size|;
            && |PieceText(c)| == n + |c.data| + 4 && t[..n] == c.size && t[n] == CR && CrLf(t, n)
            && CrLf(t, n + 2 + |c.data|) && t[n + 2..n + 2 + |c.data|] == c.data
  {
    var n := |c.size|;
    HoldsBoth(t, 0, c.size + [CR, LF] + c.data, [CR, LF]);
    HoldsBoth(t, 0, c.size + [CR, LF], c.data);
    HoldsBoth(t, 0, c.size, [CR, LF]);
    HoldsSlice(t, 0, c.size, 0, n);
    HoldsSlice(t, n + 2, c.data, 0, |c.data|);
    assert c.size[0..n] == c.size && c.data[0..|c.data|] == c.data;
    LineEnd(t, n);
    LineEnd(t, n + 2 + |c.data|);
  }

  lemma LineEnd(t: seq<byte>, at: nat)
    requires Holds(t, at, [CR, LF])
    ensures CrLf(t, at)
  {
    assert t[at + 0] == [CR, LF][0] && t[at + 1] == [CR, LF][1];
  }

  lemma ModTwice(v: nat)
    ensures v % TWO_TO_THE_64 % TWO_TO_THE_32 == v % TWO_TO_THE_32
  {
    var q, r := v / TWO_TO_THE_64, v % TWO_TO_THE_64;
    DivModUnique(v, TWO_TO_THE_32, q * TWO_TO_THE_32 + r / TWO_TO_THE_32, r % TWO_TO_THE_32);
  }

  /** The size that the code reads: the low 32 bits, as a signed number. */
  lemma SizeRead(d: seq<byte>)
    requires AllHex(d)
    ensures ToInt(Unhex(d)) == ToInt(Hex(d))
    ensures ToInt(Hex(d)) >= 0 ==> ToInt(Hex(d)) == Hex(d) % TWO_TO_THE_32 < 0x8000_0000
    ensures Hex(d) % TWO_TO_THE_32 < 0x8000_0000 ==> ToInt(Hex(d)) == Hex(d) % TWO_TO_THE_32
  {
    UnhexIsHex(d);
    ModTwice(Hex(d));
  }

  /** A size line of `n` digits whose value, cut to 32 bits, is `m`, then `m` bytes and an end of line. */
  lemma SkipExact(t: seq<byte>, len: nat, n: nat, m: nat)
    requires n + m + 4 <= len <= |t| && m < 0x8000_0000 && CrLf(t, n) && CrLf(t, n + 2 + m)
    requires AllHex(t[..n]) && Hex(t[..n]) % TWO_TO_THE_32 == m
    ensures SkipChunk(t, len) == Chunk(n + m + 4, n + 2, m)
  {
    hide Unhex, Hex;
    assert forall k :: 0 <= k < n ==> t[k] == t[..n][k];
    HexEndFound(t, 0, len, n);
    SizeRead(t[..n]);
  }

  /** skip_chunk finds a chunk that is fully buffered. */
  lemma PieceSkipped(t: seq<byte>, len: nat, c: Piece)
    requires Accepted(c) && Holds(t, 0, PieceText(c)) && |PieceText(c)| <= len <= |t|
    ensures SkipChunk(t, len) == Chunk(|PieceText(c)|, |c.size| + 2, |c.data|)
    ensures t[|c.size| + 2..|c.size| + 2 + |c.data|] == c.data
  {
    hide *;
    PieceParts(t, c);
    AcceptedUnfold(c);
    SkipExact(t, len, |c.size|, |c.data|);
  }

  lemma AcceptedUnfold(c: Piece)
    ensures Accepted(c) <==> AllHex(c.size) && Hex(c.size) % TWO_TO_THE_32 == |c.data| < 0x8000_0000
  {
  }

  /** At the start of `t` lie non-empty chunks and an empty one. */
  ghost predicate Chunks(t: seq<byte>, len: nat, pieces: seq<Piece>, last: Piece)
  {
    && (forall c <- pieces :: Accepted(c) && c.data != []) && Accepted(last) && last.data == []
    && Holds(t, 0, Text(pieces) + PieceText(last)) && |Text(pieces) + PieceText(last)| <= len <= |t|
  }

  lemma ChunksUnfold(t: seq<byte>, len: nat, pieces: seq<Piece>, last: Piece)
    requires Chunks(t, len, pieces, last)
    ensures Accepted(last) && last.data == [] && Holds(t, 0, Text(pieces) + PieceText(last))
    ensures |Text(pieces) + PieceText(last)| <= len <= |t|
    ensures pieces != [] ==> Accepted(pieces[0]) && pieces[0].data != []
  {
    assert pieces != [] ==> pieces[0] in pieces;
  }

  lemma ChunksRest(t: seq<byte>, len: nat, c: Piece, pieces: seq<Piece>, last: Piece)
    requires Accepted(c) && c.data != [] && |PieceText(c)| <= len <= |t|
    requires Holds(t, 0, PieceText(c))
    ensures Chunks(t, len, [c] + pieces, last) <==> Chunks(t[|PieceText(c)|..], len - |PieceText(c)|, pieces, last)
  {
    var n, rest := |PieceText(c)|, Text(pieces) + PieceText(last);
    FirstPiece([c] + pieces, PieceText(last));
    assert ([c] + pieces)[1..] == pieces;
    hide Text, PieceText, Accepted;
    assert (forall d <- [c] + pieces :: Accepted(d) && d.data != [])
        <==> (forall d <- pieces :: Accepted(d) && d.data != []) by {
      assert forall d <- pieces :: d in [c] + pieces;
      assert forall d <- [c] + pieces :: d == c || d in pieces;
    }
    HoldsRest(t, PieceText(c), rest);
  }

  lemma HoldsRest(t: seq<byte>, front: seq<byte>, rest: seq<byte>)
    requires Holds(t, 0, front)
    ensures Holds(t, 0, front + rest) <==> Holds(t[|front|..], 0, rest)
  {
    if Holds(t, 0, front + rest) {
      HoldsBoth(t, 0, front, rest);
      HoldsFrom(t, |front|, rest);
    }
    if Holds(t[|front|..], 0, rest) {
      forall i | 0 <= i < |front + rest|
        ensures t[0 + i] == (front + rest)[i]
      {
        if i < |front| {
          assert t[0 + i] == front[i];
        } else {
          assert t[|front|..][0 + (i - |front|)] == rest[i - |front|];
        }
      }
    }
  }

  /** A list of non-empty chunks and an empty one decode to the data; the end is just behind the empty
      chunk, whatever follows it. */
  lemma {:induction false} ChunksDecode(t: seq<byte>, len: nat, pieces: seq<Piece>, last: Piece)
    requires Chunks(t, len, pieces, last)
    ensures Decode(t, len) == Complete(|Text(pieces) + PieceText(last)|, Data(pieces))
    decreases |pieces|
  {
    hide *;
    ChunksUnfold(t, len, pieces, last);
    if pieces == [] {
      NoPieces(PieceText(last));
      PieceSkipped(t, len, last);
      DecodeUnfold(t, len, SkipChunk(t, len));
    } else {
      var c, rest := pieces[0], Text(pieces[1..]) + PieceText(last);
      var n := |PieceText(c)|;
      assert [c] + pieces[1..] == pieces;
      FirstPiece(pieces, PieceText(last));
      HoldsBoth(t, 0, PieceText(c), rest);
      PieceSkipped(t, len, c);
      DecodeUnfold(t, len, SkipChunk(t, len));
      ChunksRest(t, len, c, pieces[1..], last);
      ChunksDecode(t[n..], len - n, pieces[1..], last);
      PrependUnfold(n, c.data, |rest|, Data(pieces[1..]));
    }
  }

  /** What skip_chunk finds is such a chunk. */
  lemma SkipIsPiece(t: seq<byte>, len: nat) returns (c: Piece)
    requires len <= |t| && SkipChunk(t, len).Chunk?
    ensures var r := SkipChunk(t, len);
            && Accepted(c) && Holds(t, 0, PieceText(c)) && |PieceText(c)| == r.cl <= len
            && c.size == t[..r.pl - 2] && c.data == t[r.pl..r.pl + r.dl]
  {
    var i := HexEnd(t, 0, len);
    SizeRead(t[..i]);
    hide Unhex, Hex;
    var n := ToInt(Unhex(t[..i]));
    c := Piece(t[..i], t[i + 2..i + 2 + n]);
    hide SkipChunk, HexEnd;
    ThreePieces(t, i, n);
  }

  /** A chunk that skip_chunk finds is a chunk of RFC 9112 just when its size line has a digit and spells less than
      2^31. */
  lemma AcceptedExactly(t: seq<byte>, len: nat)
    requires len <= |t| && SkipChunk(t, len).Chunk?
    ensures var r := SkipChunk(t, len);
            var c := Piece(t[..r.pl - 2], t[r.pl..r.pl + r.dl]);
            && Holds(t, 0, PieceText(c)) && |PieceText(c)| == r.cl
            && (PieceOk(c) <==> r.pl > 2 && Hex(c.size) < 0x8000_0000)
  {
    hide *;
    ChunkFound(t, len);
    var c := SkipIsPiece(t, len);
    AcceptedOk(c);
    AcceptedUnfold(c);
  }

  lemma ThreePieces(t: seq<byte>, i: nat, n: nat)
    requires CrLf(t, i) && CrLf(t, i + 2 + n)
    ensures Holds(t, 0, t[..i] + [CR, LF] + t[i + 2..i + 2 + n] + [CR, LF])
  {
    assert t[..i] + [CR, LF] == t[..i + 2];
    assert t[..i + 2] + t[i + 2..i + 2 + n] == t[..i + 2 + n];
    assert t[..i + 2 + n] + [CR, LF] == t[..i + 4 + n];
  }

  /** And whatever decodes is such a list. */
  lemma {:induction false} DecodedIsChunks(t: seq<byte>, len: nat) returns (pieces: seq<Piece>, last: Piece)
    requires len <= |t| && Decode(t, len).Complete?
    ensures Chunks(t, len, pieces, last)
    ensures Decode(t, len) == Complete(|Text(pieces) + PieceText(last)|, Data(pieces))
    decreases len
  {
    hide *;
    var r := SkipChunk(t, len);
    DecodeUnfold(t, len, r);
    ChunkFound(t, len);
    var c := SkipIsPiece(t, len);
    if r.dl == 0 {
      pieces, last := [], c;
      OnlyPiece(t, len, c);
    } else {
      PrependComplete(r.cl, t[r.pl..r.pl + r.dl], Decode(t[r.cl..], len - r.cl));
      pieces, last := DecodedIsChunks(t[r.cl..], len - r.cl);
      ChunksRest(t, len, c, pieces, last);
      pieces := [c] + pieces;
    }
    ChunksDecode(t, len, pieces, last);
  }

  lemma ChunkFound(t: seq<byte>, len: nat)
    requires len <= |t|
    ensures Decode(t, len).Complete? ==> SkipChunk(t, len).Chunk?
    ensures var r := SkipChunk(t, len); r.Chunk? ==> r.cl == r.pl + r.dl + 2 <= len && 2 <= r.pl
  {
    hide SkipChunk;
  }

  lemma PrependComplete(n: nat, front: seq<byte>, b: Body)
    ensures Prepend(n, front, b).Complete? <==> b.Complete?
  {
  }

  lemma OnlyPiece(t: seq<byte>, len: nat, c: Piece)
    requires Accepted(c) && c.data == [] && Holds(t, 0, PieceText(c)) && |PieceText(c)| <= len <= |t|
    ensures Chunks(t, len, [], c)
  {
    NoPieces(PieceText(c));
  }

  /** Well-formed bodies are accepted, and their data is what the chunks of RFC 9112 say. */
  lemma WellFormedDecodes(t: seq<byte>, len: nat, pieces: seq<Piece>, last: Piece)
    requires (forall c <- pieces :: PieceOk(c) && c.data != []) && PieceOk(last) && last.data == []
    requires Holds(t, 0, Text(pieces) + PieceText(last)) && |Text(pieces) + PieceText(last)| <= len <= |t|
    ensures Decode(t, len) == Complete(|Text(pieces) + PieceText(last)|, Data(pieces))
  {
    hide Text, PieceText, Decode, PieceOk, Accepted;
    forall c | c in pieces
      ensures Accepted(c)
    {
      AcceptedOk(c);
    }
    AcceptedOk(last);
    ChunksDecode(t, len, pieces, last);
  }

  lemma NoPieces(last: seq<byte>)
    ensures Text([]) + last == last && Data([]) == []
  {
  }

  lemma FirstPiece(pieces: seq<Piece>, last: seq<byte>)
    requires pieces != []
    ensures Text(pieces) + last == PieceText(pieces[0]) + (Text(pieces[1..]) + last)
    ensures Data(pieces) == pieces[0].data + Data(pieces[1..])
  {
    hide PieceText;
  }

  lemma PrependUnfold(n: nat, front: seq<byte>, end: nat, data: seq<byte>)
    ensures Prepend(n, front, Complete(end, data)) == Complete(n + end, front + data)
  {
  }

  lemma HoldsFrom(t: seq<byte>, n: nat, rest: seq<byte>)
    requires Holds(t, n, rest)
    ensures Holds(t[n..], 0, rest)
  {
    forall i | 0 <= i < |rest|
      ensures t[n..][0 + i] == rest[i]
    {
      assert t[n + i] == rest[i];
    }
  }

  /** Of a chunk that is found the length is that of the size line exactly when the number is below 2^31;
      otherwise it is cut to 32 bits. */
  lemma SizeExactly(t: seq<byte>, len: nat)
    requires len <= |t| && SkipChunk(t, len).Chunk?
    ensures var r := SkipChunk(t, len);
            && AllHex(t[..r.pl - 2]) && r.dl == Hex(t[..r.pl - 2]) % TWO_TO_THE_32
            && (r.dl == Hex(t[..r.pl - 2]) <==> Hex(t[..r.pl - 2]) < 0x8000_0000)
  {
    hide *;
    ChunkFound(t, len);
    var c := SkipIsPiece(t, len);
    AcceptedUnfold(c);
    LowPart(Hex(c.size));
  }

  lemma LowPart(v: nat)
    ensures v % TWO_TO_THE_32 < 0x8000_0000 ==> (v % TWO_TO_THE_32 == v <==> v < 0x8000_0000)
  {
  }

  /** A size line that spells 2^32 more passes as the shorter chunk. */
  lemma SizeIsCut(size: seq<byte>, data: seq<byte>)
    requires size != [] && AllHex(size) && Hex(size) % TWO_TO_THE_32 == |data| < 0x8000_0000
    ensures var t := size + [CR, LF] + data + [CR, LF]; SkipChunk(t, |t|) == Chunk(|t|, |size| + 2, |data|)
  {
    var t := size + [CR, LF] + data + [CR, LF];
    var n := |size|;
    assert t[..n] == size && CrLf(t, n) && CrLf(t, n + 2 + |data|);
    hide SkipChunk, Hex;
    SkipExact(t, |t|, n, |data|);
  }

  /** "100000001": the size line spells 2^32 + 1, the chunk found has one byte. */
  lemma CutSize(x: byte)
    ensures var size: seq<byte> := [49, 48, 48, 48, 48, 48, 48, 48, 49]; var t := size + [CR, LF] + [x] + [CR, LF];
            AllHex(size) && Hex(size) == TWO_TO_THE_32 + 1 && SkipChunk(t, |t|) == Chunk(14, 11, 1)
  {
    var size: seq<byte> := [49, 48, 48, 48, 48, 48, 48, 48, 49];
    var zeros: seq<byte> := [49, 48, 48, 48, 48, 48, 48, 48];
    assert size[..8] == zeros;
    ZerosSpell(zeros);
    hide SkipChunk;
    SizeIsCut(size, [x]);
  }

  lemma ZerosSpell(zeros: seq<byte>)
    requires zeros == [49, 48, 48, 48, 48, 48, 48, 48]
    ensures AllHex(zeros) && Hex(zeros) == 0x1000_0000
  {
    var d: seq<byte> := [49];
    assert d[..0] == [] && Hex(d) == 1;
    hide Hex;
    var d1, d2, d3 := d + [48], d + [48] + [48], d + [48] + [48] + [48];
    var d4, d5, d6 := d3 + [48], d3 + [48] + [48], d3 + [48] + [48] + [48];
    HexAppend(d, 48);
    HexAppend(d1, 48);
    HexAppend(d2, 48);
    HexAppend(d3, 48);
    HexAppend(d4, 48);
    HexAppend(d5, 48);
    HexAppend(d6, 48);
    assert d6 + [48] == zeros;
  }

  lemma HexAppend(d: seq<byte>, x: byte)
    requires AllHex(d) && HexDigit(x)
    ensures AllHex(d + [x]) && Hex(d + [x]) == Hex(d) * 16 + Nibble(x)
  {
    assert (d + [x])[..|d|] == d;
  }

  /** A size line without digits passes as the last chunk, against section 7.1 of RFC 9112. */
  lemma EmptySizeLine()
    ensures SkipChunk([CR, LF, CR, LF], 4) == Chunk(4, 2, 0) && !PieceOk(Piece([], []))
  {
  }

  // ----- chunks as they are sent -----

  /** The size line is the length in hexadecimal, as "%lx" prints it. */
  function Sent(data: seq<byte>): Piece
  {
    Piece(Numbers.Printed(|data|, false, true), data)
  }

  function AllSent(datas: seq<seq<byte>>): seq<Piece>
  {
    if datas == [] then [] else [Sent(datas[0])] + AllSent(datas[1..])
  }

  function Joined(datas: seq<seq<byte>>): seq<byte>
  {
    if datas == [] then [] else datas[0] + Joined(datas[1..])
  }

  /** mg_http_write_chunk, as far as the bytes go. */
  method WriteChunk(send: Buffer, data: seq<byte>)
    requires send.Valid() && |data| < 0x8000_0000_0000_0000
    modifies send, send.buf
    ensures send.Valid() && (send.buf == old(send.buf) || fresh(send.buf))
    ensures send.Contents() == old(send.Contents()) + PieceText(Sent(data))
  {
    ghost var was := send.Contents();
    var line := PrintSize(|data|);
    send.Append(line + [CR, LF]);
    send.Append(data);
    send.Append([CR, LF]);
    assert was + (line + [CR, LF]) + data + [CR, LF] == was + (line + [CR, LF] + data + [CR, LF]);
  }

  /** "%lx", which mg_lld prints. */
  method PrintSize(n: nat) returns (line: seq<byte>)
    requires n < 0x8000_0000_0000_0000
    ensures line == Numbers.Printed(n, false, true)
  {
    var tmp := new byte[|Numbers.Printed(n, false, true)|];
    var len := Numbers.MgLld(tmp, n, false, true);
    line := tmp[..len];
  }

  lemma SentOk(data: seq<byte>)
    requires |data| < 0x8000_0000
    ensures PieceOk(Sent(data))
  {
    Numbers.PrintedHex(|data|);
    hide Hex, Numbers.Printed;
  }

  lemma {:induction false} AllSentOk(datas: seq<seq<byte>>)
    requires forall d <- datas :: 0 < |d| < 0x8000_0000
    ensures forall c <- AllSent(datas) :: PieceOk(c) && c.data != []
    ensures Data(AllSent(datas)) == Joined(datas)
  {
    hide Sent, PieceOk;
    if datas != [] {
      assert datas[0] in datas && forall d <- datas[1..] :: d in datas;
      SentOk(datas[0]);
      AllSentOk(datas[1..]);
      SentData(datas[0]);
      assert AllSent(datas)[1..] == AllSent(datas[1..]);
    }
  }

  lemma SentData(data: seq<byte>)
    ensures Sent(data).data == data
  {
  }

  /** What mg_http_write_chunk sends for any pieces of data and then for none is decoded to the data. */
  lemma SentDecodes(t: seq<byte>, len: nat, datas: seq<seq<byte>>)
    requires forall d <- datas :: 0 < |d| < 0x8000_0000
    requires var body := Text(AllSent(datas)) + PieceText(Sent([])); Holds(t, 0, body) && |body| <= len <= |t|
    ensures Decode(t, len) == Complete(|Text(AllSent(datas)) + PieceText(Sent([]))|, Joined(datas))
  {
    hide *;
    AllSentOk(datas);
    SentOk([]);
    SentData([]);
    WellFormedDecodes(t, len, AllSent(datas), Sent([]));
  }

  /** The body with the chunk "0123456789". */
  lemma TenBytes(t: seq<byte>, ten: seq<byte>)
    requires ten == [48, 49, 50, 51, 52, 53, 54, 55, 56, 57]
    requires t == [97, 13, 10] + ten + [13, 10] + [48, 13, 10, 13, 10]
    ensures Decode(t, |t|) == Complete(20, ten)
  {
    hide *;
    OneSent(ten);
    SentText(ten);
    SentText([]);
    TenIsA();
    assert t == Text(AllSent([ten])) + PieceText(Sent([]));
    Itself(t);
    SentDecodes(t, |t|, [ten]);
  }

  lemma Itself(t: seq<byte>)
    ensures Holds(t, 0, t)
  {
  }

  lemma OneSent(data: seq<byte>)
    ensures Text(AllSent([data])) == PieceText(Sent(data)) && Joined([data]) == data
  {
    hide Sent, PieceText;
    assert [data][1..] == [];
    assert AllSent([data]) == [Sent(data)] + AllSent([]);
    assert [Sent(data)][1..] == [];
    assert Text([Sent(data)]) == PieceText(Sent(data)) + Text([]);
    assert Joined([data]) == data + Joined([]);
  }

  lemma SentText(data: seq<byte>)
    ensures PieceText(Sent(data)) == Numbers.Printed(|data|, false, true) + [13, 10] + data + [13, 10]
  {
  }

  lemma TenIsA()
    ensures Numbers.Printed(10, false, true) == [97] && Numbers.Printed(0, false, true) == [48]
  {
    assert Numbers.Digits(0, 16) == [];
    assert Numbers.Digits(10, 16) == [] + [97];
  }

  /** So the second pass leaves the data at the start, and takes in the body just sent. */
  method DecodeSent(b: array<byte>, s: nat, len: nat, ghost datas: seq<seq<byte>>) returns (bodyLen: nat, ofs: nat)
    requires s + len <= b.Length && forall d <- datas :: 0 < |d| < 0x8000_0000
    requires var body := Text(AllSent(datas)) + PieceText(Sent([])); Holds(b[s..], 0, body) && |body| <= len
    modifies b
    ensures bodyLen == |Joined(datas)| && ofs == |Text(AllSent(datas)) + PieceText(Sent([]))|
    ensures s + bodyLen <= b.Length && b[s..s + bodyLen] == Joined(datas)
  {
    hide *;
    SentDecodes(b[s..], len, datas);
    var ok, error;
    ok, error, bodyLen, ofs := DecodeInPlace(b, s, len);
  }
}
