/** mg_base64_*: the byte-at-a-time encoder, the block encoder bcpy, and the decoder. */
module Base64 {
  import opened Bytes
  import opened IoBuf

  const PAD: byte := 61

  /** mg_base64_encode_single. */
  function Letter(c: nat): byte
    requires c < 64
  {
    if c < 26 then c + 65 else if c < 52 then c - 26 + 97 else if c < 62 then c - 52 + 48 else if c == 62 then 43
    else 47
  }

  /** mg_base64_decode_single: 64 for the padding, -1 for what is no letter. */
  function Value(c: byte): (v: int)
    ensures -1 <= v <= 64 && (v == 64 <==> c == PAD)
  {
    if 65 <= c <= 90 then c - 65 else if 97 <= c <= 122 then c + 26 - 97 else if 48 <= c <= 57 then c + 52 - 48
    else if c == 43 then 62 else if c == 47 then 63 else if c == PAD then 64 else -1
  }

  /** The alphabet of RFC 4648 section 4. */
  lemma Alphabet(c: nat)
    requires c < 64
    ensures c < 26 ==> Letter(c) as char == "ABCDEFGHIJKLMNOPQRSTUVWXYZ"[c]
    ensures 26 <= c < 52 ==> Letter(c) as char == "abcdefghijklmnopqrstuvwxyz"[c - 26]
    ensures c >= 52 ==> Letter(c) as char == "0123456789+/"[c - 52]
  {
  }

  lemma LetterValue(c: nat)
    requires c < 64
    ensures Value(Letter(c)) == c && Letter(c) != PAD
  {
  }

  /** The four groups of six bits in three bytes. */
  function First(x: byte): byte
  {
    Letter(x / 4)
  }

  function Second(x: byte, y: byte): byte
  {
    Letter(x % 4 * 16 + y / 16)
  }

  function Third(y: byte, z: byte): byte
  {
    Letter(y % 16 * 4 + z / 64)
  }

  function Fourth(z: byte): byte
  {
    Letter(z % 64)
  }

  /** The letters of three bytes. */
  function Block(x: byte, y: byte, z: byte): (b: seq<byte>)
    ensures |b| == 4
  {
    [First(x), Second(x, y), Third(y, z), Fourth(z)]
  }

  /** Section 4 of RFC 4648. */
  function Encoded(s: seq<byte>): (e: seq<byte>)
    ensures |e| == (|s| + 2) / 3 * 4
  {
    if s == [] then []
    else if |s| == 1 then [First(s[0]), Second(s[0], 0), PAD, PAD]
    else if |s| == 2 then [First(s[0]), Second(s[0], s[1]), Third(s[1], 0), PAD]
    else Block(s[0], s[1], s[2]) + Encoded(s[3..])
  }

  /** The test vectors of RFC 4648 section 10: "f" to "foobar". */
  lemma TestVectors()
    ensures Encoded([]) == []
    ensures Encoded([102]) == [90, 103, 61, 61]                     // Zg==
    ensures Encoded([102, 111]) == [90, 109, 56, 61]                // Zm8=
    ensures Encoded([102, 111, 111]) == [90, 109, 57, 118]          // Zm9v
    ensures Encoded([102, 111, 111, 98]) == [90, 109, 57, 118, 89, 103, 61, 61]
    ensures Encoded([102, 111, 111, 98, 97]) == [90, 109, 57, 118, 89, 109, 69, 61]
    ensures Encoded([102, 111, 111, 98, 97, 114]) == [90, 109, 57, 118, 89, 109, 70, 121]
  {
    var s: seq<byte> := [102, 111, 111, 98, 97, 114];
    assert s[..4][3..] == [98] && s[..5][3..] == [98, 97] && s[3..] == [98, 97, 114];
    assert Encoded([98]) == [89, 103, 61, 61] && Encoded([98, 97]) == [89, 109, 69, 61];
    assert Encoded([98, 97, 114]) == [89, 109, 70, 121] + Encoded([]);
    assert Encoded([102, 111, 111]) == [90, 109, 57, 118] + Encoded([]);
  }

  lemma {:induction false} EncodedAppend(a: seq<byte>, b: seq<byte>)
    requires |a| % 3 == 0
    ensures Encoded(a + b) == Encoded(a) + Encoded(b)
    decreases |a|
  {
    hide Block;
    if a == [] {
      assert a + b == b;
    } else {
      assert (a + b)[3..] == a[3..] + b;
      EncodedAppend(a[3..], b);
      assert Block(a[0], a[1], a[2]) + (Encoded(a[3..]) + Encoded(b)) == Encoded(a) + Encoded(b);
    }
  }

  // ----- the streaming encoder -----

  /** The bytes of the blocks `whole` are encoded, those of `part` are on their way: letters, and behind
      them the bits of the next one. */
  ghost predicate Streaming(to: seq<byte>, n: nat, whole: seq<byte>, part: seq<byte>)
  {
    var m := |Encoded(whole)|;
    && |whole| % 3 == 0 && |part| < 3 && n == m + |part| < |to| && to[..m] == Encoded(whole)
    && (|part| == 1 ==> to[m] == First(part[0]) && to[m + 1] == part[0] % 4 * 16)
    && (|part| == 2 ==> to[m] == First(part[0]) && to[m + 1] == Second(part[0], part[1])
                        && to[m + 2] == part[1] % 16 * 4)
  }

  /** The offset tells how many bytes of a block have been seen. */
  lemma Shape(to: seq<byte>, n: nat, whole: seq<byte>, part: seq<byte>)
    requires Streaming(to, n, whole, part)
    ensures n % 4 == |part| < 3 && n < |to|
    ensures |part| == 1 ==> to[n] <= 48
    ensures |part| == 2 ==> to[n] <= 60
  {
    hide First, Second, Third, Fourth, Encoded;
    EncodedLength(whole);
    DivModUnique(n, 4, |Encoded(whole)| / 4, |part|);
  }

  lemma EncodedLength(s: seq<byte>)
    ensures |Encoded(s)| == (|s| + 2) / 3 * 4 && |Encoded(s)| % 4 == 0
  {
    DivModUnique((|s| + 2) / 3 * 4, 4, (|s| + 2) / 3, 0);
  }

  /** mg_base64_update.  The bits joined never overlap, so joining is adding. */
  method Update(ch: byte, to: array<byte>, at: nat, ghost whole: seq<byte>, ghost part: seq<byte>)
    returns (n: nat, ghost whole': seq<byte>, ghost part': seq<byte>)
    requires Streaming(to[..], at, whole, part) && at + 2 < to.Length
    modifies to
    ensures Streaming(to[..], n, whole', part') && whole' + part' == whole + part + [ch]
    ensures |part| < 2 ==> whole' == whole && part' == part + [ch]
  {
    hide Letter, First, Second, Third, Fourth, Encoded, Streaming;
    n := at;
    ghost var was := to[..];
    Shape(was, n, whole, part);
    if n % 4 % 3 == 0 {
      to[n] := First(ch);
      n := n + 1;
      to[n] := ch % 4 * 16;
    } else if n % 4 % 3 == 1 {
      to[n] := Letter(to[n] + ch / 16);
      n := n + 1;
      to[n] := ch % 16 * 4;
    } else {
      to[n] := Letter(to[n] + ch / 64);
      n := n + 1;
      to[n] := Fourth(ch);
      n := n + 1;
    }
    if |part| == 2 {
      BlockDone(was, to[..], at, whole, part, ch);
      whole', part' := whole + part + [ch], [];
    } else {
      BlockGrown(was, to[..], at, whole, part, ch);
      whole', part' := whole, part + [ch];
    }
  }

  lemma BlockGrown(was: seq<byte>, now: seq<byte>, at: nat, whole: seq<byte>, part: seq<byte>, ch: byte)
    requires Streaming(was, at, whole, part) && at + 2 < |was| && |part| < 2
    requires part == [] ==> now == was[at := First(ch)][at + 1 := ch % 4 * 16]
    requires |part| == 1 ==> was[at] <= 48 && now == was[at := Letter(was[at] + ch / 16)][at + 1 := ch % 16 * 4]
    ensures Streaming(now, at + 1, whole, part + [ch])
  {
    hide Letter, First, Second, Third, Fourth, Encoded;
    if |part| == 1 {
      Joined(part[0], ch);
    }
  }

  lemma Joined(x: byte, y: byte)
    ensures Second(x, y) == Letter(x % 4 * 16 + y / 16) && Third(x, y) == Letter(x % 16 * 4 + y / 64)
  {
  }

  lemma BlockDone(was: seq<byte>, now: seq<byte>, at: nat, whole: seq<byte>, part: seq<byte>, ch: byte)
    requires Streaming(was, at, whole, part) && at + 2 < |was| && |part| == 2 && was[at] <= 60
    requires now == was[at := Letter(was[at] + ch / 64)][at + 1 := Fourth(ch)]
    ensures Streaming(now, at + 2, whole + part + [ch], [])
  {
    hide *;
    var m, block := |Encoded(whole)|, Block(part[0], part[1], ch);
    FourthLetter(was, now, at, whole, part, ch);
    FourMore(was, now, m, block);
    BlockAppended(whole, part[0], part[1], ch);
    ThreeBytes(whole, part, ch);
    BlockStreams(now, whole + [part[0], part[1], ch]);
  }

  lemma FourthLetter(was: seq<byte>, now: seq<byte>, at: nat, whole: seq<byte>, part: seq<byte>, ch: byte)
    requires Streaming(was, at, whole, part) && at + 2 < |was| && |part| == 2 && was[at] <= 60
    requires now == was[at := Letter(was[at] + ch / 64)][at + 1 := Fourth(ch)]
    ensures var m, block := |Encoded(whole)|, Block(part[0], part[1], ch);
            && |whole| % 3 == 0 && at == m + 2 && m + 4 < |was| == |now| && was[..m] == now[..m] == Encoded(whole)
            && |block| == 4
            && now[m] == block[0] && now[m + 1] == block[1] && now[m + 2] == block[2] && now[m + 3] == block[3]
  {
    Joined(part[1], ch);
    hide First, Second, Third, Fourth, Encoded, Letter;
  }

  lemma ThreeBytes(whole: seq<byte>, part: seq<byte>, ch: byte)
    requires |part| == 2 && |whole| % 3 == 0
    ensures whole + part + [ch] == whole + [part[0], part[1], ch] && |whole + [part[0], part[1], ch]| % 3 == 0
  {
  }

  lemma BlockStreams(now: seq<byte>, w: seq<byte>)
    requires |w| % 3 == 0 && |Encoded(w)| < |now| && now[..|Encoded(w)|] == Encoded(w)
    ensures Streaming(now, |Encoded(w)|, w, [])
  {
    hide Encoded;
  }

  lemma FourMore(was: seq<byte>, now: seq<byte>, m: nat, b: seq<byte>)
    requires m + 4 <= |was| == |now| && |b| == 4 && was[..m] == now[..m]
    requires now[m] == b[0] && now[m + 1] == b[1] && now[m + 2] == b[2] && now[m + 3] == b[3]
    ensures now[..m + 4] == was[..m] + b
  {
  }

  lemma BlockAppended(whole: seq<byte>, x: byte, y: byte, z: byte)
    requires |whole| % 3 == 0
    ensures Encoded(whole + [x, y, z]) == Encoded(whole) + Block(x, y, z)
  {
    hide *;
    EncodedAppend(whole, [x, y, z]);
    OneBlock(x, y, z);
  }

  lemma OneBlock(x: byte, y: byte, z: byte)
    ensures Encoded([x, y, z]) == Block(x, y, z)
  {
    hide Block;
    assert [x, y, z][3..] == [];
  }

  /** The letters of an unfinished block that carry bits. */
  function PartLetters(part: seq<byte>): seq<byte>
    requires |part| < 3
  {
    if part == [] then [] else if |part| == 1 then [First(part[0]), Second(part[0], 0)]
    else [First(part[0]), Second(part[0], part[1]), Third(part[1], 0)]
  }

  lemma PartEncoded(part: seq<byte>)
    requires |part| < 3
    ensures |PartLetters(part)| == if part == [] then 0 else |part| + 1
    ensures |Encoded(part)| == if part == [] then 0 else 4
    ensures Encoded(part) == PartLetters(part) + if part == [] then [] else if |part| == 1 then [PAD, PAD] else [PAD]
  {
    hide First, Second, Third;
  }

  lemma LastBlock(whole: seq<byte>, part: seq<byte>)
    requires |whole| % 3 == 0 && |part| < 3
    ensures |Encoded(whole)| % 4 == 0 && |PartLetters(part)| == if part == [] then 0 else |part| + 1
    ensures |Encoded(whole + part)| == |Encoded(whole)| + if part == [] then 0 else 4
    ensures |part| == 0 ==> Encoded(whole + part) == Encoded(whole) + PartLetters(part)
    ensures |part| == 1 ==> Encoded(whole + part) == Encoded(whole) + PartLetters(part) + [PAD, PAD]
    ensures |part| == 2 ==> Encoded(whole + part) == Encoded(whole) + PartLetters(part) + [PAD]
  {
    hide *;
    EncodedLength(whole);
    EncodedAppend(whole, part);
    PartEncoded(part);
    assert part == [] ==> Encoded(part) == PartLetters(part);
  }

  /** A zero byte completes the letters that carry bits. */
  lemma PartEnd(to: seq<byte>, n: nat, whole: seq<byte>, part: seq<byte>, w: seq<byte>, q: seq<byte>)
    requires |whole| % 3 == 0 && 0 < |part| < 3 && Streaming(to, n, w, q) && w + q == whole + part + [0]
    requires |part| == 1 ==> w == whole && q == part + [0]
    ensures n == |Encoded(whole)| + (if |part| == 1 then 2 else 4) < |to|
    ensures to[..|Encoded(whole)| + |part| + 1] == Encoded(whole) + PartLetters(part)
  {
    hide *;
    if |part| == 1 {
      PartEndOne(to, n, whole, part);
    } else {
      WholeBlock(to, n, whole, part, w, q);
      BlockAppended(whole, part[0], part[1], 0);
      PartEndTwo(to, n, whole, part);
    }
  }

  lemma PartEndOne(to: seq<byte>, n: nat, whole: seq<byte>, part: seq<byte>)
    requires |part| == 1 && Streaming(to, n, whole, part + [0])
    ensures n == |Encoded(whole)| + 2 < |to| && to[..|Encoded(whole)| + 2] == Encoded(whole) + PartLetters(part)
  {
    hide First, Second, Third, Fourth, Encoded;
  }

  lemma WholeBlock(to: seq<byte>, n: nat, whole: seq<byte>, part: seq<byte>, w: seq<byte>, q: seq<byte>)
    requires |whole| % 3 == 0 && |part| == 2 && Streaming(to, n, w, q) && w + q == whole + part + [0]
    ensures Streaming(to, n, whole + [part[0], part[1], 0], [])
  {
    hide *;
    StreamingLengths(to, n, w, q);
    assert |w| + |q| == |w + q| == |whole| + 3;
    NoneLeft(|w|, |q|, |whole|);
    assert w == w + q == whole + [part[0], part[1], 0];
  }

  lemma StreamingLengths(to: seq<byte>, n: nat, whole: seq<byte>, part: seq<byte>)
    requires Streaming(to, n, whole, part)
    ensures |whole| % 3 == 0 && |part| < 3
  {
    hide Encoded;
  }

  lemma NoneLeft(a: nat, b: nat, c: nat)
    requires a % 3 == 0 && c % 3 == 0 && b < 3 && a + b == c + 3
    ensures b == 0
  {
  }

  lemma PartEndTwo(to: seq<byte>, n: nat, whole: seq<byte>, part: seq<byte>)
    requires |part| == 2 && Streaming(to, n, whole + [part[0], part[1], 0], [])
    requires Encoded(whole + [part[0], part[1], 0]) == Encoded(whole) + Block(part[0], part[1], 0)
    ensures n == |Encoded(whole)| + 4 < |to| && to[..|Encoded(whole)| + 3] == Encoded(whole) + PartLetters(part)
  {
    hide First, Second, Third, Fourth, Encoded;
    var m := |Encoded(whole)|;
    assert to[..m + 4] == Encoded(whole) + Block(part[0], part[1], 0);
    assert to[..m + 3] == to[..m + 4][..m + 3];
  }

  lemma NoPart(to: seq<byte>, n: nat, whole: seq<byte>, part: seq<byte>)
    requires Streaming(to, n, whole, part)
    ensures |whole| % 3 == 0 && n == |Encoded(whole)| + |part| < |to|
    ensures part == [] ==> to[..n] == Encoded(whole) + PartLetters(part)
  {
    hide Encoded, Letter;
  }

  function Pads(n: nat): (s: seq<byte>)
    ensures |s| == n
  {
    seq(n, _ => PAD)
  }

  lemma NoPads(front: seq<byte>)
    ensures front + Pads(0) == front
  {
  }

  lemma PadAdded(front: seq<byte>, k: nat)
    ensures front + Pads(k) + [PAD] == front + Pads(k + 1)
  {
  }

  /** Where the block that `at` is in ends. */
  lemma BlockEnds(at: nat, end: int)
    requires end == at + 3 - (at + 3) % 4
    ensures at <= end < at + 4 && forall n: nat :: at <= n <= end ==> (n % 4 == 0 <==> n == end)
  {
  }

  /** The loop of mg_base64_final fills the block with padding, and a zero byte ends the text. */
  method PadOut(to: array<byte>, at: nat) returns (n: nat)
    requires at + 3 - (at + 3) % 4 < to.Length
    modifies to
    ensures n == at + 3 - (at + 3) % 4 && to[..n] == old(to[..at]) + Pads(n - at) && to[n] == 0
  {
    ghost var front, end := to[..at], at + 3 - (at + 3) % 4;
    n := at;
    BlockEnds(at, end);
    NoPads(front);
    hide Pads;
    while n % 4 != 0
      invariant at <= n <= end && to[..n] == front + Pads(n - at)
      decreases end - n
    {
      to[n] := PAD;
      PadAdded(front, n - at);
      n := n + 1;
      assert to[..n] == to[..n - 1] + [PAD];
    }
    to[n] := 0;
  }

  /** mg_base64_final. */
  method Final(to: array<byte>, at: nat, ghost whole: seq<byte>, ghost part: seq<byte>) returns (n: nat)
    requires Streaming(to[..], at, whole, part) && |Encoded(whole + part)| < to.Length
    modifies to
    ensures n == |Encoded(whole + part)| && to[..n] == Encoded(whole + part) && to[n] == 0
  {
    hide Letter, First, Second, Third, Fourth, Encoded, Streaming, PartLetters, Pads;
    var saved := at;
    n := at;
    Shape(to[..], n, whole, part);
    NoPart(to[..], n, whole, part);
    LastBlock(whole, part);
    if n % 4 != 0 {
      ghost var w, q;
      n, w, q := Update(0, to, n, whole, part);
      PartEnd(to[..], n, whole, part, w, q);
    }
    if saved % 4 == 2 {
      n := n - 1;
    }
    PadsNeeded(|Encoded(whole)|, |part|, n);
    n := PadOut(to, n);
  }

  lemma PadsNeeded(m: nat, part: nat, n: nat)
    requires m % 4 == 0 && part < 3 && n == m + if part == 0 then 0 else part + 1
    ensures n + 3 - (n + 3) % 4 == m + if part == 0 then 0 else 4
    ensures Pads(0) == [] && Pads(1) == [PAD] && Pads(2) == [PAD, PAD]
  {
  }

  /** mg_base64_encode: 0 when the destination is too small. */
  method Encode(p: seq<byte>, to: array<byte>) returns (len: nat)
    modifies to
    ensures to.Length <= |Encoded(p)| ==> len == 0 && (to.Length > 0 ==> to[0] == 0)
    ensures to.Length > |Encoded(p)| ==> len == |Encoded(p)| && to[..len] == Encoded(p) && to[len] == 0
  {
    hide Letter, First, Second, Third, Fourth, Encoded, Streaming;
    len := 0;
    if to.Length > 0 {
      to[0] := 0;
    }
    if to.Length < (|p| / 3 + if |p| % 3 != 0 then 1 else 0) * 4 + 1 {
      return;
    }
    ghost var whole: seq<byte>, part: seq<byte> := [], [];
    StreamStart(to[..]);
    for i := 0 to |p|
      invariant Streaming(to[..], len, whole, part) && whole + part == p[..i]
    {
      StreamRoom(to[..], len, whole, part, p, i);
      len, whole, part := Update(p[i], to, len, whole, part);
      assert p[..i + 1] == p[..i] + [p[i]];
    }
    assert p[..|p|] == p;
    len := Final(to, len, whole, part);
  }

  lemma StreamStart(to: seq<byte>)
    requires |to| > 0
    ensures Streaming(to, 0, [], [])
  {
  }

  /** While bytes are left there is room for two more letters: no write passes the size that was tested. */
  lemma StreamRoom(to: seq<byte>, n: nat, whole: seq<byte>, part: seq<byte>, p: seq<byte>, i: nat)
    requires Streaming(to, n, whole, part) && i < |p| && whole + part == p[..i] && |to| > |Encoded(p)|
    ensures n + 2 < |to|
  {
    hide First, Second, Third, Fourth, Encoded;
    assert |whole| + |part| == i;
    OneBlockMore(whole, p);
  }

  lemma {:induction false} OneBlockMore(whole: seq<byte>, s: seq<byte>)
    requires |whole| % 3 == 0 && |whole| < |s|
    ensures |Encoded(whole)| + 4 <= |Encoded(s)|
    decreases |whole|
  {
    hide First, Second, Third, Fourth;
    if whole != [] {
      OneBlockMore(whole[3..], s[3..]);
    }
  }

  // ----- the block encoder -----

  /** The letters of the block at `i`. */
  method BlockAt(buf: seq<byte>, i: nat) returns (tmp: seq<byte>)
    requires i < |buf|
    ensures |tmp| == 4 && Encoded(buf[i..]) == tmp + if i + 3 <= |buf| then Encoded(buf[i + 3..]) else []
  {
    hide First, Second, Third, Fourth, Encoded;
    var c1 := buf[i];
    var c2 := if i + 1 < |buf| then buf[i + 1] else 0;
    var c3 := if i + 2 < |buf| then buf[i + 2] else 0;
    tmp := [First(c1), Second(c1, c2), PAD, PAD];
    if i + 1 < |buf| {
      tmp := tmp[2 := Third(c2, c3)];
    }
    if i + 2 < |buf| {
      tmp := tmp[3 := Fourth(c3)];
    }
    FirstBlock(buf[i..], tmp);
    assert i + 3 <= |buf| ==> buf[i..][3..] == buf[i + 3..];
  }

  /** bcpy: what it prints, and how much. */
  method Bcpy(buf: seq<byte>) returns (printed: seq<byte>, n: nat)
    ensures printed == Encoded(buf) && n == |printed|
  {
    hide *;
    printed, n := [], 0;
    var i := 0;
    assert buf[0..] == buf;
    while i < |buf|
      invariant i <= |buf| ==> printed + Encoded(buf[i..]) == Encoded(buf)
      invariant i > |buf| ==> printed == Encoded(buf)
      invariant n == |printed|
      decreases |buf| - i
    {
      var tmp := BlockAt(buf, i);
      BlockPrinted(printed, tmp, if i + 3 <= |buf| then Encoded(buf[i + 3..]) else []);
      printed := printed + tmp;
      n := n + 4;
      i := i + 3;
    }
    NothingPrinted(printed, buf, i);
  }

  lemma BlockPrinted(a: seq<byte>, b: seq<byte>, c: seq<byte>)
    ensures a + (b + c) == a + b + c && (c == [] ==> a + (b + c) == a + b)
  {
  }

  lemma NothingPrinted(printed: seq<byte>, buf: seq<byte>, i: nat)
    requires i >= |buf| && (i <= |buf| ==> printed + Encoded(buf[i..]) == Encoded(buf))
    ensures i <= |buf| ==> printed == Encoded(buf)
  {
    if i <= |buf| {
      assert buf[i..] == [] && Encoded([]) == [] && printed + [] == printed;
    }
  }

  lemma FirstBlock(s: seq<byte>, tmp: seq<byte>)
    requires s != [] && |tmp| == 4
    requires var x: byte, y: byte, z: byte := s[0], if |s| > 1 then s[1] else 0, if |s| > 2 then s[2] else 0;
             tmp == [First(x), Second(x, y), if |s| > 1 then Third(y, z) else PAD, if |s| > 2 then Fourth(z) else PAD]
    ensures Encoded(s) == tmp + if |s| >= 3 then Encoded(s[3..]) else []
  {
    hide First, Second, Third, Fourth;
    assert |s| < 3 ==> Encoded(s) == tmp;
    assert tmp + [] == tmp;
  }

  // ----- the decoder -----

  /** The bytes of four letters, fewer when they end in padding. */
  function Group(a: byte, b: byte, c: byte, d: byte): Partial
  {
    if Value(a) == 64 || Value(a) < 0 || Value(b) == 64 || Value(b) < 0 || Value(c) < 0 || Value(d) < 0 then Fails
    else
      var x := Value(a) * 4 + Value(b) / 16;
      if c == PAD then Yields([x])
      else
        var y := (Value(b) * 16 + Value(c) / 4) % 256;
        if d == PAD then Yields([x, y]) else Yields([x, y, (Value(c) * 64 + Value(d)) % 256])
  }

  function Decode(src: seq<byte>): (r: Partial)
    ensures r.Yields? ==> |r.out| <= |src| / 4 * 3
  {
    if |src| < 4 then Yields([])
    else
      match Group(src[0], src[1], src[2], src[3])
      case Fails => Fails
      case Yields(out) => Then(out, Decode(src[4..]))
  }

  /** mg_base64_decode: 0 when the destination is too small or the source is no base 64. */
  method DecodeTo(src: seq<byte>, dst: array<byte>) returns (len: nat)
    modifies dst
    ensures dst.Length < |src| / 4 * 3 + 1 || Decode(src).Fails? ==> len == 0
    ensures dst.Length >= |src| / 4 * 3 + 1 && Decode(src).Yields? ==>
              var out := Decode(src).out; len == |out| < dst.Length && dst[..len] == out && dst[len] == 0
  {
    hide Value, Group, Then, Decode;
    len := 0;
    if dst.Length > 0 {
      dst[0] := 0;
    }
    if dst.Length < |src| / 4 * 3 + 1 {
      return;
    }
    var i := 0;
    assert src[0..] == src;
    NothingDecoded(Decode(src));
    while i + 3 < |src|
      invariant i <= |src| && i % 4 == 0 && len <= i / 4 * 3
      invariant Decode(src) == Then(dst[..len], Decode(src[i..]))
    {
      ghost var rest := src[i..];
      assert rest[4..] == src[i + 4..];
      NextGroup(dst[..len], rest);
      var ok, n := PutGroup(src[i], src[i + 1], src[i + 2], src[i + 3], dst, len);
      if !ok {
        return 0;
      }
      i, len := i + 4, n;
    }
    dst[len] := 0;
    LastGroup(dst[..len], src[i..]);
  }

  lemma NextGroup(front: seq<byte>, src: seq<byte>)
    requires |src| >= 4
    ensures var g := Group(src[0], src[1], src[2], src[3]);
            && (g.Fails? ==> Then(front, Decode(src)).Fails?)
            && (g.Yields? ==> Then(front, Decode(src)) == Then(front + g.out, Decode(src[4..])))
  {
    hide Group;
    var g := Group(src[0], src[1], src[2], src[3]);
    if g.Yields? {
      ThenTwice(front, g.out, Decode(src[4..]));
    }
  }

  lemma LastGroup(front: seq<byte>, src: seq<byte>)
    requires |src| < 4
    ensures Then(front, Decode(src)) == Yields(front)
  {
    assert front + [] == front;
  }

  /** One turn of the loop of mg_base64_decode. */
  method PutGroup(s0: byte, s1: byte, s2: byte, s3: byte, dst: array<byte>, len: nat) returns (ok: bool, n: nat)
    requires len + 3 <= dst.Length
    modifies dst
    ensures ok == Group(s0, s1, s2, s3).Yields?
    ensures ok ==> n <= len + 3 && dst[..n] == old(dst[..len]) + Group(s0, s1, s2, s3).out
  {
    hide Value;
    var a, b, c, d := Value(s0), Value(s1), Value(s2), Value(s3);
    n := len;
    if a == 64 || a < 0 || b == 64 || b < 0 || c < 0 || d < 0 {
      return false, n;
    }
    ok := true;
    dst[n] := a * 4 + b / 16;
    n := n + 1;
    if s2 != PAD {
      dst[n] := (b * 16 + c / 4) % 256;
      n := n + 1;
      if s3 != PAD {
        dst[n] := (c * 64 + d) % 256;
        n := n + 1;
      }
    }
  }

  lemma FirstByte(x: byte, y: byte)
    ensures x / 4 * 4 + (x % 4 * 16 + y / 16) / 16 == x
  {
    DivModUnique(x % 4 * 16 + y / 16, 16, x % 4, y / 16);
  }

  lemma SecondByte(x: byte, y: byte, z: byte)
    ensures ((x % 4 * 16 + y / 16) * 16 + (y % 16 * 4 + z / 64) / 4) % 256 == y
  {
    DivModUnique(y % 16 * 4 + z / 64, 4, y % 16, z / 64);
    DivModUnique((x % 4 * 16 + y / 16) * 16 + y % 16, 256, x % 4, y);
  }

  lemma ThirdByte(y: byte, z: byte)
    ensures ((y % 16 * 4 + z / 64) * 64 + z % 64) % 256 == z
  {
    DivModUnique((y % 16 * 4 + z / 64) * 64 + z % 64, 256, y % 16, z);
  }

  lemma BlockBack(x: byte, y: byte, z: byte)
    ensures Group(First(x), Second(x, y), Third(y, z), Fourth(z)) == Yields([x, y, z])
    ensures Group(First(x), Second(x, y), Third(y, 0), PAD) == Yields([x, y])
    ensures Group(First(x), Second(x, 0), PAD, PAD) == Yields([x])
  {
    hide *;
    BlockOfThree(x, y, z);
    BlockOfTwo(x, y);
    BlockOfOne(x);
  }

  lemma BlockOfThree(x: byte, y: byte, z: byte)
    ensures Group(First(x), Second(x, y), Third(y, z), Fourth(z)) == Yields([x, y, z])
  {
    hide Letter, Value;
    LetterValue(x / 4);
    LetterValue(x % 4 * 16 + y / 16);
    LetterValue(y % 16 * 4 + z / 64);
    LetterValue(z % 64);
    FirstByte(x, y);
    SecondByte(x, y, z);
    ThirdByte(y, z);
  }

  lemma BlockOfTwo(x: byte, y: byte)
    ensures Group(First(x), Second(x, y), Third(y, 0), PAD) == Yields([x, y])
  {
    hide Letter, Value;
    LetterValue(x / 4);
    LetterValue(x % 4 * 16 + y / 16);
    LetterValue(y % 16 * 4 + 0);
    PadValue();
    FirstByte(x, y);
    SecondByte(x, y, 0);
  }

  lemma BlockOfOne(x: byte)
    ensures Group(First(x), Second(x, 0), PAD, PAD) == Yields([x])
  {
    hide Letter, Value;
    LetterValue(x / 4);
    LetterValue(x % 4 * 16 + 0);
    PadValue();
    FirstByte(x, 0);
  }

  lemma PadValue()
    ensures Value(PAD) == 64
  {
  }

  /** Decoding undoes encoding. */
  lemma {:induction false} RoundTrip(s: seq<byte>)
    ensures Decode(Encoded(s)) == Yields(s)
  {
    hide *;
    if |s| >= 3 {
      BlockRead(s);
      RoundTrip(s[3..]);
      BlockDecoded(Encoded(s), s[..3], s[3..]);
      assert s[..3] + s[3..] == s;
    } else {
      RestRead(s);
    }
  }

  /** The first letters of an encoded text. */
  lemma BlockRead(s: seq<byte>)
    requires |s| >= 3
    ensures var e := Encoded(s);
            |e| >= 4 && Group(e[0], e[1], e[2], e[3]) == Yields(s[..3]) && e[4..] == Encoded(s[3..])
  {
    hide *;
    EncodedStep(s);
    BlockBack(s[0], s[1], s[2]);
    assert s[..3] == [s[0], s[1], s[2]];
  }

  lemma EncodedStep(s: seq<byte>)
    requires |s| >= 3
    ensures var e := Encoded(s);
            && |e| >= 4 && e[4..] == Encoded(s[3..]) && e[0] == First(s[0]) && e[1] == Second(s[0], s[1])
            && e[2] == Third(s[1], s[2]) && e[3] == Fourth(s[2])
  {
    hide First, Second, Third, Fourth;
    assert Encoded(s) == Block(s[0], s[1], s[2]) + Encoded(s[3..]);
  }

  lemma BlockDecoded(text: seq<byte>, front: seq<byte>, rest: seq<byte>)
    requires |text| >= 4 && Group(text[0], text[1], text[2], text[3]) == Yields(front)
    requires Decode(text[4..]) == Yields(rest)
    ensures Decode(text) == Yields(front + rest)
  {
    hide Group;
  }

  lemma NothingRead()
    ensures Decode([]) == Yields([]) && Encoded([]) == []
  {
  }

  lemma RestGroup(s: seq<byte>)
    requires 0 < |s| < 3
    ensures var e := Encoded(s); |e| == 4 && Group(e[0], e[1], e[2], e[3]) == Yields(s) && e[4..] == []
  {
    BlockBack(s[0], if |s| == 2 then s[1] else 0, 0);
    hide Group, First, Second, Third, Fourth;
    assert s == if |s| == 1 then [s[0]] else [s[0], s[1]];
  }

  lemma RestRead(s: seq<byte>)
    requires |s| < 3
    ensures Decode(Encoded(s)) == Yields(s)
  {
    hide *;
    NothingRead();
    if s != [] {
      RestGroup(s);
      BlockDecoded(Encoded(s), s, []);
      assert s + [] == s;
    }
  }

  // ----- which texts are accepted -----

  predicate IsLetter(c: byte)
  {
    0 <= Value(c) < 64
  }

  /** The code asks for no more of a group of four. */
  predicate GroupAccepted(a: byte, b: byte, c: byte, d: byte)
  {
    IsLetter(a) && IsLetter(b) && (IsLetter(c) || c == PAD) && (IsLetter(d) || d == PAD)
  }

  predicate Accepted(text: seq<byte>)
  {
    |text| >= 4 ==> GroupAccepted(text[0], text[1], text[2], text[3]) && Accepted(text[4..])
  }

  lemma GroupYields(a: byte, b: byte, c: byte, d: byte)
    ensures Group(a, b, c, d).Yields? <==> GroupAccepted(a, b, c, d)
  {
  }

  /** A text is decoded exactly when each of its groups of four is accepted; what is left over does not count. */
  lemma {:induction false} AcceptedExactly(text: seq<byte>)
    ensures Decode(text).Yields? <==> Accepted(text)
  {
    hide Group, GroupAccepted;
    if |text| >= 4 {
      GroupYields(text[0], text[1], text[2], text[3]);
      AcceptedExactly(text[4..]);
    }
  }

  /** A group as section 4 of RFC 4648 has it: padding only at the end of the text, behind bits that are zero. */
  predicate GroupOk(a: byte, b: byte, c: byte, d: byte, last: bool)
  {
    && IsLetter(a) && IsLetter(b)
    && if d != PAD then IsLetter(c) && IsLetter(d)
       else last && if c != PAD then IsLetter(c) && Value(c) % 4 == 0 else Value(b) % 16 == 0
  }

  predicate Canonical(text: seq<byte>)
  {
    if |text| < 4 then text == []
    else GroupOk(text[0], text[1], text[2], text[3], |text| == 4) && Canonical(text[4..])
  }

  lemma ValueLetter(c: byte)
    requires IsLetter(c)
    ensures Letter(Value(c)) == c
  {
  }

  lemma FirstBits(a: nat, b: nat)
    requires a < 64 && b < 64
    ensures var x := a * 4 + b / 16; x < 256 && x / 4 == a && x % 4 * 16 == b / 16 * 16
  {
    DivModUnique(a * 4 + b / 16, 4, a, b / 16);
  }

  lemma SecondBits(b: nat, c: nat)
    requires b < 64 && c < 64
    ensures var y := (b * 16 + c / 4) % 256; y / 16 == b % 16 && y % 16 * 4 == c / 4 * 4
  {
    DivModUnique(b * 16 + c / 4, 256, b / 16, b % 16 * 16 + c / 4);
    DivModUnique(b % 16 * 16 + c / 4, 16, b % 16, c / 4);
  }

  lemma ThirdBits(c: nat, d: nat)
    requires c < 64 && d < 64
    ensures var z := (c * 64 + d) % 256; z / 64 == c % 4 && z % 64 == d
  {
    DivModUnique(c * 64 + d, 256, c / 4, c % 4 * 64 + d);
    DivModUnique(c % 4 * 64 + d, 64, c % 4, d);
  }

  /** The bytes of such a group are encoded as the group again. */
  lemma GroupBack(a: byte, b: byte, c: byte, d: byte, last: bool)
    requires GroupOk(a, b, c, d, last)
    ensures Group(a, b, c, d).Yields?
    ensures Encoded(Group(a, b, c, d).out) == [a, b, c, d]
    ensures !last ==> |Group(a, b, c, d).out| == 3
  {
    hide Letter, Value, Group, Encoded;
    if c == PAD {
      OneByteBack(a, b, d);
    } else if d == PAD {
      TwoBytesBack(a, b, c);
    } else {
      ThreeBytesBack(a, b, c, d);
    }
  }

  lemma OneByteBack(a: byte, b: byte, d: byte)
    requires GroupOk(a, b, PAD, d, true)
    ensures var g := Group(a, b, PAD, d); d == PAD && g.Yields? && |g.out| == 1 && Encoded(g.out) == [a, b, PAD, d]
  {
    hide *;
    PadValue();
    OneByte(a, b, d);
    ValueLetter(a);
    ValueLetter(b);
    FirstBits(Value(a), Value(b));
    var out := Group(a, b, PAD, d).out;
    BlockLetters(out[0], 0, 0, Value(a), Value(b), 0, 0);
    ShortEncoded(out);
  }

  lemma OneByte(a: byte, b: byte, d: byte)
    requires GroupOk(a, b, PAD, d, true)
    ensures IsLetter(a) && IsLetter(b) && d == PAD && 0 <= Value(a) < 64 && 0 <= Value(b) < 64 && Value(b) % 16 == 0
    ensures var g := Group(a, b, PAD, d); g.Yields? && |g.out| == 1 && g.out[0] == Value(a) * 4 + Value(b) / 16
  {
    PadValue();
    hide Value;
  }

  lemma TwoBytesBack(a: byte, b: byte, c: byte)
    requires GroupOk(a, b, c, PAD, true) && c != PAD
    ensures var g := Group(a, b, c, PAD); g.Yields? && |g.out| == 2 && Encoded(g.out) == [a, b, c, PAD]
  {
    hide *;
    TwoBytes(a, b, c);
    ValueLetter(a);
    ValueLetter(b);
    ValueLetter(c);
    FirstBits(Value(a), Value(b));
    SecondBits(Value(b), Value(c));
    var out := Group(a, b, c, PAD).out;
    BlockLetters(out[0], out[1], 0, Value(a), Value(b), Value(c), 0);
    ShortEncoded(out);
  }

  lemma TwoBytes(a: byte, b: byte, c: byte)
    requires GroupOk(a, b, c, PAD, true) && c != PAD
    ensures IsLetter(a) && IsLetter(b) && IsLetter(c) && Value(c) % 4 == 0
    ensures 0 <= Value(a) < 64 && 0 <= Value(b) < 64 && 0 <= Value(c) < 64
    ensures var g := Group(a, b, c, PAD);
            && g.Yields? && |g.out| == 2 && g.out[0] == Value(a) * 4 + Value(b) / 16
            && g.out[1] == (Value(b) * 16 + Value(c) / 4) % 256
  {
    PadValue();
    hide Value;
  }

  /** The letters of one or two bytes are those of a block. */
  lemma ShortEncoded(s: seq<byte>)
    requires 0 < |s| < 3
    ensures var b := Block(s[0], if |s| == 2 then s[1] else 0, 0);
            Encoded(s) == if |s| == 1 then [b[0], b[1], PAD, PAD] else [b[0], b[1], b[2], PAD]
  {
    hide First, Second, Third, Fourth;
  }

  lemma ThreeBytesBack(a: byte, b: byte, c: byte, d: byte)
    requires GroupOk(a, b, c, d, true) && c != PAD && d != PAD
    ensures var g := Group(a, b, c, d); g.Yields? && |g.out| == 3 && Encoded(g.out) == [a, b, c, d]
  {
    hide *;
    BytesOfThree(a, b, c, d);
    ValueLetter(a);
    ValueLetter(b);
    ValueLetter(c);
    ValueLetter(d);
    FirstBits(Value(a), Value(b));
    SecondBits(Value(b), Value(c));
    ThirdBits(Value(c), Value(d));
    var out := Group(a, b, c, d).out;
    BlockLetters(out[0], out[1], out[2], Value(a), Value(b), Value(c), Value(d));
    assert out == [out[0], out[1], out[2]];
    OneBlock(out[0], out[1], out[2]);
  }

  lemma BytesOfThree(a: byte, b: byte, c: byte, d: byte)
    requires GroupOk(a, b, c, d, true) && c != PAD && d != PAD
    ensures IsLetter(a) && IsLetter(b) && IsLetter(c) && IsLetter(d)
    ensures 0 <= Value(a) < 64 && 0 <= Value(b) < 64 && 0 <= Value(c) < 64 && 0 <= Value(d) < 64
    ensures var g := Group(a, b, c, d);
            && g.Yields? && |g.out| == 3 && g.out[0] == Value(a) * 4 + Value(b) / 16
            && g.out[1] == (Value(b) * 16 + Value(c) / 4) % 256 && g.out[2] == (Value(c) * 64 + Value(d)) % 256
  {
    hide Value;
  }

  lemma BlockLetters(x: byte, y: byte, z: byte, a: nat, b: nat, c: nat, d: nat)
    requires a < 64 && b < 64 && c < 64 && d < 64 && x / 4 == a && x % 4 * 16 == b / 16 * 16 && y / 16 == b % 16
    requires y % 16 * 4 == c / 4 * 4 && z / 64 == c % 4 && z % 64 == d
    ensures var e := Block(x, y, z); e[0] == Letter(a) && e[1] == Letter(b) && e[2] == Letter(c) && e[3] == Letter(d)
  {
    hide Letter;
  }

  /** What is encoded is canonical. */
  lemma {:induction false} EncodedCanonical(s: seq<byte>)
    ensures Canonical(Encoded(s))
  {
    hide Letter, Value;
    if s != [] {
      var y: byte, z: byte := if |s| > 1 then s[1] else 0, if |s| > 2 then s[2] else 0;
      LetterValue(s[0] / 4);
      LetterValue(s[0] % 4 * 16 + y / 16);
      LetterValue(y % 16 * 4 + z / 64);
      LetterValue(z % 64);
      assert IsLetter(First(s[0])) && IsLetter(Second(s[0], y)) && IsLetter(Third(y, z)) && IsLetter(Fourth(z));
      if |s| >= 3 {
        EncodedCanonical(s[3..]);
        assert Encoded(s)[4..] == Encoded(s[3..]);
      } else {
        assert Encoded(s)[4..] == [];
      }
    }
  }

  /** Encoding undoes decoding for the canonical texts, and for no others. */
  lemma {:induction false} CanonicalExactly(text: seq<byte>)
    ensures Canonical(text) <==> Decode(text).Yields? && Encoded(Decode(text).out) == text
  {
    if Canonical(text) {
      CanonicalBack(text);
    } else if Decode(text).Yields? {
      EncodedCanonical(Decode(text).out);
    }
  }

  lemma {:induction false} CanonicalBack(text: seq<byte>)
    requires Canonical(text)
    ensures Decode(text).Yields? && Encoded(Decode(text).out) == text
  {
    hide Group, GroupOk, Block;
    if |text| >= 4 {
      GroupBack(text[0], text[1], text[2], text[3], |text| == 4);
      var g := Group(text[0], text[1], text[2], text[3]).out;
      CanonicalBack(text[4..]);
      var rest := Decode(text[4..]).out;
      assert text == text[..4] + text[4..] && text[..4] == [text[0], text[1], text[2], text[3]];
      if |text| == 4 {
        assert text[4..] == [];
        assert g + [] == g;
      } else {
        EncodedAppend(g, rest);
      }
    }
  }

  /** "YQ==YQ==", "YQ=b" and "YQ==x" are decoded too, and are not what is encoded for their bytes. */
  lemma OthersAccepted()
    ensures Decode([89, 81, 61, 61, 89, 81, 61, 61]) == Yields([97, 97]) && !Canonical([89, 81, 61, 61, 89, 81, 61, 61])
    ensures Decode([89, 81, 61, 98]) == Yields([97]) && !Canonical([89, 81, 61, 98])
    ensures Decode([89, 81, 61, 61, 120]) == Yields([97]) && !Canonical([89, 81, 61, 61, 120])
  {
    assert Group(89, 81, 61, 61) == Yields([97]) && Group(89, 81, 61, 98) == Yields([97]);
    assert [89, 81, 61, 61, 89, 81, 61, 61][4..] == [89, 81, 61, 61];
    assert [89, 81, 61, 61][4..] == [] && [89, 81, 61, 98][4..] == [] && [89, 81, 61, 61, 120][4..] == [120];
    assert Decode([]) == Yields([]) && Decode([120]) == Yields([]);
    assert Decode([89, 81, 61, 61]) == Yields([97]);
  }
}
