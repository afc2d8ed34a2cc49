/** mg_sha1_*: the streaming hash with its 16-word circular schedule, against FIPS 180-4. */
module Sha1 {
  import opened Bytes

  // ----- FIPS 180-4 -----

  /** Rotations to the left, section 3.2. */
  function Rol1(x: bv32): bv32
  {
    (x << 1) | (x >> 31)
  }

  function Rol5(x: bv32): bv32
  {
    (x << 5) | (x >> 27)
  }

  function Rol8(x: bv32): bv32
  {
    (x << 8) | (x >> 24)
  }

  function Rol24(x: bv32): bv32
  {
    (x << 24) | (x >> 8)
  }

  function Rol30(x: bv32): bv32
  {
    (x << 30) | (x >> 2)
  }

  /** Section 4.1.1. */
  function Choice(x: bv32, y: bv32, z: bv32): bv32
  {
    (x & y) ^ (!x & z)
  }

  function Parity(x: bv32, y: bv32, z: bv32): bv32
  {
    x ^ y ^ z
  }

  function Majority(x: bv32, y: bv32, z: bv32): bv32
  {
    (x & y) ^ (x & z) ^ (y & z)
  }

  function F(t: nat, x: bv32, y: bv32, z: bv32): bv32
  {
    if t < 20 then Choice(x, y, z) else if t < 40 then Parity(x, y, z) else if t < 60 then Majority(x, y, z)
    else Parity(x, y, z)
  }

  /** Section 4.2.1. */
  function K(t: nat): bv32
  {
    if t < 20 then 0x5A827999 else if t < 40 then 0x6ED9EBA1 else if t < 60 then 0x8F1BBCDC else 0xCA62C1D6
  }

  function BigWord(b: seq<bv8>, t: nat): bv32
    requires 4 * t + 4 <= |b|
  {
    (b[4 * t] as bv32 << 24) | (b[4 * t + 1] as bv32 << 16) | (b[4 * t + 2] as bv32 << 8) | (b[4 * t + 3] as bv32)
  }

  function Mix(x: bv32, y: bv32, z: bv32, w: bv32): bv32
  {
    Rol1(x ^ y ^ z ^ w)
  }

  function Plus(x: bv32, y: bv32): bv32
  {
    x + y
  }

  function Sum(x: bv32, f: bv32, e: bv32, k: bv32, w: bv32): bv32
  {
    x + f + e + k + w
  }

  /** The 80-word message schedule of section 6.1.2. */
  function W(b: seq<bv8>, t: nat): bv32
    requires |b| == 64
  {
    if t < 16 then BigWord(b, t)
    else Mix(W(b, t - 3), W(b, t - 8), W(b, t - 14), W(b, t - 16))
  }

  datatype Regs = Regs(a: bv32, b: bv32, c: bv32, d: bv32, e: bv32)

  function Round(r: Regs, t: nat, w: bv32): Regs
  {
    Regs(Sum(Rol5(r.a), F(t, r.b, r.c, r.d), r.e, K(t), w), r.a, Rol30(r.b), r.c, r.d)
  }

  /** The working variables after `t` rounds. */
  function Rounds(h: Regs, b: seq<bv8>, t: nat): Regs
    requires |b| == 64
  {
    if t == 0 then h else Round(Rounds(h, b, t - 1), t - 1, W(b, t - 1))
  }

  function Compress(h: Regs, b: seq<bv8>): Regs
    requires |b| == 64
  {
    var r := Rounds(h, b, 80);
    Regs(Plus(h.a, r.a), Plus(h.b, r.b), Plus(h.c, r.c), Plus(h.d, r.d), Plus(h.e, r.e))
  }

  /** Section 5.3.1. */
  const INITIAL: Regs := Regs(0x67452301, 0xEFCDAB89, 0x98BADCFE, 0x10325476, 0xC3D2E1F0)

  /** The hash value after the whole blocks of `m`. */
  function HashBlocks(h: Regs, m: seq<bv8>): Regs
    requires |m| % 64 == 0
    decreases |m|
  {
    if m == [] then h else HashBlocks(Compress(h, m[..64]), m[64..])
  }

  lemma NoBlocks(h: Regs)
    ensures HashBlocks(h, []) == h
  {
  }

  lemma FirstBlock(h: Regs, m: seq<bv8>)
    requires |m| % 64 == 0 && m != []
    ensures |m| >= 64 && HashBlocks(h, m) == HashBlocks(Compress(h, m[..64]), m[64..])
  {
    hide Compress;
  }

  lemma {:induction false} HashSplit(h: Regs, a: seq<bv8>, b: seq<bv8>)
    requires |a| % 64 == 0 && |b| % 64 == 0
    ensures |a + b| % 64 == 0 && HashBlocks(h, a + b) == HashBlocks(HashBlocks(h, a), b)
    decreases |a|
  {
    hide *;
    if a == [] {
      NoBlocks(h);
      assert a + b == b;
    } else {
      FirstBlock(h, a);
      FirstBlock(h, a + b);
      assert (a + b)[..64] == a[..64] && (a + b)[64..] == a[64..] + b;
      HashSplit(Compress(h, a[..64]), a[64..], b);
    }
  }

  /** Byte `k` of a word, most significant first. */
  function ByteOf(w: bv32, k: nat): bv8
  {
    if k == 0 then (w >> 24) as bv8 else if k == 1 then ((w >> 16) & 255) as bv8
    else if k == 2 then ((w >> 8) & 255) as bv8 else (w & 255) as bv8
  }

  function WordBytes(w: bv32): (b: seq<bv8>)
    ensures |b| == 4
  {
    [ByteOf(w, 0), ByteOf(w, 1), ByteOf(w, 2), ByteOf(w, 3)]
  }

  /** Put together again they are the word. */
  lemma WordBytesInverse(w: bv32)
    ensures BigWord(WordBytes(w), 0) == w
  {
  }

  function DigestOf(h: Regs): (b: seq<bv8>)
    ensures |b| == 20
  {
    WordBytes(h.a) + WordBytes(h.b) + WordBytes(h.c) + WordBytes(h.d) + WordBytes(h.e)
  }

  // ----- the transform -----

  function LittleWord(b: seq<bv8>, t: nat): bv32
    requires 4 * t + 4 <= |b|
  {
    (b[4 * t + 3] as bv32 << 24) | (b[4 * t + 2] as bv32 << 16) | (b[4 * t + 1] as bv32 << 8) | (b[4 * t] as bv32)
  }

  /** The byte swap of blk0. */
  function Swap(x: bv32): bv32
  {
    (Rol24(x) & 0xFF00FF00) | (Rol8(x) & 0x00FF00FF)
  }

  lemma SwapBytes(p: bv32, q: bv32, r: bv32, s: bv32)
    requires p < 256 && q < 256 && r < 256 && s < 256
    ensures Swap((s << 24) | (r << 16) | (q << 8) | p) == (p << 24) | (q << 16) | (r << 8) | s
  {
  }

  lemma SwapWord(b: seq<bv8>, t: nat)
    requires 4 * t + 4 <= |b|
    ensures Swap(LittleWord(b, t)) == BigWord(b, t)
  {
    SwapBytes(b[4 * t] as bv32, b[4 * t + 1] as bv32, b[4 * t + 2] as bv32, b[4 * t + 3] as bv32);
  }

  /** The functions as R0 to R4 spell them. */
  function CodeF(t: nat, w: bv32, x: bv32, y: bv32): bv32
  {
    if t < 20 then (w & (x ^ y)) ^ y else if t < 40 then w ^ x ^ y
    else if t < 60 then ((w | x) & y) | (w & x) else w ^ x ^ y
  }

  lemma ChoiceAgrees(w: bv32, x: bv32, y: bv32)
    ensures (w & (x ^ y)) ^ y == Choice(w, x, y)
  {
  }

  lemma MajorityAgrees(w: bv32, x: bv32, y: bv32)
    ensures ((w | x) & y) | (w & x) == Majority(w, x, y)
  {
  }

  lemma CodeAgrees(t: nat, w: bv32, x: bv32, y: bv32)
    ensures CodeF(t, w, x, y) == F(t, w, x, y)
  {
    hide Choice, Majority;
    ChoiceAgrees(w, x, y);
    MajorityAgrees(w, x, y);
  }

  function CodeSum(z: bv32, f: bv32, w: bv32, k: bv32, v: bv32): bv32
  {
    z + (f + w + k + v)
  }

  lemma SumOrder(z: bv32, f: bv32, w: bv32, k: bv32, v: bv32)
    ensures CodeSum(z, f, w, k, v) == Sum(v, f, z, k, w)
  {
  }

  function RegsOf(s: seq<bv32>): Regs
    requires |s| == 5
  {
    Regs(s[0], s[1], s[2], s[3], s[4])
  }

  /** `k` places on among the five variables. */
  function Turn(v: nat, k: nat): nat
    requires v < 5 && k < 5
  {
    if v + k < 5 then v + k else v + k - 5
  }

  /** The variables a to e, when the one called a is at `v`: the code renames them instead of moving
      them. */
  ghost predicate RegsAt(regs: seq<bv32>, v: nat, r: Regs)
  {
    && |regs| == 5 && v < 5 && regs[v] == r.a && regs[Turn(v, 1)] == r.b && regs[Turn(v, 2)] == r.c
    && regs[Turn(v, 3)] == r.d && regs[Turn(v, 4)] == r.e
  }

  /** Slot `t` modulo 16 holds word `t` of the schedule. */
  ghost predicate Slot(l: seq<bv32>, t: nat, b: seq<bv8>)
    requires |l| == 16 && |b| == 64
  {
    l[t % 16] == W(b, t)
  }

  /** The block before round `i`: the last 16 words of the schedule, or words still to be swapped. */
  ghost predicate Schedule(l: seq<bv32>, i: nat, b: seq<bv8>)
  {
    && |l| == 16 && |b| == 64
    && (forall t: nat :: i - 16 <= t < i ==> Slot(l, t, b))
    && (forall t: nat :: i <= t < 16 ==> l[t] == LittleWord(b, t))
  }

  /** The expression in blk. */
  method MixWords(x: bv32, y: bv32, z: bv32, w: bv32) returns (r: bv32)
    ensures r == Mix(x, y, z, w)
  {
    var value := x ^ y ^ z ^ w;
    r := (value << 1) | (value >> 31);
  }

  /** blk0 and blk: the word of round `i`, which overwrites the one 16 rounds before. */
  method NextWord(block: array<bv32>, i: nat, ghost b: seq<bv8>) returns (w: bv32)
    requires Schedule(block[..], i, b)
    modifies block
    ensures w == W(b, i) && Schedule(block[..], i + 1, b)
  {
    hide Mix, Swap, LittleWord, BigWord, W, Schedule;
    ghost var was := block[..];
    WordFrom(was, i, b);
    if i < 16 {
      block[i] := Swap(block[i]);
    } else {
      block[i % 16] := MixWords(block[(i + 13) % 16], block[(i + 8) % 16], block[(i + 2) % 16], block[i % 16]);
    }
    w := block[i % 16];
    WordStored(was, block[..], i, b);
  }

  lemma WordFrom(l: seq<bv32>, i: nat, b: seq<bv8>)
    requires Schedule(l, i, b)
    ensures |l| == 16
    ensures if i < 16 then W(b, i) == Swap(l[i])
            else W(b, i) == Mix(l[(i + 13) % 16], l[(i + 8) % 16], l[(i + 2) % 16], l[i % 16])
  {
    hide Mix, Swap, LittleWord, BigWord;
    if i < 16 {
      SwapWord(b, i);
    } else {
      Modulo16(i);
      assert Slot(l, i - 3, b) && Slot(l, i - 8, b) && Slot(l, i - 14, b) && Slot(l, i - 16, b);
    }
  }

  lemma Modulo16(i: nat)
    requires i >= 16
    ensures (i - 3) % 16 == (i + 13) % 16 && (i - 8) % 16 == (i + 8) % 16
    ensures (i - 14) % 16 == (i + 2) % 16 && (i - 16) % 16 == i % 16
  {
    SixteenMore(i - 3);
    SixteenMore(i - 8);
    SixteenMore(i - 14);
    SixteenMore(i - 16);
  }

  lemma SixteenMore(x: int)
    ensures (x + 16) % 16 == x % 16
  {
    DivModUnique(x + 16, 16, x / 16 + 1, x % 16);
  }

  lemma WordStored(was: seq<bv32>, now: seq<bv32>, i: nat, b: seq<bv8>)
    requires Schedule(was, i, b) && now == was[i % 16 := W(b, i)]
    ensures Schedule(now, i + 1, b)
  {
    hide W, LittleWord;
    forall t: nat | i + 1 <= t < 16
      ensures now[t] == LittleWord(b, t)
    {
      assert i % 16 == i < t;
    }
    forall t: nat | i - 15 <= t < i + 1
      ensures Slot(now, t, b)
    {
      if t < i {
        assert Slot(was, t, b);
        OtherSlot(t, i);
      }
    }
  }

  lemma OtherSlot(t: nat, i: nat)
    requires i - 16 < t < i
    ensures t % 16 != i % 16
  {
    assert i == 16 * (i / 16) + i % 16 && t == 16 * (t / 16) + t % 16;
  }

  /** R0 to R4: the roles of the variables start at `v`. */
  method DoRound(regs: array<bv32>, block: array<bv32>, v: nat, i: nat, ghost b: seq<bv8>, ghost h: Regs)
    requires Schedule(block[..], i, b) && regs != block && i < 80
    requires |b| == 64 && RegsAt(regs[..], v, Rounds(h, b, i))
    modifies regs, block
    ensures Schedule(block[..], i + 1, b) && v < 5 && RegsAt(regs[..], Turn(v, 4), Rounds(h, b, i + 1))
  {
    hide Sum, CodeSum, Rol5, Rol30, F, CodeF, K, W, Schedule, Round, RegsAt, Rounds;
    ghost var was, r := regs[..], Rounds(h, b, i);
    RegsLength(was, v, r);
    var w, x, y, z := Turn(v, 1), Turn(v, 2), Turn(v, 3), Turn(v, 4);
    var word := NextWord(block, i, b);
    RoundStep(was, v, i, r, word);
    NextRound(h, b, i);
    regs[z] := CodeSum(regs[z], CodeF(i, regs[w], regs[x], regs[y]), word, K(i), Rol5(regs[v]));
    regs[w] := Rol30(regs[w]);
    assert regs[..] == was[z := regs[z]][w := regs[w]];
  }

  lemma NextRound(h: Regs, b: seq<bv8>, i: nat)
    requires |b| == 64
    ensures Rounds(h, b, i + 1) == Round(Rounds(h, b, i), i, W(b, i))
  {
    hide Round, W;
  }

  lemma RegsLength(regs: seq<bv32>, v: nat, r: Regs)
    requires RegsAt(regs, v, r)
    ensures |regs| == 5 && v < 5
  {
  }

  /** Two assignments and a renaming are a round. */
  lemma RoundStep(regs: seq<bv32>, v: nat, i: nat, r: Regs, word: bv32)
    requires RegsAt(regs, v, r)
    ensures var w, x, y, z := Turn(v, 1), Turn(v, 2), Turn(v, 3), Turn(v, 4);
            var sum := CodeSum(regs[z], CodeF(i, regs[w], regs[x], regs[y]), word, K(i), Rol5(regs[v]));
            RegsAt(regs[z := sum][w := Rol30(regs[w])], z, Round(r, i, word))
  {
    hide Sum, CodeSum, Rol5, Rol30, F, CodeF, K;
    CodeAgrees(i, r.b, r.c, r.d);
    SumOrder(r.e, F(i, r.b, r.c, r.d), word, K(i), Rol5(r.a));
  }

  lemma FirstRound(l: seq<bv32>, regs: seq<bv32>, b: seq<bv8>, h: Regs)
    requires |l| == 16 && |b| == 64 && |regs| == 5 && RegsOf(regs) == h
    requires forall t: nat :: t < 16 ==> l[t] == LittleWord(b, t)
    ensures Schedule(l, 0, b) && RegsAt(regs, 0, Rounds(h, b, 0))
  {
  }

  lemma LastRound(regs: seq<bv32>, b: seq<bv8>, h: Regs, i: nat)
    requires |b| == 64 && i == 80 && RegsAt(regs, 0, Rounds(h, b, i))
    ensures |regs| == 5
    ensures Compress(h, b)
         == Regs(Plus(h.a, regs[0]), Plus(h.b, regs[1]), Plus(h.c, regs[2]), Plus(h.d, regs[3]), Plus(h.e, regs[4]))
  {
    hide Rounds, Plus;
  }

  /** Addition of words in C. */
  method Added(x: bv32, y: bv32) returns (r: bv32)
    ensures r == Plus(x, y)
  {
    r := x + y;
  }

  method Increase(state: array<bv32>, k: nat, x: bv32)
    requires k < state.Length
    modifies state
    ensures state[..] == old(state[..])[k := Plus(old(state[k]), x)]
  {
    hide *;
    state[k] := Added(state[k], x);
  }

  /** mg_sha1_transform. */
  method Transform(state: array<bv32>, buffer: seq<bv8>)
    requires state.Length == 5 && |buffer| == 64
    modifies state
    ensures RegsOf(state[..]) == Compress(RegsOf(old(state[..])), buffer)
  {
    hide Plus, W, LittleWord, Round, RegsAt, Schedule, Rounds, Compress;
    var block := new bv32[16](t requires 0 <= t < 16 => LittleWord(buffer, t));
    var regs := new bv32[5](t requires 0 <= t < 5 reads state => state[t]);
    ghost var h := RegsOf(state[..]);
    FirstRound(block[..], regs[..], buffer, h);
    var i, v := 0, 0;
    while i < 80
      invariant 0 <= i <= 80 && (i + v) % 5 == 0 && Schedule(block[..], i, buffer)
      invariant 0 <= v < 5 && RegsAt(regs[..], v, Rounds(h, buffer, i))
      invariant RegsOf(state[..]) == h
    {
      DoRound(regs, block, v, i, buffer, h);
      i, v := i + 1, Turn(v, 4);
    }
    LastRound(regs[..], buffer, h, i);
    Increase(state, 0, regs[0]);
    Increase(state, 1, regs[1]);
    Increase(state, 2, regs[2]);
    Increase(state, 3, regs[3]);
    Increase(state, 4, regs[4]);
  }

  // ----- the words as numbers -----

  /** The constants are the square roots of 2, 3, 5 and 10, times 2^30, without their fractions. */
  lemma KIsRoot(t: nat)
    requires t < 80
    ensures var n, k := [2, 3, 5, 10][t / 20], K(t) as int; k * k <= n * 0x1000_0000_0000_0000 < (k + 1) * (k + 1)
  {
  }

  function Number(x: bv32): (n: nat)
    ensures n < 0x1_0000_0000
  {
    x as int
  }

  /** The bytes of the initial hash value, each word from its least significant one on: 0 to 15 in order, then 15
      to 0, two digits to a byte, and four more. */
  lemma InitialBytes()
    ensures LittleEndian(Number(INITIAL.a), 4) == [0x01, 0x23, 0x45, 0x67]
    ensures LittleEndian(Number(INITIAL.b), 4) == [0x89, 0xab, 0xcd, 0xef]
    ensures LittleEndian(Number(INITIAL.c), 4) == [0xfe, 0xdc, 0xba, 0x98]
    ensures LittleEndian(Number(INITIAL.d), 4) == [0x76, 0x54, 0x32, 0x10]
    ensures LittleEndian(Number(INITIAL.e), 4) == [0xf0, 0xe1, 0xd2, 0xc3]
  {
    hide *;
    InitialNumbers();
    WordFromBytes(0x01, 0x23, 0x45, 0x67);
    WordFromBytes(0x89, 0xab, 0xcd, 0xef);
    WordFromBytes(0xfe, 0xdc, 0xba, 0x98);
    WordFromBytes(0x76, 0x54, 0x32, 0x10);
    WordFromBytes(0xf0, 0xe1, 0xd2, 0xc3);
  }

  lemma InitialNumbers()
    ensures Number(INITIAL.a) == 0x67452301 && Number(INITIAL.b) == 0xEFCDAB89 && Number(INITIAL.c) == 0x98BADCFE
    ensures Number(INITIAL.d) == 0x10325476 && Number(INITIAL.e) == 0xC3D2E1F0
  {
  }

  lemma TopByte(x: bv32)
    ensures Number(x) == Number(x & 0xff00_0000) + Number(x & 0xff_ffff)
  {
  }

  lemma NextByte(x: bv32)
    ensures Number(x & 0xff_ffff) == Number(x & 0xff_0000) + Number(x & 0xffff)
  {
  }

  lemma LowBytes(x: bv32)
    ensures Number(x & 0xffff) == Number(x & 0xff00) + Number(x & 0xff)
  {
  }

  lemma LowByte(x: bv32, low: bv32)
    requires x <= 0xff && (low == 0x1f || low == 3 || low == 1)
    ensures Number(x) == Number(x & !low) + Number(x & low)
  {
  }

  lemma FourBytes(x: bv32)
    ensures Number(x) == Number(x & 0xff00_0000) + Number(x & 0xff_0000) + Number(x & 0xff00) + Number(x & 0xff)
  {
    hide *;
    TopByte(x);
    NextByte(x);
    LowBytes(x);
  }

  lemma LowMasks(x: bv32, low: bv32)
    requires low == 0x1f || low == 3 || low == 1
    ensures x & !low & 0xff00_0000 == x & 0xff00_0000 && x & !low & 0xff_0000 == x & 0xff_0000
    ensures x & !low & 0xff00 == x & 0xff00 && x & !low & 0xff == x & 0xff & !low && x & 0xff & low == x & low
    ensures x & 0xff <= 0xff
  {
  }

  /** The lowest bits of a word, and the others. */
  lemma LowBits(x: bv32, low: bv32)
    requires low == 0x1f || low == 3 || low == 1
    ensures Number(x) == Number(x & !low) + Number(x & low)
  {
    hide *;
    FourBytes(x);
    FourBytes(x & !low);
    LowMasks(x, low);
    LowByte(x & 0xff, low);
  }

  lemma Shifted1(x: bv32)
    requires x <= 0x7fff_ffff
    ensures Number(x << 1) == 2 * Number(x) && Number(x) < 0x8000_0000
  {
  }

  lemma Shifted2(x: bv32)
    requires x <= 0x3fff_ffff
    ensures Number(x << 2) == 4 * Number(x)
  {
  }

  lemma Shifted5(x: bv32)
    requires x <= 0x7ff_ffff
    ensures Number(x << 5) == 32 * Number(x) && Number(x) < 0x800_0000
  {
  }

  lemma Shifted30(x: bv32)
    requires x <= 3
    ensures Number(x << 30) == 0x4000_0000 * Number(x) && Number(x) < 4
  {
  }

  lemma HighBit(x: bv32)
    ensures Number(x) == 0x8000_0000 * Number(x >> 31) + Number(x & 0x7fff_ffff)
  {
  }

  lemma HighBits(x: bv32)
    ensures Number(x) == 0x800_0000 * Number(x >> 27) + Number(x & 0x7ff_ffff)
  {
  }

  lemma TopTwo(x: bv32)
    ensures Number(x) == Number(x & 0xc000_0000) + Number(x & 0x3fff_ffff)
  {
  }

  lemma Parts1(x: bv32)
    ensures x & 0x7fff_ffff <= 0x7fff_ffff && Rol1(x) & !1 == (x & 0x7fff_ffff) << 1 && Rol1(x) & 1 == x >> 31
  {
  }

  lemma Parts5(x: bv32)
    ensures x & 0x7ff_ffff <= 0x7ff_ffff && Rol5(x) & !0x1f == (x & 0x7ff_ffff) << 5 && Rol5(x) & 0x1f == x >> 27
  {
  }

  lemma Parts30(x: bv32)
    ensures x & 3 <= 3 && Rol30(x) & 0xc000_0000 == (x & 3) << 30 && Rol30(x) & 0x3fff_ffff == x >> 2
  {
  }

  lemma WithoutTwo(x: bv32)
    ensures x & !3 == (x >> 2) << 2 && x >> 2 <= 0x3fff_ffff
  {
  }

  /** `high` and `low` are the parts of `x` that a rotation by the width of `p` exchanges. */
  lemma Exchanged(x: nat, r: nat, p: nat, q: nat, high: nat, low: nat)
    requires p * q == 0x1_0000_0000 && x == q * high + low && low < q && high < p && r == p * low + high
    ensures r == x * p % 0x1_0000_0000 + x / q
  {
    DivModUnique(x, q, high, low);
    assert x * p == high * 0x1_0000_0000 + p * low by {
      assert x * p == q * high * p + low * p;
      assert q * high * p == high * (p * q);
    }
    assert p * low < p * q by {
      MulAtLeast(q - low, p);
      MulSub(q, low, p);
    }
    DivModUnique(x * p, 0x1_0000_0000, high, p * low);
  }

  lemma Sum1(x: bv32)
    ensures Number(Rol1(x)) == 2 * Number(x & 0x7fff_ffff) + Number(x >> 31) && Number(x & 0x7fff_ffff) < 0x8000_0000
  {
    hide *;
    LowBits(Rol1(x), 1);
    Even1(x);
    Odd1(x);
  }

  lemma Even1(x: bv32)
    ensures Number(Rol1(x) & !1) == 2 * Number(x & 0x7fff_ffff) && Number(x & 0x7fff_ffff) < 0x8000_0000
  {
    hide *;
    Parts1(x);
    Shifted1(x & 0x7fff_ffff);
  }

  lemma Odd1(x: bv32)
    ensures Number(Rol1(x) & 1) == Number(x >> 31)
  {
    hide *;
    Parts1(x);
  }

  lemma Rol1Number(x: bv32)
    ensures Number(Rol1(x)) == Number(x) * 2 % 0x1_0000_0000 + Number(x) / 0x8000_0000
  {
    hide *;
    Sum1(x);
    HighBit(x);
    Exchanged(Number(x), Number(Rol1(x)), 2, 0x8000_0000, Number(x >> 31), Number(x & 0x7fff_ffff));
  }

  lemma High5(x: bv32)
    ensures Number(Rol5(x) & !0x1f) == 32 * Number(x & 0x7ff_ffff) && Number(x & 0x7ff_ffff) < 0x800_0000
  {
    hide *;
    Parts5(x);
    Shifted5(x & 0x7ff_ffff);
  }

  lemma Low5(x: bv32)
    ensures Number(Rol5(x) & 0x1f) == Number(x >> 27)
  {
    hide *;
    Parts5(x);
  }

  lemma Sum5(x: bv32)
    ensures Number(Rol5(x)) == 32 * Number(x & 0x7ff_ffff) + Number(x >> 27) && Number(x & 0x7ff_ffff) < 0x800_0000
  {
    hide *;
    LowBits(Rol5(x), 0x1f);
    High5(x);
    Low5(x);
  }

  lemma Rol5Number(x: bv32)
    ensures Number(Rol5(x)) == Number(x) * 32 % 0x1_0000_0000 + Number(x) / 0x800_0000
  {
    hide *;
    Sum5(x);
    HighBits(x);
    Exchanged(Number(x), Number(Rol5(x)), 32, 0x800_0000, Number(x >> 27), Number(x & 0x7ff_ffff));
  }

  lemma Sum30(x: bv32)
    ensures Number(Rol30(x)) == 0x4000_0000 * Number(x & 3) + Number(x >> 2) && Number(x & 3) < 4
  {
    hide *;
    TopTwo(Rol30(x));
    Parts30(x);
    Shifted30(x & 3);
  }

  lemma SplitTwo(x: bv32)
    ensures Number(x) == 4 * Number(x >> 2) + Number(x & 3)
  {
    hide *;
    LowBits(x, 3);
    WithoutTwo(x);
    Shifted2(x >> 2);
  }

  lemma Rol30Number(x: bv32)
    ensures Number(Rol30(x)) == Number(x) * 0x4000_0000 % 0x1_0000_0000 + Number(x) / 4
  {
    hide *;
    Sum30(x);
    SplitTwo(x);
    Exchanged(Number(x), Number(Rol30(x)), 0x4000_0000, 4, Number(x >> 2), Number(x & 3));
  }
}
