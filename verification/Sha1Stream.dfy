/** mg_sha1_init, mg_sha1_update and mg_sha1_final: the digest of whatever was fed, in any pieces. */
module Sha1Stream {
  import opened Bytes
  import opened IoBuf
  import opened Sha1

  // ----- padding and counting -----

  function Zeros(k: nat): (z: seq<bv8>)
    ensures |z| == k
  {
    seq(k, _ => 0)
  }

  function Bits(s: seq<byte>): (b: seq<bv8>)
    ensures |b| == |s|
  {
    seq(|s|, i requires 0 <= i < |s| => s[i] as bv8)
  }

  /** How many zero bytes follow the byte 0x80 of a message of `n` bytes. */
  function Gap(n: nat): nat
  {
    (119 - n % 64) % 64
  }

  /** Section 5.1.1: of 1 and then 7 + 8z zero bits, z is the smallest that leaves 64 bits of the block. */
  lemma GapIsSmallest(n: nat, z: nat)
    ensures (8 * n + 1 + (7 + 8 * z)) % 512 == 448 <==> (n + 1 + z) % 64 == 56
    ensures (n + 1 + Gap(n)) % 64 == 56
    ensures (n + 1 + z) % 64 == 56 ==> z >= Gap(n)
  {
    var q, r := (n + 1 + z) / 64, (n + 1 + z) % 64;
    assert 8 * (n + 1 + z) == 512 * q + 8 * r;
    DivModUnique(8 * (n + 1 + z), 512, q, 8 * r);
    var p, m := n / 64, n % 64;
    assert n == 64 * p + m;
    if m <= 55 {
      assert Gap(n) == 55 - m;
      DivModUnique(n + 1 + Gap(n), 64, p, 56);
    } else {
      assert Gap(n) == 119 - m;
      DivModUnique(n + 1 + Gap(n), 64, p + 1, 56);
    }
    if r == 56 && z < Gap(n) {
      assert false;
    }
  }

  /** The message, padded with its length in bits, modulo 2^64. */
  function Padded(m: seq<bv8>): (p: seq<bv8>)
    ensures |p| % 64 == 0
  {
    PaddedLength(|m|);
    m + [0x80] + Zeros(Gap(|m|)) + Bits(BigEndian(8 * |m| % TWO_TO_THE_64, 8))
  }

  lemma PaddedLength(n: nat)
    ensures (n + 1 + Gap(n) + 8) % 64 == 0
  {
    GapIsSmallest(n, 0);
    var x := n + 1 + Gap(n);
    hide Gap;
    DivModUnique(x + 8, 64, x / 64 + 1, 0);
  }

  function Digest(m: seq<bv8>): seq<bv8>
  {
    DigestOf(HashBlocks(INITIAL, Padded(m)))
  }

  /** The two words of the counter hold `8 * n` modulo 2^64. */
  ghost predicate Counts(count0: uint32, count1: uint32, n: nat)
  {
    count1 * TWO_TO_THE_32 + count0 == 8 * n % TWO_TO_THE_64
  }

  lemma CountsUnfold(count0: uint32, count1: uint32, n: nat)
    requires Counts(count0, count1, n)
    ensures count1 * Limit(4) + count0 == 8 * n % TWO_TO_THE_64 && count0 < Limit(4)
  {
    Limits();
    hide Limit;
  }

  lemma CountLow(count0: uint32, count1: uint32, n: nat)
    requires Counts(count0, count1, n)
    ensures count0 / 8 % 64 == n % 64
  {
    var q := 8 * n / TWO_TO_THE_64;
    var t := n - 0x2000_0000_0000_0000 * q - 0x2000_0000 * count1;
    assert 8 * t == count0;
    DivModUnique(n, 64, 0x80_0000_0000_0000 * q + 0x80_0000 * count1 + t / 64, t % 64);
  }

  /** The carry of mg_sha1_update: the first word wraps just when it becomes smaller. */
  lemma CountAdd(count0: uint32, count1: uint32, n: nat, len: nat)
    requires Counts(count0, count1, n)
    ensures var low := (count0 + len % TWO_TO_THE_32 * 8 % TWO_TO_THE_32) % TWO_TO_THE_32;
            var high := if low < count0 then (count1 + 1) % TWO_TO_THE_32 else count1;
            Counts(low, (high + len / 0x2000_0000 % TWO_TO_THE_32) % TWO_TO_THE_32, n + len)
  {
    hide *;
    var hi, lo := len / 0x2000_0000, len % 0x2000_0000;
    SplitLength(len);
    ShiftLow(len);
    var carry := LowCount(count0, lo);
    HighCount(count1, carry, hi);
    SumOfCounts(count0, count1, n, hi, lo, carry);
  }

  lemma SplitLength(len: nat)
    ensures len == 0x2000_0000 * (len / 0x2000_0000) + len % 0x2000_0000 && 0 <= len % 0x2000_0000 < 0x2000_0000
  {
  }

  lemma LowCount(count0: uint32, lo: nat) returns (carry: nat)
    requires lo < 0x2000_0000
    ensures carry == if count0 + 8 * lo >= TWO_TO_THE_32 then 1 else 0
    ensures var low := (count0 + lo * 8) % TWO_TO_THE_32;
            low == count0 + 8 * lo - carry * TWO_TO_THE_32 && (low < count0 <==> carry == 1) && carry <= 1
  {
    carry := if count0 + 8 * lo >= TWO_TO_THE_32 then 1 else 0;
    DivModUnique(count0 + lo * 8, TWO_TO_THE_32, carry, count0 + 8 * lo - carry * TWO_TO_THE_32);
  }

  lemma HighCount(count1: uint32, carry: nat, hi: nat)
    requires carry <= 1
    ensures var high := if carry == 1 then (count1 + 1) % TWO_TO_THE_32 else count1;
            (high + hi % TWO_TO_THE_32) % TWO_TO_THE_32 == (count1 + carry + hi) % TWO_TO_THE_32
  {
    AddModulo(count1 + carry, hi);
    DivModUnique(count1, TWO_TO_THE_32, 0, count1);
  }

  lemma SumOfCounts(count0: uint32, count1: uint32, n: nat, hi: nat, lo: nat, carry: nat)
    requires Counts(count0, count1, n) && lo < 0x2000_0000
    requires carry == if count0 + 8 * lo >= TWO_TO_THE_32 then 1 else 0
    ensures Counts(count0 + 8 * lo - carry * TWO_TO_THE_32, (count1 + carry + hi) % TWO_TO_THE_32,
            n + 0x2000_0000 * hi + lo)
  {
    var total := count1 + carry + hi;
    var q, p, rest := 8 * n / TWO_TO_THE_64, total / TWO_TO_THE_32, total % TWO_TO_THE_32;
    var low := count0 + 8 * lo - carry * TWO_TO_THE_32;
    assert 8 * n == TWO_TO_THE_64 * q + count1 * TWO_TO_THE_32 + count0;
    assert total == TWO_TO_THE_32 * p + rest;
    DivModUnique(8 * (n + 0x2000_0000 * hi + lo), TWO_TO_THE_64, q + p, rest * TWO_TO_THE_32 + low);
  }

  lemma ShiftLow(len: nat)
    ensures len % TWO_TO_THE_32 * 8 % TWO_TO_THE_32 == len % 0x2000_0000 * 8
  {
    var q, r := len / TWO_TO_THE_32, len % TWO_TO_THE_32;
    var h, lo := r / 0x2000_0000, r % 0x2000_0000;
    DivModUnique(len, 0x2000_0000, 8 * q + h, lo);
    DivModUnique(r * 8, TWO_TO_THE_32, h, lo * 8);
  }

  lemma AddModulo(x: nat, y: nat)
    ensures (x % TWO_TO_THE_32 + y % TWO_TO_THE_32) % TWO_TO_THE_32 == (x + y) % TWO_TO_THE_32
  {
    var a, b := x % TWO_TO_THE_32, y % TWO_TO_THE_32;
    var wrap := if a + b >= TWO_TO_THE_32 then 1 else 0;
    DivModUnique(x + y, TWO_TO_THE_32, x / TWO_TO_THE_32 + y / TWO_TO_THE_32 + wrap, a + b - wrap * TWO_TO_THE_32);
  }

  // ----- the context -----

  /** State and buffer after the message `m`: its whole blocks are hashed, the rest is buffered. */
  ghost predicate Absorbed(state: seq<bv32>, buffer: seq<bv8>, m: seq<bv8>)
  {
    && |state| == 5 && |buffer| == 64
    && RegsOf(state) == HashBlocks(INITIAL, m[..|m| - |m| % 64])
    && buffer[..|m| % 64] == m[|m| - |m| % 64..]
  }

  lemma AbsorbedLengths(state: seq<bv32>, buffer: seq<bv8>, m: seq<bv8>)
    requires Absorbed(state, buffer, m)
    ensures |state| == 5 && |buffer| == 64
  {
  }

  lemma OneMoreBlock(m: seq<bv8>, b: seq<bv8>)
    requires |m| % 64 == 0 && |b| == 64
    ensures |m + b| % 64 == 0 && HashBlocks(INITIAL, m + b) == Compress(HashBlocks(INITIAL, m), b)
  {
    HashSplit(INITIAL, m, b);
    hide Compress;
    var h := HashBlocks(INITIAL, m);
    assert b[..64] == b && b[64..] == [];
    assert HashBlocks(h, b) == Compress(h, b);
  }

  lemma FillBlock(state: seq<bv32>, buffer: seq<bv8>, m: seq<bv8>, data: seq<bv8>, j: nat, now: seq<bv8>)
    requires Absorbed(state, buffer, m) && j == |m| % 64 && 64 - j <= |data|
    requires now == buffer[..j] + data[..64 - j] + buffer[64..]
    ensures |now| == 64 && (|m| + 64 - j) % 64 == 0 && |m| + 64 - j <= |m + data|
    ensures HashBlocks(INITIAL, (m + data)[..|m| + 64 - j]) == Compress(RegsOf(state), now)
  {
    hide HashBlocks, Compress, RegsOf;
    var whole := m[..|m| - j];
    assert m == whole + m[|m| - j..];
    assert (m + data)[..|m| + 64 - j] == whole + now;
    OneMoreBlock(whole, now);
  }

  lemma NextBlock(m: seq<bv8>, data: seq<bv8>, i: nat)
    requires (|m| + i) % 64 == 0 && i + 64 <= |data|
    ensures (|m| + i + 64) % 64 == 0
    ensures HashBlocks(INITIAL, (m + data)[..|m| + i + 64])
         == Compress(HashBlocks(INITIAL, (m + data)[..|m| + i]), data[i..i + 64])
  {
    hide HashBlocks, Compress;
    assert (m + data)[..|m| + i + 64] == (m + data)[..|m| + i] + data[i..i + 64];
    OneMoreBlock((m + data)[..|m| + i], data[i..i + 64]);
  }

  lemma BufferOnly(state: seq<bv32>, buffer: seq<bv8>, m: seq<bv8>, data: seq<bv8>, now: seq<bv8>)
    requires Absorbed(state, buffer, m) && |m| % 64 + |data| <= 63
    requires now == buffer[..|m| % 64] + data + buffer[|m| % 64 + |data|..]
    ensures Absorbed(state, now, m + data)
  {
    hide HashBlocks, RegsOf;
    var full := |m| - |m| % 64;
    DivModUnique(|m + data|, 64, |m| / 64, |m| % 64 + |data|);
    assert (m + data)[..full] == m[..full];
    assert (m + data)[full..] == m[full..] + data;
  }

  lemma BufferRest(state: seq<bv32>, m: seq<bv8>, data: seq<bv8>, i: nat, now: seq<bv8>)
    requires (|m| + i) % 64 == 0 && i <= |data| < i + 64 && |state| == 5 && |now| == 64
    requires RegsOf(state) == HashBlocks(INITIAL, (m + data)[..|m| + i]) && now[..|data| - i] == data[i..]
    ensures Absorbed(state, now, m + data)
  {
    hide HashBlocks, RegsOf;
    DivModUnique(|m + data|, 64, (|m| + i) / 64, |data| - i);
    assert (m + data)[|m| + i..] == data[i..];
  }

  /** The two words, each in network byte order, are the 64-bit length. */
  lemma LengthBytes(count0: uint32, count1: uint32, n: nat)
    requires Counts(count0, count1, n)
    ensures BigEndian(count1, 4) + BigEndian(count0, 4) == BigEndian(8 * n % TWO_TO_THE_64, 8)
  {
    hide *;
    CountsUnfold(count0, count1, n);
    BigEndianWords(count1, count0, 4);
  }

  lemma LimitTimes(high: nat, k: nat)
    requires k > 0
    ensures high * Limit(k) == 256 * (high * Limit(k - 1)) && high * Limit(k - 1) >= 0
  {
    var l: nat := Limit(k - 1);
    assert high * (256 * l) == 256 * (high * l);
  }

  lemma {:induction false} BigEndianWords(high: nat, low: nat, k: nat)
    requires low < Limit(k)
    ensures BigEndian(high * Limit(k) + low, 4 + k) == BigEndian(high, 4) + BigEndian(low, k)
  {
    if k > 0 {
      var n := high * Limit(k) + low;
      var q, r := low / 256, low % 256;
      LimitTimes(high, k);
      assert low == 256 * q + r && q < Limit(k - 1);
      hide Limit;
      var front: nat := high * Limit(k - 1);
      DivModUnique(n, 256, front + q, r);
      BigEndianWords(high, q, k - 1);
    }
  }

  /** Before the gap is filled the length is not 56 modulo 64. */
  lemma NotYet(n: nat, k: nat)
    requires k <= Gap(n) && (n + 1 + k) % 64 != 56
    ensures k < Gap(n)
    ensures Zeros(k) + [0] == Zeros(k + 1)
  {
    GapIsSmallest(n, k);
  }

  lemma AllHashed(state: seq<bv32>, buffer: seq<bv8>, m: seq<bv8>)
    requires Absorbed(state, buffer, Padded(m))
    ensures |state| == 5 && DigestOf(RegsOf(state)) == Digest(m)
  {
    hide Padded, HashBlocks, DigestOf;
    assert Padded(m)[..|Padded(m)|] == Padded(m);
  }

  lemma DigestByte(state: seq<bv32>, i: nat)
    requires |state| == 5 && i < 20
    ensures DigestOf(RegsOf(state))[i] == ByteOf(state[i / 4], i % 4)
  {
    hide WordBytes;
    WordByte(state[i / 4], i % 4);
    var h := RegsOf(state);
    assert i >= 8 ==> DigestOf(h)[i] == (WordBytes(h.c) + WordBytes(h.d) + WordBytes(h.e))[i - 8];
    assert i >= 16 ==> (WordBytes(h.c) + WordBytes(h.d) + WordBytes(h.e))[i - 8] == WordBytes(h.e)[i - 16];
  }

  lemma WordByte(w: bv32, k: nat)
    requires k < 4
    ensures WordBytes(w)[k] == ByteOf(w, k)
  {
    hide ByteOf;
  }

  class Context {
    const state: array<bv32>
    var count0: uint32
    var count1: uint32
    const buffer: array<bv8>
    ghost var msg: seq<bv8>

    ghost predicate Valid()
      reads this, state, buffer
    {
      state.Length == 5 && buffer.Length == 64 && Counts(count0, count1, |msg|) && Absorbed(state[..], buffer[..], msg)
    }

    /** mg_sha1_init. */
    constructor ()
      ensures Valid() && msg == [] && fresh(state) && fresh(buffer)
    {
      state := new bv32[5][0x67452301, 0xEFCDAB89, 0x98BADCFE, 0x10325476, 0xC3D2E1F0];
      buffer := new bv8[64];
      count0, count1 := 0, 0;
      msg := [];
    }

    /** mg_sha1_update. */
    method Update(data: seq<bv8>)
      requires Valid()
      modifies this, state, buffer
      ensures Valid() && msg == old(msg) + data
    {
      hide Counts, Absorbed;
      var len := |data|;
      CountLow(count0, count1, |msg|);
      CountAdd(count0, count1, |msg|, len);
      var j := count0;
      count0 := (count0 + len % TWO_TO_THE_32 * 8 % TWO_TO_THE_32) % TWO_TO_THE_32;
      if count0 < j {
        count1 := (count1 + 1) % TWO_TO_THE_32;
      }
      count1 := (count1 + len / 0x2000_0000 % TWO_TO_THE_32) % TWO_TO_THE_32;
      j := j / 8 % 64;
      ghost var m := msg;
      msg := msg + data;
      Absorb(data, j, m);
    }

    /** mg_sha1_final: the digest of all that was fed; the context is wiped. */
    method Final() returns (digest: array<bv8>)
      requires Valid()
      modifies this, state, buffer
      ensures digest.Length == 20 && digest[..] == Digest(old(msg)) && fresh(digest)
      ensures count0 == 0 && count1 == 0
      ensures forall i :: 0 <= i < state.Length ==> state[i] == 0
      ensures forall i :: 0 <= i < buffer.Length ==> buffer[i] == 0
    {
      hide Counts, Absorbed, HashBlocks, BigEndian, DigestOf, Digest, RegsOf, ByteOf;
      ghost var m := msg;
      LengthBytes(count0, count1, |m|);
      var finalcount := BigEndian(count1, 4) + BigEndian(count0, 4);
      Update([0x80]);
      ghost var k: nat := 0;
      CountLow(count0, count1, |msg|);
      while count0 / 8 % 64 * 8 != 448
        invariant Valid() && msg == m + [0x80] + Zeros(k) && k <= Gap(|m|)
        invariant count0 / 8 % 64 == |msg| % 64
        decreases Gap(|m|) - k
      {
        NotYet(|m|, k);
        Update([0]);
        k := k + 1;
        CountLow(count0, count1, |msg|);
      }
      GapIsSmallest(|m|, k);
      Update(Bits(finalcount));
      AllHashed(state[..], buffer[..], m);
      ghost var h := state[..];
      digest := new bv8[20];
      for i := 0 to 20
        modifies digest
        invariant state[..] == h && digest[..i] == DigestOf(RegsOf(h))[..i]
      {
        DigestByte(h, i);
        digest[i] := ByteOf(state[i / 4], i % 4);
      }
      assert digest[..] == digest[..20] == DigestOf(RegsOf(h));
      Wipe();
    }

    method Wipe()
      modifies this, state, buffer
      ensures count0 == 0 && count1 == 0
      ensures forall i :: 0 <= i < state.Length ==> state[i] == 0
      ensures forall i :: 0 <= i < buffer.Length ==> buffer[i] == 0
    {
      count0, count1 := 0, 0;
      forall i | 0 <= i < state.Length {
        state[i] := 0;
      }
      forall i | 0 <= i < buffer.Length {
        buffer[i] := 0;
      }
    }

    /** The buffer is filled up and hashed, then whole blocks are, and the rest is buffered. */
    method Absorb(data: seq<bv8>, from: nat, ghost m: seq<bv8>)
      requires Absorbed(state[..], buffer[..], m) && from == |m| % 64
      modifies state, buffer
      ensures Absorbed(state[..], buffer[..], m + data)
    {
      hide HashBlocks, Compress, Absorbed;
      var len, j, i := |data|, from, 0;
      AbsorbedLengths(state[..], buffer[..], m);
      ghost var s, b := state[..], buffer[..];
      if j + len > 63 {
        i := 64 - j;
        Fill(j, data[..i]);
        FillBlock(s, b, m, data, j, buffer[..]);
        Transform(state, buffer[..]);
        while i + 63 < len
          invariant 0 <= i <= len && (|m| + i) % 64 == 0
          invariant RegsOf(state[..]) == HashBlocks(INITIAL, (m + data)[..|m| + i])
        {
          NextBlock(m, data, i);
          Transform(state, data[i..i + 64]);
          i := i + 64;
        }
        j := 0;
      }
      b := buffer[..];
      Fill(j, data[i..]);
      if i == 0 {
        BufferOnly(s, b, m, data, buffer[..]);
      } else {
        BufferRest(state[..], m, data, i, buffer[..]);
      }
    }

    /** memcpy to the buffer. */
    method Fill(at: nat, data: seq<bv8>)
      requires at + |data| <= buffer.Length
      modifies buffer
      ensures buffer[..] == old(buffer[..at]) + data + old(buffer[at + |data|..])
    {
      forall i | 0 <= i < |data| {
        buffer[at + i] := data[i];
      }
    }
  }
}
