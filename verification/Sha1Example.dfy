/** The digest of "abc", computed step by step from the definitions of FIPS 180-4. */
module Sha1Example {
  import opened Bytes
  import opened Sha1
  import opened Sha1Stream

  const ABC: seq<bv8> := [0x61, 0x62, 0x63]

  /** The words that are given set the rounds going. */
  lemma RoundSteps(b: seq<bv8>, from: nat, to: nat)
    requires |b| == 64
    ensures forall t: nat :: from <= t < to ==> Rounds(INITIAL, b, t + 1) == Round(Rounds(INITIAL, b, t), t, W(b, t))
  {
    hide Round;
  }

  /** Words 0 to 19 of the schedule. */
  predicate Words0(b: seq<bv8>)
    requires |b| == 64
  {
    && W(b, 0) == 0x61626380 && W(b, 1) == 0x00000000 && W(b, 2) == 0x00000000 && W(b, 3) == 0x00000000
    && W(b, 4) == 0x00000000 && W(b, 5) == 0x00000000 && W(b, 6) == 0x00000000 && W(b, 7) == 0x00000000
    && W(b, 8) == 0x00000000 && W(b, 9) == 0x00000000 && W(b, 10) == 0x00000000 && W(b, 11) == 0x00000000
    && W(b, 12) == 0x00000000 && W(b, 13) == 0x00000000 && W(b, 14) == 0x00000000 && W(b, 15) == 0x00000018
    && W(b, 16) == 0xc2c4c700 && W(b, 17) == 0x00000000 && W(b, 18) == 0x00000030 && W(b, 19) == 0x85898e01
  }

  /** Words 20 to 39 of the schedule. */
  predicate Words1(b: seq<bv8>)
    requires |b| == 64
  {
    && W(b, 20) == 0x00000000 && W(b, 21) == 0x00000060 && W(b, 22) == 0x0b131c03 && W(b, 23) == 0x00000030
    && W(b, 24) == 0x85898ec1 && W(b, 25) == 0x16263806 && W(b, 26) == 0x00000000 && W(b, 27) == 0x00000180
    && W(b, 28) == 0x2c4c700c && W(b, 29) == 0x000000f0 && W(b, 30) == 0x93afb507 && W(b, 31) == 0x5898e048
    && W(b, 32) == 0x8e9a9202 && W(b, 33) == 0x00000600 && W(b, 34) == 0xb131c0f0 && W(b, 35) == 0x16263bc6
    && W(b, 36) == 0x4ebed41e && W(b, 37) == 0x626380a1 && W(b, 38) == 0x16263806 && W(b, 39) == 0x000018c0
  }

  /** Words 40 to 59 of the schedule. */
  predicate Words2(b: seq<bv8>)
    requires |b| == 64
  {
    && W(b, 40) == 0xd2e138c4 && W(b, 41) == 0x00000f00 && W(b, 42) == 0x3afb5079 && W(b, 43) == 0x898e04e5
    && W(b, 44) == 0xe2ba3c2b && W(b, 45) == 0x000060c0 && W(b, 46) == 0x053a37cd && W(b, 47) == 0x74458547
    && W(b, 48) == 0xda9415ed && W(b, 49) == 0x26380a16 && W(b, 50) == 0x626383a1 && W(b, 51) == 0x4ebf54de
    && W(b, 52) == 0x3835b44b && W(b, 53) == 0x0000f600 && W(b, 54) == 0x1e84c7a3 && W(b, 55) == 0x98e04d98
    && W(b, 56) == 0x651d16a0 && W(b, 57) == 0x62658ca1 && W(b, 58) == 0x458544d6 && W(b, 59) == 0x44584cb7
  }

  /** Words 60 to 79 of the schedule. */
  predicate Words3(b: seq<bv8>)
    requires |b| == 64
  {
    && W(b, 60) == 0x7ba06619 && W(b, 61) == 0x6380aea2 && W(b, 62) == 0x0ae55269 && W(b, 63) == 0x627b49a1
    && W(b, 64) == 0x7cd45c9d && W(b, 65) == 0x000f0000 && W(b, 66) == 0xfb50753a && W(b, 67) == 0xec6765e8
    && W(b, 68) == 0xba3c2be2 && W(b, 69) == 0x0060c000 && W(b, 70) == 0x3a37cd05 && W(b, 71) == 0x458546f4
    && W(b, 72) == 0xb8599dd6 && W(b, 73) == 0x380a1a26 && W(b, 74) == 0x01e02203 && W(b, 75) == 0xe7cc3456
    && W(b, 76) == 0xe6e60b69 && W(b, 77) == 0x00f60a00 && W(b, 78) == 0x5795ef4f && W(b, 79) == 0x822e0879
  }

  lemma Rounds0(b: seq<bv8>)
    requires |b| == 64 && Words0(b) && Rounds(INITIAL, b, 0)
          == Regs(0x67452301, 0xefcdab89, 0x98badcfe, 0x10325476, 0xc3d2e1f0)
    ensures Rounds(INITIAL, b, 20)
         == Regs(0xfd9e1d7d, 0xdc64901d, 0x20aa99ca, 0xd3a49608, 0xc82f758b)
  {
    RoundSteps(b, 0, 20);
    hide Rounds, W;
  }

  lemma Rounds1(b: seq<bv8>)
    requires |b| == 64 && Words1(b) && Rounds(INITIAL, b, 20)
          == Regs(0xfd9e1d7d, 0xdc64901d, 0x20aa99ca, 0xd3a49608, 0xc82f758b)
    ensures Rounds(INITIAL, b, 40)
         == Regs(0x32de1cba, 0x4c986405, 0xf718e5cf, 0x03d447f6, 0xf72eec32)
  {
    RoundSteps(b, 20, 40);
    hide Rounds, W;
  }

  lemma Rounds2(b: seq<bv8>)
    requires |b| == 64 && Words2(b) && Rounds(INITIAL, b, 40)
          == Regs(0x32de1cba, 0x4c986405, 0xf718e5cf, 0x03d447f6, 0xf72eec32)
    ensures Rounds(INITIAL, b, 60)
         == Regs(0x3f52de5a, 0x09d785fd, 0x3498bfd4, 0xf211824f, 0xd79915ab)
  {
    RoundSteps(b, 40, 60);
    hide Rounds, W;
  }

  lemma Rounds3(b: seq<bv8>)
    requires |b| == 64 && Words3(b) && Rounds(INITIAL, b, 60)
          == Regs(0x3f52de5a, 0x09d785fd, 0x3498bfd4, 0xf211824f, 0xd79915ab)
    ensures Rounds(INITIAL, b, 80)
         == Regs(0x42541b35, 0x5738d5e1, 0x21834873, 0x681e6df6, 0xd8fdf6ad)
  {
    RoundSteps(b, 60, 80);
    hide Rounds, W;
  }

  lemma Schedule1(b: seq<bv8>)
    requires |b| == 64 && Words0(b)
    ensures Words1(b)
  {
  }

  lemma Schedule2(b: seq<bv8>)
    requires |b| == 64 && Words1(b)
    ensures Words2(b)
  {
  }

  lemma Schedule3(b: seq<bv8>)
    requires |b| == 64 && Words2(b)
    ensures Words3(b)
  {
  }

  const BLOCK: seq<bv8> := [0x61, 0x62, 0x63, 0x80] + Zeros(56) + [0, 0, 0, 24]

  lemma AbcPadded()
    ensures Padded(ABC) == BLOCK
  {
    LengthField();
    hide BigEndian, Bits;
    assert ABC + [0x80] == [0x61, 0x62, 0x63, 0x80] && Gap(3) == 52;
    assert Zeros(52) + [0, 0, 0, 0, 0, 0, 0, 24] == Zeros(56) + [0, 0, 0, 24];
  }

  lemma LengthField()
    ensures Bits(BigEndian(24, 8)) == [0, 0, 0, 0, 0, 0, 0, 24]
  {
    LastWord();
    WordInBytes(0);
    WordInBytes(24);
    hide BigEndian;
    assert BigEndian(24, 8) == [0, 0, 0, 0, 0, 0, 0, 24];
    SmallBits(BigEndian(24, 8));
  }

  lemma SmallBits(s: seq<byte>)
    requires |s| == 8 && s[..7] == [0, 0, 0, 0, 0, 0, 0] && s[7] == 24
    ensures Bits(s) == [0, 0, 0, 0, 0, 0, 0, 24]
  {
    assert forall i :: 0 <= i < 7 ==> s[i] == s[..7][i] == 0;
  }

  lemma LastWord()
    ensures BigEndian(24, 8) == BigEndian(0, 4) + BigEndian(24, 4)
  {
    assert BigEndian(0, 5) == BigEndian(0, 4) + [0];
    assert BigEndian(0, 6) == BigEndian(0, 5) + [0];
    assert BigEndian(0, 7) == BigEndian(0, 6) + [0];
    assert BigEndian(0, 3) + [24] == BigEndian(24, 4);
  }

  lemma FirstWords(b: seq<bv8>, t: nat)
    requires |b| == 64 && b[0] == 0x61 && b[1] == 0x62 && b[2] == 0x63 && b[3] == 0x80 && b[63] == 24 && t < 16
    requires forall i :: 4 <= i < 63 ==> b[i] == 0
    ensures W(b, t) == if t == 0 then 0x61626380 else if t == 15 then 24 else 0
  {
    assert W(b, t) == BigWord(b, t);
  }

  lemma BlockWords(b: seq<bv8>)
    requires b == BLOCK
    ensures |b| == 64 && Words0(b)
  {
    forall t: nat | t < 16
      ensures W(b, t) == if t == 0 then 0x61626380 else if t == 15 then 24 else 0
    {
      FirstWords(b, t);
    }
  }

  lemma Compressed()
    ensures Compress(INITIAL, BLOCK)
         == Regs(0xa9993e36, 0x4706816a, 0xba3e2571, 0x7850c26c, 0x9cd0d89d)
  {
    BlockWords(BLOCK);
    hide W, Words0, Words1, Words2, Words3;
    Schedule1(BLOCK);
    Schedule2(BLOCK);
    Schedule3(BLOCK);
    Rounds0(BLOCK);
    Rounds1(BLOCK);
    Rounds2(BLOCK);
    Rounds3(BLOCK);
    hide Rounds;
  }

  /** SHA-1 of "abc". */
  lemma AbcDigest()
    ensures Digest(ABC) == [0xa9, 0x99, 0x3e, 0x36, 0x47, 0x06, 0x81, 0x6a, 0xba, 0x3e, 0x25, 0x71,
                            0x78, 0x50, 0xc2, 0x6c, 0x9c, 0xd0, 0xd8, 0x9d]
  {
    AbcPadded();
    Compressed();
    hide Compress, Padded;
    assert BLOCK[..64] == BLOCK && BLOCK[64..] == [];
    assert HashBlocks(INITIAL, BLOCK) == Compress(INITIAL, BLOCK);
  }
}
