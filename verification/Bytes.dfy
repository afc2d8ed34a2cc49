/** Bytes of memory, and the machine words that the code copies in and out of them. */
module Bytes {

  type byte = x: int | 0 <= x < 256

  /** `bytes` lie in the buffer at offset `at`. */
  predicate Holds(buf: seq<byte>, at: nat, bytes: seq<byte>)
  {
    at + |bytes| <= |buf| && forall i :: 0 <= i < |bytes| ==> buf[at + i] == bytes[i]
  }

  lemma HoldsBoth(s: seq<byte>, at: nat, a: seq<byte>, b: seq<byte>)
    requires Holds(s, at, a + b)
    ensures Holds(s, at, a) && Holds(s, at + |a|, b)
  {
    forall i | 0 <= i < |a|
      ensures s[at + i] == a[i]
    {
      assert (a + b)[i] == a[i];
    }
    forall i | 0 <= i < |b|
      ensures s[at + |a| + i] == b[i]
    {
      assert (a + b)[|a| + i] == b[i] && s[at + (|a| + i)] == (a + b)[|a| + i];
    }
  }

  lemma HoldsFirst(s: seq<byte>, at: nat, b: seq<byte>)
    requires Holds(s, at, b) && |b| > 0
    ensures at < |s| && s[at] == b[0]
  {
    assert s[at + 0] == b[0];
  }

  lemma HoldsSlice(buf: seq<byte>, at: nat, bytes: seq<byte>, i: nat, j: nat)
    requires Holds(buf, at, bytes) && i <= j <= |bytes|
    ensures buf[at + i..at + j] == bytes[i..j]
  {
    forall k | 0 <= k < j - i
      ensures buf[at + i..at + j][k] == bytes[i..j][k]
    {
      assert buf[at + (i + k)] == bytes[i + k];
    }
  }

  /** A part of a part. */
  lemma SubSlice(a: seq<byte>, from: nat, to: nat, i: nat, j: nat)
    requires from <= to <= |a| && i <= j <= to - from
    ensures a[from..to][i..j] == a[from + i..from + j]
  {
    forall k | 0 <= k < j - i
      ensures a[from..to][i..j][k] == a[from + i..from + j][k]
    {
      assert a[from..to][i + k] == a[from + i + k];
    }
  }

  lemma ThreeParts(a: seq<byte>, i: nat, j: nat)
    requires i <= j <= |a|
    ensures a == a[..i] + a[i..j] + a[j..]
  {
  }

  predicate HexDigit(c: byte)
  {
    48 <= c <= 57 || 65 <= c <= 70 || 97 <= c <= 102
  }

  /** mg_unhex_nimble: the value of a hexadecimal digit; for other bytes what the subtraction leaves. */
  function Nibble(c: byte): (n: byte)
    ensures HexDigit(c) ==> n < 16
  {
    if 48 <= c <= 57 then c - 48 else if 65 <= c <= 70 then c - 55 else (c - 87) % 256
  }

  /** The digits of a hexadecimal number, in both cases, have their values. */
  lemma NibbleOfDigit(d: nat)
    requires d < 16
    ensures HexDigit("0123456789abcdef"[d] as byte) && Nibble("0123456789abcdef"[d] as byte) == d
    ensures HexDigit("0123456789ABCDEF"[d] as byte) && Nibble("0123456789ABCDEF"[d] as byte) == d
  {
  }

  /** No other bytes are hexadecimal digits. */
  lemma DigitOfNibble(c: byte)
    requires HexDigit(c)
    ensures c == "0123456789abcdef"[Nibble(c)] as byte || c == "0123456789ABCDEF"[Nibble(c)] as byte
  {
  }

  predicate AllHex(d: seq<byte>)
  {
    forall i :: 0 <= i < |d| ==> HexDigit(d[i])
  }

  /** The number that hexadecimal digits spell. */
  function Hex(d: seq<byte>): nat
    requires AllHex(d)
  {
    if d == [] then 0 else Hex(d[..|d| - 1]) * 16 + Nibble(d[|d| - 1])
  }

  const TWO_TO_THE_32: int := 0x1_0000_0000
  const TWO_TO_THE_64: int := 0x1_0000_0000_0000_0000

  type uint32 = x: int | 0 <= x < TWO_TO_THE_32

  /** The `k` low bytes of a number, least significant first. */
  function LittleEndian(n: nat, k: nat): (s: seq<byte>)
    ensures |s| == k
  {
    if k == 0 then [] else [n % 256] + LittleEndian(n / 256, k - 1)
  }

  /** One more than the largest number that `k` bytes can hold. */
  function Limit(k: nat): (m: nat)
    ensures m > 0
  {
    if k == 0 then 1 else 256 * Limit(k - 1)
  }

  function FromLittleEndian(s: seq<byte>): (n: nat)
    ensures n < Limit(|s|)
  {
    if s == [] then 0 else s[0] as int + 256 * FromLittleEndian(s[1..])
  }

  /** The `k` low bytes of a number in network byte order. */
  function BigEndian(n: nat, k: nat): (s: seq<byte>)
    ensures |s| == k
  {
    if k == 0 then [] else BigEndian(n / 256, k - 1) + [n % 256]
  }

  function FromBigEndian(s: seq<byte>): (n: nat)
    ensures n < Limit(|s|)
  {
    if s == [] then 0 else 256 * FromBigEndian(s[..|s| - 1]) + s[|s| - 1] as int
  }

  lemma {:induction false} LittleEndianInverse(n: nat, k: nat)
    requires n < Limit(k)
    ensures FromLittleEndian(LittleEndian(n, k)) == n
  {
    if k > 0 {
      LittleEndianInverse(n / 256, k - 1);
      assert LittleEndian(n, k)[1..] == LittleEndian(n / 256, k - 1);
    }
  }

  lemma {:induction false} BigEndianInverse(n: nat, k: nat)
    requires n < Limit(k)
    ensures FromBigEndian(BigEndian(n, k)) == n
  {
    if k > 0 {
      BigEndianInverse(n / 256, k - 1);
      assert BigEndian(n, k)[..k - 1] == BigEndian(n / 256, k - 1);
    }
  }

  /** The four bytes of a word, and their order. */
  lemma WordInBytes(n: nat)
    ensures LittleEndian(n, 4) == [n % 256, n / 0x100 % 256, n / 0x1_0000 % 256, n / 0x100_0000 % 256]
    ensures BigEndian(n, 4) == [n / 0x100_0000 % 256, n / 0x1_0000 % 256, n / 0x100 % 256, n % 256]
  {
    var a, b, c := n / 256, n / 256 / 256, n / 256 / 256 / 256;
    assert b == n / 0x1_0000 && c == n / 0x100_0000;
    assert LittleEndian(c, 1) == [c % 256] && LittleEndian(b, 2) == [b % 256, c % 256];
    assert LittleEndian(a, 3) == [a % 256, b % 256, c % 256];
    assert BigEndian(c, 1) == [c % 256] && BigEndian(b, 2) == [c % 256, b % 256];
    assert BigEndian(a, 3) == [c % 256, b % 256, a % 256];
  }

  /** A word made of four bytes. */
  lemma WordFromBytes(a: byte, b: byte, c: byte, d: byte)
    ensures LittleEndian(a + 0x100 * b + 0x1_0000 * c + 0x100_0000 * d, 4) == [a, b, c, d]
  {
    assert LittleEndian(d, 1) == [d];
    assert LittleEndian(c + 0x100 * d, 2) == [c] + LittleEndian(d, 1);
    assert LittleEndian(b + 0x100 * c + 0x1_0000 * d, 3) == [b] + LittleEndian(c + 0x100 * d, 2);
  }

  lemma BigEndianTwo(n: nat)
    ensures BigEndian(n, 2) == [n / 256 % 256, n % 256]
  {
    assert BigEndian(n / 256, 1) == [n / 256 % 256];
  }

  lemma Limits()
    ensures Limit(2) == 0x1_0000 && Limit(4) == TWO_TO_THE_32 && Limit(8) == TWO_TO_THE_64
  {
    assert Limit(3) == 0x100_0000;
    assert Limit(6) == 0x1_0000_0000_0000;
  }

  // ----- quotients -----

  lemma MulAtLeast(k: int, d: int)
    requires k >= 1 && d > 0
    ensures k * d >= d
  {
  }

  lemma MulSub(a: int, b: int, d: int)
    ensures (a - b) * d == a * d - b * d
  {
  }

  /** There is one quotient and one remainder. */
  lemma DivModUnique(x: int, d: int, q: int, r: int)
    requires 0 <= r < d && x == q * d + r
    ensures x / d == q && x % d == r
  {
    var q' := x / d;
    assert x == q' * d + x % d by {
      assert x == d * q' + x % d;
    }
    MulSub(q', q, d);
    MulSub(q, q', d);
    if q' > q {
      MulAtLeast(q' - q, d);
    } else if q' < q {
      MulAtLeast(q - q', d);
    }
  }

  // ----- bits -----

  function Pow2(n: nat): (p: nat)
    ensures p > 0
  {
    if n == 0 then 1 else 2 * Pow2(n - 1)
  }

  /** Exclusive or of two `n`-bit numbers, bit by bit. */
  function XorBits(a: nat, b: nat, n: nat): (r: nat)
    ensures r < Pow2(n)
  {
    if n == 0 then 0 else (if a % 2 == b % 2 then 0 else 1) + 2 * XorBits(a / 2, b / 2, n - 1)
  }

  function Xor(a: byte, b: byte): byte
  {
    assert Pow2(8) == 256;
    XorBits(a, b, 8)
  }

  /** Bit `k` of a number. */
  function Bit(x: nat, k: nat): (b: nat)
    ensures b < 2
  {
    x / Pow2(k) % 2
  }

  lemma BitStep(x: nat, k: nat)
    ensures Bit(x, 0) == x % 2 && Bit(x, k + 1) == Bit(x / 2, k)
  {
    DivTwice(x, Pow2(k));
  }

  lemma DivTwice(x: nat, p: nat)
    requires p > 0
    ensures x / (2 * p) == x / 2 / p
  {
    var h := x / 2;
    var q, r := h / p, h % p;
    assert h == p * q + r && x == 2 * h + x % 2;
    assert q * (2 * p) == 2 * (p * q);
    DivModUnique(x, 2 * p, q, 2 * r + x % 2);
  }

  /** A bit of the exclusive or is set just when the two bits differ. */
  lemma {:induction false} XorBitsAt(a: nat, b: nat, n: nat, k: nat)
    requires k < n
    ensures Bit(XorBits(a, b, n), k) == 1 <==> Bit(a, k) != Bit(b, k)
  {
    var bit, rest := if a % 2 == b % 2 then 0 else 1, XorBits(a / 2, b / 2, n - 1);
    SplitBit(XorBits(a, b, n), bit, rest);
    hide Bit, Pow2;
    if k == 0 {
      BitStep(XorBits(a, b, n), 0);
      BitStep(a, 0);
      BitStep(b, 0);
    } else {
      BitStep(XorBits(a, b, n), k - 1);
      BitStep(a, k - 1);
      BitStep(b, k - 1);
      XorBitsAt(a / 2, b / 2, n - 1, k - 1);
    }
  }

  lemma XorAt(a: byte, b: byte, k: nat)
    requires k < 8
    ensures Bit(Xor(a, b), k) == 1 <==> Bit(a, k) != Bit(b, k)
  {
    XorBitsAt(a, b, 8, k);
  }

  /** The power of two `d`, if the bits for it differ. */
  function Differ(a: nat, b: nat, d: nat): nat
    requires d > 0
  {
    if a / d % 2 == b / d % 2 then 0 else d
  }

  lemma XorStep(a: nat, b: nat, n: nat)
    ensures XorBits(a, b, 0) == 0
    ensures XorBits(a, b, n + 1) == Differ(a, b, 1) + 2 * XorBits(a / 2, b / 2, n)
  {
  }

  lemma DifferAt(a: nat, b: nat, c: nat, d: nat)
    requires c > 0 && d > 0 && a / (c * d) == a / c / d && b / (c * d) == b / c / d
    ensures Differ(a, b, c * d) == c * Differ(a / c, b / c, d)
  {
  }

  lemma Halves(x: nat)
    ensures x / 2 / 2 == x / 4 && x / 4 / 2 == x / 8 && x / 8 / 2 == x / 16
  {
  }

  lemma FourBits(a: nat, b: nat, n: nat)
    ensures XorBits(a, b, n + 4) == Differ(a, b, 1) + Differ(a, b, 2) + Differ(a, b, 4) + Differ(a, b, 8)
                                    + 16 * XorBits(a / 16, b / 16, n)
  {
    hide XorBits, Differ;
    Halves(a);
    Halves(b);
    XorStep(a, b, n + 3);
    XorStep(a / 2, b / 2, n + 2);
    XorStep(a / 4, b / 4, n + 1);
    XorStep(a / 8, b / 8, n);
    DifferAt(a, b, 2, 1);
    DifferAt(a, b, 4, 1);
    DifferAt(a, b, 8, 1);
  }

  /** The exclusive or is the sum of the powers of two at which the bits differ. */
  lemma XorSum(a: byte, b: byte)
    ensures Xor(a, b) == Differ(a, b, 1) + Differ(a, b, 2) + Differ(a, b, 4) + Differ(a, b, 8)
                       + Differ(a, b, 16) + Differ(a, b, 32) + Differ(a, b, 64) + Differ(a, b, 128)
  {
    FourBits(a, b, 4);
    FourBits(a / 16, b / 16, 0);
    XorStep(a / 16 / 16, b / 16 / 16, 0);
    hide XorBits, Pow2, Differ;
    DifferAt(a, b, 16, 1);
    DifferAt(a, b, 16, 2);
    DifferAt(a, b, 16, 4);
    DifferAt(a, b, 16, 8);
  }

  /** `x` is twice `rest` plus the bit `bit`. */
  lemma SplitBit(x: nat, bit: nat, rest: nat)
    requires bit < 2 && x == bit + 2 * rest
    ensures x % 2 == bit && x / 2 == rest
  {
  }

  lemma {:induction false} XorBitsTwice(a: nat, b: nat, n: nat)
    requires a < Pow2(n)
    ensures XorBits(XorBits(a, b, n), b, n) == a
  {
    if n > 0 {
      var bit, rest := if a % 2 == b % 2 then 0 else 1, XorBits(a / 2, b / 2, n - 1);
      XorBitsTwice(a / 2, b / 2, n - 1);
      SplitBit(XorBits(a, b, n), bit, rest);
    }
  }

  /** Masking twice with the same byte gives the byte back. */
  lemma XorTwice(a: byte, b: byte)
    ensures Xor(Xor(a, b), b) == a
  {
    assert Pow2(8) == 256;
    XorBitsTwice(a, b, 8);
  }

  // ----- decoders -----

  /** What a decoder yields. */
  datatype Partial = Fails | Yields(out: seq<byte>)

  /** `front` decoded, and then the rest. */
  function Then(front: seq<byte>, rest: Partial): Partial
  {
    match rest
    case Fails => Fails
    case Yields(out) => Yields(front + out)
  }

  lemma ThenTwice(a: seq<byte>, b: seq<byte>, r: Partial)
    ensures Then(a, Then(b, r)) == Then(a + b, r)
  {
    if r.Yields? {
      assert a + (b + r.out) == a + b + r.out;
    }
  }

  lemma NothingDecoded(r: Partial)
    ensures Then([], r) == r
  {
    if r.Yields? {
      assert [] + r.out == r.out;
    }
  }
}
