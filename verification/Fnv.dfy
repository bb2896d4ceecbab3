/** The FNV-1a state register: xor in a byte, multiply by the prime modulo 2^64. */
module Fnv {
  import opened Bytes

  const OFFSET_BASIS: u64 := 0xcbf2_9ce4_8422_2325
  const PRIME: u64 := 0x0000_0100_0000_01b3
  // PRIME * INVERSE == 1 modulo 2^64
  const INVERSE: int := 0xce96_5057_aff6_957b

  /** Bitwise exclusive or of two numbers. */
  function Xor(a: nat, b: nat): nat
    decreases a + b
  {
    if a == 0 then b
    else if b == 0 then a
    else 2 * Xor(a / 2, b / 2) + (a % 2 + b % 2) % 2
  }

  lemma {:induction false} XorBits(a: nat, b: nat)
    ensures Xor(a, b) / 2 == Xor(a / 2, b / 2)
    ensures Xor(a, b) % 2 == (a % 2 + b % 2) % 2
  {
    if a == 0 || b == 0 {
    } else {
      assert Xor(a, b) == 2 * Xor(a / 2, b / 2) + (a % 2 + b % 2) % 2;
    }
  }

  function Pow2(k: nat): (p: nat)
    ensures p > 0
  {
    if k == 0 then 1 else 2 * Pow2(k - 1)
  }

  lemma {:induction false} XorBound(a: nat, b: nat, k: nat)
    requires a < Pow2(k) && b < Pow2(k)
    ensures Xor(a, b) < Pow2(k)
  {
    if k == 0 || a == 0 || b == 0 {
    } else {
      XorBound(a / 2, b / 2, k - 1);
      XorBits(a, b);
    }
  }

  lemma Pow2Is64()
    ensures Pow2(64) == TWO64
  {
    assert Pow2(8) == 256;
    assert Pow2(16) == 256 * Pow2(8) by { Pow2Eight(8); }
    assert Pow2(24) == 256 * Pow2(16) by { Pow2Eight(16); }
    assert Pow2(32) == 256 * Pow2(24) by { Pow2Eight(24); }
    assert Pow2(40) == 256 * Pow2(32) by { Pow2Eight(32); }
    assert Pow2(48) == 256 * Pow2(40) by { Pow2Eight(40); }
    assert Pow2(56) == 256 * Pow2(48) by { Pow2Eight(48); }
    assert Pow2(64) == 256 * Pow2(56) by { Pow2Eight(56); }
  }

  lemma Pow2Eight(k: nat)
    ensures Pow2(k + 8) == 256 * Pow2(k)
  {
    assert Pow2(k + 2) == 2 * Pow2(k + 1) == 4 * Pow2(k);
    assert Pow2(k + 4) == 2 * Pow2(k + 3) == 4 * Pow2(k + 2);
    assert Pow2(k + 6) == 2 * Pow2(k + 5) == 4 * Pow2(k + 4);
    assert Pow2(k + 8) == 2 * Pow2(k + 7) == 4 * Pow2(k + 6);
  }

  /** Xoring a fixed value in is injective. */
  lemma {:induction false} XorInjective(a: nat, c: nat, b: nat)
    requires Xor(a, b) == Xor(c, b)
    ensures a == c
    decreases a + c
  {
    if a != 0 || c != 0 {
      XorBits(a, b);
      XorBits(c, b);
      XorInjective(a / 2, c / 2, b / 2);
      ParityCancels(a, c, b);
    }
  }

  lemma ParityCancels(a: nat, c: nat, b: nat)
    requires (a % 2 + b % 2) % 2 == (c % 2 + b % 2) % 2
    ensures a % 2 == c % 2
  {
  }

  /** ... and injective in the byte for a fixed register. */
  lemma {:induction false} XorSymmetric(a: nat, b: nat)
    ensures Xor(a, b) == Xor(b, a)
    decreases a + b
  {
    if a != 0 && b != 0 {
      XorSymmetric(a / 2, b / 2);
    }
  }

  function XorByte(r: u64, b: byte): (x: u64)
  {
    Pow2Is64();
    XorBound(r, b, 64);
    Xor(r, b)
  }

  function Scramble(x: u64): (y: u64)
  {
    x * PRIME % TWO64
  }

  /** One FNV-1a step. */
  function FoldByte(r: u64, b: byte): (y: u64)
  {
    Scramble(XorByte(r, b))
  }

  /** The register after folding in `bytes`, left to right. */
  function FoldBytes(r: u64, bytes: seq<byte>): (y: u64)
    decreases |bytes|
  {
    if bytes == [] then r else FoldBytes(FoldByte(r, bytes[0]), bytes[1..])
  }

  lemma InverseOfPrime()
    ensures PRIME * INVERSE % TWO64 == 1
  {
  }

  /** Multiplying by the inverse undoes `Scramble`. */
  lemma Unscramble(x: u64)
    ensures Scramble(x) * INVERSE % TWO64 == x
  {
    var q := x * PRIME / TWO64;
    var k := PRIME * INVERSE / TWO64;
    InverseOfPrime();
    assert PRIME * INVERSE == k * TWO64 + 1;
    assert Scramble(x) == x * PRIME - q * TWO64;
    calc {
      Scramble(x) * INVERSE;
      (x * PRIME - q * TWO64) * INVERSE;
      x * (PRIME * INVERSE) - q * TWO64 * INVERSE;
      x * (k * TWO64 + 1) - q * TWO64 * INVERSE;
      x + (x * k - q * INVERSE) * TWO64;
    }
    ModOfSum(x, x * k - q * INVERSE);
  }

  lemma ModOfSum(x: u64, m: int)
    ensures (x + m * TWO64) % TWO64 == x
  {
  }

  lemma FoldByteInjective(r: u64, s: u64, b: byte)
    requires FoldByte(r, b) == FoldByte(s, b)
    ensures r == s
  {
    Unscramble(XorByte(r, b));
    Unscramble(XorByte(s, b));
    XorInjective(r, s, b);
  }

  lemma FoldByteInjectiveInByte(r: u64, b: byte, c: byte)
    requires FoldByte(r, b) == FoldByte(r, c)
    ensures b == c
  {
    Unscramble(XorByte(r, b));
    Unscramble(XorByte(r, c));
    XorSymmetric(r, b);
    XorSymmetric(r, c);
    XorInjective(b, c, r);
  }

  /** Two registers that differ stay different under any common continuation. */
  lemma {:induction false} FoldBytesInjective(r: u64, s: u64, bytes: seq<byte>)
    requires r != s
    ensures FoldBytes(r, bytes) != FoldBytes(s, bytes)
    decreases |bytes|
  {
    if bytes != [] {
      if FoldByte(r, bytes[0]) == FoldByte(s, bytes[0]) {
        FoldByteInjective(r, s, bytes[0]);
      }
      FoldBytesInjective(FoldByte(r, bytes[0]), FoldByte(s, bytes[0]), bytes[1..]);
    }
  }

  lemma {:induction false} FoldBytesConcat(r: u64, a: seq<byte>, b: seq<byte>)
    ensures FoldBytes(r, a + b) == FoldBytes(FoldBytes(r, a), b)
    decreases |a|
  {
    if a == [] {
      assert a + b == b;
    } else {
      assert (a + b)[1..] == a[1..] + b;
      FoldBytesConcat(FoldByte(r, a[0]), a[1..], b);
    }
  }

  // ---- the low three bits ----

  /** The low three bits of a number, lowest first. */
  datatype Low = Low(b0: bool, b1: bool, b2: bool)

  function LowOf(n: nat): Low {
    Low(n % 2 == 1, n / 2 % 2 == 1, n / 2 / 2 % 2 == 1)
  }

  lemma Eights(n: nat)
    ensures LowOf(n) == LowOf(n % 8)
  {
    var q, m := n / 8, n % 8;
    assert n == 8 * q + m;
    assert n / 2 == 4 * q + m / 2;
    assert n / 2 / 2 == 2 * q + m / 2 / 2;
  }

  lemma SameEights(m: nat, n: nat)
    requires m % 8 == n % 8
    ensures LowOf(m) == LowOf(n)
  {
    Eights(m);
    Eights(n);
    hide LowOf;
  }

  function LowXor(a: Low, b: Low): Low { Low(a.b0 != b.b0, a.b1 != b.b1, a.b2 != b.b2) }

  lemma ParityXor(a: nat, b: nat)
    ensures Xor(a, b) % 2 == 1 <==> (a % 2 == 1) != (b % 2 == 1)
  {
    hide Xor;
    XorBits(a, b);
  }

  lemma XorLow(a: nat, b: nat)
    ensures LowOf(Xor(a, b)) == LowXor(LowOf(a), LowOf(b))
  {
    hide Xor;
    XorBits(a, b);
    XorBits(a / 2, b / 2);
    ParityXor(a, b);
    ParityXor(a / 2, b / 2);
    ParityXor(a / 2 / 2, b / 2 / 2);
  }

  /** The low bits of three times a number: it and its double, carries included. */
  function LowTriple(x: Low): Low {
    Low(x.b0, x.b1 != x.b0, (x.b2 != x.b1) != (x.b1 && x.b0))
  }

  lemma TripleOfLow(m: nat)
    requires m < 8
    ensures LowOf(m * 3) == LowTriple(LowOf(m))
  {
    match m
    case 0 =>
    case 1 =>
    case 2 =>
    case 3 =>
    case 4 =>
    case 5 =>
    case 6 =>
    case _ =>
  }

  lemma WordLow(y: nat)
    ensures y % TWO64 % 8 == y % 8
  {
  }

  lemma TimesPrimeLow(x: nat)
    ensures x * PRIME % 8 == x % 8 * 3 % 8
  {
    var q, m := x / 8, PRIME / 8;
    assert PRIME == 8 * m + 3 && x == 8 * q + x % 8;
    assert x * PRIME == 8 * (x * m) + 3 * x;
    EightsVanish(x * m + 3 * q, x % 8 * 3);
  }

  lemma EightsVanish(k: int, n: int)
    ensures (8 * k + n) % 8 == n % 8
  {
  }

  /** Multiplying by the prime multiplies the low bits by three. */
  lemma ScrambleLow(x: u64)
    ensures LowOf(Scramble(x)) == LowTriple(LowOf(x))
  {
    WordLow(x * PRIME);
    TimesPrimeLow(x);
    SameEights(Scramble(x), x % 8 * 3);
    TripleOfLow(x % 8);
    Eights(x);
    hide LowOf;
  }

  function LowStep(l: Low, b: byte): Low { LowTriple(LowXor(l, LowOf(b))) }

  /** One FNV-1a step seen through the low three bits. */
  lemma FoldByteLow(r: u64, b: byte)
    ensures LowOf(FoldByte(r, b)) == LowStep(LowOf(r), b)
  {
    hide Xor, LowXor, LowOf, Scramble;
    XorLow(r, b);
    ScrambleLow(XorByte(r, b));
  }

  /** Folding in bytes, seen through the low three bits. */
  function LowFold(l: Low, bytes: seq<byte>): Low
    decreases |bytes|
  {
    if bytes == [] then l else LowFold(LowStep(l, bytes[0]), bytes[1..])
  }

  lemma {:induction false} FoldBytesLow(r: u64, bytes: seq<byte>)
    ensures LowOf(FoldBytes(r, bytes)) == LowFold(LowOf(r), bytes)
    decreases |bytes|
  {
    if bytes != [] {
      FoldByteLow(r, bytes[0]);
      hide FoldByte, LowStep, LowOf;
      FoldBytesLow(FoldByte(r, bytes[0]), bytes[1..]);
    }
  }

  lemma {:induction false} LowFoldConcat(l: Low, a: seq<byte>, b: seq<byte>)
    ensures LowFold(l, a + b) == LowFold(LowFold(l, a), b)
    decreases |a|
  {
    hide LowStep;
    if a == [] {
      assert a + b == b;
    } else {
      assert (a + b)[1..] == a[1..] + b;
      LowFoldConcat(LowStep(l, a[0]), a[1..], b);
    }
  }

  lemma LowFoldTwo(l: Low, bytes: seq<byte>)
    requires |bytes| >= 2
    ensures LowFold(l, bytes) == LowFold(LowStep(LowStep(l, bytes[0]), bytes[1]), bytes[2..])
  {
    hide LowStep;
    assert bytes[1..][1..] == bytes[2..];
  }

  lemma LowFoldSeven(l: Low, bytes: seq<byte>)
    requires |bytes| == 7
    ensures var m := LowStep(LowStep(LowStep(l, bytes[0]), bytes[1]), bytes[2]);
            LowFold(l, bytes) == LowStep(LowStep(LowStep(LowStep(m, bytes[3]), bytes[4]), bytes[5]), bytes[6])
  {
    hide LowStep;
    var m := LowStep(LowStep(l, bytes[0]), bytes[1]);
    var n := LowStep(LowStep(m, bytes[2]), bytes[3]);
    var k := LowStep(LowStep(n, bytes[4]), bytes[5]);
    LowFoldTwo(l, bytes);
    LowFoldTwo(m, bytes[2..]);
    LowFoldTwo(n, bytes[2..][2..]);
    assert bytes[2..][2..] == bytes[4..] && bytes[4..][2..] == bytes[6..] == [bytes[6]];
    assert LowFold(k, [bytes[6]]) == LowFold(LowStep(k, bytes[6]), []);
  }
}
