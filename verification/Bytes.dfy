/** Bytes, machine words, little-endian integers and the abstract hash. */
module Bytes {

  const TWO16: int := 0x1_0000
  const TWO32: int := 0x1_0000_0000
  const TWO64: int := 0x1_0000_0000_0000_0000

  type byte = x: int | 0 <= x < 256
  type u16 = x: int | 0 <= x < TWO16
  type u32 = x: int | 0 <= x < TWO32
  type u64 = x: int | 0 <= x < TWO64

  type Hash32 = h: seq<byte> | |h| == 32 witness Zeros(32)

  /** The 32-byte hash (BLAKE3 in the program): any function at all. */
  const BLAKE3: seq<byte> -> Hash32

  function Zeros(n: nat): (z: seq<byte>)
    ensures |z| == n
  {
    seq(n, _ => 0)
  }

  /** The bytes of a string of ASCII characters. */
  function Ascii(s: string): (b: seq<byte>)
    ensures |b| == |s|
  {
    seq(|s|, i requires 0 <= i < |s| => s[i] as int % 256)
  }

  predicate AllZero(s: seq<byte>) {
    forall i :: 0 <= i < |s| ==> s[i] == 0
  }

  /** Length rounded up to a multiple of eight: `(len + 7) & !7`. */
  function Pad8(len: nat): (p: nat)
    ensures len <= p < len + 8 && p % 8 == 0
  {
    (len + 7) / 8 * 8
  }

  lemma Pad8Is(n: nat)
    ensures Pad8(n) == n + (8 - n % 8) % 8
  {
  }

  /** Zero padding that brings a field of `len` bytes to a multiple of eight. */
  function Padding(len: nat): (z: seq<byte>)
    ensures |z| == Pad8(len) - len && AllZero(z)
  {
    Zeros(Pad8(len) - len)
  }

  lemma Pad8Adds(a: nat, b: nat)
    requires a % 8 == 0
    ensures Pad8(a + b) == a + Pad8(b)
  {
  }

  lemma AllZeroIsZeros(s: seq<byte>)
    requires AllZero(s)
    ensures s == Zeros(|s|)
  {
  }

  // ---- little-endian words ----

  function Pow256(k: nat): (p: nat)
    ensures p > 0
  {
    if k == 0 then 1 else 256 * Pow256(k - 1)
  }

  lemma WordSizes()
    ensures Pow256(1) == 256 && Pow256(2) == TWO16 && Pow256(4) == TWO32 && Pow256(8) == TWO64
  {
    assert Pow256(2) == 256 * Pow256(1);
    assert Pow256(4) == 256 * (256 * Pow256(2));
    assert Pow256(6) == 256 * (256 * Pow256(4));
    assert Pow256(8) == 256 * (256 * Pow256(6));
  }

  /** The low `k` bytes of `n`, least significant first (`to_le_bytes`). */
  function LE(n: nat, k: nat): (b: seq<byte>)
    ensures |b| == k
    decreases k, n
  {
    if k == 0 then [] else [n % 256] + LE(n / 256, k - 1)
  }

  /** The number whose little-endian bytes are `b` (`from_le_bytes`). */
  function FromLE(b: seq<byte>): (n: nat)
    ensures n < Pow256(|b|)
  {
    if b == [] then 0 else b[0] + 256 * FromLE(b[1..])
  }

  lemma PositiveFactor(a: int, p: int)
    requires p > 0 && a * p > 0
    ensures a > 0
  {
  }

  lemma LessByFactor(x: int, y: int, p: int)
    requires p > 0 && x * p < y * p
    ensures x < y
  {
    assert (y - x) * p == y * p - x * p;
    PositiveFactor(y - x, p);
  }

  lemma QuotientIs(run: int, p: int, q: int)
    requires p >= 1 && q * p <= run < (q + 1) * p
    ensures run / p == q
  {
    var k, m := run / p, run % p;
    assert k * p == run - m;
    assert (k + 1) * p == run - m + p;
    LessByFactor(k, q + 1, p);
    LessByFactor(q, k + 1, p);
  }

  lemma DivideTwice(n: nat, p: nat)
    requires p > 0
    ensures n / (256 * p) == n / 256 / p
  {
    var q := n / 256 / p;
    assert n / 256 == q * p + n / 256 % p;
    assert n == 256 * (n / 256) + n % 256;
    assert q * (256 * p) == 256 * (q * p);
    assert (q + 1) * (256 * p) == 256 * (q * p) + 256 * p;
    QuotientIs(n, 256 * p, q);
  }

  /** Byte `i` of the encoding is the digit of 256 to the power `i`. */
  lemma {:induction false} DigitOfLE(n: nat, k: nat, i: nat)
    requires i < k
    ensures LE(n, k)[i] == n / Pow256(i) % 256
    decreases k
  {
    if i > 0 {
      DigitOfLE(n / 256, k - 1, i - 1);
      DivideTwice(n, Pow256(i - 1));
    }
  }

  lemma LowDigit(d: byte, m: nat)
    ensures (d + 256 * m) % 256 == d && (d + 256 * m) / 256 == m
  {
  }

  lemma {:induction false} FromLEofLE(n: nat, k: nat)
    requires n < Pow256(k)
    ensures FromLE(LE(n, k)) == n
    decreases k
  {
    if k > 0 {
      FromLEofLE(n / 256, k - 1);
      assert LE(n, k)[1..] == LE(n / 256, k - 1);
    }
  }

  lemma {:induction false} LEofFromLE(b: seq<byte>)
    ensures LE(FromLE(b), |b|) == b
  {
    if b != [] {
      LEofFromLE(b[1..]);
      LowDigit(b[0], FromLE(b[1..]));
    }
  }

  lemma {:induction false} ZeroWord(k: nat)
    ensures LE(0, k) == Zeros(k)
  {
    if k > 0 {
      ZeroWord(k - 1);
    }
  }

  /** A number that fits `i` bytes has zeroes in the others. */
  lemma {:induction false} ShortWord(n: nat, i: nat, j: nat)
    requires n < Pow256(i)
    ensures LE(n, i + j) == LE(n, i) + Zeros(j)
    decreases i
  {
    if i == 0 {
      ZeroWord(j);
    } else {
      ShortWord(n / 256, i - 1, j);
    }
  }

  function LE16(n: u16): (b: seq<byte>)
    ensures |b| == 2
  {
    LE(n, 2)
  }

  function Get16(b: seq<byte>): (n: u16)
    requires |b| == 2
  {
    WordSizes();
    FromLE(b)
  }

  lemma Word16(n: u16)
    ensures Get16(LE16(n)) == n
  {
    WordSizes();
    FromLEofLE(n, 2);
  }

  lemma Word16Bytes(b: seq<byte>)
    requires |b| == 2
    ensures LE16(Get16(b)) == b
  {
    LEofFromLE(b);
  }

  function LE32(n: u32): (b: seq<byte>)
    ensures |b| == 4
  {
    LE(n, 4)
  }

  function Get32(b: seq<byte>): (n: u32)
    requires |b| == 4
  {
    WordSizes();
    FromLE(b)
  }

  lemma Word32(n: u32)
    ensures Get32(LE32(n)) == n
  {
    WordSizes();
    FromLEofLE(n, 4);
  }

  lemma Word32Bytes(b: seq<byte>)
    requires |b| == 4
    ensures LE32(Get32(b)) == b
  {
    LEofFromLE(b);
  }

  function LE64(n: u64): (b: seq<byte>)
    ensures |b| == 8
  {
    LE(n, 8)
  }

  function Get64(b: seq<byte>): (n: u64)
    requires |b| == 8
  {
    WordSizes();
    FromLE(b)
  }

  lemma Word64(n: u64)
    ensures Get64(LE64(n)) == n
  {
    WordSizes();
    FromLEofLE(n, 8);
  }

  lemma Word64Bytes(b: seq<byte>)
    requires |b| == 8
    ensures LE64(Get64(b)) == b
  {
    LEofFromLE(b);
  }

  // ---- stretches of a concatenation ----

  lemma SliceOfConcat(a: seq<byte>, b: seq<byte>, c: seq<byte>)
    ensures (a + b + c)[|a|..|a| + |b|] == b
  {
  }

  /** Two fields laid end to end at offset `at` are read back separately. */
  lemma Cut2(b: seq<byte>, at: nat, x: seq<byte>, y: seq<byte>)
    requires at + |x| + |y| <= |b| && b[at..at + |x| + |y|] == x + y
    ensures b[at..at + |x|] == x && b[at + |x|..at + |x| + |y|] == y
  {
    var l := b[at..at + |x| + |y|];
    assert l[..|x|] == x && l[|x|..] == y;
    assert b[at..at + |x|] == l[..|x|];
    assert b[at + |x|..at + |x| + |y|] == l[|x|..];
  }

  lemma Cut3(b: seq<byte>, at: nat, x: seq<byte>, y: seq<byte>, z: seq<byte>)
    requires at + |x| + |y| + |z| <= |b| && b[at..at + |x| + |y| + |z|] == x + y + z
    ensures b[at..at + |x|] == x && b[at + |x|..at + |x| + |y|] == y
    ensures b[at + |x| + |y|..at + |x| + |y| + |z|] == z
  {
    Cut2(b, at, x + y, z);
    Cut2(b, at, x, y);
  }

  lemma Cut4(b: seq<byte>, at: nat, x: seq<byte>, y: seq<byte>, z: seq<byte>, w: seq<byte>)
    requires at + |x| + |y| + |z| + |w| <= |b| && b[at..at + |x| + |y| + |z| + |w|] == x + y + z + w
    ensures b[at..at + |x|] == x && b[at + |x|..at + |x| + |y|] == y
    ensures b[at + |x| + |y|..at + |x| + |y| + |z|] == z
    ensures b[at + |x| + |y| + |z|..at + |x| + |y| + |z| + |w|] == w
  {
    Cut2(b, at, x + y + z, w);
    Cut3(b, at, x, y, z);
  }

  /** Adjacent stretches join. */
  lemma Paste(b: seq<byte>, i: nat, j: nat, k: nat)
    requires i <= j <= k <= |b|
    ensures b[i..j] + b[j..k] == b[i..k]
  {
  }

  /** `x` stands in `b` at offset `at`. */
  ghost predicate Has(b: seq<byte>, at: nat, x: seq<byte>) {
    at + |x| <= |b| && b[at..at + |x|] == x
  }

  lemma HasBoth(b: seq<byte>, at: nat, x: seq<byte>, y: seq<byte>)
    ensures Has(b, at, x + y) <==> Has(b, at, x) && Has(b, at + |x|, y)
  {
    if Has(b, at, x + y) {
      Cut2(b, at, x, y);
    }
    if Has(b, at, x) && Has(b, at + |x|, y) {
      Paste(b, at, at + |x|, at + |x| + |y|);
    }
  }

  lemma HasSlice(b: seq<byte>, at: nat, x: seq<byte>)
    requires Has(b, at, x)
    ensures at + |x| <= |b| && b[at..at + |x|] == x
  {
  }

  lemma HasFront(b: seq<byte>, x: seq<byte>)
    requires |x| <= |b| && b[0..|x|] == x
    ensures Has(b, 0, x)
  {
  }

  lemma PrefixIs(b: seq<byte>, x: seq<byte>)
    requires Has(b, 0, x)
    ensures |x| <= |b| && b[0..|x|] == x
  {
  }

  lemma WholeStands(b: seq<byte>)
    ensures Has(b, 0, b)
  {
  }
}
