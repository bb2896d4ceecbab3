/** What goes into the register and into the hashes: bytes, numbers and tags themselves. */
module Hashed {
  import opened Bytes
  import opened Fnv
  import opened Guest
  import opened Divergence

  // ---- the register ----

  /** Bit `k` of a number. */
  function Bit(n: nat, k: nat): nat { n / Pow2(k) % 2 }

  /** Exclusive or, bit by bit. */
  lemma {:induction false} XorBitwise(a: nat, b: nat, k: nat)
    ensures Bit(Xor(a, b), k) == if Bit(a, k) == Bit(b, k) then 0 else 1
    decreases k
  {
    hide Xor, Pow2, Bit;
    XorBits(a, b);
    if k > 0 {
      XorBitwise(a / 2, b / 2, k - 1);
      HigherBit(a, k);
      HigherBit(b, k);
      HigherBit(Xor(a, b), k);
    } else {
      LowestBit(a);
      LowestBit(b);
      LowestBit(Xor(a, b));
    }
  }

  lemma LowestBit(n: nat)
    ensures Bit(n, 0) == n % 2
  {
  }

  lemma HigherBit(n: nat, k: nat)
    requires k > 0
    ensures Bit(n, k) == Bit(n / 2, k - 1)
  {
    HalveFirst(n, k);
  }

  lemma HalveFirst(n: nat, k: nat)
    requires k > 0
    ensures n / Pow2(k) == n / 2 / Pow2(k - 1)
  {
    var p, q := Pow2(k - 1), n / 2 / Pow2(k - 1);
    assert n / 2 == q * p + n / 2 % p;
    assert n == 2 * (n / 2) + n % 2;
    assert q * (2 * p) == 2 * (q * p);
    assert (q + 1) * (2 * p) == 2 * (q * p) + 2 * p;
    QuotientIs(n, 2 * p, q);
  }

  /** One step: xor the byte into the register, multiply by the 64-bit FNV prime. */
  lemma FoldStep(r: u64, b: byte) returns (x: nat)
    ensures forall k: nat :: Bit(x, k) == if Bit(r, k) == Bit(b, k) then 0 else 1
    ensures x < 0x1_0000_0000_0000_0000
    ensures FoldByte(r, b) == x * 0x100_0000_01b3 % 0x1_0000_0000_0000_0000
  {
    x := XorByte(r, b);
    forall k: nat
      ensures Bit(x, k) == if Bit(r, k) == Bit(b, k) then 0 else 1
    {
      XorBitwise(r, b, k);
    }
  }

  /** Everything that has landed by icount `n`, in order. */
  function Past(acts: seq<Act>, n: int): (b: seq<byte>)
  {
    if acts == [] then []
    else
      var front, last := acts[..|acts| - 1], acts[|acts| - 1];
      Past(front, n) + (if last.at <= n then last.bytes else [])
  }

  lemma {:induction false} RegisterIs(acts: seq<Act>, n: int)
    ensures RegAt(acts, n) == FoldBytes(0xcbf2_9ce4_8422_2325, Past(acts, n))
    decreases |acts|
  {
    hide FoldBytes, FoldActs, UpTo;
    if acts == [] {
      NothingLanded(n);
    } else {
      var front, last := acts[..|acts| - 1], acts[|acts| - 1];
      assert acts == front + [last];
      UpToConcat(front, [last], n);
      RegisterIs(front, n);
      if last.at <= n {
        UpToAll([last], n);
        FoldActsConcat(OFFSET_BASIS, UpTo(front, n), [last]);
        FoldOne(FoldActs(OFFSET_BASIS, UpTo(front, n)), last);
        FoldBytesConcat(OFFSET_BASIS, Past(front, n), last.bytes);
      } else {
        UpToNone([last], n);
        assert UpTo(front, n) + [] == UpTo(front, n);
        assert Past(front, n) + [] == Past(front, n);
      }
    }
  }

  lemma NothingLanded(n: int)
    ensures UpTo([], n) == [] && FoldActs(OFFSET_BASIS, []) == FoldBytes(0xcbf2_9ce4_8422_2325, [])
  {
  }

  // ---- the hashes ----

  /** The chain starts from the tag and the segment's two identities; at every 4096th
      icount it takes in the register of everything strictly before; and the state hash is
      over the chain, the register of everything up to now, and the icount. */
  lemma HashInputs(o: Origin, acts: seq<Act>, k: nat, n: u64)
    ensures ChainAt(o, acts, 0) == BLAKE3(Ascii("mock-statehash-v1") + o.machineConfig + o.baseSnapshot)
    ensures ChainAt(o, acts, k + 1)
            == BLAKE3(ChainAt(o, acts, k) + LE64(FoldBytes(0xcbf2_9ce4_8422_2325, Past(acts, 4096 * (k + 1) - 1))))
    ensures ChainValue(StateAt(o, acts, n))
            == BLAKE3(ChainAt(o, acts, n / 4096) + LE64(FoldBytes(0xcbf2_9ce4_8422_2325, Past(acts, n))) + LE64(n))
  {
    hide FoldBytes, FoldActs, UpTo, LE64, Past, RegAt;
    assert STATE_TAG == Ascii("mock-statehash-v1");
    RegisterIs(acts, 4096 * (k + 1) - 1);
    RegisterIs(acts, n);
  }

  /** An injected fold lands after everything earlier and before everything at its icount. */
  lemma InjectIs(acts: seq<Act>, d: Act) returns (p: nat)
    requires Sorted(acts)
    ensures p <= |acts| && Inject(acts, d) == acts[..p] + [d] + acts[p..]
    ensures forall j :: 0 <= j < p ==> acts[j].at < d.at
    ensures forall j :: p <= j < |acts| ==> d.at <= acts[j].at
  {
    hide UpTo;
    p := |UpTo(acts, d.at - 1)|;
    InjectPosition(acts, d.at - 1);
  }
}
