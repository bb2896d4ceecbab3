/** One extra fold in a timeline: nothing changes before it, and from it on the
    register never agrees again. */
module Divergence {
  import opened Bytes
  import opened Fnv
  import opened Guest

  /** The timeline with one more act, landing before the acts at its own icount. */
  function Inject(acts: seq<Act>, d: Act): (more: seq<Act>) {
    var p := |UpTo(acts, d.at - 1)|;
    acts[..p] + [d] + acts[p..]
  }

  /** Where the extra act goes: after the earlier acts, before the others. */
  lemma {:induction false} InjectPosition(acts: seq<Act>, n: int)
    requires Sorted(acts)
    ensures forall j :: 0 <= j < |UpTo(acts, n)| ==> acts[j].at <= n
    ensures forall j :: |UpTo(acts, n)| <= j < |acts| ==> n < acts[j].at
    decreases |acts|
  {
    if acts != [] {
      var rest := acts[1..];
      InjectPosition(rest, n);
      if acts[0].at <= n {
        assert |UpTo(acts, n)| == 1 + |UpTo(rest, n)|;
        forall j | 0 <= j < |UpTo(acts, n)|
          ensures acts[j].at <= n
        {
          if j > 0 {
            assert acts[j] == rest[j - 1];
          }
        }
        forall j | |UpTo(acts, n)| <= j < |acts|
          ensures n < acts[j].at
        {
          assert acts[j] == rest[j - 1];
        }
      } else {
        UpToNone(acts, n);
      }
    }
  }

  lemma InjectSorted(acts: seq<Act>, d: Act)
    requires Sorted(acts)
    ensures Sorted(Inject(acts, d))
  {
    InjectPosition(acts, d.at - 1);
  }

  /** The register of a timeline, cut at the place where an act at `at` would land. */
  lemma RegCut(acts: seq<Act>, at: u64, n: int)
    requires Sorted(acts) && at <= n
    ensures var p := |UpTo(acts, at - 1)|;
            RegAt(acts, n) == FoldActs(RegAt(acts, at - 1), UpTo(acts[p..], n))
  {
    var p := |UpTo(acts, at - 1)|;
    InjectPosition(acts, at - 1);
    RegAtSplit(acts, p, at - 1);
    assert acts == acts[..p] + acts[p..];
    UpToConcat(acts[..p], acts[p..], n);
    UpToAll(acts[..p], n);
    FoldActsConcat(OFFSET_BASIS, acts[..p], UpTo(acts[p..], n));
  }

  /** The same cut with the extra act in place. */
  lemma InjectedRegCut(acts: seq<Act>, d: Act, n: int)
    requires Sorted(acts) && d.at <= n
    ensures var p := |UpTo(acts, d.at - 1)|;
            RegAt(Inject(acts, d), n)
            == FoldActs(FoldBytes(RegAt(acts, d.at - 1), d.bytes), UpTo(acts[p..], n))
  {
    var p := |UpTo(acts, d.at - 1)|;
    var tail := UpTo(acts[p..], n);
    InjectPosition(acts, d.at - 1);
    RegAtSplit(acts, p, d.at - 1);
    UpToConcat(acts[..p] + [d], acts[p..], n);
    UpToAll(acts[..p] + [d], n);
    FoldActsConcat(OFFSET_BASIS, acts[..p] + [d], tail);
    FoldActsConcat(OFFSET_BASIS, acts[..p], [d]);
    FoldOne(FoldActs(OFFSET_BASIS, acts[..p]), d);
  }

  lemma FoldOne(r: u64, d: Act)
    ensures FoldActs(r, [d]) == FoldBytes(r, d.bytes)
  {
    assert [d][1..] == [];
  }

  /** Before the extra act the two timelines have the same past. */
  lemma InjectedRegBefore(acts: seq<Act>, d: Act, n: int)
    requires Sorted(acts) && n < d.at
    ensures RegAt(Inject(acts, d), n) == RegAt(acts, n)
  {
    var p := |UpTo(acts, d.at - 1)|;
    InjectPosition(acts, d.at - 1);
    UpToConcat(acts[..p] + [d], acts[p..], n);
    UpToConcat(acts[..p], [d], n);
    UpToNone([d], n);
    assert acts == acts[..p] + acts[p..];
    UpToConcat(acts[..p], acts[p..], n);
    assert UpTo(acts[..p] + [d], n) == UpTo(acts[..p], n);
    assert UpTo(Inject(acts, d), n) == UpTo(acts, n);
  }

  lemma {:induction false} FoldActsInjective(r: u64, s: u64, acts: seq<Act>)
    requires r != s
    ensures FoldActs(r, acts) != FoldActs(s, acts)
    decreases |acts|
  {
    if acts != [] {
      FoldBytesInjective(r, s, acts[0].bytes);
      FoldActsInjective(FoldBytes(r, acts[0].bytes), FoldBytes(s, acts[0].bytes), acts[1..]);
    }
  }

  /** The fold changes the register it meets. A fold can have a fixed point. */
  predicate Bites(acts: seq<Act>, d: Act) {
    FoldBytes(RegAt(acts, d.at - 1), d.bytes) != RegAt(acts, d.at - 1)
  }

  // The skew fold, seven bytes at a time.
  const SKEW_PART1: seq<byte> := [109, 111, 99, 107, 45, 114, 101]
  const SKEW_PART2: seq<byte> := [99, 111, 114, 100, 101, 100, 45]
  const SKEW_PART3: seq<byte> := [115, 107, 101, 119, 45, 118, 49]

  /** The low bits of the letters in it. */
  lemma LettersLow()
    ensures LowOf(45) == Low(true, false, true)
    ensures LowOf(49) == Low(true, false, false)
    ensures LowOf(99) == Low(true, true, false)
    ensures LowOf(100) == Low(false, false, true)
    ensures LowOf(101) == Low(true, false, true)
    ensures LowOf(107) == Low(true, true, false)
    ensures LowOf(109) == Low(true, false, true)
    ensures LowOf(111) == Low(true, true, true)
    ensures LowOf(114) == Low(false, true, false)
    ensures LowOf(115) == Low(true, true, false)
    ensures LowOf(118) == Low(false, true, true)
    ensures LowOf(119) == Low(true, true, true)
  {
  }

  lemma Part1Low(l: Low)
    ensures LowFold(l, SKEW_PART1) == Low(l.b0, l.b1 != l.b0, l.b2 != !(l.b0 || l.b1))
  {
    hide LowFold, LowOf;
    LettersLow();
    LowFoldSeven(l, SKEW_PART1);
  }

  lemma Part2Low(l: Low)
    ensures LowFold(l, SKEW_PART2) == Low(l.b0, l.b1 != l.b0, l.b2 != (l.b0 && l.b1))
  {
    hide LowFold, LowOf;
    LettersLow();
    LowFoldSeven(l, SKEW_PART2);
  }

  lemma Part3Low(l: Low)
    ensures LowFold(l, SKEW_PART3) == Low(l.b0, l.b1 != l.b0, l.b2 != (l.b0 || l.b1))
  {
    hide LowFold, LowOf;
    LettersLow();
    LowFoldSeven(l, SKEW_PART3);
  }

  /** The skew fold changes every register: none keeps its low three bits. */
  lemma SkewAlwaysMoves(r: u64)
    ensures FoldBytes(r, SKEW_FOLD) != r
  {
    hide FoldBytes, LowFold, LowOf;
    assert SKEW_FOLD == SKEW_PART1 + SKEW_PART2 + SKEW_PART3;
    var l := LowOf(r);
    FoldBytesLow(r, SKEW_FOLD);
    LowFoldConcat(l, SKEW_PART1 + SKEW_PART2, SKEW_PART3);
    LowFoldConcat(l, SKEW_PART1, SKEW_PART2);
    Part1Low(l);
    Part2Low(LowFold(l, SKEW_PART1));
    Part3Low(LowFold(LowFold(l, SKEW_PART1), SKEW_PART2));
  }

  /** Divergence is permanent: the registers agree at an icount if and only if the
      extra act has not landed there or does not bite. */
  lemma RegistersAgreeIff(acts: seq<Act>, d: Act, n: int)
    requires Sorted(acts)
    ensures RegAt(acts, n) == RegAt(Inject(acts, d), n) <==> n < d.at || !Bites(acts, d)
  {
    if n < d.at {
      InjectedRegBefore(acts, d, n);
    } else {
      RegCut(acts, d.at, n);
      InjectedRegCut(acts, d, n);
      var p := |UpTo(acts, d.at - 1)|;
      if Bites(acts, d) {
        FoldActsInjective(RegAt(acts, d.at - 1), FoldBytes(RegAt(acts, d.at - 1), d.bytes), UpTo(acts[p..], n));
      }
    }
  }

  /** Two extra acts at one icount: the registers agree from there on if and only if
      the two folds send the register they meet to the same value. */
  lemma RivalRegistersAgreeIff(acts: seq<Act>, d: Act, e: Act, n: int)
    requires Sorted(acts) && d.at == e.at <= n
    ensures RegAt(Inject(acts, d), n) == RegAt(Inject(acts, e), n)
            <==> FoldBytes(RegAt(acts, d.at - 1), d.bytes) == FoldBytes(RegAt(acts, d.at - 1), e.bytes)
  {
    InjectedRegCut(acts, d, n);
    InjectedRegCut(acts, e, n);
    var r := RegAt(acts, d.at - 1);
    var p := |UpTo(acts, d.at - 1)|;
    if FoldBytes(r, d.bytes) != FoldBytes(r, e.bytes) {
      FoldActsInjective(FoldBytes(r, d.bytes), FoldBytes(r, e.bytes), UpTo(acts[p..], n));
    }
  }

  lemma {:induction false} SameRegistersSameChain(o: Origin, a: seq<Act>, b: seq<Act>, k: nat)
    requires forall j: nat :: 0 < j <= k ==> RegBefore(a, j) == RegBefore(b, j)
    ensures ChainAt(o, a, k) == ChainAt(o, b, k)
  {
    hide RegBefore;
    if k > 0 {
      SameRegistersSameChain(o, a, b, k - 1);
    }
  }

  /** The chains agree up to the boundary at or before the extra act. */
  lemma ChainBefore(o: Origin, acts: seq<Act>, d: Act, k: nat)
    requires Sorted(acts) && k * EPOCH <= d.at
    ensures ChainAt(o, Inject(acts, d), k) == ChainAt(o, acts, k)
  {
    forall j: nat | 0 < j <= k
      ensures RegBefore(Inject(acts, d), j) == RegBefore(acts, j)
    {
      InjectedRegBefore(acts, d, j * EPOCH - 1);
    }
    SameRegistersSameChain(o, Inject(acts, d), acts, k);
  }

  // ---- what the hash tells apart ----

  /** The hash does not confuse these two inputs. */
  predicate Apart(x: seq<byte>, y: seq<byte>) {
    x != y ==> BLAKE3(x) != BLAKE3(y)
  }

  function BoundaryInput(o: Origin, acts: seq<Act>, k: nat): seq<byte>
    requires k > 0
  {
    ChainInput(ChainAt(o, acts, k - 1), RegBefore(acts, k))
  }

  /** The hash confuses no state and no boundary of one execution with the same
      point of the other, up to icount `end`. */
  ghost predicate NoCollision(o: Origin, a: seq<Act>, b: seq<Act>, end: u64) {
    && (forall n: u64 :: n <= end ==> Apart(StateInput(StateAt(o, a, n)), StateInput(StateAt(o, b, n))))
    && (forall k: nat :: 0 < k && k * EPOCH <= end ==> Apart(BoundaryInput(o, a, k), BoundaryInput(o, b, k)))
  }

  lemma RegisterInInput(c: Hash32, r: u64, c': Hash32, r': u64, rest: seq<byte>, rest': seq<byte>)
    requires c + LE64(r) + rest == c' + LE64(r') + rest'
    ensures r == r'
  {
    SliceOfConcat(c, LE64(r), rest);
    SliceOfConcat(c', LE64(r'), rest');
    Word64(r);
    Word64(r');
  }

  lemma StatesApart(g: Guest, h: Guest)
    requires Apart(StateInput(g), StateInput(h)) && g.fnv != h.fnv
    ensures ChainValue(g) != ChainValue(h)
  {
    if StateInput(g) == StateInput(h) {
      RegisterInInput(g.chain, g.fnv, h.chain, h.fnv, LE64(g.icount), LE64(h.icount));
    }
  }

  lemma BoundariesApart(o: Origin, a: seq<Act>, b: seq<Act>, k: nat)
    requires k > 0 && RegBefore(a, k) != RegBefore(b, k)
    requires Apart(BoundaryInput(o, a, k), BoundaryInput(o, b, k))
    ensures ChainAt(o, a, k) != ChainAt(o, b, k)
  {
    var x, y := BoundaryInput(o, a, k), BoundaryInput(o, b, k);
    if x == y {
      assert x + [] == x && y + [] == y;
      RegisterInInput(ChainAt(o, a, k - 1), RegBefore(a, k), ChainAt(o, b, k - 1), RegBefore(b, k), [], []);
    }
  }

  /** State hashes disagree from the extra fold on, and only from there. */
  lemma StateHashesAgreeIff(o: Origin, acts: seq<Act>, d: Act, n: u64, end: u64)
    requires Sorted(acts) && Bites(acts, d) && n <= end
    requires NoCollision(o, acts, Inject(acts, d), end)
    ensures ChainValue(StateAt(o, acts, n)) == ChainValue(StateAt(o, Inject(acts, d), n)) <==> n < d.at
  {
    RegistersAgreeIff(acts, d, n);
    if n < d.at {
      ChainBefore(o, acts, d, n / EPOCH);
    } else {
      StatesApart(StateAt(o, acts, n), StateAt(o, Inject(acts, d), n));
    }
  }

  /** For any fold at all, state hashes agree exactly before it or if it changes nothing. */
  lemma StatesAgreeIff(o: Origin, acts: seq<Act>, d: Act, n: u64, end: u64)
    requires Sorted(acts) && n <= end && NoCollision(o, acts, Inject(acts, d), end)
    ensures ChainValue(StateAt(o, acts, n)) == ChainValue(StateAt(o, Inject(acts, d), n))
            <==> n < d.at || !Bites(acts, d)
  {
    if Bites(acts, d) {
      StateHashesAgreeIff(o, acts, d, n, end);
    } else {
      hide RegAt, Bites, NoCollision, Inject;
      RegistersAgreeIff(acts, d, n);
      forall j: nat | 0 < j <= n / EPOCH
        ensures RegBefore(acts, j) == RegBefore(Inject(acts, d), j)
      {
        RegistersAgreeIff(acts, d, j * EPOCH - 1);
      }
      SameRegistersSameChain(o, acts, Inject(acts, d), n / EPOCH);
    }
  }

  /** Epoch chains disagree exactly at the boundaries strictly after the extra fold. */
  lemma ChainsAgreeIff(o: Origin, acts: seq<Act>, d: Act, k: nat, end: u64)
    requires Sorted(acts) && Bites(acts, d) && k * EPOCH <= end
    requires NoCollision(o, acts, Inject(acts, d), end)
    ensures ChainAt(o, acts, k) == ChainAt(o, Inject(acts, d), k) <==> k * EPOCH <= d.at
  {
    if k * EPOCH <= d.at {
      ChainBefore(o, acts, d, k);
    } else {
      assert RegBefore(acts, k) != RegBefore(Inject(acts, d), k) by {
        RegistersAgreeIff(acts, d, k * EPOCH - 1);
      }
      BoundariesApart(o, acts, Inject(acts, d), k);
    }
  }
}
