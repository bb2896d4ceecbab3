/** Where native bisection of a recorded skew ends, for every budget. */
module Localize {
  import opened Wrappers
  import opened Bytes
  import opened Fnv
  import opened Guest
  import opened Divergence
  import opened Validator
  import opened Writer
  import opened Recording
  import opened Hv
  import opened Replay
  import opened Search
  import opened Mock
  import opened WrittenReplay
  import opened Oracle
  import MockHypervisor

  // ---- the skewed contest ----

  /** A recording with a skew at `at`, under a hash that confuses no two states of the
      skewed execution and the clean one. */
  ghost predicate SkewedAt(spec: Spec, at: u64) {
    && spec.Valid() && spec.skewAt == Some(at)
    && NoCollision(spec.Genesis(), EventActs(spec.events), RecordedActs(spec), spec.endIcount)
  }

  /** How many of the recorded epoch hashes a clean replay reproduces. */
  function GoodEpochs(spec: Spec, at: u64): nat {
    if spec.omitEpochHashes then 0 else at / EPOCH
  }

  lemma SkewFacts(spec: Spec, at: u64)
    requires SkewedAt(spec, at)
    ensures spec.Valid() && at <= spec.endIcount && Sorted(EventActs(spec.events))
    ensures RecordedActs(spec) == Inject(EventActs(spec.events), SkewAct(at)) && SkewAct(at).at == at
    ensures Bites(EventActs(spec.events), SkewAct(at))
    ensures NoCollision(spec.Genesis(), EventActs(spec.events), Inject(EventActs(spec.events), SkewAct(at)),
                        spec.endIcount)
  {
    RecordedSorted(spec);
    SkewBites(EventActs(spec.events), at);
    hide EventActs, Bites, NoCollision, Inject, Sorted;
  }

  /** A skew always changes the register it meets, whatever the inputs before it. */
  lemma SkewBites(acts: seq<Act>, at: u64)
    ensures Bites(acts, SkewAct(at))
  {
    hide RegAt, FoldBytes;
    SkewAlwaysMoves(RegAt(acts, at - 1));
  }

  // ---- two executions that part at one icount ----

  predicate StatesPart(spec: Spec, replayed: seq<Act>, at: u64, n: u64) {
    ChainValue(StateAt(spec.Genesis(), replayed, n)) == ChainValue(StateAt(spec.Genesis(), RecordedActs(spec), n))
    <==> n < at
  }

  predicate ChainsPart(spec: Spec, replayed: seq<Act>, at: u64, k: nat) {
    ChainAt(spec.Genesis(), replayed, k) == ChainAt(spec.Genesis(), RecordedActs(spec), k) <==> k * EPOCH <= at
  }

  predicate RegistersPart(spec: Spec, replayed: seq<Act>, at: u64, n: u64) {
    RegAt(replayed, n) == RegAt(RecordedActs(spec), n) <==> n < at
  }

  /** The registers and the state hashes of a replay and of the recording agree exactly
      before `at`, and their epoch chains exactly up to the boundary at `at`. */
  ghost predicate Parted(spec: Spec, replayed: seq<Act>, at: u64) {
    && spec.Valid() && at <= spec.endIcount
    && (forall n: u64 :: n <= spec.endIcount ==> StatesPart(spec, replayed, at, n))
    && (forall n: u64 :: n <= spec.endIcount ==> RegistersPart(spec, replayed, at, n))
    && (forall k: nat :: k * EPOCH <= spec.endIcount ==> ChainsPart(spec, replayed, at, k))
  }

  lemma PartedFacts(spec: Spec, replayed: seq<Act>, at: u64)
    requires Parted(spec, replayed, at)
    ensures spec.Valid() && at <= spec.endIcount
  {
    hide Spec.Valid, StatesPart, RegistersPart, ChainsPart;
  }

  lemma PartedRegister(spec: Spec, replayed: seq<Act>, at: u64, n: u64)
    requires Parted(spec, replayed, at) && n <= spec.endIcount
    ensures RegAt(replayed, n) == RegAt(RecordedActs(spec), n) <==> n < at
  {
    hide Spec.Valid, RecordedActs, RegAt, StatesPart, ChainsPart;
    assert RegistersPart(spec, replayed, at, n);
  }

  lemma PartedState(spec: Spec, replayed: seq<Act>, at: u64, n: u64)
    requires Parted(spec, replayed, at) && n <= spec.endIcount
    ensures ChainValue(StateAt(spec.Genesis(), replayed, n))
            == ChainValue(StateAt(spec.Genesis(), RecordedActs(spec), n))
            <==> n < at
  {
    hide Spec.Valid, RecordedActs, ChainValue, StateAt, RegistersPart, ChainsPart;
    assert StatesPart(spec, replayed, at, n);
  }

  lemma PartedChain(spec: Spec, replayed: seq<Act>, at: u64, k: nat)
    requires Parted(spec, replayed, at) && k * EPOCH <= spec.endIcount
    ensures ChainAt(spec.Genesis(), replayed, k) == ChainAt(spec.Genesis(), RecordedActs(spec), k) <==> k * EPOCH <= at
  {
    hide Spec.Valid, RecordedActs, ChainAt, StatesPart, RegistersPart;
    assert ChainsPart(spec, replayed, at, k);
  }

  lemma PartedFrom(spec: Spec, replayed: seq<Act>, at: u64)
    requires spec.Valid() && at <= spec.endIcount
    requires forall n: u64 :: n <= spec.endIcount ==> StatesPart(spec, replayed, at, n)
    requires forall n: u64 :: n <= spec.endIcount ==> RegistersPart(spec, replayed, at, n)
    requires forall k: nat :: k * EPOCH <= spec.endIcount ==> ChainsPart(spec, replayed, at, k)
    ensures Parted(spec, replayed, at)
  {
    hide Spec.Valid, StatesPart, RegistersPart, ChainsPart;
  }

  lemma PartAt(spec: Spec, replayed: seq<Act>, at: u64)
    ensures forall n: u64 :: StatesPart(spec, replayed, at, n) <==>
              (ChainValue(StateAt(spec.Genesis(), replayed, n))
               == ChainValue(StateAt(spec.Genesis(), RecordedActs(spec), n))
               <==> n < at)
    ensures forall n: u64 :: RegistersPart(spec, replayed, at, n) <==>
              (RegAt(replayed, n) == RegAt(RecordedActs(spec), n) <==> n < at)
    ensures forall k: nat :: ChainsPart(spec, replayed, at, k) <==>
              (ChainAt(spec.Genesis(), replayed, k) == ChainAt(spec.Genesis(), RecordedActs(spec), k)
               <==> k * EPOCH <= at)
  {
    hide RecordedActs, ChainValue, StateAt, ChainAt, RegAt;
  }

  /** A clean replay and a skewed recording part at the skew. */
  lemma SkewParts(spec: Spec, at: u64)
    requires SkewedAt(spec, at)
    ensures Parted(spec, EventActs(spec.events), at)
  {
    hide *;
    SkewFacts(spec, at);
    var o, acts, end := spec.Genesis(), EventActs(spec.events), spec.endIcount;
    PartAt(spec, acts, at);
    forall n: u64 | n <= end
      ensures StatesPart(spec, acts, at, n)
    {
      StateHashesAgreeIff(o, acts, SkewAct(at), n, end);
    }
    forall n: u64 | n <= end
      ensures RegistersPart(spec, acts, at, n)
    {
      RegistersAgreeIff(acts, SkewAct(at), n);
    }
    forall k: nat | k * EPOCH <= end
      ensures ChainsPart(spec, acts, at, k)
    {
      ChainsAgreeIff(o, acts, SkewAct(at), k, end);
    }
    PartedFrom(spec, acts, at);
  }

  lemma AgreementAt(o: Origin, a: seq<Act>, b: seq<Act>, n: u64)
    ensures Agreement(o, a, b)(n) <==> ChainValue(StateAt(o, a, n)) == ChainValue(StateAt(o, b, n))
  {
    hide ChainValue, StateAt;
  }

  lemma PartedDiverges(spec: Spec, replayed: seq<Act>, at: u64)
    requires Parted(spec, replayed, at)
    ensures DivergesAt(Agreement(spec.Genesis(), replayed, RecordedActs(spec)), at, spec.endIcount)
  {
    hide Parted, RecordedActs, ChainValue, StateAt, Agreement;
    PartedFacts(spec, replayed, at);
    var agree := Agreement(spec.Genesis(), replayed, RecordedActs(spec));
    forall n: nat | n <= spec.endIcount
      ensures agree(n) <==> n < at
    {
      AgreementAt(spec.Genesis(), replayed, RecordedActs(spec), n);
      PartedState(spec, replayed, at, n);
    }
  }

  lemma EpochsCount(spec: Spec, at: u64)
    requires at <= spec.endIcount
    ensures spec.Epochs() * EPOCH <= spec.endIcount && GoodEpochs(spec, at) <= spec.Epochs()
  {
  }

  lemma GoodIndex(spec: Spec, at: u64, i: nat)
    requires i < spec.Epochs()
    ensures (i + 1) * EPOCH <= at <==> i < GoodEpochs(spec, at)
  {
  }

  lemma BoundaryIndex(k: nat)
    ensures k * EPOCH / EPOCH == k
  {
  }

  /** One recorded epoch hash: the replay reproduces it exactly up to where they part. */
  lemma GoodAt(spec: Spec, replayed: seq<Act>, at: u64, es: seq<Epoch>, i: nat)
    requires Parted(spec, replayed, at) && i < |es| && es[i].icount == (i + 1) * EPOCH <= spec.endIcount
    requires es[i].chain == ChainAt(spec.Genesis(), RecordedActs(spec), i + 1)
    ensures EpochsGood(spec.Genesis(), replayed, es)[i] <==> (i + 1) * EPOCH <= at
  {
    hide *;
    MockHypervisor.GoodIs(spec.Genesis(), replayed, es, i);
    BoundaryIndex(i + 1);
    PartedChain(spec, replayed, at, i + 1);
  }

  lemma IsThreshold(good: seq<bool>, f: nat)
    requires f <= |good| && forall i: nat :: i < |good| ==> (good[i] <==> i < f)
    ensures Threshold(good, f)
  {
  }

  /** The good epoch hashes are exactly those at boundaries up to where replay and
      recording part, a boundary there included. */
  lemma PartedThreshold(spec: Spec, replayed: seq<Act>, at: u64)
    requires Parted(spec, replayed, at)
    ensures spec.Valid()
    ensures var es := EpochsOf(WrittenRecords(spec));
            && GoodEpochs(spec, at) <= |es| == spec.Epochs()
            && Threshold(EpochsGood(spec.Genesis(), replayed, es), GoodEpochs(spec, at))
  {
    hide *;
    PartedFacts(spec, replayed, at);
    var es := EpochsOf(WrittenRecords(spec));
    var good := EpochsGood(spec.Genesis(), replayed, es);
    EpochsCount(spec, at);
    WrittenEpochs(spec);
    forall i: nat | i < |good|
      ensures good[i] <==> i < GoodEpochs(spec, at)
    {
      BoundaryBound(i, |es|, spec.endIcount);
      GoodIndex(spec, at, i);
      GoodAt(spec, replayed, at, es, i);
    }
    IsThreshold(good, GoodEpochs(spec, at));
  }

  /** On a skewed recording they are those at boundaries up to the skew. */
  lemma SkewThreshold(spec: Spec, at: u64)
    requires SkewedAt(spec, at)
    ensures spec.Valid()
    ensures var es := EpochsOf(WrittenRecords(spec));
            && GoodEpochs(spec, at) <= |es| == spec.Epochs()
            && Threshold(EpochsGood(spec.Genesis(), EventActs(spec.events), es), GoodEpochs(spec, at))
  {
    hide *;
    SkewParts(spec, at);
    PartedThreshold(spec, EventActs(spec.events), at);
  }

  lemma BoundaryBound(i: nat, n: nat, end: nat)
    requires i < n && n * EPOCH <= end
    ensures (i + 1) * EPOCH <= end
  {
  }

  // ---- the window ----

  /** The epoch records of a written segment: one per boundary. */
  ghost predicate Regular(es: seq<Epoch>, end: u64) {
    |es| * EPOCH <= end && forall i :: 0 <= i < |es| ==> es[i].icount == (i + 1) * EPOCH
  }

  /** Does the window of a search that stopped with `p` hold the skew? Exactly when no
      bad record was probed, or the first bad one was. */
  lemma WindowHolds(es: seq<Epoch>, good: seq<bool>, f: nat, p: Probed, at: u64, end: u64)
    requires Regular(es, end) && |good| == |es| && Threshold(good, f) && Brackets(good, p) && p.a <= f <= p.b + 1
    requires at <= end && (if f < |es| then f == at / EPOCH else |es| == 0 || |es| <= at / EPOCH)
    ensures p.bad == Nothing || p.bad == Found(f) ==>
              WindowStart(es, p) <= at <= WindowEnd(es, p, end) <= end
              && (|es| > 0 && p.bad == Found(f) ==> WindowEnd(es, p, end) - WindowStart(es, p) <= EPOCH)
              && (|es| > 0 && p.a == f == |es| ==> WindowEnd(es, p, end) - WindowStart(es, p) <= end - |es| * EPOCH)
    ensures p.bad != Nothing && p.bad != Found(f) ==>
              at < WindowStart(es, p) < WindowEnd(es, p, end)
  {
  }

  /** The probes left when a search over epoch records stops early. */
  lemma EarlyStop(good: seq<bool>, p: Probed, f: nat)
    requires Threshold(good, f) && Brackets(good, p) && p.a <= f <= p.b + 1 && !p.Open()
    ensures p.bad != Nothing && p.bad != Found(f) ==> p.fuel == 0
    ensures p.bad == Nothing || p.bad == Found(f) || p.bad.k > f
  {
  }

  /** Where the search over epoch records ends when the first `f` of them are good. */
  lemma PhaseEnds(good: seq<bool>, f: nat, fuel: nat)
    requires Threshold(good, f)
    ensures var n, p := |good|, EpochPhase(good, fuel);
            && Brackets(good, p) && p.a <= f <= p.b + 1 && !p.Open()
            && (p.bad == Nothing <==> f == n || fuel < ProbesToBad(0, n - 1, f))
            && (p.bad == Found(f) <==> f < n && fuel >= ProbesToHit(0, n - 1, f))
            && (fuel >= Bits(n) ==>
                  p.a == f && p.bad == (if f < n then Found(f) else Nothing) && p.fuel + Bits(n) >= fuel)
  {
    var start := Probed(0, |good| - 1, Nothing, fuel);
    assert Brackets(good, start);
    assert EpochPhase(good, fuel) == SearchEpochs(good, start);
    PhaseBad(good, EpochPhase(good, fuel), f);
    hide *;
    SearchAround(good, start, f);
    if f < |good| {
      SearchMeetsBad(good, start, f);
      SearchHits(good, start, f);
    }
    if fuel >= Bits(|good|) {
      SearchFinds(good, start, f);
    }
  }

  lemma PhaseBad(good: seq<bool>, p: Probed, f: nat)
    requires Threshold(good, f)
    ensures Brackets(good, p) && p.bad.Found? ==> f <= p.bad.k < |good|
  {
  }

  /** The search over epoch records leaves the skew in its window: no bad record was
      probed, or the first bad one was. */
  predicate KeepsSkew(n: nat, f: nat, fuel: nat)
    requires f <= n
  {
    f == n || fuel < ProbesToBad(0, n - 1, f) || fuel >= ProbesToHit(0, n - 1, f)
  }

  /** Runs that let native bisection finish after the full replay. */
  function FullSearch(n: nat, end: nat): nat {
    Bits(n) + (if n > 0 then 13 else Bits(end)) + 1
  }

  lemma RangeBits(w: nat)
    requires w <= EPOCH
    ensures Bits(w) <= 13
  {
    assert Bits(4096) == 13;
    BitsMonotone(w, EPOCH);
  }

  /** A segment of `end` icounts with its `es` epoch records, `f` of them good, and two
      executions that diverge at `at`. */
  ghost predicate Contest(es: seq<Epoch>, good: seq<bool>, f: nat, agree: nat -> bool, at: u64, end: u64) {
    && Regular(es, end) && |good| == |es| && Threshold(good, f) && at <= end
    && (if f < |es| then f == at / EPOCH else |es| == 0 || |es| <= at / EPOCH)
    && (|es| > 0 ==> end < (|es| + 1) * EPOCH)
    && DivergesAt(agree, at, end)
  }

  lemma ContestHolds(es: seq<Epoch>, good: seq<bool>, f: nat, agree: nat -> bool, at: u64, end: u64, p: Probed)
    requires Contest(es, good, f, agree, at, end) && Brackets(good, p) && p.a <= f <= p.b + 1
    ensures p.a <= |es| && (p.bad.Found? ==> p.bad.k < |es|)
    ensures f <= |es| == |good| && Threshold(good, f) && DivergesAt(agree, at, end)
    ensures |es| > 0 ==> end < (|es| + 1) * EPOCH
    ensures p.bad == Nothing || p.bad == Found(f) ==>
              WindowStart(es, p) <= at <= WindowEnd(es, p, end) <= end
              && (|es| > 0 && p.bad == Found(f) ==> WindowEnd(es, p, end) - WindowStart(es, p) <= EPOCH)
              && (|es| > 0 && p.a == f == |es| ==> WindowEnd(es, p, end) - WindowStart(es, p) <= end - |es| * EPOCH)
    ensures p.bad != Nothing && p.bad != Found(f) ==> at < WindowStart(es, p) < WindowEnd(es, p, end)
  {
    BracketsIn(good, p);
    hide Brackets, Threshold, DivergesAt, Regular, WindowStart, WindowEnd;
    WindowHolds(es, good, f, p, at, end);
  }

  lemma BracketsIn(good: seq<bool>, p: Probed)
    requires Brackets(good, p)
    ensures p.a <= |good| && p.b < |good| && (p.bad.Found? ==> p.bad.k < |good|)
  {
  }

  lemma ContestParts(es: seq<Epoch>, good: seq<bool>, f: nat, agree: nat -> bool, at: u64, end: u64)
    requires Contest(es, good, f, agree, at, end)
    ensures f <= |es| == |good| && Threshold(good, f)
  {
  }

  /** The search over epoch records kept the skew: the search over icounts keeps it too. */
  lemma PinpointKept(es: seq<Epoch>, good: seq<bool>, f: nat, agree: nat -> bool, p: Probed, at: u64, end: u64)
    requires Contest(es, good, f, agree, at, end) && Brackets(good, p) && p.a <= f <= p.b + 1
    requires p.bad == Nothing || p.bad == Found(f)
    ensures var w := Pinpoint(agree, WindowStart(es, p), WindowEnd(es, p, end), p.fuel);
            && w.lo <= at <= w.hi && (w.lo == w.hi ==> w.lo == at) && (w.exact ==> w.lo == w.hi)
            && (p.a == f && p.bad == (if f < |es| then Found(f) else Nothing) ==>
                  p.fuel >= (if |es| > 0 then 13 else Bits(end)) + 1 ==> w.exact && w.lo == w.hi == at)
  {
    hide *;
    ContestHolds(es, good, f, agree, at, end, p);
    var lo, hi := WindowStart(es, p), WindowEnd(es, p, end);
    PinpointKeeps(agree, lo, hi, p.fuel, at, end);
    if p.a == f && p.bad == (if f < |es| then Found(f) else Nothing) {
      WindowNarrow(|es|, lo, hi, end);
    }
  }

  /** It lost the skew, with the runs: what is left is too wide to be taken for exact. */
  lemma PinpointLost(es: seq<Epoch>, good: seq<bool>, f: nat, agree: nat -> bool, p: Probed, at: u64, end: u64)
    requires Contest(es, good, f, agree, at, end) && Brackets(good, p) && p.a <= f <= p.b + 1 && !p.Open()
    requires p.bad != Nothing && p.bad != Found(f)
    ensures p.fuel == 0
    ensures var w := Pinpoint(agree, WindowStart(es, p), WindowEnd(es, p, end), p.fuel);
            at < w.lo < w.hi && !w.exact
  {
    hide *;
    ContestHolds(es, good, f, agree, at, end, p);
    EarlyStop(good, p, f);
    NoRunsLeft(agree, WindowStart(es, p), WindowEnd(es, p, end));
  }

  /** The window after both searches, for every number of runs. */
  ghost predicate Localized(n: nat, f: nat, end: nat, fuel: nat, w: Window, at: nat)
    requires f <= n
  {
    && at <= w.hi
    && (w.lo <= at <==> KeepsSkew(n, f, fuel))
    && (w.lo == w.hi ==> w.lo == at)
    && (w.exact ==> w.lo == w.hi)
    && (fuel >= FullSearch(n, end) ==> w.exact && w.lo == w.hi == at)
  }

  lemma WhenLocalized(n: nat, f: nat, end: nat, fuel: nat, w: Window, at: nat, p: Probed)
    requires f <= n
    requires p.bad == Nothing <==> f == n || fuel < ProbesToBad(0, n - 1, f)
    requires p.bad == Found(f) <==> f < n && fuel >= ProbesToHit(0, n - 1, f)
    requires fuel >= Bits(n) ==> p.a == f && p.bad == (if f < n then Found(f) else Nothing) && p.fuel + Bits(n) >= fuel
    requires p.bad == Nothing || p.bad == Found(f) ==>
               && w.lo <= at <= w.hi && (w.lo == w.hi ==> w.lo == at) && (w.exact ==> w.lo == w.hi)
               && (p.a == f && p.bad == (if f < n then Found(f) else Nothing) ==>
                     p.fuel >= (if n > 0 then 13 else Bits(end)) + 1 ==> w.exact && w.lo == w.hi == at)
    requires p.bad != Nothing && p.bad != Found(f) ==> at < w.lo < w.hi && !w.exact
    ensures Localized(n, f, end, fuel, w, at)
  {
    hide ProbesToBad, ProbesToHit, Bits;
  }

  lemma PinpointIn(es: seq<Epoch>, good: seq<bool>, f: nat, agree: nat -> bool, fuel: nat, at: u64, end: u64)
    requires Contest(es, good, f, agree, at, end)
    ensures var p := EpochPhase(good, fuel);
            && f <= |es| == |good|
            && Localized(|es|, f, end, fuel, Pinpoint(agree, WindowStart(es, p), WindowEnd(es, p, end), p.fuel), at)
  {
    hide *;
    ContestParts(es, good, f, agree, at, end);
    var p := EpochPhase(good, fuel);
    PhaseEnds(good, f, fuel);
    if p.bad == Nothing || p.bad == Found(f) {
      PinpointKept(es, good, f, agree, p, at, end);
    } else {
      PinpointLost(es, good, f, agree, p, at, end);
    }
    WhenLocalized(|es|, f, end, fuel, Pinpoint(agree, WindowStart(es, p), WindowEnd(es, p, end), p.fuel), at, p);
  }

  lemma WindowNarrow(n: nat, lo: nat, hi: nat, end: nat)
    requires lo <= hi <= end
    requires n > 0 ==> (hi - lo <= EPOCH || hi - lo <= end - n * EPOCH) && end < (n + 1) * EPOCH
    ensures Bits(hi - lo) <= (if n > 0 then 13 else Bits(end))
  {
    if n > 0 {
      RangeBits(hi - lo);
    } else {
      BitsMonotone(hi - lo, end);
    }
  }

  lemma NoRunsLeft(agree: nat -> bool, lo: nat, hi: nat)
    requires lo < hi
    ensures Pinpoint(agree, lo, hi, 0) == Window(lo, hi, false, 0)
  {
  }

  // ---- what native bisection finds ----

  lemma ContestShape(spec: Spec, at: u64, es: seq<Epoch>)
    requires |es| == spec.Epochs() && at <= spec.endIcount
    requires forall i :: 0 <= i < |es| ==> es[i].icount == (i + 1) * EPOCH
    ensures var f := GoodEpochs(spec, at);
            && Regular(es, spec.endIcount)
            && (if f < |es| then f == at / EPOCH else |es| == 0 || |es| <= at / EPOCH)
            && (|es| > 0 ==> spec.endIcount < (|es| + 1) * EPOCH)
  {
  }

  lemma ContestFrom(es: seq<Epoch>, good: seq<bool>, f: nat, agree: nat -> bool, at: u64, end: u64)
    requires Regular(es, end) && |good| == |es| && Threshold(good, f) && at <= end
    requires if f < |es| then f == at / EPOCH else |es| == 0 || |es| <= at / EPOCH
    requires |es| > 0 ==> end < (|es| + 1) * EPOCH
    requires DivergesAt(agree, at, end)
    ensures Contest(es, good, f, agree, at, end)
  {
  }

  lemma PartedContest(spec: Spec, replayed: seq<Act>, at: u64)
    requires Parted(spec, replayed, at)
    ensures spec.Valid()
    ensures var o, es := spec.Genesis(), EpochsOf(WrittenRecords(spec));
            && |es| == spec.Epochs()
            && Contest(es, EpochsGood(o, replayed, es), GoodEpochs(spec, at),
                       Agreement(o, replayed, RecordedActs(spec)), at, spec.endIcount)
  {
    hide *;
    PartedFacts(spec, replayed, at);
    var o, es := spec.Genesis(), EpochsOf(WrittenRecords(spec));
    WrittenEpochs(spec);
    ContestShape(spec, at, es);
    PartedThreshold(spec, replayed, at);
    PartedDiverges(spec, replayed, at);
    ContestFrom(es, EpochsGood(o, replayed, es), GoodEpochs(spec, at), Agreement(o, replayed, RecordedActs(spec)),
                at, spec.endIcount);
  }

  /** A run of a written segment in which the replayed side lives through `replayed` and
      the recorded side through the recording. */
  ghost predicate Contends(defect: Defect, spec: Spec, segmentIndex: u32, run: nat, replayed: seq<Act>) {
    && spec.Valid() && Written(spec).Valid()
    && Timeline(defect, Written(spec), Replayed(run), segmentIndex) == replayed
    && Timeline(defect, Written(spec), Recorded, segmentIndex) == RecordedActs(spec)
  }

  lemma ContendsFrom(defect: Defect, spec: Spec, segmentIndex: u32, run: nat, replayed: seq<Act>)
    requires spec.Valid() && Written(spec).Valid()
    requires Timeline(defect, Written(spec), Replayed(run), segmentIndex) == replayed
    requires Timeline(defect, Written(spec), Recorded, segmentIndex) == RecordedActs(spec)
    ensures Contends(defect, spec, segmentIndex, run, replayed)
  {
  }

  lemma ContendsFacts(defect: Defect, spec: Spec, segmentIndex: u32, run: nat, replayed: seq<Act>)
    requires Contends(defect, spec, segmentIndex, run, replayed)
    ensures spec.Valid() && Written(spec).Valid()
    ensures Timeline(defect, Written(spec), Replayed(run), segmentIndex) == replayed
    ensures Timeline(defect, Written(spec), Recorded, segmentIndex) == RecordedActs(spec)
  {
    hide Timeline, RecordedActs, Spec.Valid, Segment.Valid, Written;
  }

  lemma SkewContends(spec: Spec, at: u64, segmentIndex: u32, run: nat)
    requires SkewedAt(spec, at)
    ensures Contends(RecordedSkew(segmentIndex, at), spec, segmentIndex, run, EventActs(spec.events))
  {
    hide *;
    SkewFacts(spec, at);
    SkewPresent(spec, at);
    SkewIsDefect(spec, at, segmentIndex);
    WrittenTimelines(spec, segmentIndex, run);
    ContendsFrom(RecordedSkew(segmentIndex, at), spec, segmentIndex, run, EventActs(spec.events));
  }

  lemma SkewIsDefect(spec: Spec, at: u64, segmentIndex: u32)
    requires spec.skewAt == Some(at)
    ensures DefectOf(spec, segmentIndex) == RecordedSkew(segmentIndex, at)
  {
  }

  lemma SkewPresent(spec: Spec, at: u64)
    requires SkewedAt(spec, at)
    ensures spec.skewAt == Some(at) && at <= spec.endIcount && GoodEpochs(spec, at) <= spec.Epochs()
  {
    hide NoCollision, EventActs, RecordedActs;
    EpochsCount(spec, at);
  }

  /** The window of native bisection where replay and recording part, whatever runs are
      left. */
  lemma PartedWindow(defect: Defect, spec: Spec, segmentIndex: u32, run: nat, replayed: seq<Act>, at: u64, fuel: nat)
    requires Parted(spec, replayed, at) && Contends(defect, spec, segmentIndex, run, replayed)
    ensures Written(spec).Valid() && GoodEpochs(spec, at) <= spec.Epochs()
    ensures Localized(spec.Epochs(), GoodEpochs(spec, at), spec.endIcount, fuel,
                      NativeWindow(defect, Written(spec), segmentIndex, run, fuel), at)
    ensures NativeWindow(defect, Written(spec), segmentIndex, run, fuel).hi <= spec.endIcount
  {
    hide *;
    ContendsFacts(defect, spec, segmentIndex, run, replayed);
    PartedContest(spec, replayed, at);
    var o, es := spec.Genesis(), EpochsOf(WrittenRecords(spec));
    PinpointIn(es, EpochsGood(o, replayed, es), GoodEpochs(spec, at), Agreement(o, replayed, RecordedActs(spec)), fuel,
               at, spec.endIcount);
    WrittenIsSteppable(spec);
    MockHypervisor.NativeWindowIs(defect, Written(spec), segmentIndex, run, fuel);
    MockHypervisor.NativeWindowBounded(defect, Written(spec), segmentIndex, run, fuel);
  }

  lemma DiagnoseIs(defect: Defect, s: Segment, segmentIndex: u32, run: nat, n: u64, recorded: Guest, replayed: Guest)
    requires s.Valid() && SimResult(defect, s, n, Recorded, segmentIndex) == Ok(recorded)
    requires SimResult(defect, s, n, Replayed(run), segmentIndex) == Ok(replayed)
    ensures Diagnose(defect, s, n, segmentIndex, run) == Diagnostics(n, recorded.fnv, replayed.fnv)
  {
    hide SimResult, Segment.Valid;
  }

  lemma RegisterOf(o: Origin, acts: seq<Act>, n: u64)
    ensures StateAt(o, acts, n).fnv == RegAt(acts, n)
  {
    hide RegAt, ChainAt;
  }

  /** The registers a divergence is reported with are those of the two sides. */
  lemma DiagnosedAs(defect: Defect, spec: Spec, segmentIndex: u32, run: nat, replayed: seq<Act>, n: u64)
    requires Contends(defect, spec, segmentIndex, run, replayed) && n <= spec.endIcount
    ensures Written(spec).Valid()
    ensures Diagnose(defect, Written(spec), n, segmentIndex, run)
            == Diagnostics(n, RegAt(RecordedActs(spec), n), RegAt(replayed, n))
  {
    hide *;
    ContendsFacts(defect, spec, segmentIndex, run, replayed);
    WrittenIsSteppable(spec);
    var s, o := Written(spec), spec.Genesis();
    AppliableHasNoFault(Records(s), 0, n);
    MockHypervisor.StepBounds(s, n);
    SimResultIs(defect, s, n, Recorded, segmentIndex);
    SimResultIs(defect, s, n, Replayed(run), segmentIndex);
    DiagnoseIs(defect, s, segmentIndex, run, n, StateAt(o, RecordedActs(spec), n), StateAt(o, replayed, n));
    RegisterOf(o, RecordedActs(spec), n);
    RegisterOf(o, replayed, n);
  }

  lemma DivergedWhen(defect: Defect, s: Segment, segmentIndex: u32, run: nat)
    requires s.Valid() && !HonestReplay(defect, s, run, segmentIndex).Faulted?
    requires ReplayedEnd(defect, s, run, segmentIndex) != s.header.endStateHash
    requires FaultFrom(Records(s), s.Walk().torn, 0, s.header.endIcount) == None
    ensures Disagrees(defect, s, run, segmentIndex)
    ensures Unbisected(defect, s, segmentIndex, run)
            == Ok(Diverged(0, s.header.endIcount, Diagnose(defect, s, s.header.endIcount, segmentIndex, run),
                           ReplayedEnd(defect, s, run, segmentIndex)))
  {
    hide ReplayFrom, Timeline, Diagnose, FaultFrom, ReplayedEnd;
  }

  lemma ReplayedEndIs(defect: Defect, s: Segment, segmentIndex: u32, run: nat)
    requires s.Valid()
    ensures ReplayedEnd(defect, s, run, segmentIndex)
            == ChainValue(StateAt(OriginOf(s.header), Timeline(defect, s, Replayed(run), segmentIndex),
                                  s.header.endIcount))
    ensures HonestReplay(defect, s, run, segmentIndex)
            == ReplayFrom(OriginOf(s.header), Timeline(defect, s, Replayed(run), segmentIndex), Records(s),
                          s.Walk().torn, 0)
  {
    hide ReplayFrom, Timeline, ChainValue, StateAt;
  }

  /** Where they part, the replay disagrees. */
  lemma PartedCaught(defect: Defect, spec: Spec, segmentIndex: u32, run: nat, replayed: seq<Act>, at: u64)
    requires Parted(spec, replayed, at) && Contends(defect, spec, segmentIndex, run, replayed)
    ensures Written(spec).Valid() && Disagrees(defect, Written(spec), run, segmentIndex)
    ensures Unbisected(defect, Written(spec), segmentIndex, run)
            == Ok(Diverged(0, spec.endIcount, Diagnose(defect, Written(spec), spec.endIcount, segmentIndex, run),
                           ChainValue(StateAt(spec.Genesis(), replayed, spec.endIcount))))
  {
    hide *;
    ContendsFacts(defect, spec, segmentIndex, run, replayed);
    PartedFacts(spec, replayed, at);
    var s := Written(spec);
    WrittenIsSteppable(spec);
    ReplayedEndIs(defect, s, segmentIndex, run);
    EndHashIs(spec);
    PartedState(spec, replayed, at, spec.endIcount);
    AppliableReplays(spec.Genesis(), replayed, Records(s), 0);
    AppliableHasNoFault(Records(s), 0, spec.endIcount);
    DivergedWhen(defect, s, segmentIndex, run);
  }

  /** A skewed recording is always caught: whatever the run, the replay disagrees. */
  lemma SkewCaught(spec: Spec, at: u64, segmentIndex: u32, run: nat)
    requires SkewedAt(spec, at)
    ensures Written(spec).Valid() && Disagrees(RecordedSkew(segmentIndex, at), Written(spec), run, segmentIndex)
    ensures Unbisected(RecordedSkew(segmentIndex, at), Written(spec), segmentIndex, run)
            == Ok(Diverged(0, spec.endIcount,
                           Diagnose(RecordedSkew(segmentIndex, at), Written(spec), spec.endIcount, segmentIndex, run),
                           ChainValue(StateAt(spec.Genesis(), EventActs(spec.events), spec.endIcount))))
  {
    hide *;
    SkewParts(spec, at);
    SkewContends(spec, at, segmentIndex, run);
    PartedCaught(RecordedSkew(segmentIndex, at), spec, segmentIndex, run, EventActs(spec.events), at);
  }

  lemma BisectedOutcome(defect: Defect, s: Segment, segmentIndex: u32, run: nat, fuel: nat, r: Result<Outcome, HvFault>)
    requires s.Valid() && IsBisected(defect, s, segmentIndex, run, fuel, r)
    requires Unbisected(defect, s, segmentIndex, run).Ok? && Unbisected(defect, s, segmentIndex, run).value.Diverged?
    ensures var w := NativeWindow(defect, s, segmentIndex, run, fuel);
            r.Ok? && r.value.Diverged? && r.value.lo == w.lo && r.value.hi == w.hi
            && r.value.diagnostics == Diagnose(defect, s, r.value.hi, segmentIndex, run)
            && r.value.endStateHash == Unbisected(defect, s, segmentIndex, run).value.endStateHash
  {
    hide Unbisected, NativeWindow, Diagnose;
  }

  lemma LocalizedMeans(n: nat, f: nat, end: nat, fuel: nat, w: Window, at: nat)
    requires f <= n && Localized(n, f, end, fuel, w, at)
    ensures at <= w.hi && (w.lo <= at <= w.hi <==> KeepsSkew(n, f, fuel))
    ensures w.lo == w.hi ==> w.lo == at
    ensures fuel >= FullSearch(n, end) ==> w.lo == w.hi == at
  {
    hide KeepsSkew, FullSearch;
  }

  /** Verifying a skewed recording with native bisection and `fuel` runs after the full
      replay: it diverges; the window holds the skew if and only if the search over epoch
      records had runs enough to hit the first bad one, or too few to meet any; it never
      ends before the skew; a window of one icount is the skew itself; a full search finds
      it; and the registers reported at its end are those of the two sides and differ. */
  lemma SkewLocalized(spec: Spec, at: u64, segmentIndex: u32, run: nat, fuel: nat, r: Result<Outcome, HvFault>)
    requires SkewedAt(spec, at) && Written(spec).Valid()
    requires IsBisected(RecordedSkew(segmentIndex, at), Written(spec), segmentIndex, run, fuel, r)
    ensures GoodEpochs(spec, at) <= spec.Epochs() && r.Ok? && r.value.Diverged?
    ensures r.value.lo <= at <= r.value.hi <==> KeepsSkew(spec.Epochs(), GoodEpochs(spec, at), fuel)
    ensures at <= r.value.hi <= spec.endIcount
    ensures r.value.diagnostics
            == Diagnostics(r.value.hi, RegAt(RecordedActs(spec), r.value.hi), RegAt(EventActs(spec.events), r.value.hi))
    ensures r.value.diagnostics.expected != r.value.diagnostics.actual
    ensures r.value.lo == r.value.hi ==> r.value.lo == at
    ensures fuel >= FullSearch(spec.Epochs(), spec.endIcount) ==> r.value.lo == r.value.hi == at
  {
    hide *;
    SkewFacts(spec, at);
    SkewParts(spec, at);
    SkewContends(spec, at, segmentIndex, run);
    var d, s := RecordedSkew(segmentIndex, at), Written(spec);
    PartedCaught(d, spec, segmentIndex, run, EventActs(spec.events), at);
    PartedWindow(d, spec, segmentIndex, run, EventActs(spec.events), at, fuel);
    BisectedOutcome(d, s, segmentIndex, run, fuel, r);
    LocalizedMeans(spec.Epochs(), GoodEpochs(spec, at), spec.endIcount, fuel,
                   NativeWindow(d, s, segmentIndex, run, fuel), at);
    DiagnosedAs(d, spec, segmentIndex, run, EventActs(spec.events), r.value.hi);
    PartedRegister(spec, EventActs(spec.events), at, r.value.hi);
  }

  /** The runs a full search needs on entry when there are `n` epoch records and 2^k is
      the largest power of two up to `n`: 16 + k. */
  lemma RunsNeeded(n: nat, end: nat, k: nat)
    requires Pow2(k) <= n < Pow2(k + 1)
    ensures 1 + FullSearch(n, end) == 16 + k
  {
    BitsOfLog(n, k);
  }

  /** Exact localization: with 16 + log2(n) runs on entry, `n` recorded epoch hashes and
      any skew, on an epoch boundary or off it. */
  lemma ExactLocalization(spec: Spec, at: u64, segmentIndex: u32, run: nat, runs: nat, k: nat,
                          r: Result<Outcome, HvFault>)
    requires SkewedAt(spec, at) && Written(spec).Valid()
    requires Pow2(k) <= spec.Epochs() < Pow2(k + 1) && runs >= 16 + k
    requires IsBisected(RecordedSkew(segmentIndex, at), Written(spec), segmentIndex, run, runs - 1, r)
    ensures r.Ok? && r.value.Diverged? && r.value.lo == r.value.hi == at
  {
    hide *;
    RunsNeeded(spec.Epochs(), spec.endIcount, k);
    SkewLocalized(spec, at, segmentIndex, run, runs - 1, r);
  }

  /** The gap: four epoch records, a skew inside the first epoch and two runs in all. The
      one probe meets a bad record that is not the first, and the window starts past the
      skew. */
  lemma SkewMissed(spec: Spec, at: u64, segmentIndex: u32, run: nat, r: Result<Outcome, HvFault>)
    requires SkewedAt(spec, at) && Written(spec).Valid() && spec.Epochs() == 4 && at < EPOCH
    requires IsBisected(RecordedSkew(segmentIndex, at), Written(spec), segmentIndex, run, 1, r)
    ensures r.Ok? && r.value.Diverged? && !(r.value.lo <= at <= r.value.hi)
  {
    FirstGood(spec, at);
    MissedByOne(spec.Epochs(), GoodEpochs(spec, at), 1);
    hide *;
    SkewLocalized(spec, at, segmentIndex, run, 1, r);
  }

  /** Such an input exists: four epochs without inputs, a skew at icount 1. */
  lemma SkewMissedExists(hash: Hash32)
    ensures var spec := Spec(hash, hash, hash, hash, 1, 1, 4 * EPOCH, [], [], Some(1), false);
            && spec.Valid() && spec.Epochs() == 4
            && (SkewedAt(spec, 1) <==> NoCollision(spec.Genesis(), [], [SkewAct(1)], 4 * EPOCH))
  {
    var spec := Spec(hash, hash, hash, hash, 1, 1, 4 * EPOCH, [], [], Some(1), false);
    assert spec.Valid() && spec.Epochs() == 4;
    hide Spec.Valid, NoCollision;
    assert EventActs(spec.events) == [];
    InjectAlone(SkewAct(1));
    assert RecordedActs(spec) == [SkewAct(1)];
  }

  lemma InjectAlone(d: Act)
    ensures Inject([], d) == [d]
  {
  }

  lemma FirstGood(spec: Spec, at: u64)
    requires at < EPOCH
    ensures GoodEpochs(spec, at) == 0
  {
  }

  lemma MissedByOne(n: nat, f: nat, fuel: nat)
    requires n == 4 && f == 0 && fuel == 1
    ensures !KeepsSkew(n, f, fuel)
  {
    hide *;
    MiddleOfFour(n - 1);
    CountsTurn(0, n - 1, f);
    KeepsIs(n, f, fuel);
  }

  lemma MiddleOfFour(b: nat)
    requires b == 3
    ensures Middle(0, b) == 1
  {
  }

  lemma KeepsIs(n: nat, f: nat, fuel: nat)
    requires f < n
    ensures KeepsSkew(n, f, fuel) <==> fuel < ProbesToBad(0, n - 1, f) || fuel >= ProbesToHit(0, n - 1, f)
  {
    hide ProbesToBad, ProbesToHit;
  }
}
