/** A flaky replay of a clean recording that the first phase does not tell from a stable
    one. All probes of a bisection share the run index of its full run, so the flake
    folds in one value and native bisection narrows to it as it does to a skew. */
module Flakes {
  import opened Wrappers
  import opened Bytes
  import opened Fnv
  import opened Guest
  import opened Divergence
  import opened Dhilog
  import opened Validator
  import opened Writer
  import opened Recording
  import opened Hv
  import opened Replay
  import opened Mock
  import opened WrittenReplay
  import opened Oracle
  import opened Localize
  import opened Bisect
  import opened Reports
  import opened Chains
  import MockHypervisor

  // ---- the first two flake values ----

  // The flake fold, seven bytes at a time, and its last four.
  const FLAKE_PART1: seq<byte> := [109, 111, 99, 107, 45, 102, 108]
  const FLAKE_PART3: seq<byte> := [0, 0, 0, 0]

  function FlakePart2(v: byte): seq<byte> { [97, 107, 101, v, 0, 0, 0] }

  lemma FlakeBytes(v: u64)
    requires v < 256
    ensures FLAKE_TAG + LE64(v) == FLAKE_PART1 + FlakePart2(v) + FLAKE_PART3
  {
    hide LE64;
    WordByBytes(v);
    ZeroWord(7);
  }

  /** The low bits of its letters that the skew's letters leave out. */
  lemma FlakeLettersLow()
    ensures LowOf(0) == Low(false, false, false)
    ensures LowOf(1) == Low(true, false, false)
    ensures LowOf(97) == Low(true, false, false)
    ensures LowOf(102) == Low(false, true, true)
    ensures LowOf(108) == Low(false, false, true)
  {
  }

  lemma FlakePart1Low(l: Low)
    ensures LowFold(l, FLAKE_PART1) == Low(!l.b0, l.b1 == l.b0, l.b2 != (l.b0 && !l.b1))
  {
    hide LowFold, LowOf;
    LettersLow();
    FlakeLettersLow();
    LowFoldSeven(l, FLAKE_PART1);
  }

  lemma FlakePart2Low(l: Low, v: byte)
    requires v == 0 || v == 1
    ensures LowFold(l, FlakePart2(v)) == Low(if v == 0 then !l.b0 else l.b0, l.b1 == l.b0, l.b2 == (l.b1 && !l.b0))
  {
    hide LowFold, LowOf;
    LettersLow();
    FlakeLettersLow();
    LowFoldSeven(l, FlakePart2(v));
  }

  /** Two zero bytes multiply the low bits by nine. */
  lemma FlakePart3Low(l: Low)
    ensures LowFold(l, FLAKE_PART3) == l
  {
    hide LowFold, LowOf;
    FlakeLettersLow();
    LowFoldTwo(l, FLAKE_PART3);
    LowFoldTwo(l, FLAKE_PART3[2..]);
    assert FLAKE_PART3[2..][2..] == [];
    NothingToFold(l);
  }

  lemma NothingToFold(l: Low)
    ensures LowFold(l, []) == l
  {
  }

  /** A flake of value 0 or 1 changes every register. */
  lemma FlakeAlwaysMoves(r: u64, v: u64)
    requires v == 0 || v == 1
    ensures FoldBytes(r, FLAKE_TAG + LE64(v)) != r
  {
    hide FoldBytes, LowFold, LowOf, LE64;
    FlakeBytes(v);
    var l := LowOf(r);
    var m := LowFold(l, FLAKE_PART1);
    FoldBytesLow(r, FLAKE_TAG + LE64(v));
    LowFoldConcat(l, FLAKE_PART1 + FlakePart2(v), FLAKE_PART3);
    LowFoldConcat(l, FLAKE_PART1, FlakePart2(v));
    FlakePart1Low(l);
    FlakePart2Low(m, v);
    FlakePart3Low(LowFold(m, FlakePart2(v)));
  }

  lemma EarlyFlakeBites(acts: seq<Act>, at: u64, v: u64)
    requires v == 0 || v == 1
    ensures Bites(acts, FlakeAct(at, v))
  {
    hide RegAt, FoldBytes, LE64;
    FlakeAlwaysMoves(RegAt(acts, at - 1), v);
  }

  // ---- the value a run folds in ----

  /** A flaky replay folds the tag and the number of full periods in its run index, eight
      bytes, least significant first: with a period of 0 taken as 1, run `r` folds the `v`
      for which `r` lies in the `v`th period. Nothing else gets a fold of the flake. */
  lemma FlakeFolds(segment: u32, at: u64, flakePeriod: u32, run: nat, segmentIndex: u32) returns (v: u64)
    requires run < TWO64
    ensures var p := if flakePeriod > 1 then flakePeriod else 1;
            v * p <= run < (v + 1) * p
    ensures FoldFor(ReplayNondet(segment, at, flakePeriod), Replayed(run), segmentIndex) ==
            if segment == segmentIndex then Some(Act(at, Ascii("mock-flake") + LE64(v))) else None
    ensures FoldFor(ReplayNondet(segment, at, flakePeriod), Recorded, segmentIndex) == None
  {
    hide LE64;
    v := FlakeValue(run, flakePeriod);
    ValueOfSmall(flakePeriod, run);
    var p := Period(flakePeriod);
    assert v * p == run - run % p;
    assert FLAKE_TAG == Ascii("mock-flake");
  }

  /** A recorded skew is folded by the recorded side of its segment, and by nothing else. */
  lemma SkewFolds(segment: u32, at: u64, run: nat, segmentIndex: u32)
    ensures FoldFor(RecordedSkew(segment, at), Recorded, segmentIndex) ==
            if segment == segmentIndex then Some(Act(at, Ascii("mock-recorded-skew-v1"))) else None
    ensures FoldFor(RecordedSkew(segment, at), Replayed(run), segmentIndex) == None
  {
    assert SKEW_FOLD == Ascii("mock-recorded-skew-v1");
  }

  // ---- a flaky run of a clean recording ----

  /** A clean recording, and a flake under a hash that confuses no two states of the
      flaky execution and the recorded one. */
  ghost predicate FlakedAt(spec: Spec, at: u64, v: u64) {
    && spec.Valid() && spec.skewAt == None && at <= spec.endIcount
    && NoCollision(spec.Genesis(), EventActs(spec.events), FlakyActs(spec, at, v), spec.endIcount)
  }

  /** What a flaky replay lives through. */
  function FlakyActs(spec: Spec, at: u64, v: u64): seq<Act> {
    Inject(EventActs(spec.events), FlakeAct(at, v))
  }

  predicate FlakeBites(spec: Spec, at: u64, v: u64) {
    Bites(EventActs(spec.events), FlakeAct(at, v))
  }

  lemma FlakeFacts(spec: Spec, at: u64, v: u64)
    requires FlakedAt(spec, at, v)
    ensures spec.Valid() && spec.skewAt == None && at <= spec.endIcount && Sorted(EventActs(spec.events))
    ensures RecordedActs(spec) == EventActs(spec.events) && FlakeAct(at, v).at == at
    ensures FlakyActs(spec, at, v) == Inject(EventActs(spec.events), FlakeAct(at, v))
    ensures FlakeBites(spec, at, v) <==> Bites(EventActs(spec.events), FlakeAct(at, v))
    ensures NoCollision(spec.Genesis(), EventActs(spec.events), FlakyActs(spec, at, v), spec.endIcount)
  {
    hide EventActs, Bites, NoCollision, Inject, Sorted, LE64;
    RecordedSorted(spec);
  }

  /** Such a replay parts from the recording at the flake. */
  lemma FlakeParts(spec: Spec, at: u64, v: u64)
    requires FlakedAt(spec, at, v) && FlakeBites(spec, at, v)
    ensures Parted(spec, FlakyActs(spec, at, v), at)
  {
    hide *;
    FlakeFacts(spec, at, v);
    var o, acts, end := spec.Genesis(), EventActs(spec.events), spec.endIcount;
    PartAt(spec, FlakyActs(spec, at, v), at);
    forall n: u64 | n <= end
      ensures StatesPart(spec, FlakyActs(spec, at, v), at, n)
    {
      StateHashesAgreeIff(o, acts, FlakeAct(at, v), n, end);
    }
    forall n: u64 | n <= end
      ensures RegistersPart(spec, FlakyActs(spec, at, v), at, n)
    {
      RegistersAgreeIff(acts, FlakeAct(at, v), n);
    }
    forall k: nat | k * EPOCH <= end
      ensures ChainsPart(spec, FlakyActs(spec, at, v), at, k)
    {
      ChainsAgreeIff(o, acts, FlakeAct(at, v), k, end);
    }
    PartedFrom(spec, FlakyActs(spec, at, v), at);
  }

  lemma FlakeFoldIs(segmentIndex: u32, at: u64, flakePeriod: u32, run: nat)
    ensures FoldFor(ReplayNondet(segmentIndex, at, flakePeriod), Replayed(run), segmentIndex)
            == Some(FlakeAct(at, FlakeValue(run, flakePeriod)))
    ensures FoldFor(ReplayNondet(segmentIndex, at, flakePeriod), Recorded, segmentIndex) == None
  {
    hide LE64;
  }

  lemma FlakyTimelines(spec: Spec, at: u64, v: u64)
    requires spec.skewAt == None
    ensures WithFold(EventActs(spec.events), Some(FlakeAct(at, v))) == FlakyActs(spec, at, v)
    ensures WithFold(EventActs(spec.events), None) == RecordedActs(spec)
  {
    hide EventActs, Inject, LE64;
  }

  lemma FlakeContends(spec: Spec, segmentIndex: u32, at: u64, flakePeriod: u32, run: nat)
    requires spec.Valid() && spec.skewAt == None
    ensures Contends(ReplayNondet(segmentIndex, at, flakePeriod), spec, segmentIndex, run,
                     FlakyActs(spec, at, FlakeValue(run, flakePeriod)))
  {
    hide *;
    var d := ReplayNondet(segmentIndex, at, flakePeriod);
    WrittenIsSteppable(spec);
    WrittenActs(spec);
    FlakeFoldIs(segmentIndex, at, flakePeriod, run);
    FlakyTimelines(spec, at, FlakeValue(run, flakePeriod));
    TimelineIs(d, Written(spec), Recorded, segmentIndex);
    TimelineIs(d, Written(spec), Replayed(run), segmentIndex);
    ContendsFrom(d, spec, segmentIndex, run, FlakyActs(spec, at, FlakeValue(run, flakePeriod)));
  }

  // ---- a flake that changes nothing ----

  lemma SilentChain(spec: Spec, at: u64, v: u64, k: nat)
    requires FlakedAt(spec, at, v) && !FlakeBites(spec, at, v)
    ensures ChainAt(spec.Genesis(), FlakyActs(spec, at, v), k) == ChainAt(spec.Genesis(), RecordedActs(spec), k)
  {
    hide *;
    FlakeFacts(spec, at, v);
    forall j: nat | 0 < j <= k
      ensures RegBefore(FlakyActs(spec, at, v), j) == RegBefore(RecordedActs(spec), j)
    {
      RegistersAgreeIff(EventActs(spec.events), FlakeAct(at, v), j * EPOCH - 1);
      RegBeforeIs(FlakyActs(spec, at, v), j);
      RegBeforeIs(RecordedActs(spec), j);
    }
    SameRegistersSameChain(spec.Genesis(), FlakyActs(spec, at, v), RecordedActs(spec), k);
  }

  lemma RegBeforeIs(acts: seq<Act>, k: nat)
    ensures RegBefore(acts, k) == RegAt(acts, k * EPOCH - 1)
  {
  }

  /** A run whose replayed side has the recorded chains and the recorded end verifies. */
  lemma SameHashesVerify(defect: Defect, spec: Spec, segmentIndex: u32, run: nat, replayed: seq<Act>)
    requires Contends(defect, spec, segmentIndex, run, replayed)
    requires spec.Valid() && forall k: nat :: k <= |EpochsOf(WrittenRecords(spec))| ==>
               ChainAt(spec.Genesis(), replayed, k) == ChainAt(spec.Genesis(), RecordedActs(spec), k)
    requires ChainValue(StateAt(spec.Genesis(), replayed, spec.endIcount))
             == ChainValue(StateAt(spec.Genesis(), RecordedActs(spec), spec.endIcount))
    ensures Written(spec).Valid()
    ensures Unbisected(defect, Written(spec), segmentIndex, run) == Ok(Verified(EndHash(spec), spec.Epochs()))
  {
    hide *;
    ContendsFacts(defect, spec, segmentIndex, run, replayed);
    WrittenIsSteppable(spec);
    var o, s, es := spec.Genesis(), Written(spec), EpochsOf(WrittenRecords(spec));
    ReplayedEndIs(defect, s, segmentIndex, run);
    EndHashIs(spec);
    WrittenEpochs(spec);
    EpochBoundary(es);
    forall i | 0 <= i < |es|
      ensures es[i].chain == ChainAt(o, replayed, i + 1)
    {
    }
    MatchFrom(o, replayed, es);
    WholeFrom(Records(s));
    MatchingRunsThrough(o, replayed, Records(s), 0);
    AgreesWhen(defect, s, segmentIndex, run);
  }

  /** A run whose flake leaves the register alone verifies. */
  lemma SilentVerifies(spec: Spec, segmentIndex: u32, at: u64, flakePeriod: u32, run: nat)
    requires FlakedAt(spec, at, FlakeValue(run, flakePeriod)) && !FlakeBites(spec, at, FlakeValue(run, flakePeriod))
    ensures Written(spec).Valid()
    ensures Unbisected(ReplayNondet(segmentIndex, at, flakePeriod), Written(spec), segmentIndex, run)
            == Ok(Verified(EndHash(spec), spec.Epochs()))
  {
    hide *;
    var v := FlakeValue(run, flakePeriod);
    FlakeFacts(spec, at, v);
    FlakeContends(spec, segmentIndex, at, flakePeriod, run);
    StatesAgreeIff(spec.Genesis(), EventActs(spec.events), FlakeAct(at, v), spec.endIcount, spec.endIcount);
    forall k: nat
      ensures ChainAt(spec.Genesis(), FlakyActs(spec, at, v), k) == ChainAt(spec.Genesis(), RecordedActs(spec), k)
    {
      SilentChain(spec, at, v, k);
    }
    SameHashesVerify(ReplayNondet(segmentIndex, at, flakePeriod), spec, segmentIndex, run, FlakyActs(spec, at, v));
  }

  /** A flaky run diverges if and only if its flake changes the register it meets. */
  lemma FlakeCaughtIff(spec: Spec, segmentIndex: u32, at: u64, flakePeriod: u32, run: nat)
    requires FlakedAt(spec, at, FlakeValue(run, flakePeriod))
    ensures Written(spec).Valid()
    ensures var u := Unbisected(ReplayNondet(segmentIndex, at, flakePeriod), Written(spec), segmentIndex, run);
            u.Ok? && (u.value.Diverged? <==> FlakeBites(spec, at, FlakeValue(run, flakePeriod)))
  {
    hide *;
    var v := FlakeValue(run, flakePeriod);
    if FlakeBites(spec, at, v) {
      FlakeParts(spec, at, v);
      FlakeFacts(spec, at, v);
      FlakeContends(spec, segmentIndex, at, flakePeriod, run);
      PartedCaught(ReplayNondet(segmentIndex, at, flakePeriod), spec, segmentIndex, run, FlakyActs(spec, at, v), at);
    } else {
      SilentVerifies(spec, segmentIndex, at, flakePeriod, run);
    }
  }

  // ---- the report ----

  lemma NativeOfVerified(defect: Defect, s: Segment, segmentIndex: u32, run: nat, n: nat, expected: Hash32,
                         opts: BisectOptions)
    requires s.Valid() && Steppable(s) && n < opts.maxRuns
    requires Unbisected(defect, s, segmentIndex, run).Ok? && Unbisected(defect, s, segmentIndex, run).value.Verified?
    ensures var r := NativeReport(defect, s, s.header.baseSnapshot, segmentIndex, run, n, expected, opts);
            && r.Ok?
            && r.value.diagnostics == None
            && r.value.offset
               == if s.header.endIcount == 0 then ExactIcount(0) else IcountWindow(0, s.header.endIcount)
  {
    hide Unbisected, NativeWindow, Steppable, Segment.Valid, Diagnose, NativeLeft;
  }

  /** Against a flake that changes nothing the report is the whole segment. */
  lemma SilentReport(spec: Spec, segmentIndex: u32, at: u64, flakePeriod: u32, run: nat, expected: Hash32,
                     opts: BisectOptions)
    requires FlakedAt(spec, at, FlakeValue(run + FlakeRuns(opts), flakePeriod))
    requires !FlakeBites(spec, at, FlakeValue(run + FlakeRuns(opts), flakePeriod))
    ensures Written(spec).Valid() && Steppable(Written(spec))
    ensures var r := Reported(ReplayNondet(segmentIndex, at, flakePeriod), Written(spec), spec.baseSnapshot,
                              segmentIndex, run, expected, opts);
            r.Ok? && (r.value.classification == RecordedDivergence ==>
              && r.value.offset == (if spec.endIcount == 0 then ExactIcount(0) else IcountWindow(0, spec.endIcount))
              && r.value.diagnostics == None)
  {
    hide *;
    var d, n := ReplayNondet(segmentIndex, at, flakePeriod), FlakeRuns(opts);
    FlakeFacts(spec, at, FlakeValue(run + n, flakePeriod));
    WrittenRunnable(spec);
    var s := Written(spec);
    RunnableFacts(s);
    OutcomesAre(d, s, segmentIndex, run, n);
    var os := Outcomes(d, s, spec.baseSnapshot, segmentIndex, run, n).value;
    ReportedIs(d, s, segmentIndex, run, expected, opts, os);
    ReportClass(d, s, run + n, os, expected, opts);
    SilentVerifies(spec, segmentIndex, at, flakePeriod, run + n);
    if n < opts.maxRuns {
      NativeOfVerified(d, s, segmentIndex, run + n, n, expected, opts);
    }
  }

  /** A report that is not "nondeterministic", on any mock: an exact icount is the flake's;
      the offset never ends before the flake, and holds it if and only if native bisection
      did not run, the flake of its runs changes nothing, or the search over epoch records
      kept it; 16 + log2(n) runs after the first phase find a flake that changes the
      register; and such a flake, bisected, is shown with two different registers. */
  lemma FlakyReport(spec: Spec, segmentIndex: u32, at: u64, flakePeriod: u32, run: nat, expected: Hash32,
                    opts: BisectOptions, k: nat)
    requires FlakedAt(spec, at, FlakeValue(run + FlakeRuns(opts), flakePeriod))
    ensures Written(spec).Valid() && Steppable(Written(spec)) && GoodEpochs(spec, at) <= spec.Epochs()
    ensures var r := Reported(ReplayNondet(segmentIndex, at, flakePeriod), Written(spec), spec.baseSnapshot,
                              segmentIndex, run, expected, opts);
            var bites := FlakeBites(spec, at, FlakeValue(run + FlakeRuns(opts), flakePeriod));
            var n := if opts.skipPhase1 then 0 else opts.flakeRetries + 1;
            r.Ok? && (r.value.classification == RecordedDivergence ==>
              && (r.value.offset.ExactIcount? ==> r.value.offset.at == at) && at <= r.value.offset.Last()
              && (if Bisects(spec, opts) && bites then Diagnosed(r.value) else r.value.diagnostics == None)
              && (r.value.offset.Holds(at) <==>
                    !Bisects(spec, opts) || !bites
                    || KeepsSkew(spec.Epochs(), GoodEpochs(spec, at), opts.maxRuns - n - 1))
              && (bites && Pow2(k) <= spec.Epochs() < Pow2(k + 1) && opts.maxRuns >= n + 16 + k ==>
                    r.value.offset == ExactIcount(at)))
  {
    hide *;
    FlakeRunsAre(opts);
    BisectsIs(spec, opts);
    BisectsWhen(spec, opts);
    var n, v := FlakeRuns(opts), FlakeValue(run + FlakeRuns(opts), flakePeriod);
    FlakeFacts(spec, at, v);
    EpochsCount(spec, at);
    if FlakeBites(spec, at, v) {
      FlakeParts(spec, at, v);
      FlakeContends(spec, segmentIndex, at, flakePeriod, run + n);
      PartedOffset(ReplayNondet(segmentIndex, at, flakePeriod), spec, FlakyActs(spec, at, v), at, segmentIndex, run,
                   expected, opts, k);
    } else {
      SilentReport(spec, segmentIndex, at, flakePeriod, run, expected, opts);
      WholeOffset(at, spec.endIcount, if spec.endIcount == 0 then ExactIcount(0) else IcountWindow(0, spec.endIcount));
    }
  }

  /** On a fresh mock a flake is missed by a first phase that is skipped or makes at most as
      many runs as the period: then the report is that of a recorded divergence, and says
      of the flake what it would say of a skew there, whatever the inputs. */
  lemma MissedFlakeReport(spec: Spec, segmentIndex: u32, at: u64, flakePeriod: u32, expected: Hash32,
                          opts: BisectOptions, k: nat)
    requires var n := if opts.skipPhase1 then 0 else opts.flakeRetries + 1;
             var p := if flakePeriod > 1 then flakePeriod else 1;
             && (n <= p || opts.maxRuns <= p)
             && FlakedAt(spec, at, if n < p || opts.maxRuns < p then 0 else 1)
    ensures Written(spec).Valid() && Steppable(Written(spec)) && GoodEpochs(spec, at) <= spec.Epochs()
    ensures var r := Reported(ReplayNondet(segmentIndex, at, flakePeriod), Written(spec), spec.baseSnapshot,
                              segmentIndex, 0, expected, opts);
            var n := if opts.skipPhase1 then 0 else opts.flakeRetries + 1;
            && r.Ok? && r.value.classification == RecordedDivergence
            && (r.value.offset.ExactIcount? ==> r.value.offset.at == at) && at <= r.value.offset.Last()
            && (if Bisects(spec, opts) then Diagnosed(r.value) else r.value.diagnostics == None)
            && (r.value.offset.Holds(at) <==>
                  !Bisects(spec, opts) || KeepsSkew(spec.Epochs(), GoodEpochs(spec, at), opts.maxRuns - n - 1))
            && (Pow2(k) <= spec.Epochs() < Pow2(k + 1) && opts.maxRuns >= n + 16 + k ==>
                  r.value.offset == ExactIcount(at))
  {
    hide *;
    FlakeRunsAre(opts);
    PeriodIs(flakePeriod);
    var d, n := ReplayNondet(segmentIndex, at, flakePeriod), FlakeRuns(opts);
    var v := FlakeValue(n, flakePeriod);
    Quotients(n, Period(flakePeriod));
    FlakeValueIs(n, flakePeriod);
    FlakeFacts(spec, at, v);
    EarlyFlakeBites(EventActs(spec.events), at, v);
    FlakyReport(spec, segmentIndex, at, flakePeriod, 0, expected, opts, k);
    WrittenRunnable(spec);
    BisectTotal(d, Written(spec), segmentIndex, 0, expected, opts);
    forall i: nat, j: nat | i < j < n
      ensures NthRun(d, Written(spec), segmentIndex, 0, i) == NthRun(d, Written(spec), segmentIndex, 0, j)
    {
      FlakeUnseen(Written(spec), segmentIndex, at, flakePeriod, i, j);
    }
  }

  // ---- what the first phase tells apart ----

  /** Two timelines with the same register everywhere. */
  ghost predicate SameCourse(a: seq<Act>, b: seq<Act>) {
    forall n: int :: RegAt(a, n) == RegAt(b, n)
  }

  lemma RivalsAlike(acts: seq<Act>, d: Act, e: Act)
    requires Sorted(acts) && d.at == e.at
    requires FoldBytes(RegAt(acts, d.at - 1), d.bytes) == FoldBytes(RegAt(acts, d.at - 1), e.bytes)
    ensures SameCourse(Inject(acts, d), Inject(acts, e))
  {
    hide FoldBytes, RegAt, Inject, Sorted;
    forall n: int
      ensures RegAt(Inject(acts, d), n) == RegAt(Inject(acts, e), n)
    {
      if n < d.at {
        InjectedRegBefore(acts, d, n);
        InjectedRegBefore(acts, e, n);
      } else {
        RivalRegistersAgreeIff(acts, d, e, n);
      }
    }
  }

  lemma SameCourseChain(o: Origin, a: seq<Act>, b: seq<Act>, k: nat)
    requires SameCourse(a, b)
    ensures ChainAt(o, a, k) == ChainAt(o, b, k)
  {
    hide RegAt;
    SameRegistersSameChain(o, a, b, k);
  }

  lemma SameCourseState(o: Origin, a: seq<Act>, b: seq<Act>, n: u64)
    requires SameCourse(a, b)
    ensures StateAt(o, a, n) == StateAt(o, b, n)
  {
    hide RegAt;
    SameCourseChain(o, a, b, n / EPOCH);
  }

  lemma {:induction false} SameCourseReplay(o: Origin, a: seq<Act>, b: seq<Act>, recs: seq<Record>, torn: bool, j: nat)
    requires SameCourse(a, b) && j <= |recs|
    ensures ReplayFrom(o, a, recs, torn, j) == ReplayFrom(o, b, recs, torn, j)
    decreases |recs| - j
  {
    if j < |recs| {
      SameCourseChain(o, a, b, recs[j].icount / EPOCH);
      hide SameCourse, ChainAt;
      SameCourseReplay(o, a, b, recs, torn, j + 1);
    }
  }

  lemma DiagnoseAlike(defect: Defect, s: Segment, segmentIndex: u32, i: nat, j: nat, at: u64)
    requires s.Valid()
    requires SimResult(defect, s, at, Replayed(i), segmentIndex) == SimResult(defect, s, at, Replayed(j), segmentIndex)
    ensures Diagnose(defect, s, at, segmentIndex, i) == Diagnose(defect, s, at, segmentIndex, j)
  {
    hide SimResult, Segment.Valid;
  }

  lemma UnbisectedAlike(defect: Defect, s: Segment, segmentIndex: u32, i: nat, j: nat)
    requires s.Valid() && HonestReplay(defect, s, i, segmentIndex) == HonestReplay(defect, s, j, segmentIndex)
    requires ReplayedEnd(defect, s, i, segmentIndex) == ReplayedEnd(defect, s, j, segmentIndex)
    requires Diagnose(defect, s, s.header.endIcount, segmentIndex, i)
             == Diagnose(defect, s, s.header.endIcount, segmentIndex, j)
    ensures Unbisected(defect, s, segmentIndex, i) == Unbisected(defect, s, segmentIndex, j)
  {
    hide HonestReplay, ReplayedEnd, Diagnose, FaultFrom, Segment.Valid;
  }

  /** Runs that live through the same registers have the same outcome. */
  lemma SameCourseRun(defect: Defect, s: Segment, segmentIndex: u32, i: nat, j: nat)
    requires Runnable(s)
    requires s.Valid() && SameCourse(Timeline(defect, s, Replayed(i), segmentIndex),
                                     Timeline(defect, s, Replayed(j), segmentIndex))
    ensures Unbisected(defect, s, segmentIndex, i) == Unbisected(defect, s, segmentIndex, j)
  {
    hide *;
    RunnableFacts(s);
    var o, end := OriginOf(s.header), s.header.endIcount;
    var a, b := Timeline(defect, s, Replayed(i), segmentIndex), Timeline(defect, s, Replayed(j), segmentIndex);
    ReplayedEndIs(defect, s, segmentIndex, i);
    ReplayedEndIs(defect, s, segmentIndex, j);
    SameCourseState(o, a, b, end);
    SameCourseReplay(o, a, b, Records(s), s.Walk().torn, 0);
    AppliableHasNoFault(Records(s), 0, end);
    MockHypervisor.StepBounds(s, end);
    SimResultIs(defect, s, end, Replayed(i), segmentIndex);
    SimResultIs(defect, s, end, Replayed(j), segmentIndex);
    DiagnoseAlike(defect, s, segmentIndex, i, j, end);
    UnbisectedAlike(defect, s, segmentIndex, i, j);
  }

  /** The register right after the flake of a run. */
  function Struck(s: Segment, at: u64, flakePeriod: u32, run: nat): u64
    requires s.Valid()
  {
    FoldBytes(RegAt(CanonActs(Records(s)), at - 1), FLAKE_TAG + LE64(FlakeValue(run, flakePeriod)))
  }

  lemma StruckIs(s: Segment, segmentIndex: u32, at: u64, flakePeriod: u32, run: nat)
    requires s.Valid()
    ensures var act := FlakeAct(at, FlakeValue(run, flakePeriod));
            && act.at == at
            && Struck(s, at, flakePeriod, run) == FoldBytes(RegAt(CanonActs(Records(s)), at - 1), act.bytes)
            && Timeline(ReplayNondet(segmentIndex, at, flakePeriod), s, Replayed(run), segmentIndex)
               == Inject(CanonActs(Records(s)), act)
  {
    hide LE64, FoldBytes, RegAt, CanonActs, Inject, Segment.Valid;
  }

  /** Two flaky runs have the same outcome if and only if their flakes leave the same
      register, under a hash that tells their two end states apart. */
  lemma OutcomesAgreeIff(s: Segment, segmentIndex: u32, at: u64, flakePeriod: u32, i: nat, j: nat)
    requires Runnable(s) && at <= s.header.endIcount && s.Valid()
    requires Apart(StateInput(FlakyEnd(s, at, FlakeValue(i, flakePeriod))),
                   StateInput(FlakyEnd(s, at, FlakeValue(j, flakePeriod))))
    ensures var d := ReplayNondet(segmentIndex, at, flakePeriod);
            Unbisected(d, s, segmentIndex, i) == Unbisected(d, s, segmentIndex, j)
            <==> Struck(s, at, flakePeriod, i) == Struck(s, at, flakePeriod, j)
  {
    hide *;
    RunnableFacts(s);
    var d, acts := ReplayNondet(segmentIndex, at, flakePeriod), CanonActs(Records(s));
    var v, w := FlakeValue(i, flakePeriod), FlakeValue(j, flakePeriod);
    CanonSorted(s);
    StruckIs(s, segmentIndex, at, flakePeriod, i);
    StruckIs(s, segmentIndex, at, flakePeriod, j);
    if Struck(s, at, flakePeriod, i) == Struck(s, at, flakePeriod, j) {
      RivalsAlike(acts, FlakeAct(at, v), FlakeAct(at, w));
      SameCourseRun(d, s, segmentIndex, i, j);
    } else {
      RivalRegistersAgreeIff(acts, FlakeAct(at, v), FlakeAct(at, w), s.header.endIcount);
      FlakyEndRegister(s, at, v);
      FlakyEndRegister(s, at, w);
      StatesApart(FlakyEnd(s, at, v), FlakyEnd(s, at, w));
      FlakeTimeline(s, segmentIndex, at, flakePeriod, i);
      FlakeTimeline(s, segmentIndex, at, flakePeriod, j);
      RunTotal(d, s, segmentIndex, i);
      RunTotal(d, s, segmentIndex, j);
    }
  }

  /** The register right after the flake of the `i`th run of a phase. */
  function NthStruck(s: Segment, at: u64, flakePeriod: u32, run: nat, i: nat): u64
    requires s.Valid()
  {
    Struck(s, at, flakePeriod, run + i)
  }

  predicate EndApart(s: Segment, at: u64, flakePeriod: u32, run: nat, i: nat, j: nat)
    requires s.Valid()
  {
    Apart(StateInput(FlakyEnd(s, at, FlakeValue(run + i, flakePeriod))),
          StateInput(FlakyEnd(s, at, FlakeValue(run + j, flakePeriod))))
  }

  /** The hash tells the end states of a phase's runs apart. */
  ghost predicate EndsApart(s: Segment, at: u64, flakePeriod: u32, run: nat, n: nat)
    requires s.Valid()
  {
    forall i: nat, j: nat :: i < j < n ==> EndApart(s, at, flakePeriod, run, i, j)
  }

  lemma NthRunsAgreeIff(s: Segment, segmentIndex: u32, at: u64, flakePeriod: u32, run: nat, n: nat, i: nat, j: nat)
    requires Runnable(s) && at <= s.header.endIcount && s.Valid()
    requires EndsApart(s, at, flakePeriod, run, n) && i < j < n
    ensures var d := ReplayNondet(segmentIndex, at, flakePeriod);
            NthRun(d, s, segmentIndex, run, i) == NthRun(d, s, segmentIndex, run, j)
            <==> NthStruck(s, at, flakePeriod, run, i) == NthStruck(s, at, flakePeriod, run, j)
  {
    hide Runnable, Apart, StateInput, FlakyEnd, FlakeValue, Segment.Valid, Unbisected, Struck;
    assert EndApart(s, at, flakePeriod, run, i, j);
    OutcomesAgreeIff(s, segmentIndex, at, flakePeriod, run + i, run + j);
  }

  /** On any mock, fresh or used, a flake is reported if and only if two runs of the first
      phase fold it into different registers. */
  lemma FlakeDetectionIff(s: Segment, segmentIndex: u32, at: u64, flakePeriod: u32, run: nat, expected: Hash32,
                          opts: BisectOptions)
    requires Runnable(s) && at <= s.header.endIcount && s.Valid()
    requires EndsApart(s, at, flakePeriod, run, FlakeRuns(opts))
    ensures Steppable(s)
    ensures var r := Reported(ReplayNondet(segmentIndex, at, flakePeriod), s, s.header.baseSnapshot, segmentIndex, run,
                              expected, opts);
            && r.Ok?
            && (r.value.classification == ReplayNondeterministic <==>
                  exists i: nat, j: nat :: i < j < FlakeRuns(opts)
                    && NthStruck(s, at, flakePeriod, run, i) != NthStruck(s, at, flakePeriod, run, j))
  {
    hide *;
    RunnableFacts(s);
    FlakeRunsAre(opts);
    var d, n := ReplayNondet(segmentIndex, at, flakePeriod), FlakeRuns(opts);
    BisectTotal(d, s, segmentIndex, run, expected, opts);
    forall i: nat, j: nat | i < j < n
      ensures NthRun(d, s, segmentIndex, run, i) != NthRun(d, s, segmentIndex, run, j)
              <==> NthStruck(s, at, flakePeriod, run, i) != NthStruck(s, at, flakePeriod, run, j)
    {
      NthRunsAgreeIff(s, segmentIndex, at, flakePeriod, run, n, i, j);
    }
  }

  lemma QuotientsGrow(a: nat, b: nat, p: nat)
    requires p >= 1 && a <= b
    ensures a / p <= b / p
  {
    var x, y := a / p, b / p;
    assert x * p == a - a % p;
    assert (y + 1) * p == b - b % p + p;
    LessByFactor(x, y + 1, p);
  }

  lemma ValueOfSmall(flakePeriod: u32, run: nat)
    requires run < TWO64
    ensures FlakeValue(run, flakePeriod) == run / Period(flakePeriod)
  {
    QuotientFits(run, Period(flakePeriod));
  }

  /** While the quotients of a phase share all but their lowest byte, a flake is reported
      if and only if its first and last run have different quotients. */
  lemma FlakeDetectionByQuotient(s: Segment, segmentIndex: u32, at: u64, flakePeriod: u32, run: nat, expected: Hash32,
                                 opts: BisectOptions)
    requires Runnable(s) && at <= s.header.endIcount && s.Valid()
    requires FlakeRuns(opts) > 0 && run + FlakeRuns(opts) <= TWO64
    requires EndsApart(s, at, flakePeriod, run, FlakeRuns(opts))
    requires run / Period(flakePeriod) / 256 == (run + FlakeRuns(opts) - 1) / Period(flakePeriod) / 256
    ensures Steppable(s)
    ensures var r := Reported(ReplayNondet(segmentIndex, at, flakePeriod), s, s.header.baseSnapshot, segmentIndex, run,
                              expected, opts);
            && r.Ok?
            && (r.value.classification == ReplayNondeterministic <==>
                  run / Period(flakePeriod) != (run + FlakeRuns(opts) - 1) / Period(flakePeriod))
  {
    hide Runnable, Reported, Struck, EndsApart, Steppable, Segment.Valid, FlakeRuns, FlakeValue, Period;
    var n, p := FlakeRuns(opts), Period(flakePeriod);
    FlakeDetectionIff(s, segmentIndex, at, flakePeriod, run, expected, opts);
    ValueOfSmall(flakePeriod, run);
    ValueOfSmall(flakePeriod, run + n - 1);
    if run / p == (run + n - 1) / p {
      forall i: nat, j: nat | i < j < n
        ensures NthStruck(s, at, flakePeriod, run, i) == NthStruck(s, at, flakePeriod, run, j)
      {
        QuotientsGrow(run, run + i, p);
        QuotientsGrow(run + i, run + j, p);
        QuotientsGrow(run + j, run + n - 1, p);
        ValueOfSmall(flakePeriod, run + i);
        ValueOfSmall(flakePeriod, run + j);
        StruckAlike(s, at, flakePeriod, run + i, run + j);
      }
    } else {
      StruckApart(s, at, flakePeriod, run, run + n - 1);
      assert NthStruck(s, at, flakePeriod, run, 0) != NthStruck(s, at, flakePeriod, run, n - 1);
    }
  }

  lemma StruckAlike(s: Segment, at: u64, flakePeriod: u32, i: nat, j: nat)
    requires s.Valid() && FlakeValue(i, flakePeriod) == FlakeValue(j, flakePeriod)
    ensures Struck(s, at, flakePeriod, i) == Struck(s, at, flakePeriod, j)
  {
    hide FlakeValue, LE64, FoldBytes, RegAt, CanonActs, Segment.Valid;
  }

  lemma StruckApart(s: Segment, at: u64, flakePeriod: u32, i: nat, j: nat)
    requires s.Valid() && FlakeValue(i, flakePeriod) != FlakeValue(j, flakePeriod)
    requires FlakeValue(i, flakePeriod) / 256 == FlakeValue(j, flakePeriod) / 256
    ensures Struck(s, at, flakePeriod, i) != Struck(s, at, flakePeriod, j)
  {
    hide FlakeValue, LE64, FoldBytes, RegAt, CanonActs, Segment.Valid;
    FlakeFoldsDiffer(RegAt(CanonActs(Records(s)), at - 1), FlakeValue(i, flakePeriod), FlakeValue(j, flakePeriod));
  }
}
