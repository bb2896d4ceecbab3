/** What a bisection report can say, for every budget and every option. */
module Reports {
  import opened Wrappers
  import opened Bytes
  import opened Fnv
  import opened Guest
  import opened Divergence
  import opened Dhilog
  import opened Validator
  import opened Writer
  import opened Recording
  import opened Hv
  import opened Replay
  import opened Search
  import opened Mock
  import opened WrittenReplay
  import opened Localize
  import opened Bisect
  import MockHypervisor

  // ---- totality ----

  /** A segment that can be stepped through with nothing in it to fault on. */
  ghost predicate Runnable(s: Segment) {
    s.Valid() && Steppable(s) && !s.Walk().torn && Appliable(Records(s))
  }

  lemma RunnableFacts(s: Segment)
    requires Runnable(s)
    ensures s.Valid() && Steppable(s) && !s.Walk().torn && Appliable(Records(s))
  {
  }

  lemma OkRun(defect: Defect, s: Segment, segmentIndex: u32, run: nat)
    requires s.Valid() && !HonestReplay(defect, s, run, segmentIndex).Faulted?
    requires FaultFrom(Records(s), s.Walk().torn, 0, s.header.endIcount) == None
    ensures Unbisected(defect, s, segmentIndex, run).Ok?
    ensures Unbisected(defect, s, segmentIndex, run).value.endStateHash == ReplayedEnd(defect, s, run, segmentIndex)
    ensures Unbisected(defect, s, segmentIndex, run).value.Diverged? <==> Disagrees(defect, s, run, segmentIndex)
  {
    hide ReplayFrom, Timeline, Diagnose, FaultFrom, ReplayedEnd;
  }

  /** Every run of such a segment has an outcome, with the replayed end hash. */
  lemma RunTotal(defect: Defect, s: Segment, segmentIndex: u32, run: nat)
    requires Runnable(s)
    ensures s.Valid() && Unbisected(defect, s, segmentIndex, run).Ok?
    ensures Unbisected(defect, s, segmentIndex, run).value.endStateHash == ReplayedEnd(defect, s, run, segmentIndex)
    ensures Unbisected(defect, s, segmentIndex, run).value.Diverged? <==> Disagrees(defect, s, run, segmentIndex)
  {
    hide *;
    RunnableFacts(s);
    ReplayedEndIs(defect, s, segmentIndex, run);
    AppliableReplays(OriginOf(s.header), Timeline(defect, s, Replayed(run), segmentIndex), Records(s), 0);
    AppliableHasNoFault(Records(s), 0, s.header.endIcount);
    OkRun(defect, s, segmentIndex, run);
  }

  /** The `i`th run of a phase that starts after `run` runs. */
  function NthRun(defect: Defect, s: Segment, segmentIndex: u32, run: nat, i: nat): Result<Outcome, HvFault>
    requires s.Valid()
  {
    Unbisected(defect, s, segmentIndex, run + i)
  }

  ghost predicate AreRuns(defect: Defect, s: Segment, segmentIndex: u32, run: nat, os: seq<Outcome>)
    requires s.Valid()
  {
    forall i: nat :: i < |os| ==> NthRun(defect, s, segmentIndex, run, i) == Ok(os[i])
  }

  lemma AreRunsAppend(defect: Defect, s: Segment, segmentIndex: u32, run: nat, os: seq<Outcome>, o: Outcome)
    requires s.Valid() && AreRuns(defect, s, segmentIndex, run, os)
    requires Unbisected(defect, s, segmentIndex, run + |os|) == Ok(o)
    ensures AreRuns(defect, s, segmentIndex, run, os + [o])
  {
    hide Unbisected, Segment.Valid;
  }

  lemma NoRuns(defect: Defect, s: Segment, segmentIndex: u32, run: nat)
    requires s.Valid()
    ensures AreRuns(defect, s, segmentIndex, run, [])
  {
  }

  /** The outcomes of phase one are those of the runs, in order. */
  lemma {:induction false} OutcomesAre(defect: Defect, s: Segment, segmentIndex: u32, run: nat, n: nat)
    requires Runnable(s)
    ensures s.Valid()
    ensures var os := Outcomes(defect, s, s.header.baseSnapshot, segmentIndex, run, n);
            os.Ok? && AreRuns(defect, s, segmentIndex, run, os.value)
  {
    hide *;
    RunnableFacts(s);
    if n > 0 {
      var base := s.header.baseSnapshot;
      OutcomesAre(defect, s, segmentIndex, run, n - 1);
      var os := Outcomes(defect, s, base, segmentIndex, run, n - 1).value;
      RunTotal(defect, s, segmentIndex, run + n - 1);
      OutcomesStep(defect, s, base, segmentIndex, run, n - 1, os);
      AreRunsAppend(defect, s, segmentIndex, run, os, Unbisected(defect, s, segmentIndex, run + n - 1).value);
    } else {
      NoOutcomes(defect, s, s.header.baseSnapshot, segmentIndex, run);
      NoRuns(defect, s, segmentIndex, run);
    }
  }

  lemma BaseMatches(defect: Defect, s: Segment, segmentIndex: u32, run: nat, fuel: nat)
    requires s.Valid() && Steppable(s) && Unbisected(defect, s, segmentIndex, run).Ok?
    ensures Native(defect, s, s.header.baseSnapshot, segmentIndex, run, fuel).Ok?
  {
    hide Unbisected, NativeWindow, Steppable, Segment.Valid, Diagnose;
  }

  lemma NativeReportOk(defect: Defect, s: Segment, segmentIndex: u32, run: nat, n: nat, expected: Hash32,
                       opts: BisectOptions)
    requires s.Valid() && Steppable(s) && n < opts.maxRuns
    requires Native(defect, s, s.header.baseSnapshot, segmentIndex, run, opts.maxRuns - n - 1).Ok?
    ensures var r := NativeReport(defect, s, s.header.baseSnapshot, segmentIndex, run, n, expected, opts);
            r.Ok? && r.value.classification == RecordedDivergence
  {
    hide Unbisected, NativeWindow, Steppable, Segment.Valid, Diagnose, Native, NativeLeft;
  }

  /** Which of its ends the driver reaches, given the outcomes of phase one. */
  lemma ReportedIs(defect: Defect, s: Segment, segmentIndex: u32, run: nat, expected: Hash32, opts: BisectOptions,
                   os: seq<Outcome>)
    requires s.Valid() && Steppable(s)
    requires Outcomes(defect, s, s.header.baseSnapshot, segmentIndex, run, FlakeRuns(opts)) == Ok(os)
    ensures !AllSame(os) ==> |os| > 0
    ensures Reported(defect, s, s.header.baseSnapshot, segmentIndex, run, expected, opts) ==
            if !AllSame(os) then Ok(FlakeReport(s, os, expected, opts))
            else if s.header.EpochHashes() && |os| < opts.maxRuns then
              NativeReport(defect, s, s.header.baseSnapshot, segmentIndex, run + |os|, |os|, expected, opts)
            else Ok(FallbackReport(defect, s, s.header.baseSnapshot, run + |os|, os, expected, opts))
  {
    hide NativeReport, FallbackReport, Outcomes, Steppable, Segment.Valid;
  }

  lemma ReportClass(defect: Defect, s: Segment, run: nat, os: seq<Outcome>, expected: Hash32, opts: BisectOptions)
    requires s.Valid() && |os| <= opts.maxRuns
    ensures |os| > 0 ==> FlakeReport(s, os, expected, opts).classification == ReplayNondeterministic
    ensures |os| > 0 ==> FlakeReport(s, os, expected, opts).offset == IcountWindow(0, s.header.endIcount)
    ensures var f := FallbackReport(defect, s, s.header.baseSnapshot, run, os, expected, opts);
            f.classification == RecordedDivergence
            && f.offset == (if s.header.endIcount == 0 then ExactIcount(0) else IcountWindow(0, s.header.endIcount))
            && f.diagnostics == None
  {
    hide EndProbe, FirstDiverged, Segment.Valid;
  }

  /** Phase one makes the first run and the retries, while the budget lasts. */
  lemma FlakeRunsAre(opts: BisectOptions)
    ensures opts.skipPhase1 ==> FlakeRuns(opts) == 0
    ensures !opts.skipPhase1 && opts.flakeRetries + 1 <= opts.maxRuns ==> FlakeRuns(opts) == opts.flakeRetries + 1
    ensures !opts.skipPhase1 && opts.maxRuns <= opts.flakeRetries + 1 ==> FlakeRuns(opts) == opts.maxRuns
  {
  }

  /** Bisection always produces a report, whatever the budget and the options; it calls
      the replay nondeterministic if and only if two phase-one outcomes differ, and then
      its window is the whole segment. */
  lemma BisectTotal(defect: Defect, s: Segment, segmentIndex: u32, run: nat, expected: Hash32, opts: BisectOptions)
    requires Runnable(s)
    ensures s.Valid() && Steppable(s)
    ensures var r := Reported(defect, s, s.header.baseSnapshot, segmentIndex, run, expected, opts);
            && r.Ok?
            && (r.value.classification == ReplayNondeterministic <==>
                  exists i: nat, j: nat :: i < j <= opts.flakeRetries && j < opts.maxRuns && !opts.skipPhase1
                    && NthRun(defect, s, segmentIndex, run, i) != NthRun(defect, s, segmentIndex, run, j))
            && (r.value.classification == ReplayNondeterministic ==>
                  r.value.offset == IcountWindow(0, s.header.endIcount))
  {
    hide *;
    RunnableFacts(s);
    FlakeRunsAre(opts);
    var n, base := FlakeRuns(opts), s.header.baseSnapshot;
    OutcomesAre(defect, s, segmentIndex, run, n);
    var os := Outcomes(defect, s, base, segmentIndex, run, n).value;
    ReportedIs(defect, s, segmentIndex, run, expected, opts, os);
    RunTotal(defect, s, segmentIndex, run + n);
    ReportClass(defect, s, run + n, os, expected, opts);
    if n < opts.maxRuns {
      BaseMatches(defect, s, segmentIndex, run + n, opts.maxRuns - n - 1);
      NativeReportOk(defect, s, segmentIndex, run + n, n, expected, opts);
    }
    SameIff(defect, s, segmentIndex, run, os);
  }

  lemma {:induction false} SameAsFirst(os: seq<Outcome>, i: nat)
    requires AllSame(os) && i < |os|
    ensures os[i] == os[0]
  {
    if i > 0 {
      SameAsFirst(os, i - 1);
    }
  }

  lemma SameIff(defect: Defect, s: Segment, segmentIndex: u32, run: nat, os: seq<Outcome>)
    requires s.Valid() && AreRuns(defect, s, segmentIndex, run, os)
    ensures !AllSame(os) <==>
              exists i: nat, j: nat :: i < j < |os|
                && NthRun(defect, s, segmentIndex, run, i) != NthRun(defect, s, segmentIndex, run, j)
  {
    hide NthRun, Segment.Valid;
    if AllSame(os) {
      forall i: nat, j: nat | i < j < |os|
        ensures NthRun(defect, s, segmentIndex, run, i) == NthRun(defect, s, segmentIndex, run, j)
      {
        SameAsFirst(os, i);
        SameAsFirst(os, j);
      }
    } else {
      var i :| 0 <= i < |os| - 1 && os[i] != os[i + 1];
      assert NthRun(defect, s, segmentIndex, run, i) != NthRun(defect, s, segmentIndex, run, i + 1);
    }
  }

  // ---- replay against replay ----

  /** Two runs whose replayed side lives through the same timeline have the same outcome. */
  lemma SameFoldSameRun(defect: Defect, s: Segment, segmentIndex: u32, i: nat, j: nat)
    requires s.Valid() && FoldFor(defect, Replayed(i), segmentIndex) == FoldFor(defect, Replayed(j), segmentIndex)
    ensures Unbisected(defect, s, segmentIndex, i) == Unbisected(defect, s, segmentIndex, j)
  {
    hide WithFold, ReplayFrom, FaultFrom, StateAt, ChainValue, CanonActs, FoldFor, Segment.Valid;
  }

  /** Is this defect about the replayed side of this segment? */
  predicate Flaky(defect: Defect, segmentIndex: u32) {
    defect.ReplayNondet? && defect.segment == segmentIndex
  }

  /** A replay without a flake on this segment is never called nondeterministic, on any
      mock, after any runs: not without a defect, not with a recorded skew. */
  lemma NeverFalselyFlaky(defect: Defect, s: Segment, segmentIndex: u32, run: nat, expected: Hash32,
                          opts: BisectOptions)
    requires Runnable(s) && !Flaky(defect, segmentIndex)
    ensures s.Valid() && Steppable(s)
    ensures var r := Reported(defect, s, s.header.baseSnapshot, segmentIndex, run, expected, opts);
            r.Ok? && r.value.classification == RecordedDivergence
  {
    hide Runnable, Reported, Unbisected, Steppable, Segment.Valid, FlakeRuns;
    FlakeRunsAre(opts);
    BisectTotal(defect, s, segmentIndex, run, expected, opts);
    forall i: nat, j: nat | i < j < FlakeRuns(opts)
      ensures NthRun(defect, s, segmentIndex, run, i) == NthRun(defect, s, segmentIndex, run, j)
    {
      SameFoldSameRun(defect, s, segmentIndex, run + i, run + j);
    }
  }

  function FlakeAct(at: u64, v: u64): Act { Act(at, FLAKE_TAG + LE64(v)) }

  lemma FlakeValueIs(run: nat, flakePeriod: u32)
    ensures FlakeValue(run, flakePeriod) == run / Period(flakePeriod) % TWO64
  {
  }

  /** The end state of a segment whose flake folds in `v`. */
  function FlakyEnd(s: Segment, at: u64, v: u64): Guest
    requires s.Valid()
  {
    StateAt(OriginOf(s.header), Inject(CanonActs(Records(s)), FlakeAct(at, v)), s.header.endIcount)
  }

  lemma WordByBytes(v: u64)
    ensures LE64(v) == [v % 256] + LE(v / 256, 7)
  {
  }

  /** Two flake values that differ in their lowest byte alone leave different registers. */
  lemma FlakeFoldsDiffer(r: u64, v: u64, w: u64)
    requires v != w && v / 256 == w / 256
    ensures FoldBytes(r, FLAKE_TAG + LE64(v)) != FoldBytes(r, FLAKE_TAG + LE64(w))
  {
    hide FoldBytes, FoldByte, LE, LE64;
    var m, rest := FoldBytes(r, FLAKE_TAG), LE(v / 256, 7);
    var x, y := v % 256, w % 256;
    FoldBytesConcat(r, FLAKE_TAG, LE64(v));
    FoldBytesConcat(r, FLAKE_TAG, LE64(w));
    WordByBytes(v);
    WordByBytes(w);
    FoldBytesConcat(m, [x], rest);
    FoldBytesConcat(m, [y], rest);
    FoldSingle(m, x);
    FoldSingle(m, y);
    if FoldByte(m, x) == FoldByte(m, y) {
      FoldByteInjectiveInByte(m, x, y);
    }
    FoldBytesInjective(FoldByte(m, x), FoldByte(m, y), rest);
  }

  lemma FoldSingle(r: u64, b: byte)
    ensures FoldBytes(r, [b]) == FoldByte(r, b)
  {
    assert [b][1..] == [];
  }

  lemma FlakeTimeline(s: Segment, segmentIndex: u32, at: u64, flakePeriod: u32, run: nat)
    requires s.Valid()
    ensures FoldFor(ReplayNondet(segmentIndex, at, flakePeriod), Replayed(run), segmentIndex)
            == Some(FlakeAct(at, FlakeValue(run, flakePeriod)))
    ensures ReplayedEnd(ReplayNondet(segmentIndex, at, flakePeriod), s, run, segmentIndex)
            == ChainValue(FlakyEnd(s, at, FlakeValue(run, flakePeriod)))
  {
    hide StateAt, ChainValue, CanonActs, Inject, Segment.Valid, LE64;
  }

  lemma FlakyEndRegister(s: Segment, at: u64, v: u64)
    requires s.Valid()
    ensures FlakyEnd(s, at, v).fnv == RegAt(Inject(CanonActs(Records(s)), FlakeAct(at, v)), s.header.endIcount)
    ensures FlakeAct(at, v).at == at && FlakeAct(at, v).bytes == FLAKE_TAG + LE64(v)
  {
    hide ChainAt, RegAt, Inject, CanonActs, LE64;
  }

  lemma CanonSorted(s: Segment)
    requires s.Valid() && Steppable(s)
    ensures Sorted(CanonActs(Records(s)))
  {
    CanonActsSorted(Records(s));
  }

  lemma LowestByte(zero: u64, one: u64)
    requires zero == 0 && one == 1
    ensures zero != one && zero / 256 == one / 256
  {
  }

  /** The first two flake values end in different state hashes. */
  lemma FlakyEndsDiffer(s: Segment, at: u64, zero: u64, one: u64)
    requires s.Valid() && Steppable(s) && at <= s.header.endIcount && zero == 0 && one == 1
    requires Apart(StateInput(FlakyEnd(s, at, zero)), StateInput(FlakyEnd(s, at, one)))
    ensures ChainValue(FlakyEnd(s, at, zero)) != ChainValue(FlakyEnd(s, at, one))
  {
    hide *;
    var acts := CanonActs(Records(s));
    CanonSorted(s);
    FlakyEndRegister(s, at, zero);
    FlakyEndRegister(s, at, one);
    RivalRegistersAgreeIff(acts, FlakeAct(at, zero), FlakeAct(at, one), s.header.endIcount);
    LowestByte(zero, one);
    FlakeFoldsDiffer(RegAt(acts, at - 1), zero, one);
    StatesApart(FlakyEnd(s, at, zero), FlakyEnd(s, at, one));
  }

  lemma Quotients(run: nat, p: nat)
    requires p >= 1
    ensures run < p ==> run / p % TWO64 == 0
    ensures run == p ==> run / p % TWO64 == 1
  {
    if run < p {
      QuotientIs(run, p, 0);
    } else if run == p {
      QuotientIs(run, p, 1);
    }
  }

  lemma PeriodIs(flakePeriod: u32)
    ensures Period(flakePeriod) == if flakePeriod > 1 then flakePeriod else 1
  {
  }

  /** On a fresh mock the flake is caught if and only if phase one runs, makes at least as
      many retries as the flake's period, one at least, and has runs for them; the report
      then spans the whole segment, the flake included. */
  lemma FlakeDetection(s: Segment, segmentIndex: u32, at: u64, flakePeriod: u32, expected: Hash32, opts: BisectOptions)
    requires Runnable(s) && at <= s.header.endIcount
    requires Apart(StateInput(FlakyEnd(s, at, 0)), StateInput(FlakyEnd(s, at, 1)))
    ensures s.Valid() && Steppable(s)
    ensures var r :=
      Reported(ReplayNondet(segmentIndex, at, flakePeriod), s, s.header.baseSnapshot, segmentIndex, 0, expected, opts);
            && r.Ok?
            && (r.value.classification == ReplayNondeterministic <==>
                  && !opts.skipPhase1
                  && 1 <= opts.flakeRetries && flakePeriod <= opts.flakeRetries
                  && 1 < opts.maxRuns && flakePeriod < opts.maxRuns)
            && (r.value.classification == ReplayNondeterministic ==> r.value.offset.Holds(at))
  {
    hide *;
    RunnableFacts(s);
    FlakeRunsAre(opts);
    PeriodIs(flakePeriod);
    var d, p := ReplayNondet(segmentIndex, at, flakePeriod), Period(flakePeriod);
    BisectTotal(d, s, segmentIndex, 0, expected, opts);
    if p < FlakeRuns(opts) {
      FlakeSeen(s, segmentIndex, at, flakePeriod);
    } else {
      forall i: nat, j: nat | i < j < FlakeRuns(opts)
        ensures NthRun(d, s, segmentIndex, 0, i) == NthRun(d, s, segmentIndex, 0, j)
      {
        FlakeUnseen(s, segmentIndex, at, flakePeriod, i, j);
      }
    }
    WholeHolds(at, s.header.endIcount);
  }

  lemma WholeHolds(at: u64, end: u64)
    requires at <= end
    ensures IcountWindow(0, end).Holds(at)
  {
  }

  lemma FlakeSeen(s: Segment, segmentIndex: u32, at: u64, flakePeriod: u32)
    requires Runnable(s) && at <= s.header.endIcount
    requires Apart(StateInput(FlakyEnd(s, at, 0)), StateInput(FlakyEnd(s, at, 1)))
    ensures s.Valid()
    ensures var d, p := ReplayNondet(segmentIndex, at, flakePeriod), Period(flakePeriod);
            NthRun(d, s, segmentIndex, 0, p - 1) != NthRun(d, s, segmentIndex, 0, p)
  {
    hide *;
    RunnableFacts(s);
    var d, p := ReplayNondet(segmentIndex, at, flakePeriod), Period(flakePeriod);
    Quotients(p - 1, p);
    Quotients(p, p);
    FlakeValueIs(p - 1, flakePeriod);
    FlakeValueIs(p, flakePeriod);
    RunTotal(d, s, segmentIndex, p - 1);
    RunTotal(d, s, segmentIndex, p);
    FlakeTimeline(s, segmentIndex, at, flakePeriod, p - 1);
    FlakeTimeline(s, segmentIndex, at, flakePeriod, p);
    FlakyEndsDiffer(s, at, 0, 1);
    NthRunIs(d, s, segmentIndex, 0, p - 1);
    NthRunIs(d, s, segmentIndex, 0, p);
  }

  lemma NthRunIs(defect: Defect, s: Segment, segmentIndex: u32, run: nat, i: nat)
    requires s.Valid()
    ensures NthRun(defect, s, segmentIndex, run, i) == Unbisected(defect, s, segmentIndex, run + i)
  {
    hide Unbisected;
  }

  lemma FlakeUnseen(s: Segment, segmentIndex: u32, at: u64, flakePeriod: u32, i: nat, j: nat)
    requires s.Valid() && i < j < Period(flakePeriod)
    ensures var d := ReplayNondet(segmentIndex, at, flakePeriod);
            NthRun(d, s, segmentIndex, 0, i) == NthRun(d, s, segmentIndex, 0, j)
  {
    hide *;
    var d, p := ReplayNondet(segmentIndex, at, flakePeriod), Period(flakePeriod);
    Quotients(i, p);
    Quotients(j, p);
    FlakeValueIs(i, flakePeriod);
    FlakeValueIs(j, flakePeriod);
    FlakeTimeline(s, segmentIndex, at, flakePeriod, i);
    FlakeTimeline(s, segmentIndex, at, flakePeriod, j);
    SameFoldSameRun(d, s, segmentIndex, i, j);
    NthRunIs(d, s, segmentIndex, 0, i);
    NthRunIs(d, s, segmentIndex, 0, j);
  }

  // ---- replay against a skewed recording ----

  lemma WrittenRunnable(spec: Spec)
    requires spec.Valid()
    ensures Runnable(Written(spec))
    ensures Written(spec).header.EpochHashes() <==> !spec.omitEpochHashes
    ensures Written(spec).header.baseSnapshot == spec.baseSnapshot && Written(spec).header.endIcount == spec.endIcount
  {
    hide *;
    WrittenHeaderIs(spec);
    FlagBit(if spec.omitEpochHashes then 3 else 7, Written(spec).header);
    WrittenIsSteppable(spec);
    RunnableFrom(Written(spec));
  }

  lemma WrittenHeaderIs(spec: Spec)
    requires spec.Valid()
    ensures Written(spec).header.flags == if spec.omitEpochHashes then 3 else 7
    ensures Written(spec).header.baseSnapshot == spec.baseSnapshot && Written(spec).header.endIcount == spec.endIcount
  {
    hide Spec.Valid, EndHash, WrittenBody, Kept, Spec.RecordCount, EncodeHeader;
  }

  lemma FlagBit(flags: nat, h: Header)
    requires h.flags == flags && (flags == 3 || flags == 7)
    ensures h.EpochHashes() <==> flags == 7
  {
  }

  lemma RunnableFrom(s: Segment)
    requires s.Valid() && Steppable(s) && !s.Walk().torn && Appliable(Records(s))
    ensures Runnable(s)
  {
  }

  lemma NativeOfDiverged(defect: Defect, s: Segment, segmentIndex: u32, run: nat, n: nat, expected: Hash32,
                         opts: BisectOptions)
    requires s.Valid() && Steppable(s) && n < opts.maxRuns
    requires Unbisected(defect, s, segmentIndex, run).Ok? && Unbisected(defect, s, segmentIndex, run).value.Diverged?
    ensures var w := NativeWindow(defect, s, segmentIndex, run, opts.maxRuns - n - 1);
            var r := NativeReport(defect, s, s.header.baseSnapshot, segmentIndex, run, n, expected, opts);
            && r.Ok? && w.lo <= w.hi <= s.header.endIcount
            && r.value.diagnostics == Some(Diagnose(defect, s, w.hi, segmentIndex, run))
            && r.value.offset == (if w.lo == w.hi then ExactIcount(w.lo) else IcountWindow(w.lo, w.hi))
  {
    hide Unbisected, NativeWindow, Steppable, Segment.Valid, Diagnose;
    MockHypervisor.NativeWindowBounded(defect, s, segmentIndex, run, opts.maxRuns - n - 1);
  }

  /** Does native bisection run, and with how many probes left? */
  predicate Bisects(spec: Spec, opts: BisectOptions) {
    !spec.omitEpochHashes && (if opts.skipPhase1 then 0 else opts.flakeRetries + 1) < opts.maxRuns
  }

  /** The report shows two different registers. */
  predicate Diagnosed(r: Report) {
    r.diagnostics.Some? && r.diagnostics.value.expected != r.diagnostics.value.actual
  }

  lemma DiagnosedIs(r: Report)
    ensures Diagnosed(r) <==> r.diagnostics.Some? && r.diagnostics.value.expected != r.diagnostics.value.actual
  {
  }

  /** The report of a stable replay that parts from the recording at `at`. With no native
      bisection it is the whole segment; with it, the window the search left. */
  lemma PartedReport(defect: Defect, spec: Spec, replayed: seq<Act>, at: u64, segmentIndex: u32, run: nat,
                     expected: Hash32, opts: BisectOptions)
    requires Parted(spec, replayed, at) && Contends(defect, spec, segmentIndex, run + FlakeRuns(opts), replayed)
    ensures Written(spec).Valid() && Steppable(Written(spec)) && GoodEpochs(spec, at) <= spec.Epochs()
    ensures var r := Reported(defect, Written(spec), spec.baseSnapshot, segmentIndex, run, expected, opts);
            r.Ok? && (r.value.classification == RecordedDivergence ==>
              if Bisects(spec, opts) then
                var w := NativeWindow(defect, Written(spec), segmentIndex, run + FlakeRuns(opts),
                                      opts.maxRuns - FlakeRuns(opts) - 1);
                Localized(spec.Epochs(), GoodEpochs(spec, at), spec.endIcount, opts.maxRuns - FlakeRuns(opts) - 1, w,
                          at)
                && w.lo <= w.hi <= spec.endIcount
                && r.value.diagnostics
                   == Some(Diagnostics(w.hi, RegAt(RecordedActs(spec), w.hi), RegAt(replayed, w.hi)))
                && r.value.offset == (if w.lo == w.hi then ExactIcount(w.lo) else IcountWindow(w.lo, w.hi))
              else
                && r.value.offset == (if spec.endIcount == 0 then ExactIcount(0) else IcountWindow(0, spec.endIcount))
                && r.value.diagnostics == None)
  {
    hide *;
    PartedFacts(spec, replayed, at);
    WrittenRunnable(spec);
    var s, n := Written(spec), FlakeRuns(opts);
    RunnableFacts(s);
    OutcomesAre(defect, s, segmentIndex, run, n);
    var os := Outcomes(defect, s, spec.baseSnapshot, segmentIndex, run, n).value;
    ReportedIs(defect, s, segmentIndex, run, expected, opts, os);
    ReportClass(defect, s, run + n, os, expected, opts);
    BisectsIs(spec, opts);
    PartedCaught(defect, spec, segmentIndex, run + n, replayed, at);
    if Bisects(spec, opts) {
      PartedWindow(defect, spec, segmentIndex, run + n, replayed, at, opts.maxRuns - n - 1);
      NativeOfDiverged(defect, s, segmentIndex, run + n, n, expected, opts);
      var w := NativeWindow(defect, s, segmentIndex, run + n, opts.maxRuns - n - 1);
      DiagnosedAs(defect, spec, segmentIndex, run + n, replayed, w.hi);
    } else {
      PartedWindow(defect, spec, segmentIndex, run + n, replayed, at, 0);
    }
  }

  lemma SkewIsSteady(segmentIndex: u32, at: u64)
    ensures !Flaky(RecordedSkew(segmentIndex, at), segmentIndex)
  {
  }

  lemma BisectsIs(spec: Spec, opts: BisectOptions)
    ensures Bisects(spec, opts) <==> !spec.omitEpochHashes && FlakeRuns(opts) < opts.maxRuns
  {
  }

  lemma BisectsWhen(spec: Spec, opts: BisectOptions)
    ensures Bisects(spec, opts) ==> (if opts.skipPhase1 then 0 else opts.flakeRetries + 1) < opts.maxRuns
  {
  }

  lemma OffsetOfWindow(n: nat, f: nat, end: u64, fuel: nat, w: Window, at: u64, offset: Offset)
    requires f <= n && Localized(n, f, end, fuel, w, at) && w.lo <= w.hi <= end
    requires offset == (if w.lo == w.hi then ExactIcount(w.lo) else IcountWindow(w.lo, w.hi))
    ensures offset.ExactIcount? ==> offset.at == at
    ensures at <= offset.Last() == w.hi
    ensures offset.Holds(at) <==> KeepsSkew(n, f, fuel)
    ensures fuel >= FullSearch(n, end) ==> offset == ExactIcount(at)
  {
    hide KeepsSkew, FullSearch;
  }

  /** The offset of such a report, for every budget and option: an exact icount is where
      they part; the offset never ends before that, and holds it if and only if native
      bisection did not run, or its search over epoch records kept it; 16 + log2(n) runs
      after the first phase find it; and the report has diagnostics, of two different
      registers, exactly when native bisection ran. */
  lemma PartedOffset(defect: Defect, spec: Spec, replayed: seq<Act>, at: u64, segmentIndex: u32, run: nat,
                     expected: Hash32, opts: BisectOptions, k: nat)
    requires Parted(spec, replayed, at) && Contends(defect, spec, segmentIndex, run + FlakeRuns(opts), replayed)
    ensures Written(spec).Valid() && Steppable(Written(spec)) && GoodEpochs(spec, at) <= spec.Epochs()
    ensures var r := Reported(defect, Written(spec), spec.baseSnapshot, segmentIndex, run, expected, opts);
            r.Ok? && (r.value.classification == RecordedDivergence ==>
              && (r.value.offset.ExactIcount? ==> r.value.offset.at == at) && at <= r.value.offset.Last()
              && (if Bisects(spec, opts) then Diagnosed(r.value) else r.value.diagnostics == None)
              && (r.value.offset.Holds(at) <==>
                    !Bisects(spec, opts)
                    || KeepsSkew(spec.Epochs(), GoodEpochs(spec, at), opts.maxRuns - FlakeRuns(opts) - 1))
              && (Pow2(k) <= spec.Epochs() < Pow2(k + 1) && opts.maxRuns >= FlakeRuns(opts) + 16 + k ==>
                    r.value.offset == ExactIcount(at)))
  {
    hide *;
    PartedReport(defect, spec, replayed, at, segmentIndex, run, expected, opts);
    PartedFacts(spec, replayed, at);
    BisectsIs(spec, opts);
    var n, fuel := spec.Epochs(), opts.maxRuns - FlakeRuns(opts) - 1;
    if Pow2(k) <= n < Pow2(k + 1) {
      RunsNeeded(n, spec.endIcount, k);
      SomeEpochs(spec, k);
    }
    var report := Reported(defect, Written(spec), spec.baseSnapshot, segmentIndex, run, expected, opts).value;
    if report.classification == RecordedDivergence {
      if Bisects(spec, opts) {
        var w := NativeWindow(defect, Written(spec), segmentIndex, run + FlakeRuns(opts), fuel);
        OffsetOfWindow(n, GoodEpochs(spec, at), spec.endIcount, fuel, w, at, report.offset);
        PartedRegister(spec, replayed, at, w.hi);
        DiagnosedIs(report);
      } else {
        WholeOffset(at, spec.endIcount, report.offset);
      }
    }
  }

  /** No false exact answer and no lost skew but by the known gap, for every budget, every
      number of retries and either first phase: an exact icount is the skew's; the offset
      never ends before the skew, and holds it if and only if native bisection did not
      run, or its search over epoch records kept it; 16 + log2(n) runs after the first
      phase find it; and a bisected report shows two different registers. */
  lemma SkewedReport(spec: Spec, at: u64, segmentIndex: u32, run: nat, expected: Hash32, opts: BisectOptions, k: nat)
    requires SkewedAt(spec, at)
    ensures Written(spec).Valid() && Steppable(Written(spec)) && GoodEpochs(spec, at) <= spec.Epochs()
    ensures var r := Reported(RecordedSkew(segmentIndex, at), Written(spec), spec.baseSnapshot, segmentIndex, run,
                              expected, opts);
            var n := if opts.skipPhase1 then 0 else opts.flakeRetries + 1;
            && r.Ok? && r.value.classification == RecordedDivergence
            && (r.value.offset.ExactIcount? ==> r.value.offset.at == at) && at <= r.value.offset.Last()
            && (if Bisects(spec, opts) then Diagnosed(r.value) else r.value.diagnostics == None)
            && (r.value.offset.Holds(at) <==>
                  !Bisects(spec, opts) || KeepsSkew(spec.Epochs(), GoodEpochs(spec, at), opts.maxRuns - n - 1))
            && (Pow2(k) <= spec.Epochs() < Pow2(k + 1) && opts.maxRuns >= n + 16 + k ==>
                  r.value.offset == ExactIcount(at))
  {
    hide *;
    FlakeRunsAre(opts);
    BisectsIs(spec, opts);
    BisectsWhen(spec, opts);
    var d := RecordedSkew(segmentIndex, at);
    SkewParts(spec, at);
    SkewContends(spec, at, segmentIndex, run + FlakeRuns(opts));
    PartedOffset(d, spec, EventActs(spec.events), at, segmentIndex, run, expected, opts, k);
    PartedFacts(spec, EventActs(spec.events), at);
    WrittenRunnable(spec);
    SkewIsSteady(segmentIndex, at);
    NeverFalselyFlaky(d, Written(spec), segmentIndex, run, expected, opts);
  }

  lemma SomeEpochs(spec: Spec, k: nat)
    requires Pow2(k) <= spec.Epochs()
    ensures !spec.omitEpochHashes
  {
  }

  lemma WholeOffset(at: u64, end: u64, offset: Offset)
    requires at <= end && offset == (if end == 0 then ExactIcount(0) else IcountWindow(0, end))
    ensures offset.Holds(at) && (offset.ExactIcount? ==> offset.at == at) && at <= offset.Last()
  {
  }
}
