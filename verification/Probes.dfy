/** What an exact-icount probe sees of a replay: it simulates segment 0, whichever
    segment it probes. */
module Probes {
  import opened Wrappers
  import opened Bytes
  import opened Guest
  import opened Divergence
  import opened Validator
  import opened Hv
  import opened Replay
  import opened Mock
  import opened WrittenReplay
  import opened Bisect
  import opened Reports
  import opened Flakes
  import MockHypervisor

  // ---- which fold the probe gets wrong ----

  /** The fold that only one of a replay of the segment and its probe carries. */
  function StrayFold(defect: Defect, segmentIndex: u32, run: nat): Option<Act> {
    var probed, replayed := FoldFor(defect, Replayed(run), 0), FoldFor(defect, Replayed(run), segmentIndex);
    if probed == replayed then None else if probed.Some? then probed else replayed
  }

  /** A fold is on both sides, on neither, or on exactly one. */
  lemma OneSided(defect: Defect, segmentIndex: u32, run: nat)
    ensures var probed, replayed := FoldFor(defect, Replayed(run), 0), FoldFor(defect, Replayed(run), segmentIndex);
            match StrayFold(defect, segmentIndex, run)
            case None => probed == replayed
            case Some(d) => (probed == Some(d) && replayed == None) || (probed == None && replayed == Some(d))
  {
    hide FlakeValue, LE64;
  }

  /** The state hash that replaying the segment has at `stop`. */
  function ReplayedAt(defect: Defect, s: Segment, segmentIndex: u32, stop: u64, run: nat): Hash32
    requires s.Valid()
  {
    ChainValue(StateAt(OriginOf(s.header), Timeline(defect, s, Replayed(run), segmentIndex), stop))
  }

  lemma ReplayedAtIs(defect: Defect, s: Segment, segmentIndex: u32, stop: u64, run: nat)
    requires s.Valid()
    ensures ReplayedAt(defect, s, segmentIndex, stop, run)
            == ChainValue(StateAt(OriginOf(s.header),
                                  WithFold(CanonActs(Records(s)), FoldFor(defect, Replayed(run), segmentIndex)), stop))
  {
    hide ChainValue, StateAt, WithFold, FoldFor, CanonActs, Records, Segment.Valid;
  }

  /** A probe returns what replaying segment 0 would have. */
  lemma ProbeReplaysZero(defect: Defect, s: Segment, stop: u64, run: nat)
    requires Runnable(s) && stop <= s.header.endIcount
    ensures s.Valid() && MockHypervisor.ProbeResult(defect, s, stop, run) == Ok(ReplayedAt(defect, s, 0, stop, run))
  {
    hide *;
    RunnableFacts(s);
    AppliableHasNoFault(Records(s), 0, stop);
    MockHypervisor.StepBounds(s, stop);
    SimResultIs(defect, s, stop, Replayed(run), 0);
    MockHypervisor.ProbeIs(defect, s, stop, run);
    ReplayedAtHash(defect, s, 0, stop, run);
  }

  lemma ReplayedAtHash(defect: Defect, s: Segment, segmentIndex: u32, stop: u64, run: nat)
    requires s.Valid()
    ensures ReplayedAt(defect, s, segmentIndex, stop, run)
            == ChainValue(StateAt(OriginOf(s.header), Timeline(defect, s, Replayed(run), segmentIndex), stop))
  {
    hide ChainValue, StateAt, Timeline, Segment.Valid;
  }

  /** Is the probe right? It has the replay's hash when no fold strays, when the stop is
      before the stray fold, or when that fold leaves the register it meets alone. */
  predicate ProbeRight(defect: Defect, s: Segment, segmentIndex: u32, stop: u64, run: nat)
    requires s.Valid()
  {
    match StrayFold(defect, segmentIndex, run)
    case None => true
    case Some(d) => stop < d.at || !Bites(CanonActs(Records(s)), d)
  }

  /** The hash confuses no state with the stray fold with the same one without it. */
  ghost predicate StrayApart(defect: Defect, s: Segment, segmentIndex: u32, stop: u64, run: nat)
    requires s.Valid()
  {
    match StrayFold(defect, segmentIndex, run)
    case None => true
    case Some(d) => NoCollision(OriginOf(s.header), CanonActs(Records(s)), Inject(CanonActs(Records(s)), d), stop)
  }

  lemma FoldsOf(acts: seq<Act>, d: Act)
    ensures WithFold(acts, Some(d)) == Inject(acts, d)
  {
    hide Inject;
  }

  /** Exactly when a probe has the state hash of the replay it stands in for, for every
      defect, segment, stop and run. */
  lemma ProbeAgreesIff(defect: Defect, s: Segment, segmentIndex: u32, stop: u64, run: nat)
    requires Runnable(s) && stop <= s.header.endIcount
    requires s.Valid() && StrayApart(defect, s, segmentIndex, stop, run)
    ensures MockHypervisor.ProbeResult(defect, s, stop, run) == Ok(ReplayedAt(defect, s, segmentIndex, stop, run))
            <==> ProbeRight(defect, s, segmentIndex, stop, run)
  {
    hide Runnable, FoldFor, StateAt, ChainValue, Bites, NoCollision, Inject, Sorted, CanonActs, Segment.Valid,
         Steppable, WithFold, ReplayedAt, MockHypervisor.ProbeResult, StrayFold, Records;
    var o, acts := OriginOf(s.header), CanonActs(Records(s));
    RunnableFacts(s);
    CanonSorted(s);
    OneSided(defect, segmentIndex, run);
    ProbeReplaysZero(defect, s, stop, run);
    ReplayedAtIs(defect, s, 0, stop, run);
    ReplayedAtIs(defect, s, segmentIndex, stop, run);
    match StrayFold(defect, segmentIndex, run) {
      case None =>
      case Some(d) =>
        WithoutFold(acts);
        FoldsOf(acts, d);
        StatesAgreeIff(o, acts, d, stop, stop);
    }
  }

  // ---- the two ways it goes wrong ----

  lemma StrayOnProbed(segment: u32, at: u64, flakePeriod: u32, run: nat)
    requires segment != 0
    ensures StrayFold(ReplayNondet(segment, at, flakePeriod), segment, run)
            == Some(FlakeAct(at, FlakeValue(run, flakePeriod)))
  {
    hide LE64;
  }

  lemma StrayOnZero(segmentIndex: u32, at: u64, flakePeriod: u32, run: nat)
    requires segmentIndex != 0
    ensures StrayFold(ReplayNondet(0, at, flakePeriod), segmentIndex, run)
            == Some(FlakeAct(at, FlakeValue(run, flakePeriod)))
  {
    hide LE64;
  }

  lemma StrayIs(defect: Defect, s: Segment, segmentIndex: u32, stop: u64, run: nat, d: Act)
    requires s.Valid() && StrayFold(defect, segmentIndex, run) == Some(d)
    ensures ProbeRight(defect, s, segmentIndex, stop, run) <==> stop < d.at || !Bites(CanonActs(Records(s)), d)
    ensures StrayApart(defect, s, segmentIndex, stop, run)
            <==> NoCollision(OriginOf(s.header), CanonActs(Records(s)), Inject(CanonActs(Records(s)), d), stop)
  {
    hide Bites, NoCollision, CanonActs, Records, Inject, StrayFold, Segment.Valid;
  }

  /** A flake on a segment other than segment 0 is left out of the probes of that segment:
      the probe is right exactly before the flake, or if the flake changes nothing. */
  lemma ProbeMissesFlake(segment: u32, at: u64, flakePeriod: u32, s: Segment, stop: u64, run: nat)
    requires Runnable(s) && segment != 0 && stop <= s.header.endIcount
    requires s.Valid()
    requires NoCollision(OriginOf(s.header), CanonActs(Records(s)),
                         Inject(CanonActs(Records(s)), FlakeAct(at, FlakeValue(run, flakePeriod))), stop)
    ensures MockHypervisor.ProbeResult(ReplayNondet(segment, at, flakePeriod), s, stop, run)
            == Ok(ReplayedAt(ReplayNondet(segment, at, flakePeriod), s, segment, stop, run))
            <==> stop < at || !Bites(CanonActs(Records(s)), FlakeAct(at, FlakeValue(run, flakePeriod)))
  {
    hide *;
    var d, act := ReplayNondet(segment, at, flakePeriod), FlakeAct(at, FlakeValue(run, flakePeriod));
    FlakeActIs(at, FlakeValue(run, flakePeriod));
    StrayOnProbed(segment, at, flakePeriod, run);
    StrayIs(d, s, segment, stop, run, act);
    ProbeAgreesIff(d, s, segment, stop, run);
  }

  /** A flake on segment 0 is folded into the probes of every other segment: again the
      probe is right exactly before it, or if it changes nothing. */
  lemma ProbeBorrowsFlake(segmentIndex: u32, at: u64, flakePeriod: u32, s: Segment, stop: u64, run: nat)
    requires Runnable(s) && segmentIndex != 0 && stop <= s.header.endIcount
    requires s.Valid()
    requires NoCollision(OriginOf(s.header), CanonActs(Records(s)),
                         Inject(CanonActs(Records(s)), FlakeAct(at, FlakeValue(run, flakePeriod))), stop)
    ensures MockHypervisor.ProbeResult(ReplayNondet(0, at, flakePeriod), s, stop, run)
            == Ok(ReplayedAt(ReplayNondet(0, at, flakePeriod), s, segmentIndex, stop, run))
            <==> stop < at || !Bites(CanonActs(Records(s)), FlakeAct(at, FlakeValue(run, flakePeriod)))
  {
    hide *;
    var d, act := ReplayNondet(0, at, flakePeriod), FlakeAct(at, FlakeValue(run, flakePeriod));
    FlakeActIs(at, FlakeValue(run, flakePeriod));
    StrayOnZero(segmentIndex, at, flakePeriod, run);
    StrayIs(d, s, segmentIndex, stop, run, act);
    ProbeAgreesIff(d, s, segmentIndex, stop, run);
  }

  lemma FlakeActIs(at: u64, v: u64)
    ensures FlakeAct(at, v).at == at
  {
    hide LE64;
  }

  /** The failure itself: within as many runs of a fresh mock as the flake's period, one at
      least, the probe of a segment other than segment 0 is wrong at every stop from its flake on, whatever the
      segment holds. */
  lemma EarlyProbeWrong(segment: u32, at: u64, flakePeriod: u32, s: Segment, stop: u64, run: nat)
    requires Runnable(s) && segment != 0 && at <= stop <= s.header.endIcount
    requires run < flakePeriod || run == 0
    requires s.Valid() && NoCollision(OriginOf(s.header), CanonActs(Records(s)),
                                      Inject(CanonActs(Records(s)), FlakeAct(at, 0)), stop)
    ensures MockHypervisor.ProbeResult(ReplayNondet(segment, at, flakePeriod), s, stop, run)
            != Ok(ReplayedAt(ReplayNondet(segment, at, flakePeriod), s, segment, stop, run))
  {
    hide *;
    PeriodIs(flakePeriod);
    Quotients(run, Period(flakePeriod));
    FlakeValueIs(run, flakePeriod);
    EarlyFlakeBites(CanonActs(Records(s)), at, FlakeValue(run, flakePeriod));
    ProbeMissesFlake(segment, at, flakePeriod, s, stop, run);
  }

  // ---- the hash a bisection report carries ----

  lemma FlakeActual(s: Segment, os: seq<Outcome>, expected: Hash32, opts: BisectOptions)
    requires 0 < |os| <= opts.maxRuns
    ensures FlakeReport(s, os, expected, opts).actual == os[|os| - 1].endStateHash
  {
    hide Segment.Valid;
  }

  lemma NativeActual(defect: Defect, s: Segment, segmentIndex: u32, run: nat, n: nat, expected: Hash32,
                     opts: BisectOptions)
    requires s.Valid() && Steppable(s) && n < opts.maxRuns && Unbisected(defect, s, segmentIndex, run).Ok?
    ensures var r := NativeReport(defect, s, s.header.baseSnapshot, segmentIndex, run, n, expected, opts);
            r.Ok? && r.value.actual == Unbisected(defect, s, segmentIndex, run).value.endStateHash
  {
    hide Unbisected, NativeWindow, Steppable, Segment.Valid, Diagnose, NativeLeft;
  }

  lemma FallbackActual(defect: Defect, s: Segment, run: nat, os: seq<Outcome>, expected: Hash32, opts: BisectOptions)
    requires s.Valid() && |os| <= opts.maxRuns
    requires MockHypervisor.ProbeResult(defect, s, s.header.endIcount, run).Ok?
    ensures FallbackReport(defect, s, s.header.baseSnapshot, run, os, expected, opts).actual ==
            if |os| < opts.maxRuns then MockHypervisor.ProbeResult(defect, s, s.header.endIcount, run).value
            else if FirstDiverged(os).Some? then FirstDiverged(os).value.endStateHash
            else Zeros(32)
  {
    hide MockHypervisor.ProbeResult, FirstDiverged, Segment.Valid;
  }

  lemma FirstOfSame(os: seq<Outcome>)
    requires AllSame(os)
    ensures FirstDiverged(os) == if os != [] && os[0].Diverged? then Some(os[0]) else None
    decreases |os|
  {
    if os != [] {
      FirstOfSame(os[1..]);
    }
  }

  lemma OutcomeAt(defect: Defect, s: Segment, segmentIndex: u32, run: nat, os: seq<Outcome>, i: nat)
    requires Runnable(s)
    requires s.Valid() && AreRuns(defect, s, segmentIndex, run, os) && i < |os|
    ensures os[i].endStateHash == ReplayedEnd(defect, s, run + i, segmentIndex)
    ensures os[i].Diverged? <==> Disagrees(defect, s, run + i, segmentIndex)
  {
    hide Runnable, Unbisected, Disagrees, ReplayedEnd, Segment.Valid;
    assert NthRun(defect, s, segmentIndex, run, i) == Ok(os[i]);
    RunTotal(defect, s, segmentIndex, run + i);
  }

  lemma EndIs(defect: Defect, s: Segment, segmentIndex: u32, run: nat)
    requires s.Valid()
    ensures ReplayedAt(defect, s, segmentIndex, s.header.endIcount, run) == ReplayedEnd(defect, s, run, segmentIndex)
  {
    hide ChainValue, StateAt, Timeline, Segment.Valid;
  }

  /** Which hash a report gives as the replay's, for every defect, budget and option. An
      unstable first phase: that of its last run. Native bisection: that of its full run.
      The closing probe: that of the replay at the same run count if and only if the probe
      is right at the end. No run left for it: that of a diverging first phase, or zeroes. */
  lemma ReportActual(defect: Defect, s: Segment, segmentIndex: u32, run: nat, expected: Hash32, opts: BisectOptions)
    requires Runnable(s) && s.Valid()
    requires StrayApart(defect, s, segmentIndex, s.header.endIcount, run + FlakeRuns(opts))
    ensures Steppable(s)
    ensures var r := Reported(defect, s, s.header.baseSnapshot, segmentIndex, run, expected, opts);
            var n, end := FlakeRuns(opts), s.header.endIcount;
            r.Ok? &&
            if r.value.classification == ReplayNondeterministic then
              n > 0 && r.value.actual == ReplayedEnd(defect, s, run + n - 1, segmentIndex)
            else if n == opts.maxRuns then
              r.value.actual ==
              if n > 0 && Disagrees(defect, s, run, segmentIndex) then ReplayedEnd(defect, s, run, segmentIndex)
              else Zeros(32)
            else if s.header.EpochHashes() then
              r.value.actual == ReplayedEnd(defect, s, run + n, segmentIndex)
            else
              (r.value.actual == ReplayedEnd(defect, s, run + n, segmentIndex)
               <==> ProbeRight(defect, s, segmentIndex, end, run + n))
  {
    hide *;
    RunnableFacts(s);
    var n, base, end := FlakeRuns(opts), s.header.baseSnapshot, s.header.endIcount;
    OutcomesAre(defect, s, segmentIndex, run, n);
    var os := Outcomes(defect, s, base, segmentIndex, run, n).value;
    ReportedIs(defect, s, segmentIndex, run, expected, opts, os);
    ReportClass(defect, s, run + n, os, expected, opts);
    RunTotal(defect, s, segmentIndex, run + n);
    ProbeReplaysZero(defect, s, end, run + n);
    FallbackActual(defect, s, run + n, os, expected, opts);
    ProbeAgreesIff(defect, s, segmentIndex, end, run + n);
    EndIs(defect, s, segmentIndex, run + n);
    if n > 0 {
      FlakeActual(s, os, expected, opts);
      OutcomeAt(defect, s, segmentIndex, run, os, 0);
      OutcomeAt(defect, s, segmentIndex, run, os, n - 1);
    }
    if AllSame(os) {
      FirstOfSame(os);
      if n < opts.maxRuns {
        NativeActual(defect, s, segmentIndex, run + n, n, expected, opts);
        BaseMatches(defect, s, segmentIndex, run + n, opts.maxRuns - n - 1);
        NativeReportOk(defect, s, segmentIndex, run + n, n, expected, opts);
      }
    }
  }
}
