/** Every field of a bisection report, and what bisection does from a wrong base. */
module ReportFields {
  import opened Wrappers
  import opened Bytes
  import opened Validator
  import opened Hv
  import opened Replay
  import opened Mock
  import opened MockHypervisor
  import opened Bisect

  /** What holds of every report: the hash asked for, a run count within the budget and the
      flag that says it is used up, the page of the diagnostics and the next, and without
      diagnostics no narrowed window and no pages but those of the end. */
  ghost predicate Consistent(r: Report, s: Segment, expected: Hash32, opts: BisectOptions) {
    && r.expected == expected && r.runsUsed <= opts.maxRuns && (r.budgetExhausted <==> r.runsUsed == opts.maxRuns)
    && (r.diagnostics.Some? ==>
          r.classification == RecordedDivergence
          && r.pages == Some([r.diagnostics.value.at / 4096, r.diagnostics.value.at / 4096 + 1]))
    && (r.diagnostics == None ==>
          r.offset == if s.header.endIcount == 0 && r.classification == RecordedDivergence then ExactIcount(0)
                      else IcountWindow(0, s.header.endIcount))
    && (r.diagnostics == None && r.pages.Some? ==>
          r.pages == Some([s.header.endIcount / 4096, s.header.endIcount / 4096 + 1]))
  }

  /** Outcomes of runs without native bisection take their diagnostics at the end. */
  ghost predicate Unnarrowed(os: seq<Outcome>, end: u64) {
    forall i :: 0 <= i < |os| && os[i].Diverged? ==> os[i].diagnostics.at == end
  }

  lemma FirstUnnarrowed(os: seq<Outcome>, end: u64)
    requires Unnarrowed(os, end)
    ensures var first := FirstDiverged(os);
            first.Some? ==> first.value.Diverged? && first.value.diagnostics.at == end
  {
    if os != [] && !os[0].Diverged? {
      FirstUnnarrowed(os[1..], end);
    }
  }

  lemma FlakeConsistent(s: Segment, os: seq<Outcome>, expected: Hash32, opts: BisectOptions)
    requires 0 < |os| <= opts.maxRuns
    ensures Consistent(FlakeReport(s, os, expected, opts), s, expected, opts)
    ensures FlakeReport(s, os, expected, opts).runsUsed == |os| && FlakeReport(s, os, expected, opts).runFaults == []
            && FlakeReport(s, os, expected, opts).diagnostics == None
            && FlakeReport(s, os, expected, opts).pages == None
  {
  }

  lemma FallbackConsistent(defect: Defect, s: Segment, base: Hash32, run: nat, os: seq<Outcome>, expected: Hash32,
                           opts: BisectOptions)
    requires s.Valid() && |os| <= opts.maxRuns && Unnarrowed(os, s.header.endIcount)
    ensures var r := FallbackReport(defect, s, base, run, os, expected, opts);
            && Consistent(r, s, expected, opts) && r.diagnostics == None
            && r.runsUsed == |os| + (if |os| < opts.maxRuns && base == s.header.baseSnapshot then 1 else 0)
            && (|os| < opts.maxRuns && base != s.header.baseSnapshot ==> r.runFaults == [BaseMismatch])
            && (|os| == opts.maxRuns ==> r.runFaults == [])
            && (os == [] ==> r.pages == None && (opts.maxRuns == 0 || base != s.header.baseSnapshot ==>
                                                   r.actual == Zeros(32)))
  {
    hide FirstDiverged, ProbeResult, Segment.Valid, Unnarrowed;
    NoneDiverged();
    FirstUnnarrowed(os, s.header.endIcount);
  }

  lemma NoneDiverged()
    ensures FirstDiverged([]) == None
  {
  }

  lemma NativeConsistent(defect: Defect, s: Segment, base: Hash32, segmentIndex: u32, run: nat, n: nat,
                         expected: Hash32, opts: BisectOptions)
    requires s.Valid() && Steppable(s) && n < opts.maxRuns
    ensures var r := NativeReport(defect, s, base, segmentIndex, run, n, expected, opts);
            && (r.Ok? ==> Consistent(r.value, s, expected, opts) && r.value.runsUsed > n && r.value.runFaults == [])
            && (base != s.header.baseSnapshot ==> r == Err(BaseMismatch))
  {
    hide Unbisected, NativeWindow, Steppable, Segment.Valid, NativeLeft;
    NativeOutcome(defect, s, base, segmentIndex, run, opts.maxRuns - n - 1);
    hide Native;
  }

  lemma NativeOutcome(defect: Defect, s: Segment, base: Hash32, segmentIndex: u32, run: nat, fuel: nat)
    requires s.Valid() && Steppable(s)
    ensures base != s.header.baseSnapshot ==> Native(defect, s, base, segmentIndex, run, fuel) == Err(BaseMismatch)
    ensures NativeLeft(defect, s, base, segmentIndex, run, fuel) <= fuel
  {
    hide Unbisected, NativeWindow, Steppable, Segment.Valid, NativeLeft;
  }

  lemma AttemptUnnarrowed(defect: Defect, s: Segment, base: Hash32, segmentIndex: u32, run: nat)
    requires s.Valid()
    ensures var o := Attempt(defect, s, base, segmentIndex, run);
            o.Ok? && o.value.Diverged? ==> o.value.diagnostics.at == s.header.endIcount
  {
    hide HonestReplay, Disagrees, ReplayedEnd, FaultFrom, RegisterAt, Segment.Valid;
  }

  /** The first phase has as many outcomes as runs were asked for, or faults. */
  lemma {:induction false} WrongOutcomes(defect: Defect, s: Segment, base: Hash32, segmentIndex: u32, run: nat, n: nat)
    requires s.Valid()
    ensures var os := Outcomes(defect, s, base, segmentIndex, run, n);
            (os.Ok? ==> |os.value| == n && Unnarrowed(os.value, s.header.endIcount))
            && (n > 0 && base != s.header.baseSnapshot ==> os == Err(BaseMismatch))
    decreases n
  {
    hide Unbisected, Segment.Valid;
    if n > 0 {
      AttemptUnnarrowed(defect, s, base, segmentIndex, run + n - 1);
      WrongOutcomes(defect, s, base, segmentIndex, run, n - 1);
    }
  }

  lemma NoOutcomesAsked(defect: Defect, s: Segment, base: Hash32, segmentIndex: u32, run: nat)
    requires s.Valid()
    ensures Outcomes(defect, s, base, segmentIndex, run, 0) == Ok([])
  {
    hide Segment.Valid;
  }

  lemma ReportedBy(defect: Defect, s: Segment, base: Hash32, segmentIndex: u32, run: nat, expected: Hash32,
                   opts: BisectOptions)
    requires s.Valid() && Steppable(s)
    ensures FlakeRuns(opts) <= opts.maxRuns
    ensures var os := Outcomes(defect, s, base, segmentIndex, run, FlakeRuns(opts));
            match os
            case Err(f) => Reported(defect, s, base, segmentIndex, run, expected, opts) == Err(f)
            case Ok(os) =>
              && |os| == FlakeRuns(opts) && (!AllSame(os) ==> |os| > 0) && Unnarrowed(os, s.header.endIcount)
              && Reported(defect, s, base, segmentIndex, run, expected, opts) ==
                 if !AllSame(os) then Ok(FlakeReport(s, os, expected, opts))
                 else if s.header.EpochHashes() && |os| < opts.maxRuns then
                   NativeReport(defect, s, base, segmentIndex, run + |os|, |os|, expected, opts)
                 else Ok(FallbackReport(defect, s, base, run + |os|, os, expected, opts))
  {
    hide NativeReport, FallbackReport, FlakeReport, Outcomes, Steppable, Segment.Valid;
    WrongOutcomes(defect, s, base, segmentIndex, run, FlakeRuns(opts));
  }

  /** Every report is consistent, whatever the defect, the base, the options and the runs
      already made; an unstable first phase used exactly its own runs. */
  lemma ReportIsConsistent(defect: Defect, s: Segment, base: Hash32, segmentIndex: u32, run: nat, expected: Hash32,
                           opts: BisectOptions)
    requires s.Valid() && Steppable(s)
    ensures var r := Reported(defect, s, base, segmentIndex, run, expected, opts);
            r.Ok? ==>
              && Consistent(r.value, s, expected, opts)
              && (r.value.classification == ReplayNondeterministic ==>
                    && r.value.diagnostics == None && r.value.pages == None && r.value.runFaults == []
                    && r.value.runsUsed == if opts.flakeRetries < opts.maxRuns then opts.flakeRetries + 1
                                           else opts.maxRuns)
  {
    hide *;
    ReportedBy(defect, s, base, segmentIndex, run, expected, opts);
    var os := Outcomes(defect, s, base, segmentIndex, run, FlakeRuns(opts));
    if os.Ok? {
      var n := |os.value|;
      FallbackConsistent(defect, s, base, run + n, os.value, expected, opts);
      FlakeRunsWhen(opts);
      if n > 0 {
        FlakeConsistent(s, os.value, expected, opts);
      }
      Classes(defect, s, base, segmentIndex, run + n, os.value, expected, opts);
      if n < opts.maxRuns {
        NativeConsistent(defect, s, base, segmentIndex, run + n, n, expected, opts);
      }
    }
  }

  lemma FlakeRunsWhen(opts: BisectOptions)
    ensures opts.skipPhase1 || opts.maxRuns == 0 ==> FlakeRuns(opts) == 0
    ensures FlakeRuns(opts) > 0 ==>
              FlakeRuns(opts) == if opts.flakeRetries < opts.maxRuns then opts.flakeRetries + 1 else opts.maxRuns
    ensures !opts.skipPhase1 && opts.maxRuns > 0 ==> FlakeRuns(opts) > 0
  {
  }

  lemma Classes(defect: Defect, s: Segment, base: Hash32, segmentIndex: u32, run: nat, os: seq<Outcome>,
                expected: Hash32, opts: BisectOptions)
    requires s.Valid() && Steppable(s) && |os| <= opts.maxRuns
    ensures FallbackReport(defect, s, base, run, os, expected, opts).classification == RecordedDivergence
    ensures |os| < opts.maxRuns ==>
              var r := NativeReport(defect, s, base, segmentIndex, run, |os|, expected, opts);
              r.Ok? ==> r.value.classification == RecordedDivergence
  {
    hide EndProbe, FirstDiverged, Native, NativeLeft, Segment.Valid, Steppable;
  }

  /** From a base that is not the segment's own: the first run that is made faults and the
      fault is returned, but for the closing probe of a segment without epoch hashes, whose
      fault is put into the report; and without a run to make there is no fault at all. */
  lemma WrongBase(defect: Defect, s: Segment, base: Hash32, segmentIndex: u32, run: nat, expected: Hash32,
                  opts: BisectOptions)
    requires s.Valid() && Steppable(s) && base != s.header.baseSnapshot
    ensures var r := Reported(defect, s, base, segmentIndex, run, expected, opts);
            if opts.maxRuns > 0 && (!opts.skipPhase1 || s.header.flags / 4 % 2 == 1) then r == Err(BaseMismatch)
            else
              && r.Ok? && r.value.classification == RecordedDivergence && r.value.runsUsed == 0
              && r.value.runFaults == (if opts.maxRuns > 0 then [BaseMismatch] else [])
              && r.value.actual == Zeros(32) && r.value.pages == None && r.value.diagnostics == None
  {
    hide *;
    ReportedBy(defect, s, base, segmentIndex, run, expected, opts);
    FlakeRunsWhen(opts);
    WrongOutcomes(defect, s, base, segmentIndex, run, FlakeRuns(opts));
    EpochBit(s);
    if FlakeRuns(opts) == 0 {
      NoOutcomesAsked(defect, s, base, segmentIndex, run);
      NoneDiffer(s.header.endIcount);
      FallbackConsistent(defect, s, base, run, [], expected, opts);
      Classes(defect, s, base, segmentIndex, run, [], expected, opts);
      if opts.maxRuns > 0 {
        NativeConsistent(defect, s, base, segmentIndex, run, 0, expected, opts);
      }
    }
  }

  lemma NoneDiffer(end: u64)
    ensures AllSame([]) && Unnarrowed([], end)
  {
  }

  lemma EpochBit(s: Segment)
    ensures s.header.EpochHashes() <==> s.header.flags / 4 % 2 == 1
  {
  }
}
