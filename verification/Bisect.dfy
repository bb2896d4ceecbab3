/** The two-phase bisection driver: is the replay stable, and where does it leave the
    recording? */
module Bisect {
  import opened Wrappers
  import opened Bytes
  import opened Guest
  import opened Validator
  import opened Hv
  import opened Replay
  import opened Mock
  import opened MockHypervisor

  datatype BisectOptions = BisectOptions(maxRuns: u32, flakeRetries: u32, skipPhase1: bool)

  datatype Classification = RecordedDivergence | ReplayNondeterministic

  datatype Offset = ExactIcount(at: u64) | IcountWindow(from: u64, to: u64)
  {
    predicate Holds(n: u64) {
      match this
      case ExactIcount(at) => n == at
      case IcountWindow(from, to) => from <= n <= to
    }

    function Last(): u64 {
      match this
      case ExactIcount(at) => at
      case IcountWindow(_, to) => to
    }
  }

  /** What the driver finds; the identity and repro text of the full report are its
      caller's. */
  datatype Report = Report(
    classification: Classification,
    offset: Offset,
    diagnostics: Option<Diagnostics>,
    pages: Option<seq<u64>>,
    expected: Hash32,
    actual: Hash32,
    runsUsed: u32,
    budgetExhausted: bool,
    runFaults: seq<HvFault>)

  /** The differing pages of a divergence at an icount. */
  function PagesAt(at: u64): seq<u64> { [at / EPOCH, at / EPOCH + 1] }

  function OutcomeHash(o: Outcome): Hash32 { o.endStateHash }

  function MakeReport(classification: Classification, lo: u64, hi: u64, diagnostics: Option<Outcome>,
                      expected: Hash32, actual: Hash32, used: u32, exhausted: bool, faults: seq<HvFault>): Report
  {
    var exact := lo == hi && classification == RecordedDivergence;
    var d := match diagnostics
             case Some(Diverged(_, _, d, _)) => Some(d)
             case _ => None;
    Report(classification, if exact then ExactIcount(lo) else IcountWindow(lo, hi), d,
           if d.Some? then Some(PagesAt(d.value.at)) else None, expected, actual, used, exhausted, faults)
  }

  // ---- what the driver reports, as a function ----

  /** One full run from a base, without bisection. */
  function Attempt(defect: Defect, s: Segment, base: Hash32, segmentIndex: u32, run: nat): Result<Outcome, HvFault>
    requires s.Valid()
  {
    if base != s.header.baseSnapshot then Err(BaseMismatch) else Unbisected(defect, s, segmentIndex, run)
  }

  /** The outcomes of `n` runs, or the first fault. */
  function Outcomes(defect: Defect, s: Segment, base: Hash32, segmentIndex: u32, run: nat,
                    n: nat): (r: Result<seq<Outcome>, HvFault>)
    requires s.Valid()
    ensures r.Ok? ==> |r.value| == n
  {
    if n == 0 then Ok([])
    else
      match Outcomes(defect, s, base, segmentIndex, run, n - 1)
      case Err(f) => Err(f)
      case Ok(os) =>
        match Attempt(defect, s, base, segmentIndex, run + n - 1)
        case Err(f) => Err(f)
        case Ok(o) => Ok(os + [o])
  }

  /** How many runs the first phase makes. */
  function FlakeRuns(opts: BisectOptions): (n: nat)
    ensures n <= opts.maxRuns
  {
    if opts.skipPhase1 then 0
    else if opts.flakeRetries < opts.maxRuns then opts.flakeRetries + 1 else opts.maxRuns
  }

  predicate AllSame(os: seq<Outcome>) {
    forall i :: 0 <= i < |os| - 1 ==> os[i] == os[i + 1]
  }

  function FirstDiverged(os: seq<Outcome>): Option<Outcome>
    decreases |os|
  {
    if os == [] then None else if os[0].Diverged? then Some(os[0]) else FirstDiverged(os[1..])
  }

  /** One run with native bisection and `fuel` more runs. */
  ghost function Native(defect: Defect, s: Segment, base: Hash32, segmentIndex: u32, run: nat,
                        fuel: nat): (r: Result<Outcome, HvFault>)
    requires s.Valid() && Steppable(s)
  {
    var u, w := Attempt(defect, s, base, segmentIndex, run), NativeWindow(defect, s, segmentIndex, run, fuel);
    NativeWindowBounded(defect, s, segmentIndex, run, fuel);
    if u.Ok? && u.value.Diverged? then
      Ok(Diverged(w.lo, w.hi, Diagnose(defect, s, w.hi, segmentIndex, run), u.value.endStateHash))
    else u
  }

  /** Runs left after that run. */
  ghost function NativeLeft(defect: Defect, s: Segment, base: Hash32, segmentIndex: u32, run: nat,
                            fuel: nat): (left: nat)
    requires s.Valid() && Steppable(s)
    ensures left <= fuel
  {
    NativeWindowBounded(defect, s, segmentIndex, run, fuel);
    var u := Attempt(defect, s, base, segmentIndex, run);
    if u.Ok? && u.value.Diverged? then NativeWindow(defect, s, segmentIndex, run, fuel).fuel else fuel
  }

  /** The report after an unstable first phase of `n` runs. */
  function FlakeReport(s: Segment, os: seq<Outcome>, expected: Hash32, opts: BisectOptions): Report
    requires 0 < |os| <= opts.maxRuns
  {
    MakeReport(ReplayNondeterministic, 0, s.header.endIcount, None, expected, OutcomeHash(os[|os| - 1]),
               |os|, |os| == opts.maxRuns, [])
  }

  /** The report of native bisection, with `n` runs used before it. */
  ghost function NativeReport(defect: Defect, s: Segment, base: Hash32, segmentIndex: u32, run: nat, n: nat,
                              expected: Hash32, opts: BisectOptions): Result<Report, HvFault>
    requires s.Valid() && Steppable(s) && n < opts.maxRuns
  {
    var fuel := opts.maxRuns - n - 1;
    var used: u32 := opts.maxRuns - NativeLeft(defect, s, base, segmentIndex, run, fuel);
    match Native(defect, s, base, segmentIndex, run, fuel)
    case Err(f) => Err(f)
    case Ok(Verified(h, ok)) =>
      Ok(MakeReport(RecordedDivergence, 0, s.header.endIcount, None, expected, h, used, used == opts.maxRuns, []))
    case Ok(Diverged(lo, hi, d, h)) =>
      Ok(MakeReport(RecordedDivergence, lo, hi, Some(Diverged(lo, hi, d, h)), expected, h, used,
                    used == opts.maxRuns, []))
  }

  /** The probe that ends the fallback: the hash at the end icount. */
  function EndProbe(defect: Defect, s: Segment, base: Hash32, run: nat): Result<Hash32, HvFault>
    requires s.Valid()
  {
    if base != s.header.baseSnapshot then Err(BaseMismatch) else ProbeResult(defect, s, s.header.endIcount, run)
  }

  /** The report without epoch hashes or without runs: the whole segment. */
  function FallbackReport(defect: Defect, s: Segment, base: Hash32, run: nat, os: seq<Outcome>,
                          expected: Hash32, opts: BisectOptions): Report
    requires s.Valid() && |os| <= opts.maxRuns
  {
    var first := FirstDiverged(os);
    var kept := if first.Some? then OutcomeHash(first.value) else Zeros(32);
    var probed := |os| < opts.maxRuns;
    var end := EndProbe(defect, s, base, run);
    var used := |os| + (if probed && base == s.header.baseSnapshot then 1 else 0);
    MakeReport(RecordedDivergence, 0, s.header.endIcount, None, expected,
               if probed && end.Ok? then end.value else kept,
               used, used == opts.maxRuns,
               if probed && end.Err? then [end.error] else [])
      .(pages := match first
                 case Some(Diverged(_, _, d, _)) => Some(PagesAt(d.at))
                 case _ => None)
  }

  /** The whole bisection, from a mock that has made `run` runs. */
  ghost function Reported(defect: Defect, s: Segment, base: Hash32, segmentIndex: u32, run: nat, expected: Hash32,
                          opts: BisectOptions)
    : Result<Report, HvFault>
    requires s.Valid() && Steppable(s)
  {
    var n := FlakeRuns(opts);
    match Outcomes(defect, s, base, segmentIndex, run, n)
    case Err(f) => Err(f)
    case Ok(os) =>
      if !AllSame(os) then Ok(FlakeReport(s, os, expected, opts))
      else if s.header.EpochHashes() && n < opts.maxRuns then
        NativeReport(defect, s, base, segmentIndex, run + n, n, expected, opts)
      else Ok(FallbackReport(defect, s, base, run + n, os, expected, opts))
  }

  // ---- the driver ----

  lemma FaultKept(defect: Defect, s: Segment, base: Hash32, segmentIndex: u32, run: nat, n: nat)
    requires s.Valid() && Outcomes(defect, s, base, segmentIndex, run, n).Err?
    ensures Outcomes(defect, s, base, segmentIndex, run, n + 1) == Outcomes(defect, s, base, segmentIndex, run, n)
  {
    hide Attempt, Segment.Valid;
  }

  lemma {:induction false} OutcomesStuck(defect: Defect, s: Segment, base: Hash32, segmentIndex: u32, run: nat, j: nat,
                                         n: nat)
    requires s.Valid() && j <= n && Outcomes(defect, s, base, segmentIndex, run, j).Err?
    ensures Outcomes(defect, s, base, segmentIndex, run, n) == Outcomes(defect, s, base, segmentIndex, run, j)
    decreases n
  {
    hide *;
    if j < n {
      OutcomesStuck(defect, s, base, segmentIndex, run, j, n - 1);
      FaultKept(defect, s, base, segmentIndex, run, n - 1);
    }
  }

  lemma OutcomesStep(defect: Defect, s: Segment, base: Hash32, segmentIndex: u32, run: nat, j: nat, os: seq<Outcome>)
    requires s.Valid() && Outcomes(defect, s, base, segmentIndex, run, j) == Ok(os)
    ensures Outcomes(defect, s, base, segmentIndex, run, j + 1) ==
            if base != s.header.baseSnapshot then Err(BaseMismatch)
            else match Unbisected(defect, s, segmentIndex, run + j)
                 case Err(f) => Err(f)
                 case Ok(o) => Ok(os + [o])
  {
    hide Unbisected;
  }

  /** Replay against replay: full runs of one segment while the budget lasts. */
  method PhaseOne(hv: Hypervisor, base: Hash32, s: Segment, segmentIndex: u32, retries: u32, budget: RunBudget)
      returns (r: Result<seq<Outcome>, HvFault>)
    requires s.Valid() && budget.Valid() && (base == s.header.baseSnapshot && budget.Remaining() > 0 ==> Steppable(s))
    modifies hv`runs, budget`used
    ensures budget.Valid() && hv.runs - old(hv.runs) == budget.used - old(budget.used)
    ensures var n := if retries < old(budget.Remaining()) then retries + 1 else old(budget.Remaining());
            && r == Outcomes(hv.defect, s, base, segmentIndex, old(hv.runs), n)
            && (r.Ok? ==> budget.used == old(budget.used) + n)
  {
    hide Unbisected, Outcomes, Attempt, NativeWindow, Steppable, Segment.Valid, RunEvents, IsBisected;
    ghost var run := hv.runs;
    ghost var n := if retries < budget.Remaining() then retries + 1 else budget.Remaining();
    NoOutcomes(hv.defect, s, base, segmentIndex, run);
    var outcomes: seq<Outcome> := [];
    var j: nat := 0;
    while j <= retries && !budget.Exhausted()
      invariant j <= retries + 1 && budget.Valid() && hv.runs == run + j && budget.used == old(budget.used) + j
      invariant Outcomes(hv.defect, s, base, segmentIndex, run, j) == Ok(outcomes)
      decreases retries + 1 - j
    {
      OutcomesStep(hv.defect, s, base, segmentIndex, run, j, outcomes);
      var outcome, _ := hv.VerifySegment(base, s, false, segmentIndex, budget);
      if outcome.Err? {
        OutcomesStuck(hv.defect, s, base, segmentIndex, run, j + 1, n);
        return Err(outcome.error);
      }
      outcomes := outcomes + [outcome.value];
      j := j + 1;
    }
    r := Ok(outcomes);
  }

  lemma NoOutcomes(defect: Defect, s: Segment, base: Hash32, segmentIndex: u32, run: nat)
    requires s.Valid()
    ensures Outcomes(defect, s, base, segmentIndex, run, 0) == Ok([]) && AllSame([])
  {
  }

  /** The narrowest window among the divergences, the first such; `whole` if none. */
  method MinWindow(outcomes: seq<Outcome>, whole: (u64, u64)) returns (w: (u64, u64))
    ensures (forall i :: 0 <= i < |outcomes| ==> outcomes[i].Verified?) ==> w == whole
    ensures (exists i :: 0 <= i < |outcomes| && outcomes[i].Diverged?) ==>
              exists i :: 0 <= i < |outcomes| && outcomes[i].Diverged? && w == (outcomes[i].lo, outcomes[i].hi)
                && (forall j :: 0 <= j < |outcomes| && outcomes[j].Diverged? ==>
                      w.1 - w.0 <= outcomes[j].hi - outcomes[j].lo)
                && (forall j :: 0 <= j < i && outcomes[j].Diverged? ==> w.1 - w.0 < outcomes[j].hi - outcomes[j].lo)
  {
    var best: Option<nat> := None;
    w := whole;
    var k := 0;
    while k < |outcomes|
      invariant 0 <= k <= |outcomes|
      invariant best.None? ==> w == whole && forall j :: 0 <= j < k ==> outcomes[j].Verified?
      invariant best.Some? ==>
                  && best.value < k && outcomes[best.value].Diverged?
                  && w == (outcomes[best.value].lo, outcomes[best.value].hi)
                  && (forall j :: 0 <= j < k && outcomes[j].Diverged? ==> w.1 - w.0 <= outcomes[j].hi - outcomes[j].lo)
                  && (forall j :: 0 <= j < best.value && outcomes[j].Diverged? ==>
                        w.1 - w.0 < outcomes[j].hi - outcomes[j].lo)
    {
      var o := outcomes[k];
      if o.Diverged? && (best.None? || o.hi - o.lo < w.1 - w.0) {
        best, w := Some(k), (o.lo, o.hi);
      }
      k := k + 1;
    }
  }

  /** Unbisected divergences span the whole segment. */
  lemma UnbisectedWhole(defect: Defect, s: Segment, segmentIndex: u32, run: nat)
    requires s.Valid()
    ensures var u := Unbisected(defect, s, segmentIndex, run);
            u.Ok? && u.value.Diverged? ==> u.value.lo == 0 && u.value.hi == s.header.endIcount
  {
    hide HonestReplay, Disagrees, FaultFrom, Diagnose, ReplayedEnd;
  }

  ghost predicate Whole(os: seq<Outcome>, end: u64) {
    forall i :: 0 <= i < |os| && os[i].Diverged? ==> os[i].lo == 0 && os[i].hi == end
  }

  lemma WholeAppend(os: seq<Outcome>, o: Outcome, end: u64)
    requires Whole(os, end) && (o.Diverged? ==> o.lo == 0 && o.hi == end)
    ensures Whole(os + [o], end)
  {
  }

  lemma {:induction false} OutcomesWhole(defect: Defect, s: Segment, base: Hash32, segmentIndex: u32, run: nat, n: nat)
    requires s.Valid() && Outcomes(defect, s, base, segmentIndex, run, n).Ok?
    ensures Whole(Outcomes(defect, s, base, segmentIndex, run, n).value, s.header.endIcount)
  {
    hide Unbisected, Segment.Valid, Outcomes, Whole;
    if n > 0 {
      if Outcomes(defect, s, base, segmentIndex, run, n - 1).Err? {
        FaultKept(defect, s, base, segmentIndex, run, n - 1);
      }
      var os := Outcomes(defect, s, base, segmentIndex, run, n - 1).value;
      OutcomesWhole(defect, s, base, segmentIndex, run, n - 1);
      OutcomesStep(defect, s, base, segmentIndex, run, n - 1, os);
      UnbisectedWhole(defect, s, segmentIndex, run + n - 1);
      WholeAppend(os, Unbisected(defect, s, segmentIndex, run + n - 1).value, s.header.endIcount);
    } else {
      NoOutcomes(defect, s, base, segmentIndex, run);
      NoneWhole(s.header.endIcount);
    }
  }

  lemma NoneWhole(end: u64)
    ensures Whole([], end)
  {
  }

  lemma DifferingIsMany(os: seq<Outcome>)
    requires !AllSame(os)
    ensures |os| >= 2
  {
  }

  method AllIdentical(os: seq<Outcome>) returns (same: bool)
    ensures same == AllSame(os)
  {
    var i := 0;
    while i + 1 < |os|
      invariant 0 <= i <= |os|
      invariant forall k :: 0 <= k < i && k < |os| - 1 ==> os[k] == os[k + 1]
    {
      if os[i] != os[i + 1] {
        return false;
      }
      i := i + 1;
    }
    same := true;
  }

  method FindDiverged(os: seq<Outcome>) returns (o: Option<Outcome>)
    ensures o == FirstDiverged(os)
  {
    var i := 0;
    while i < |os|
      invariant 0 <= i <= |os|
      invariant FirstDiverged(os) == FirstDiverged(os[i..])
    {
      if os[i].Diverged? {
        return Some(os[i]);
      }
      i := i + 1;
    }
    o := None;
  }

  /** Replay against recording, with native bisection. */
  method PhaseTwo(hv: Hypervisor, base: Hash32, s: Segment, expected: Hash32, segmentIndex: u32, budget: RunBudget,
                  ghost opts: BisectOptions)
      returns (r: Result<Report, HvFault>)
    requires s.Valid() && Steppable(s) && budget.Valid() && budget.Remaining() > 0 && budget.maxRuns == opts.maxRuns
    modifies hv`runs, budget`used
    ensures budget.Valid() && hv.runs - old(hv.runs) == budget.used - old(budget.used)
    ensures r == NativeReport(hv.defect, s, base, segmentIndex, old(hv.runs), old(budget.used), expected, opts)
    ensures r.Ok? ==> r.value.runsUsed == budget.used && r.value.budgetExhausted == budget.Exhausted()
  {
    hide Unbisected, NativeWindow, Steppable, Segment.Valid, RunEvents, Diagnose;
    ghost var n := budget.used;
    var outcome, _ := hv.VerifySegment(base, s, true, segmentIndex, budget);
    NativeWindowBounded(hv.defect, s, segmentIndex, old(hv.runs), opts.maxRuns - n - 1);
    match outcome
    case Err(f) =>
      r := Err(f);
    case Ok(Diverged(lo, hi, d, h)) =>
      r := Ok(MakeReport(RecordedDivergence, lo, hi, Some(outcome.value), expected, h, budget.used, budget.Exhausted(),
                         []));
    case Ok(Verified(h, _)) =>
      r := Ok(MakeReport(RecordedDivergence, 0, s.header.endIcount, None, expected, h, budget.used, budget.Exhausted(),
                         []));
  }

  /** Without epoch hashes or runs: the whole segment, and one probe of its end. */
  method Fallback(hv: Hypervisor, base: Hash32, s: Segment, expected: Hash32, budget: RunBudget, outcomes: seq<Outcome>,
                  ghost opts: BisectOptions)
      returns (report: Report)
    requires s.Valid() && Steppable(s) && budget.Valid() && budget.maxRuns == opts.maxRuns && |outcomes| == budget.used
    modifies hv`runs, budget`used
    ensures budget.Valid() && hv.runs - old(hv.runs) == budget.used - old(budget.used)
    ensures report == FallbackReport(hv.defect, s, base, old(hv.runs), outcomes, expected, opts)
    ensures report.runsUsed == budget.used && report.budgetExhausted == budget.Exhausted()
  {
    hide Steppable, SteppableTo, Segment.Valid, ProbeResult;
    StepBounds(s, s.header.endIcount);
    var phase1Diverged := FindDiverged(outcomes);
    var actual := if phase1Diverged.Some? then OutcomeHash(phase1Diverged.value) else Zeros(32);
    var runFaults: seq<HvFault> := [];
    if !budget.Exhausted() {
      var probe := hv.RunToIcount(base, s, s.header.endIcount, budget);
      match probe {
        case Ok(h) => actual := h;
        case Err(f) => runFaults := [f];
      }
    }
    report := MakeReport(RecordedDivergence, 0, s.header.endIcount, None, expected, actual, budget.used,
                         budget.Exhausted(), runFaults);
    if phase1Diverged.Some? && phase1Diverged.value.Diverged? {
      report := report.(pages := Some(PagesAt(phase1Diverged.value.diagnostics.at)));
    }
  }

  /** Both phases. The budget is one object for all runs, probes included; whatever it
      allows, the mock's run count grows by exactly what is used of it. */
  method Bisect(hv: Hypervisor, base: Hash32, s: Segment, expected: Hash32, segmentIndex: u32, opts: BisectOptions)
      returns (r: Result<Report, HvFault>, ghost used: nat)
    requires s.Valid() && Steppable(s)
    modifies hv`runs
    ensures r == Reported(hv.defect, s, base, segmentIndex, old(hv.runs), expected, opts)
    ensures used <= opts.maxRuns && hv.runs == old(hv.runs) + used
    ensures r.Ok? ==> r.value.runsUsed == used && (r.value.budgetExhausted <==> used == opts.maxRuns)
  {
    hide Unbisected, Outcomes, Attempt, NativeWindow, Steppable, Segment.Valid, NativeReport, FallbackReport, AllSame,
         ProbeResult, FirstDiverged;
    var budget := new RunBudget(opts.maxRuns);
    var end := s.header.endIcount;
    var outcomes: seq<Outcome> := [];
    NoOutcomes(hv.defect, s, base, segmentIndex, hv.runs);
    if !opts.skipPhase1 {
      var phase := PhaseOne(hv, base, s, segmentIndex, opts.flakeRetries, budget);
      if phase.Err? {
        return Err(phase.error), budget.used;
      }
      outcomes := phase.value;
      OutcomesWhole(hv.defect, s, base, segmentIndex, old(hv.runs), |outcomes|);
      var same := AllIdentical(outcomes);
      if !same {
        DifferingIsMany(outcomes);
        var w := MinWindow(outcomes, (0, end));
        assert w == (0, end);
        var actual := OutcomeHash(outcomes[|outcomes| - 1]);
        return Ok(MakeReport(ReplayNondeterministic, w.0, w.1, None, expected, actual, budget.used,
                             budget.Exhausted(), [])),
               budget.used;
      }
    }
    if s.header.EpochHashes() && !budget.Exhausted() {
      r := PhaseTwo(hv, base, s, expected, segmentIndex, budget, opts);
    } else {
      var report := Fallback(hv, base, s, expected, budget, outcomes, opts);
      r := Ok(report);
    }
    used := budget.used;
  }
}
