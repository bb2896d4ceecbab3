/** The mock hypervisor as the program runs it: a run counter, stepping guests, probes. */
module MockHypervisor {
  import opened Wrappers
  import opened Bytes
  import opened Fnv
  import opened Guest
  import opened Dhilog
  import opened Validator
  import opened Hv
  import opened Replay
  import opened Search
  import opened Mock

  /** An honest replay's result: how it ended, what it saw, and the state hash. */
  datatype HonestRun = HonestRun(end: Honest, epochsOk: nat, events: seq<VerifyEvent>, endHash: Hash32)

  function Min(a: u64, b: u64): u64 { if a < b then a else b }

  function Max(a: u64, b: u64): u64 { if a > b then a else b }

  class Hypervisor {
    const defect: Defect
    var runs: nat

    constructor (defect: Defect)
      ensures this.defect == defect && runs == 0
    {
      this.defect := defect;
      runs := 0;
    }

    method FoldRecord(sim: GuestSim, rec: Record) returns (fault: Option<HvFault>)
      requires CanonicalKind(rec.kind) ==> sim.icount <= rec.icount && rec.icount + EPOCH < TWO64
      modifies sim
      ensures fault == if CanonicalKind(rec.kind) then None else Some(UnappliableRecord(rec.icount))
      ensures sim.State() == if CanonicalKind(rec.kind)
                             then Land(Step(old(sim.State()), rec.icount), [rec.kind] + rec.payload)
                             else old(sim.State())
    {
      if CanonicalKind(rec.kind) {
        sim.StepTo(rec.icount);
        ghost var r := sim.fnv;
        sim.Fold([rec.kind]);
        sim.Fold(rec.payload);
        FoldBytesConcat(r, [rec.kind], rec.payload);
        fault := None;
      } else {
        fault := Some(UnappliableRecord(rec.icount));
      }
    }

    /** Meet one record: land the pending fold if it is due, then fold or pass the record. */
    method Meet(sim: GuestSim, fold: VirtualFold, rec: Record, ghost d: Option<Act>) returns (fault: Option<HvFault>)
      requires rec.IsAux() || CanonicalKind(rec.kind) ==> sim.State().icount <= rec.icount
      requires rec.icount + EPOCH < TWO64
      requires fold.Holds(d) && (d.Some? && !fold.done ==> sim.State().icount <= d.value.at)
      modifies sim, fold`done
      ensures fault == if rec.IsAux() || CanonicalKind(rec.kind) then None else Some(UnappliableRecord(rec.icount))
      ensures fold.Holds(d) && (d.None? ==> fold.done)
      ensures fault.None? ==> (fold.done, sim.State()) == MeetRecord(d, old(fold.done), old(sim.State()), rec)
    {
      fold.MaybeApply(sim, rec.icount, rec.kind == KIND_EPOCH_HASH);
      if !rec.IsAux() {
        fault := FoldRecord(sim, rec);
      } else {
        sim.StepTo(rec.icount);
        fault := None;
      }
    }

    /** Meet the records at or before `stop`, in order. */
    method WalkTo(recs: seq<Record>, torn: bool, stop: u64, sim: GuestSim, fold: VirtualFold,
                  ghost o: Origin, ghost d: Option<Act>)
        returns (fault: Option<HvFault>)
      requires InOrder(Met(recs, stop)) && stop + EPOCH < TWO64
      requires fold.Holds(d) && (d.None? ==> fold.done) && sim.State().icount == 0
      requires Tracking(o, CanonActs(Met(recs, stop)), d, |CanonActs(Met(recs, stop)[..0])|, fold.done, sim.State())
      modifies sim, fold`done
      ensures fault == FaultFrom(recs, torn, 0, stop)
      ensures fold.Holds(d)
      ensures fault.None? ==> sim.State().icount <= stop && (d.Some? && !fold.done ==> sim.State().icount <= d.value.at)
      ensures fault.None? ==>
                FinishAt(d, fold.done, sim.State(), stop) == StateAt(o, WithFold(CanonActs(Met(recs, stop)), d), stop)
    {
      ghost var met := Met(recs, stop);
      ghost var acts := CanonActs(met);
      hide *;
      var j := 0;
      while j < |recs| && recs[j].icount <= stop
        invariant 0 <= j <= |met| && fold.Holds(d) && (d.None? ==> fold.done)
        invariant Tracking(o, acts, d, |CanonActs(met[..j])|, fold.done, sim.State())
        invariant sim.State().icount <= stop && (j < |met| ==> sim.State().icount <= recs[j].icount)
        invariant FaultFrom(recs, torn, 0, stop) == FaultFrom(recs, torn, j, stop)
      {
        ghost var g, done := sim.State(), fold.done;
        TrackPending(o, acts, d, |CanonActs(met[..j])|, done, g);
        FaultStep(recs, torn, j, stop);
        WordFits(recs[j].icount, stop);
        MetAt(recs, stop, j);
        fault := Meet(sim, fold, recs[j], d);
        if fault.Some? {
          return;
        }
        MeetTracks(o, met, d, j, done, g);
        NextInOrder(met, j);
        if j + 1 < |met| {
          MetAt(recs, stop, j + 1);
        }
        j := j + 1;
      }
      FaultAtEnd(recs, torn, j, stop);
      if j == |recs| && torn {
        return Some(UnappliableRecord(0));
      }
      if j < |met| {
        MetAt(recs, stop, j);
        assert false;
      }
      NothingLeft(met, j, stop);
      TrackPending(o, acts, d, |CanonActs(met[..j])|, fold.done, sim.State());
      FinishTracks(o, acts, d, |CanonActs(met[..j])|, fold.done, sim.State(), stop);
      fault := None;
    }

    /** Where one side stands after everything up to `stop`; it compares nothing and
        costs no run. */
    method SimTo(s: Segment, stop: u64, side: Side, segmentIndex: u32) returns (r: Result<GuestSim, HvFault>)
      requires s.Valid() && SteppableTo(s, stop)
      ensures match r
              case Err(f) => SimResult(defect, s, stop, side, segmentIndex) == Err(f)
              case Ok(sim) => fresh(sim) && SimResult(defect, s, stop, side, segmentIndex) == Ok(sim.State())
    {
      hide Tracking, CanonActs, FoldFor, MeetRecord, Segment.Walk, Records, Segment.Valid, OriginOf, StateAt, FinishAt,
           FaultFrom, Met;
      ghost var d := FoldFor(defect, side, segmentIndex);
      var sim := new GuestSim(OriginOf(s.header));
      var fold := new VirtualFold(FoldFor(defect, side, segmentIndex));
      StartOfWalk(OriginOf(s.header), Met(Records(s), stop), d);
      var fault := WalkTo(Records(s), s.Walk().torn, stop, sim, fold, OriginOf(s.header), d);
      if fault.Some? {
        return Err(fault.value);
      }
      StopAt(sim, fold, stop, d);
      r := Ok(sim);
    }

    /** Land the fold if it is still due by `stop`, then step there. */
    method StopAt(sim: GuestSim, fold: VirtualFold, stop: u64, ghost d: Option<Act>)
      requires fold.Holds(d) && sim.State().icount <= stop && stop + EPOCH < TWO64
      requires d.Some? && !fold.done ==> sim.State().icount <= d.value.at
      modifies sim, fold`done
      ensures fold.Holds(d) && sim.State() == FinishAt(d, old(fold.done), old(sim.State()), stop)
      ensures fold.done == (old(fold.done) || (d.Some? && d.value.at <= stop))
    {
      fold.Finish(sim, stop);
      sim.StepTo(stop);
    }

    /** Meet an END record: land the fold if it is due there or by the end, and step to the end. */
    method MeetEnd(recs: seq<Record>, j: nat, end: u64, sim: GuestSim, fold: VirtualFold, ghost o: Origin,
                   ghost d: Option<Act>)
      requires j < |recs| && recs[j].IsEnd() && Orderly(recs, end)
      requires fold.Holds(d) && (d.None? ==> fold.done) && sim.State().icount <= recs[j].icount
      requires Tracking(o, CanonActs(recs), d, |CanonActs(recs[..j])|, fold.done, sim.State())
      modifies sim, fold`done
      ensures fold.Holds(d) && (d.None? ==> fold.done) && sim.State().icount == end
      ensures Tracking(o, CanonActs(recs), d, |CanonActs(recs[..j + 1])|, fold.done, sim.State())
    {
      hide Tracking, CanonActs, Orderly, Record.IsEnd, CrossEpochs, FoldBytes;
      EndMet(o, recs, d, j, fold.done, sim.State(), end);
      fold.MaybeApply(sim, recs[j].icount, recs[j].kind == KIND_EPOCH_HASH);
      StopAt(sim, fold, end, d);
    }

    /** Meet one record; an epoch hash is compared and either seen or the end of the replay. */
    method CompareOne(recs: seq<Record>, torn: bool, j: nat, end: u64, segmentIndex: u32,
                      sim: GuestSim, fold: VirtualFold, ghost o: Origin, ghost d: Option<Act>)
        returns (stop: Option<Honest>, seen: seq<VerifyEvent>)
      requires j < |recs| && Orderly(recs, end)
      requires fold.Holds(d) && (d.None? ==> fold.done) && sim.State().icount <= recs[j].icount
      requires Tracking(o, CanonActs(recs), d, |CanonActs(recs[..j])|, fold.done, sim.State())
      modifies sim, fold`done
      ensures fold.Holds(d) && (d.None? ==> fold.done)
      ensures var t := WithFold(CanonActs(recs), d);
              match stop
              case Some(v) => v.at == j && !v.Through? && ReplayFrom(o, t, recs, torn, j) == v
              case None =>
                && ReplayFrom(o, t, recs, torn, j) == ReplayFrom(o, t, recs, torn, j + 1)
                && Tracking(o, CanonActs(recs), d, |CanonActs(recs[..j + 1])|, fold.done, sim.State())
                && sim.State().icount == (if recs[j].IsEnd() then end else recs[j].icount)
                && EpochEvents(segmentIndex, EpochsOf(recs[..j + 1]))
                   == EpochEvents(segmentIndex, EpochsOf(recs[..j])) + seen
                && |EpochsOf(recs[..j + 1])| == |EpochsOf(recs[..j])| + |seen|
    {
      hide *;
      OrderlyParts(recs, end);
      CompareTurn(o, recs, torn, d, j, fold.done, sim.State(), segmentIndex);
      RecordFits(recs, j, end);
      KindOfEnd(recs[j]);
      stop, seen := None, [];
      if recs[j].IsEnd() {
        MeetEnd(recs, j, end, sim, fold, o, d);
        return;
      }
      var fault := Meet(sim, fold, recs[j], d);
      if fault.Some? {
        stop := Some(Faulted(fault.value, j));
      } else if IsEpochRecord(recs[j]) {
        if |recs[j].payload| != 40 {
          return Some(Faulted(UnappliableRecord(recs[j].icount), j)), [];
        }
        var epoch := EpochOf(recs[j]);
        var chain := sim.EpochChain();
        if chain == epoch.chain {
          seen := [EpochOk(segmentIndex, epoch.index, recs[j].icount)];
        } else {
          stop := Some(Mismatch(j));
        }
      }
    }

    /** Meet every record, comparing each recorded epoch hash; stop at the first that
        disagrees. */
    method Compare(recs: seq<Record>, torn: bool, end: u64, segmentIndex: u32, sim: GuestSim, fold: VirtualFold,
                   ghost o: Origin, ghost d: Option<Act>)
        returns (v: Honest, events: seq<VerifyEvent>, epochsOk: nat)
      requires Orderly(recs, end)
      requires fold.Holds(d) && (d.None? ==> fold.done) && sim.State().icount == 0
      requires Tracking(o, CanonActs(recs), d, |CanonActs(recs[..0])|, fold.done, sim.State())
      modifies sim, fold`done
      ensures v == ReplayFrom(o, WithFold(CanonActs(recs), d), recs, torn, 0)
      ensures events == EpochEvents(segmentIndex, EpochsOf(recs[..v.at])) && epochsOk == |EpochsOf(recs[..v.at])|
      ensures fold.Holds(d)
      ensures v.Through? ==> sim.State().icount <= end && (d.Some? && !fold.done ==> sim.State().icount <= d.value.at)
      ensures v.Through? ==>
                FinishAt(d, fold.done, sim.State(), end) == StateAt(o, WithFold(CanonActs(recs), d), end)
    {
      ghost var t := WithFold(CanonActs(recs), d);
      events, epochsOk := [], 0;
      NoEpochsYet(segmentIndex, recs);
      hide *;
      OrderlyParts(recs, end);
      StartComparing(o, recs, d, fold.done, sim.State(), end);
      var j := 0;
      while j < |recs|
        invariant 0 <= j <= |recs| && fold.Holds(d)
        invariant Comparing(o, recs, d, j, fold.done, sim.State(), end)
        invariant ReplayFrom(o, t, recs, torn, 0) == ReplayFrom(o, t, recs, torn, j)
        invariant events == EpochEvents(segmentIndex, EpochsOf(recs[..j])) && epochsOk == |EpochsOf(recs[..j])|
      {
        ComparingParts(o, recs, d, j, fold.done, sim.State(), end);
        var stop, seen := CompareOne(recs, torn, j, end, segmentIndex, sim, fold, o, d);
        if stop.Some? {
          return stop.value, events, epochsOk;
        }
        NextComparing(o, recs, d, j, fold.done, sim.State(), end);
        events := events + seen;
        epochsOk := epochsOk + |seen|;
        j := j + 1;
      }
      ReplayDone(o, t, recs, torn);
      if torn {
        return Faulted(UnappliableRecord(0), j), events, epochsOk;
      }
      ComparingEnds(o, recs, d, fold.done, sim.State(), end);
      v := Through(j);
    }

    /** A full honest replay from the segment's base. */
    method Replay(s: Segment, run: nat, segmentIndex: u32) returns (h: HonestRun)
      requires s.Valid() && Steppable(s)
      ensures h.end == HonestReplay(defect, s, run, segmentIndex) && h.end.at <= |Records(s)|
      ensures h.events == EpochEvents(segmentIndex, EpochsOf(Records(s)[..h.end.at]))
      ensures h.epochsOk == |EpochsOf(Records(s)[..h.end.at])|
      ensures h.end.Through? ==> h.endHash == ReplayedEnd(defect, s, run, segmentIndex)
    {
      hide Tracking, CanonActs, FoldFor, MeetRecord, Segment.Walk, Records, Segment.Valid, OriginOf, StateAt, FinishAt,
           ReplayFrom, Steppable, EpochEvents, EpochsOf, ChainValue, Orderly;
      var end := s.header.endIcount;
      ghost var d := FoldFor(defect, Replayed(run), segmentIndex);
      var sim := new GuestSim(OriginOf(s.header));
      var fold := new VirtualFold(FoldFor(defect, Replayed(run), segmentIndex));
      SteppableIsOrderly(s);
      StartOfWalk(OriginOf(s.header), Records(s), d);
      var v, events, epochsOk :=
        Compare(Records(s), s.Walk().torn, end, segmentIndex, sim, fold, OriginOf(s.header), d);
      var endHash := Zeros(32);
      if v.Through? {
        StopAt(sim, fold, end, d);
        endHash := sim.Hash();
      }
      h := HonestRun(v, epochsOk, events, endHash);
    }

    /** The chain a replayed probe has at an icount. */
    method ProbeChain(s: Segment, icount: u64, run: nat, segmentIndex: u32) returns (chain: Hash32)
      requires s.Valid() && Steppable(s) && icount <= s.header.endIcount
      requires FaultFrom(Records(s), s.Walk().torn, 0, s.header.endIcount) == None
      ensures chain == ChainAt(OriginOf(s.header), Timeline(defect, s, Replayed(run), segmentIndex), icount / EPOCH)
    {
      hide Segment.Walk, Records, Segment.Valid, OriginOf, Timeline, ChainAt, RegAt, Steppable, SteppableTo, SimResult;
      NoFaultBefore(Records(s), s.Walk().torn, 0, icount, s.header.endIcount);
      StepBounds(s, icount);
      SimResultIs(defect, s, icount, Replayed(run), segmentIndex);
      var sim := SimTo(s, icount, Replayed(run), segmentIndex);
      chain := sim.value.EpochChain();
    }

    /** Whether replay and recording have the same state hash at an icount. */
    method ProbeState(s: Segment, icount: u64, run: nat, segmentIndex: u32) returns (same: bool)
      requires s.Valid() && Steppable(s) && icount <= s.header.endIcount
      requires FaultFrom(Records(s), s.Walk().torn, 0, s.header.endIcount) == None
      ensures same == Agreement(OriginOf(s.header), Timeline(defect, s, Replayed(run), segmentIndex),
                                Timeline(defect, s, Recorded, segmentIndex))(icount)
    {
      hide Segment.Walk, Records, Segment.Valid, OriginOf, Timeline, StateAt, ChainValue, Steppable, SteppableTo,
           SimResult;
      NoFaultBefore(Records(s), s.Walk().torn, 0, icount, s.header.endIcount);
      StepBounds(s, icount);
      SimResultIs(defect, s, icount, Replayed(run), segmentIndex);
      SimResultIs(defect, s, icount, Recorded, segmentIndex);
      var replayed := SimTo(s, icount, Replayed(run), segmentIndex);
      var oracle := SimTo(s, icount, Recorded, segmentIndex);
      var a := replayed.value.Hash();
      var b := oracle.value.Hash();
      same := a == b;
    }

    /** One run: whether the replay reproduces a recorded epoch hash. */
    method ProbeEpoch(s: Segment, run: nat, segmentIndex: u32, epochs: seq<Epoch>, mid: nat) returns (ok: bool)
      requires s.Valid() && Steppable(s) && EpochsOrdered(epochs, s.header.endIcount) && mid < |epochs|
      requires FaultFrom(Records(s), s.Walk().torn, 0, s.header.endIcount) == None
      modifies this`runs
      ensures runs == old(runs) + 1
      ensures ok == EpochsGood(OriginOf(s.header), Timeline(defect, s, Replayed(run), segmentIndex), epochs)[mid]
    {
      hide Segment.Walk, Records, Segment.Valid, OriginOf, Timeline, ChainAt, Steppable;
      runs := runs + 1;
      var chain := ProbeChain(s, epochs[mid].icount, run, segmentIndex);
      ok := chain == epochs[mid].chain;
    }

    /** Binary search over the recorded epoch hashes; every probe costs a run. */
    method SearchEpochRecords(s: Segment, run: nat, segmentIndex: u32, budget: RunBudget, epochs: seq<Epoch>)
        returns (lo: u64, hi: u64)
      requires s.Valid() && Steppable(s) && budget.Valid() && EpochsOrdered(epochs, s.header.endIcount)
      requires FaultFrom(Records(s), s.Walk().torn, 0, s.header.endIcount) == None
      modifies this`runs, budget`used
      ensures budget.Valid() && runs - old(runs) == budget.used - old(budget.used)
      ensures var good := EpochsGood(OriginOf(s.header), Timeline(defect, s, Replayed(run), segmentIndex), epochs);
              var p := EpochPhase(good, old(budget.Remaining()));
              lo == WindowStart(epochs, p) && hi == WindowEnd(epochs, p, s.header.endIcount)
              && budget.Remaining() == p.fuel
    {
      hide *;
      var end := s.header.endIcount;
      ghost var good := EpochsGood(OriginOf(s.header), Timeline(defect, s, Replayed(run), segmentIndex), epochs);
      lo, hi := 0, end;
      var a: nat, b: int := 0, |epochs| - 1;
      var firstBad := Nothing;
      ghost var fuel := budget.Remaining();
      SearchStart(good, epochs, end, fuel);
      while a <= b
        invariant budget.Valid() && runs - old(runs) == budget.used - old(budget.used)
        invariant Underway(good, epochs, end, fuel, Probed(a, b, firstBad, budget.Remaining()), lo, hi)
        decreases b - a
      {
        ghost var p := Probed(a, b, firstBad, budget.Remaining());
        var ok := budget.TryConsume();
        if !ok {
          break;
        }
        ProbeTurn(good, epochs, end, fuel, p, lo, hi);
        var mid := (a + b) / 2;
        var same := ProbeEpoch(s, run, segmentIndex, epochs, mid);
        if same {
          lo := Max(lo, epochs[mid].icount);
          a := mid + 1;
        } else {
          hi := Min(hi, epochs[mid].icount);
          firstBad := Found(mid);
          if mid == 0 {
            b := -1; // unread from here on; the range is empty
            break;
          }
          b := mid - 1;
        }
      }
      SearchOver(good, epochs, end, fuel, Probed(a, b, firstBad, budget.Remaining()), lo, hi);
      if firstBad.Found? {
        var bad := firstBad.k;
        hi := Min(hi, epochs[bad].icount);
        if bad > 0 {
          lo := Max(lo, epochs[bad - 1].icount);
        }
      }
    }

    /** One run: whether replay and recording agree at an icount. */
    method ProbeIcount(s: Segment, run: nat, segmentIndex: u32, mid: u64) returns (same: bool)
      requires s.Valid() && Steppable(s) && mid <= s.header.endIcount
      requires FaultFrom(Records(s), s.Walk().torn, 0, s.header.endIcount) == None
      modifies this`runs
      ensures runs == old(runs) + 1
      ensures same == Agreement(OriginOf(s.header), Timeline(defect, s, Replayed(run), segmentIndex),
                                Timeline(defect, s, Recorded, segmentIndex))(mid)
    {
      hide *;
      runs := runs + 1;
      same := ProbeState(s, mid, run, segmentIndex);
    }

    /** Binary search over icounts, then one confirming run if any remain. */
    method NarrowIcounts(s: Segment, run: nat, segmentIndex: u32, budget: RunBudget, from: u64, to: u64)
        returns (lo: u64, hi: u64, exact: Option<u64>)
      requires s.Valid() && Steppable(s) && budget.Valid() && to <= s.header.endIcount
      requires FaultFrom(Records(s), s.Walk().torn, 0, s.header.endIcount) == None
      modifies this`runs, budget`used
      ensures budget.Valid() && runs - old(runs) == budget.used - old(budget.used)
      ensures var agree := Agreement(OriginOf(s.header), Timeline(defect, s, Replayed(run), segmentIndex),
                                     Timeline(defect, s, Recorded, segmentIndex));
              Pinpoint(agree, from, to, old(budget.Remaining())) == Window(lo, hi, exact.Some?, budget.Remaining())
      ensures exact.Some? ==> exact.value == lo == hi
    {
      hide *;
      ghost var agree := Agreement(OriginOf(s.header), Timeline(defect, s, Replayed(run), segmentIndex),
                                   Timeline(defect, s, Recorded, segmentIndex));
      ghost var start := Narrowed(from, to, from, to, budget.Remaining());
      lo, hi, exact := from, to, None;
      var a: u64, b: u64 := from, to;
      while a < b
        invariant budget.Valid() && runs - old(runs) == budget.used - old(budget.used)
        invariant a <= b || (a == from && b == to)
        invariant b <= to
        invariant Narrow(agree, start) == Narrow(agree, Narrowed(a, b, lo, hi, budget.Remaining()))
        decreases b - a
      {
        NarrowStep(agree, Narrowed(a, b, lo, hi, budget.Remaining()));
        var ok := budget.TryConsume();
        if !ok {
          break;
        }
        var mid: u64 := a + (b - a) / 2;
        var same := ProbeIcount(s, run, segmentIndex, mid);
        if same {
          a := mid + 1;
          lo := mid;
        } else {
          b := mid;
          hi := mid;
        }
      }
      NarrowStops(agree, Narrowed(a, b, lo, hi, budget.Remaining()));
      PinpointIs(agree, from, to, start.fuel);
      if a == b {
        var ok := budget.TryConsume();
        if ok {
          var same := ProbeIcount(s, run, segmentIndex, a);
          if !same {
            exact := Some(a);
            hi := a;
            lo := a;
          }
        }
      }
    }

    /** A divergence with its native bisection: search the epoch hashes, narrow the icounts,
        and report where it ended. */
    method Bisect(s: Segment, run: nat, segmentIndex: u32, budget: RunBudget, replayEnd: Hash32) returns (r: Outcome)
      requires s.Valid() && Steppable(s) && budget.Valid()
      requires FaultFrom(Records(s), s.Walk().torn, 0, s.header.endIcount) == None
      modifies this`runs, budget`used
      ensures budget.Valid() && runs - old(runs) == budget.used - old(budget.used)
      ensures var w := NativeWindow(defect, s, segmentIndex, run, old(budget.Remaining()));
              && r.Diverged? && r.lo == w.lo && r.hi == w.hi && budget.Remaining() == w.fuel
              && r.diagnostics == Diagnose(defect, s, r.hi, segmentIndex, run) && r.endStateHash == replayEnd
    {
      hide *;
      var epochs := EpochsOf(Records(s));
      EpochsInWindow(s);
      ghost var fuel := budget.Remaining();
      var lo, hi := SearchEpochRecords(s, run, segmentIndex, budget, epochs);
      NativeWindowIs(defect, s, segmentIndex, run, fuel);
      var exact: Option<u64>;
      lo, hi, exact := NarrowIcounts(s, run, segmentIndex, budget, lo, hi);
      var at := if exact.Some? then exact.value else hi;
      r := Diverged(lo, hi, Diagnose(defect, s, at, segmentIndex, run), replayEnd);
    }

    /** One full run. A divergence is reported over the whole segment, or bisected with
        what is left of the budget. */
    method VerifySegment(base: Hash32, s: Segment, bisect: bool, segmentIndex: u32, budget: RunBudget)
        returns (r: Result<Outcome, HvFault>, events: seq<VerifyEvent>)
      requires s.Valid() && budget.Valid()
      requires base == s.header.baseSnapshot && budget.Remaining() > 0 ==> Steppable(s)
      modifies this`runs, budget`used
      ensures budget.Valid() && runs - old(runs) == budget.used - old(budget.used)
      ensures base != s.header.baseSnapshot ==> r == Err(BaseMismatch) && events == [] && runs == old(runs)
      ensures base == s.header.baseSnapshot && old(budget.Remaining()) == 0 ==>
                r == Err(NoBudget) && events == [] && runs == old(runs)
      ensures base == s.header.baseSnapshot && old(budget.Remaining()) > 0 ==>
                && events == RunEvents(defect, s, old(runs), segmentIndex)
                && (if bisect then IsBisected(defect, s, segmentIndex, old(runs), old(budget.Remaining()) - 1, r)
                    else r == Unbisected(defect, s, segmentIndex, old(runs)))
                && (!bisect || r.Err? || r.value.Verified? ==> runs == old(runs) + 1)
                && (bisect && r.Ok? && r.value.Diverged? ==>
                      budget.Remaining()
                      == NativeWindow(defect, s, segmentIndex, old(runs), old(budget.Remaining()) - 1).fuel)
    {
      hide *;
      events := [];
      if base != s.header.baseSnapshot {
        return Err(BaseMismatch), events;
      }
      var ok := budget.TryConsume();
      if !ok {
        return Err(NoBudget), events;
      }
      var run := runs;
      runs := runs + 1;
      events := events + [SegmentStarted(segmentIndex)];
      var h := Replay(s, run, segmentIndex);
      events := events + h.events;
      RunIs(defect, s, segmentIndex, run);
      NothingToBisect(defect, s, segmentIndex, run, budget.Remaining());
      if h.end.Faulted? {
        return Err(h.end.fault), events;
      }
      var diverged := h.end.Mismatch? || h.endHash != s.header.endStateHash;
      events := events + [RunCompleted(segmentIndex)];
      if !diverged {
        return Ok(Verified(h.endHash, h.epochsOk)), events;
      }
      StepBounds(s, s.header.endIcount);
      var end := SimTo(s, s.header.endIcount, Replayed(run), segmentIndex);
      EndOfRun(defect, s, segmentIndex, run);
      if end.Err? {
        return Err(end.error), events;
      }
      var replayEnd := end.value.Hash();
      if !bisect {
        r := Ok(Diverged(0, s.header.endIcount, Diagnose(defect, s, s.header.endIcount, segmentIndex, run), replayEnd));
      } else {
        ghost var fuel := budget.Remaining();
        var o := Bisect(s, run, segmentIndex, budget, replayEnd);
        BisectedIs(defect, s, segmentIndex, run, fuel, o);
        r := Ok(o);
      }
    }

    /** Exact-icount stop probe. It simulates as segment 0, whatever segment this is. */
    method RunToIcount(base: Hash32, s: Segment, stop: u64, budget: RunBudget) returns (r: Result<Hash32, HvFault>)
      requires s.Valid() && budget.Valid()
      requires base == s.header.baseSnapshot && stop <= s.header.endIcount && budget.Remaining() > 0 ==>
                 SteppableTo(s, stop)
      modifies this`runs, budget`used
      ensures budget.Valid() && runs - old(runs) == budget.used - old(budget.used)
      ensures base != s.header.baseSnapshot ==> r == Err(BaseMismatch) && runs == old(runs)
      ensures base == s.header.baseSnapshot && stop > s.header.endIcount ==>
                r == Err(ProbePastEnd(stop, s.header.endIcount)) && runs == old(runs)
      ensures base == s.header.baseSnapshot && stop <= s.header.endIcount && old(budget.Remaining()) == 0 ==>
                r == Err(NoBudget) && runs == old(runs)
      ensures base == s.header.baseSnapshot && stop <= s.header.endIcount && old(budget.Remaining()) > 0 ==>
                && runs == old(runs) + 1
                && r == ProbeResult(defect, s, stop, old(runs))
    {
      hide *;
      if base != s.header.baseSnapshot {
        return Err(BaseMismatch);
      }
      if stop > s.header.endIcount {
        return Err(ProbePastEnd(stop, s.header.endIcount));
      }
      var ok := budget.TryConsume();
      if !ok {
        return Err(NoBudget);
      }
      var run := runs;
      runs := runs + 1;
      var sim := SimTo(s, stop, Replayed(run), 0);
      ProbeIs(defect, s, stop, run);
      if sim.Err? {
        return Err(sim.error);
      }
      var h := sim.value.Hash();
      r := Ok(h);
    }
  }

  /** What a probe to `stop` returns: the replay of segment 0's defect, if any. */
  function ProbeResult(defect: Defect, s: Segment, stop: u64, run: nat): Result<Hash32, HvFault>
    requires s.Valid()
  {
    match SimResult(defect, s, stop, Replayed(run), 0)
    case Err(f) => Err(f)
    case Ok(g) => Ok(ChainValue(g))
  }

  lemma ProbeIs(defect: Defect, s: Segment, stop: u64, run: nat)
    requires s.Valid()
    ensures ProbeResult(defect, s, stop, run) ==
            match SimResult(defect, s, stop, Replayed(run), 0)
            case Err(f) => Err(f)
            case Ok(g) => Ok(ChainValue(g))
  {
  }

  lemma NativeWindowIs(defect: Defect, s: Segment, segmentIndex: u32, run: nat, fuel: nat)
    requires s.Valid() && Steppable(s)
    ensures var o, es := OriginOf(s.header), EpochsOf(Records(s));
            var replayed := Timeline(defect, s, Replayed(run), segmentIndex);
            var p := EpochPhase(EpochsGood(o, replayed, es), fuel);
            && WindowEnd(es, p, s.header.endIcount) <= s.header.endIcount
            && NativeWindow(defect, s, segmentIndex, run, fuel)
               == Pinpoint(Agreement(o, replayed, Timeline(defect, s, Recorded, segmentIndex)),
                           WindowStart(es, p), WindowEnd(es, p, s.header.endIcount), p.fuel)
  {
    EpochsInWindow(s);
    hide Agreement, Timeline, OriginOf, Records, Steppable;
  }

  lemma NativeWindowBounded(defect: Defect, s: Segment, segmentIndex: u32, run: nat, fuel: nat)
    requires s.Valid() && Steppable(s)
    ensures var w := NativeWindow(defect, s, segmentIndex, run, fuel);
            w.lo <= w.hi <= s.header.endIcount && w.fuel <= fuel
  {
    hide *;
    var o, es := OriginOf(s.header), EpochsOf(Records(s));
    var replayed := Timeline(defect, s, Replayed(run), segmentIndex);
    var agree := Agreement(o, replayed, Timeline(defect, s, Recorded, segmentIndex));
    var good := EpochsGood(o, replayed, es);
    var p := EpochPhase(good, fuel);
    EpochsInWindow(s);
    NativeWindowIs(defect, s, segmentIndex, run, fuel);
    BracketOrdered(good, es, p, s.header.endIcount);
    PinpointShrinks(agree, WindowStart(es, p), WindowEnd(es, p, s.header.endIcount), p.fuel);
  }

  lemma BracketOrdered(good: seq<bool>, es: seq<Epoch>, p: Probed, end: u64)
    requires EpochsOrdered(es, end) && |good| == |es| && Brackets(good, p)
    ensures p.a <= |es| && (p.bad.Found? ==> p.bad.k < |es|)
    ensures WindowStart(es, p) <= WindowEnd(es, p, end) <= end
  {
  }

  lemma PinpointShrinks(agree: nat -> bool, lo: nat, hi: nat, fuel: nat)
    requires lo <= hi
    ensures var w := Pinpoint(agree, lo, hi, fuel);
            lo <= w.lo <= w.hi <= hi && w.fuel <= fuel
  {
    hide Narrow;
    NarrowShrinks(agree, Narrowed(lo, hi, lo, hi, fuel));
  }

  /** The parts of a run, as its result and its events name them. */
  lemma RunIs(defect: Defect, s: Segment, segmentIndex: u32, run: nat)
    requires s.Valid()
    ensures var v := HonestReplay(defect, s, run, segmentIndex);
            && RunEvents(defect, s, run, segmentIndex)
               == [SegmentStarted(segmentIndex)] + EpochEvents(segmentIndex, EpochsOf(Records(s)[..v.at]))
                  + (if v.Faulted? then [] else [RunCompleted(segmentIndex)])
            && (v.Faulted? ==> Unbisected(defect, s, segmentIndex, run) == Err(v.fault))
            && (v.Through? && ReplayedEnd(defect, s, run, segmentIndex) == s.header.endStateHash ==>
                  Unbisected(defect, s, segmentIndex, run)
                  == Ok(Verified(ReplayedEnd(defect, s, run, segmentIndex), |EpochsOf(Records(s)[..v.at])|)))
  {
    hide EpochsOf, EpochEvents, ReplayedEnd, ReplayFrom, Timeline;
    var v := HonestReplay(defect, s, run, segmentIndex);
    ThroughIsAll(OriginOf(s.header), Timeline(defect, s, Replayed(run), segmentIndex), Records(s), s.Walk().torn, 0);
    assert Records(s)[..|Records(s)|] == Records(s);
  }

  lemma {:induction false} ThroughIsAll(o: Origin, acts: seq<Act>, recs: seq<Record>, torn: bool, j: nat)
    requires j <= |recs|
    ensures ReplayFrom(o, acts, recs, torn, j).Through? ==> ReplayFrom(o, acts, recs, torn, j).at == |recs| && !torn
    decreases |recs| - j
  {
    if j < |recs| {
      ThroughIsAll(o, acts, recs, torn, j + 1);
    }
  }

  lemma EndOfRun(defect: Defect, s: Segment, segmentIndex: u32, run: nat)
    requires s.Valid() && Steppable(s)
    requires var v := HonestReplay(defect, s, run, segmentIndex);
             v.Mismatch? || (v.Through? && ReplayedEnd(defect, s, run, segmentIndex) != s.header.endStateHash)
    ensures var end := SimResult(defect, s, s.header.endIcount, Replayed(run), segmentIndex);
            && (end.Err? ==> Unbisected(defect, s, segmentIndex, run) == Err(end.error))
            && (end.Ok? ==>
                 && FaultFrom(Records(s), s.Walk().torn, 0, s.header.endIcount) == None
                 && Unbisected(defect, s, segmentIndex, run)
                    == Ok(Diverged(0, s.header.endIcount, Diagnose(defect, s, s.header.endIcount, segmentIndex, run),
                                   ChainValue(end.value))))
  {
    StepBounds(s, s.header.endIcount);
    hide ReplayFrom, Timeline, Diagnose, FaultFrom, SimResult, Steppable, SteppableTo, Records, Segment.Valid;
    if FaultFrom(Records(s), s.Walk().torn, 0, s.header.endIcount) == None {
      SimResultIs(defect, s, s.header.endIcount, Replayed(run), segmentIndex);
    } else {
      SimFault(defect, s, s.header.endIcount, Replayed(run), segmentIndex);
    }
  }

  lemma SimFault(defect: Defect, s: Segment, stop: u64, side: Side, segmentIndex: u32)
    requires s.Valid() && FaultFrom(Records(s), s.Walk().torn, 0, stop).Some?
    ensures SimResult(defect, s, stop, side, segmentIndex) == Err(FaultFrom(Records(s), s.Walk().torn, 0, stop).value)
  {
    hide FaultFrom;
  }

  lemma NothingToBisect(defect: Defect, s: Segment, segmentIndex: u32, run: nat, fuel: nat)
    requires s.Valid()
    ensures var u := Unbisected(defect, s, segmentIndex, run);
            u.Err? || u.value.Verified? ==> IsBisected(defect, s, segmentIndex, run, fuel, u)
  {
    hide Unbisected, NativeWindow, Diagnose;
  }

  lemma BisectedIs(defect: Defect, s: Segment, segmentIndex: u32, run: nat, fuel: nat, o: Outcome)
    requires s.Valid() && o.Diverged?
    requires Unbisected(defect, s, segmentIndex, run).Ok? && Unbisected(defect, s, segmentIndex, run).value.Diverged?
    requires o.endStateHash == Unbisected(defect, s, segmentIndex, run).value.endStateHash
    requires o.diagnostics == Diagnose(defect, s, o.hi, segmentIndex, run)
    requires NativeWindow(defect, s, segmentIndex, run, fuel).lo == o.lo
             && NativeWindow(defect, s, segmentIndex, run, fuel).hi == o.hi
    ensures IsBisected(defect, s, segmentIndex, run, fuel, Ok(o))
  {
    hide Unbisected, NativeWindow, Diagnose;
  }

  lemma NarrowStep(agree: nat -> bool, t: Narrowed)
    requires t.a < t.b
    ensures t.fuel > 0 ==>
              var mid := t.a + (t.b - t.a) / 2;
              Narrow(agree, t) == Narrow(agree, if agree(mid) then Narrowed(mid + 1, t.b, mid, t.hi, t.fuel - 1)
                                                else Narrowed(t.a, mid, t.lo, mid, t.fuel - 1))
  {
  }

  lemma NarrowStops(agree: nat -> bool, t: Narrowed)
    requires t.a >= t.b || t.fuel == 0
    ensures Narrow(agree, t) == t
  {
  }

  lemma PinpointIs(agree: nat -> bool, lo: nat, hi: nat, fuel: nat)
    ensures var t := Narrow(agree, Narrowed(lo, hi, lo, hi, fuel));
            Pinpoint(agree, lo, hi, fuel) ==
            if t.a == t.b && t.fuel > 0 then
              if agree(t.a) then Window(t.lo, t.hi, false, t.fuel - 1) else Window(t.a, t.a, true, t.fuel - 1)
            else Window(t.lo, t.hi, false, t.fuel)
  {
  }

  ghost predicate EpochsOrdered(es: seq<Epoch>, end: u64) {
    && (forall i, j :: 0 <= i < j < |es| ==> es[i].icount <= es[j].icount)
    && (forall i :: 0 <= i < |es| ==> es[i].icount <= end)
  }

  ghost predicate EpochsAfter(es: seq<Epoch>, n: u64) {
    forall i :: 0 <= i < |es| ==> n <= es[i].icount
  }

  lemma EpochsOfParts(recs: seq<Record>)
    ensures recs == [] ==> EpochsOf(recs) == []
    ensures recs != [] ==>
              var head := if IsEpochRecord(recs[0]) && |recs[0].payload| == 40 then [EpochOf(recs[0])] else [];
              EpochsOf(recs) == head + EpochsOf(recs[1..])
  {
  }

  lemma OrderedCons(head: seq<Epoch>, es: seq<Epoch>, n: u64, m: u64, end: u64)
    requires n <= m <= end && EpochsOrdered(es, end) && EpochsAfter(es, m)
    requires |head| <= 1 && (head != [] ==> head[0].icount == m)
    ensures EpochsOrdered(head + es, end) && EpochsAfter(head + es, n)
  {
  }

  lemma {:induction false} EpochsFrom(recs: seq<Record>, n: u64, end: u64)
    requires InOrder(recs) && Within(recs, end) && forall i :: 0 <= i < |recs| ==> n <= recs[i].icount
    ensures EpochsOrdered(EpochsOf(recs), end) && EpochsAfter(EpochsOf(recs), n)
    decreases |recs|
  {
    hide EpochsOf, IsEpochRecord;
    EpochsOfParts(recs);
    if recs != [] {
      hide EpochsOrdered, EpochsAfter;
      EpochsFrom(recs[1..], recs[0].icount, end);
      var head := if IsEpochRecord(recs[0]) && |recs[0].payload| == 40 then [EpochOf(recs[0])] else [];
      OrderedCons(head, EpochsOf(recs[1..]), n, recs[0].icount, end);
    }
  }

  lemma EpochsInWindow(s: Segment)
    requires s.Valid() && Steppable(s)
    ensures EpochsOrdered(EpochsOf(Records(s)), s.header.endIcount)
  {
    EpochsFrom(Records(s), 0, s.header.endIcount);
  }

  lemma GoodIs(o: Origin, acts: seq<Act>, es: seq<Epoch>, i: nat)
    requires i < |es|
    ensures EpochsGood(o, acts, es)[i] <==> ChainAt(o, acts, es[i].icount / EPOCH) == es[i].chain
  {
  }

  /** The search in progress: what is bracketed, and the window the probes give. */
  ghost predicate Searching(good: seq<bool>, es: seq<Epoch>, end: u64, p: Probed, lo: u64, hi: u64) {
    && |good| == |es| && EpochsOrdered(es, end) && Brackets(good, p)
    && lo == (if p.a > 0 then es[p.a - 1].icount else 0)
    && hi == WindowEnd(es, p, end)
  }

  /** ... and the search from here is the rest of the whole one. */
  ghost predicate Underway(good: seq<bool>, es: seq<Epoch>, end: u64, fuel: nat, p: Probed, lo: u64, hi: u64) {
    Searching(good, es, end, p, lo, hi) && EpochPhase(good, fuel) == SearchEpochs(good, p)
  }

  lemma SearchStart(good: seq<bool>, es: seq<Epoch>, end: u64, fuel: nat)
    requires |good| == |es| && EpochsOrdered(es, end)
    ensures var p := Probed(0, |good| - 1, Nothing, fuel);
            Underway(good, es, end, fuel, p, 0, end)
  {
  }

  lemma SearchStops(good: seq<bool>, p: Probed)
    requires p.b < |good| && (p.a > p.b || p.fuel == 0)
    ensures SearchEpochs(good, p) == p
  {
  }

  lemma SearchingRange(good: seq<bool>, es: seq<Epoch>, p: Probed, end: u64, lo: u64, hi: u64)
    requires Searching(good, es, end, p, lo, hi)
    ensures p.b < |es| == |good|
  {
    hide EpochsOrdered, WindowEnd;
  }

  lemma ProbeGoes(good: seq<bool>, p: Probed)
    requires p.a <= p.b < |good| && p.fuel > 0
    ensures p.Open() && SearchEpochs(good, p) == SearchEpochs(good, Probe(good, p)) && Probe(good, p).b < |good|
    ensures var mid := (p.a + p.b) / 2;
            && p.a <= mid <= p.b
            && Probe(good, p) == (if good[mid] then Probed(mid + 1, p.b, p.bad, p.fuel - 1)
                                  else Probed(p.a, mid - 1, Found(mid), p.fuel - 1))
  {
  }

  /** One probe of the method's loop is one probe of the search. */
  lemma ProbeAt(good: seq<bool>, es: seq<Epoch>, p: Probed, end: u64, lo: u64, hi: u64)
    requires Searching(good, es, end, p, lo, hi) && p.a <= p.b && p.fuel > 0
    ensures p.Open() && p.b < |es| == |good|
    ensures SearchEpochs(good, p) == SearchEpochs(good, Probe(good, p)) && Probe(good, p).b < |good|
    ensures var mid := (p.a + p.b) / 2;
            && p.a <= mid <= p.b
            && Probe(good, p) == (if good[mid] then Probed(mid + 1, p.b, p.bad, p.fuel - 1)
                                  else Probed(p.a, mid - 1, Found(mid), p.fuel - 1))
  {
    hide Searching, SearchEpochs, Probe;
    SearchingRange(good, es, p, end, lo, hi);
    ProbeGoes(good, p);
  }

  lemma GoodProbe(good: seq<bool>, es: seq<Epoch>, p: Probed, end: u64, lo: u64, hi: u64, mid: nat)
    requires Searching(good, es, end, p, lo, hi) && p.a <= mid <= p.b < |es| == |good| && good[mid] && p.fuel > 0
    ensures Searching(good, es, end, Probed(mid + 1, p.b, p.bad, p.fuel - 1), Max(lo, es[mid].icount), hi)
  {
    assert p.a > 0 ==> es[p.a - 1].icount <= es[mid].icount;
  }

  lemma BadProbe(good: seq<bool>, es: seq<Epoch>, p: Probed, end: u64, lo: u64, hi: u64, mid: nat)
    requires Searching(good, es, end, p, lo, hi) && p.a <= mid <= p.b < |es| == |good| && !good[mid] && p.fuel > 0
    ensures Searching(good, es, end, Probed(p.a, mid - 1, Found(mid), p.fuel - 1), lo, Min(hi, es[mid].icount))
  {
    assert p.bad.Found? ==> es[mid].icount <= es[p.bad.k].icount;
    assert es[mid].icount <= end;
  }

  /** One probe of the method's loop: where it leads the search and the window. */
  lemma ProbeTurn(good: seq<bool>, es: seq<Epoch>, end: u64, fuel: nat, p: Probed, lo: u64, hi: u64)
    requires Underway(good, es, end, fuel, p, lo, hi) && p.a <= p.b && p.fuel > 0
    ensures var mid := (p.a + p.b) / 2;
            && p.a <= mid <= p.b < |es| == |good|
            && (good[mid] ==>
                  Underway(good, es, end, fuel, Probed(mid + 1, p.b, p.bad, p.fuel - 1), Max(lo, es[mid].icount), hi))
            && (!good[mid] ==>
                  Underway(good, es, end, fuel, Probed(p.a, mid - 1, Found(mid), p.fuel - 1), lo,
                           Min(hi, es[mid].icount)))
  {
    hide Searching, SearchEpochs, EpochPhase, Max, Min, Probe;
    ProbeAt(good, es, p, end, lo, hi);
    var mid := (p.a + p.b) / 2;
    if good[mid] {
      GoodProbe(good, es, p, end, lo, hi, mid);
    } else {
      BadProbe(good, es, p, end, lo, hi, mid);
    }
  }

  /** What the method does after its loop leaves the window of the search. */
  lemma SearchOver(good: seq<bool>, es: seq<Epoch>, end: u64, fuel: nat, p: Probed, lo: u64, hi: u64)
    requires Underway(good, es, end, fuel, p, lo, hi) && (p.a > p.b || p.fuel == 0)
    ensures p == EpochPhase(good, fuel) && (p.bad.Found? ==> p.bad.k < |es|) && p.a <= |es|
    ensures WindowEnd(es, p, end) == if p.bad.Found? then Min(hi, es[p.bad.k].icount) else hi
    ensures WindowStart(es, p) == if p.bad.Found? && p.bad.k > 0 then Max(lo, es[p.bad.k - 1].icount) else lo
  {
    hide EpochPhase, SearchEpochs, Searching, WindowStart, Max;
    SearchingBounds(good, es, end, p, lo, hi);
    SearchStops(good, p);
  }

  lemma SearchingBounds(good: seq<bool>, es: seq<Epoch>, end: u64, p: Probed, lo: u64, hi: u64)
    requires Searching(good, es, end, p, lo, hi)
    ensures |good| == |es| && p.a <= |es| && p.b < |es|
            && (p.bad.Found? ==> p.bad.k < |es| && Min(hi, es[p.bad.k].icount) == hi)
    ensures hi == WindowEnd(es, p, end)
    ensures WindowStart(es, p) == (if p.bad.Found? && p.bad.k > 0 then Max(lo, es[p.bad.k - 1].icount) else lo)
  {
    if p.bad.Found? && p.bad.k > 0 && p.a > 0 {
      assert es[p.a - 1].icount <= es[p.bad.k - 1].icount;
    }
  }

  /** The comparison in progress before record `j`. */
  ghost predicate Comparing(o: Origin, recs: seq<Record>, d: Option<Act>, j: nat, done: bool, g: Guest, end: u64)
    requires j <= |recs|
  {
    && Tracking(o, CanonActs(recs), d, |CanonActs(recs[..j])|, done, g)
    && g.icount <= end && (j < |recs| ==> g.icount <= recs[j].icount) && (d.None? ==> done)
  }

  lemma StartComparing(o: Origin, recs: seq<Record>, d: Option<Act>, done: bool, g: Guest, end: u64)
    requires Tracking(o, CanonActs(recs), d, |CanonActs(recs[..0])|, done, g) && g.icount == 0 && (d.None? ==> done)
    ensures Comparing(o, recs, d, 0, done, g, end)
  {
    hide Tracking, CanonActs;
  }

  lemma ComparingParts(o: Origin, recs: seq<Record>, d: Option<Act>, j: nat, done: bool, g: Guest, end: u64)
    requires j < |recs| && Comparing(o, recs, d, j, done, g, end)
    ensures Tracking(o, CanonActs(recs), d, |CanonActs(recs[..j])|, done, g)
    ensures g.icount <= recs[j].icount && (d.None? ==> done)
  {
    hide Tracking, CanonActs;
  }

  lemma NextComparing(o: Origin, recs: seq<Record>, d: Option<Act>, j: nat, done: bool, g: Guest, end: u64)
    requires j < |recs| && Orderly(recs, end) && (d.None? ==> done)
    requires Tracking(o, CanonActs(recs), d, |CanonActs(recs[..j + 1])|, done, g)
    requires g.icount == if recs[j].IsEnd() then end else recs[j].icount
    ensures Comparing(o, recs, d, j + 1, done, g, end)
  {
    hide Tracking, CanonActs, Record.IsEnd;
    RecordFits(recs, j, end);
    NextInOrder(recs, j);
  }

  lemma ComparingEnds(o: Origin, recs: seq<Record>, d: Option<Act>, done: bool, g: Guest, end: u64)
    requires Comparing(o, recs, d, |recs|, done, g, end) && InOrder(recs)
    ensures g.icount <= end && (d.Some? && !done ==> g.icount <= d.value.at)
    ensures FinishAt(d, done, g, end) == StateAt(o, WithFold(CanonActs(recs), d), end)
  {
    hide Tracking, CanonActs, FinishAt, StateAt, WithFold, InOrder;
    var acts, c := CanonActs(recs), |CanonActs(recs[..|recs|])|;
    NothingLeft(recs, |recs|, end);
    TrackPending(o, acts, d, c, done, g);
    FinishTracks(o, acts, d, c, done, g, end);
  }

  lemma NoEpochsYet(segmentIndex: u32, recs: seq<Record>)
    ensures EpochEvents(segmentIndex, EpochsOf(recs[..0])) == [] && EpochsOf(recs[..0]) == []
  {
  }

  lemma EpochOfIs(r: Record)
    requires |r.payload| == 40
    ensures EpochOf(r).chain == r.payload[8..40] && EpochOf(r).icount == r.icount
  {
  }

  lemma EpochStep(segmentIndex: u32, recs: seq<Record>, j: nat)
    requires j < |recs| && InOrder(recs)
    ensures EpochsOf(recs[..j + 1]) == EpochsOf(recs[..j])
              + (if IsEpochRecord(recs[j]) && |recs[j].payload| == 40 then [EpochOf(recs[j])] else [])
    ensures EpochEvents(segmentIndex, EpochsOf(recs[..j + 1])) == EpochEvents(segmentIndex, EpochsOf(recs[..j]))
              + (if IsEpochRecord(recs[j]) && |recs[j].payload| == 40
                 then [EpochOk(segmentIndex, EpochOf(recs[j]).index, recs[j].icount)] else [])
  {
    NextRecord(recs, j);
  }

  lemma ReplayStep(o: Origin, acts: seq<Act>, recs: seq<Record>, torn: bool, j: nat)
    requires j < |recs|
    ensures var r := recs[j];
            ReplayFrom(o, acts, recs, torn, j) ==
            if !r.IsAux() && !CanonicalKind(r.kind) then Faulted(UnappliableRecord(r.icount), j)
            else if !IsEpochRecord(r) then ReplayFrom(o, acts, recs, torn, j + 1)
            else if |r.payload| != 40 then Faulted(UnappliableRecord(r.icount), j)
            else if ChainAt(o, acts, r.icount / EPOCH) != r.payload[8..40] then Mismatch(j)
            else ReplayFrom(o, acts, recs, torn, j + 1)
    ensures IsEpochRecord(recs[j]) ==> recs[j].IsAux()
  {
  }

  /** What meeting record `j` means for the comparison, the timeline and the events. */
  lemma CompareTurn(o: Origin, recs: seq<Record>, torn: bool, d: Option<Act>, j: nat, done: bool, g: Guest,
                    segmentIndex: u32)
    requires j < |recs| && InOrder(recs)
    requires Tracking(o, CanonActs(recs), d, |CanonActs(recs[..j])|, done, g) && g.icount <= recs[j].icount
    requires d.None? ==> done
    ensures d.Some? && !done ==> g.icount <= d.value.at
    ensures var r, t, m := recs[j], WithFold(CanonActs(recs), d), MeetRecord(d, done, g, recs[j]);
            var next := ReplayFrom(o, t, recs, torn, j + 1);
            && ((r.IsAux() || CanonicalKind(r.kind)) ==>
                 m.1.icount == r.icount && Tracking(o, CanonActs(recs), d, |CanonActs(recs[..j + 1])|, m.0, m.1))
            && (IsEpochRecord(r) ==> r.IsAux())
            && (IsEpochRecord(r) && |r.payload| == 40 ==> EpochOf(r).chain == r.payload[8..40])
            && ReplayFrom(o, t, recs, torn, j) ==
               (if !r.IsAux() && !CanonicalKind(r.kind) then Faulted(UnappliableRecord(r.icount), j)
                else if !IsEpochRecord(r) then next
                else if |r.payload| != 40 then Faulted(UnappliableRecord(r.icount), j)
                else if m.1.chain != r.payload[8..40] then Mismatch(j)
                else next)
    ensures EpochsOf(recs[..j + 1]) == EpochsOf(recs[..j])
              + (if IsEpochRecord(recs[j]) && |recs[j].payload| == 40 then [EpochOf(recs[j])] else [])
    ensures EpochEvents(segmentIndex, EpochsOf(recs[..j + 1])) == EpochEvents(segmentIndex, EpochsOf(recs[..j]))
              + (if IsEpochRecord(recs[j]) && |recs[j].payload| == 40
                 then [EpochOk(segmentIndex, EpochOf(recs[j]).index, recs[j].icount)] else [])
  {
    var acts := CanonActs(recs);
    hide *;
    TrackPending(o, acts, d, |CanonActs(recs[..j])|, done, g);
    ReplayStep(o, WithFold(acts, d), recs, torn, j);
    EpochStep(segmentIndex, recs, j);
    if |recs[j].payload| == 40 {
      EpochOfIs(recs[j]);
    }
    if recs[j].IsAux() || CanonicalKind(recs[j].kind) {
      MeetTracks(o, recs, d, j, done, g);
      var m := MeetRecord(d, done, g, recs[j]);
      TrackChain(o, acts, d, |CanonActs(recs[..j + 1])|, m.0, m.1);
    }
  }

  lemma ReplayDone(o: Origin, acts: seq<Act>, recs: seq<Record>, torn: bool)
    ensures ReplayFrom(o, acts, recs, torn, |recs|)
            == if torn then Faulted(UnappliableRecord(0), |recs|) else Through(|recs|)
  {
  }

  lemma StepBounds(s: Segment, stop: u64)
    requires s.Valid() && Steppable(s) && stop <= s.header.endIcount
    ensures stop + EPOCH < TWO64 && InOrder(Records(s)) && SteppableTo(s, stop)
  {
    hide Records, Segment.Valid, EndsLast, Within;
  }

  /** Records a full replay can step through to `end`. */
  ghost predicate Orderly(recs: seq<Record>, end: u64) {
    InOrder(recs) && Within(recs, end) && EndsLast(recs, end) && end + EPOCH < TWO64
  }

  lemma OrderlyParts(recs: seq<Record>, end: u64)
    requires Orderly(recs, end)
    ensures InOrder(recs) && Within(recs, end) && end + EPOCH < TWO64
  {
  }

  lemma SteppableIsOrderly(s: Segment)
    requires s.Valid() && Steppable(s)
    ensures Orderly(Records(s), s.header.endIcount) && InOrder(Records(s)) && s.header.endIcount + EPOCH < TWO64
  {
    hide Records, Segment.Valid, EndsLast, Within, InOrder;
  }

  lemma KindOfEnd(r: Record)
    ensures r.IsEnd() ==> r.IsAux() && !IsEpochRecord(r)
  {
  }

  /** What meeting an END record means for the timeline. */
  lemma EndMet(o: Origin, recs: seq<Record>, d: Option<Act>, j: nat, done: bool, g: Guest, end: u64)
    requires j < |recs| && recs[j].IsEnd() && Orderly(recs, end) && g.icount <= recs[j].icount && (d.None? ==> done)
    requires Tracking(o, CanonActs(recs), d, |CanonActs(recs[..j])|, done, g)
    ensures recs[j].icount + EPOCH < TWO64 && end + EPOCH < TWO64 && (d.Some? && !done ==> g.icount <= d.value.at)
    ensures var (done1, g1) := AfterFold(d, done, g, recs[j]);
            && g1.icount <= end && (d.Some? && !done1 ==> g1.icount <= d.value.at)
            && Tracking(o, CanonActs(recs), d, |CanonActs(recs[..j + 1])|, done1 || (d.Some? && d.value.at <= end),
                        FinishAt(d, done1, g1, end))
            && FinishAt(d, done1, g1, end).icount == end
  {
    hide *;
    var acts, c := CanonActs(recs), |CanonActs(recs[..j])|;
    OrderlyParts(recs, end);
    RecordFits(recs, j, end);
    KindOfEnd(recs[j]);
    NextRecord(recs, j);
    FoldTracks(o, acts, d, c, done, g, recs[j]);
    ActsAtEnd(recs, j, end);
    var (done1, g1) := AfterFold(d, done, g, recs[j]);
    EndTracks(o, acts, d, c, done1, g1, end);
  }

  /** After an END every act still to come is at the end. */
  lemma ActsAtEnd(recs: seq<Record>, j: nat, end: u64)
    requires j < |recs| && recs[j].IsEnd() && Orderly(recs, end)
    ensures forall i :: |CanonActs(recs[..j])| <= i < |CanonActs(recs)| ==> end <= CanonActs(recs)[i].at
  {
    hide CanonActs, InOrder, Within;
    NextRecord(recs, j);
    if j + 1 < |recs| {
      NextRecord(recs, j + 1);
      assert recs[j + 1].icount == end;
    } else {
      assert recs[..j + 1] == recs;
    }
  }

  lemma RecordFits(recs: seq<Record>, j: nat, end: u64)
    requires j < |recs| && Within(recs, end) && end + EPOCH < TWO64
    ensures recs[j].icount <= end && recs[j].icount + EPOCH < TWO64
  {
  }

  lemma NextInOrder(recs: seq<Record>, j: nat)
    requires j < |recs| && InOrder(recs)
    ensures j + 1 < |recs| ==> recs[j].icount <= recs[j + 1].icount
  {
  }

  lemma WordFits(n: u64, end: u64)
    requires n <= end && end + EPOCH < TWO64
    ensures n + EPOCH < TWO64
  {
  }

  lemma FaultStep(recs: seq<Record>, torn: bool, j: nat, stop: u64)
    requires j < |recs| && recs[j].icount <= stop
    ensures FaultFrom(recs, torn, j, stop)
            == if recs[j].IsAux() || CanonicalKind(recs[j].kind) then FaultFrom(recs, torn, j + 1, stop)
               else Some(UnappliableRecord(recs[j].icount))
  {
  }

  /** A walk without a fault has none before an earlier stop. */
  lemma {:induction false} NoFaultBefore(recs: seq<Record>, torn: bool, j: nat, stop: u64, end: u64)
    requires j <= |recs| && stop <= end && FaultFrom(recs, torn, j, end) == None
    ensures FaultFrom(recs, torn, j, stop) == None
    decreases |recs| - j
  {
    if j < |recs| && recs[j].icount <= stop {
      NoFaultBefore(recs, torn, j + 1, stop, end);
    }
  }

  lemma FaultAtEnd(recs: seq<Record>, torn: bool, j: nat, stop: u64)
    requires j <= |recs| && (j < |recs| ==> recs[j].icount > stop)
    ensures FaultFrom(recs, torn, j, stop) == if j == |recs| && torn then Some(UnappliableRecord(0)) else None
  {
  }

  /** Before the first record the new guest tracks any timeline of ordered records. */
  lemma StartOfWalk(o: Origin, recs: seq<Record>, d: Option<Act>)
    requires InOrder(recs)
    ensures var g := Guest(OFFSET_BASIS, Seed(o), 0);
            && Tracking(o, CanonActs(recs), d, |CanonActs(recs[..0])|, false, g)
            && (d.None? ==> Tracking(o, CanonActs(recs), d, |CanonActs(recs[..0])|, true, g))
  {
    CanonActsSorted(recs);
    TrackStart(o, CanonActs(recs), d);
    assert recs[..0] == [];
  }

  lemma MetAt(recs: seq<Record>, stop: u64, j: nat)
    requires j <= |Met(recs, stop)| && j < |recs|
    ensures j < |Met(recs, stop)| ==>
              Met(recs, stop)[j] == recs[j] && recs[j].icount <= stop
              && (recs[j].IsAux() || CanonicalKind(recs[j].kind))
    ensures j == |Met(recs, stop)| ==> recs[j].icount > stop || !(recs[j].IsAux() || CanonicalKind(recs[j].kind))
  {
    hide Met, Record.IsAux;
  }
}
