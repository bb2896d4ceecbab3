/** The mock hypervisor: honest replay, native bisection, exact-icount probes. */
module Mock {
  import opened Wrappers
  import opened Bytes
  import opened Fnv
  import opened Guest
  import opened Dhilog
  import opened Validator
  import opened Hv
  import opened Replay
  import opened Search

  // ---- what one call yields ----

  function RegisterAt(defect: Defect, s: Segment, at: u64, side: Side, segmentIndex: u32): u64
    requires s.Valid()
  {
    match SimResult(defect, s, at, side, segmentIndex)
    case Ok(g) => g.fnv
    case Err(_) => 0
  }

  /** The registers of both sides at the icount a divergence is reported at. */
  function Diagnose(defect: Defect, s: Segment, at: u64, segmentIndex: u32, run: nat): Diagnostics
    requires s.Valid()
  {
    Diagnostics(at, RegisterAt(defect, s, at, Recorded, segmentIndex),
                RegisterAt(defect, s, at, Replayed(run), segmentIndex))
  }

  /** Which recorded epoch hashes the replay reproduces. */
  function EpochsGood(o: Origin, acts: seq<Act>, es: seq<Epoch>): (good: seq<bool>)
    ensures |good| == |es|
    ensures forall i :: 0 <= i < |es| ==> (good[i] <==> ChainAt(o, acts, es[i].icount / EPOCH) == es[i].chain)
  {
    seq(|es|, i requires 0 <= i < |es| => ChainAt(o, acts, es[i].icount / EPOCH) == es[i].chain)
  }

  /** At which icounts the replay has the recorded execution's state hash. */
  function Agreement(o: Origin, replayed: seq<Act>, recorded: seq<Act>): nat -> bool {
    (n: nat) => n < TWO64 && ChainValue(StateAt(o, replayed, n)) == ChainValue(StateAt(o, recorded, n))
  }

  function WindowStart(es: seq<Epoch>, p: Probed): u64
    requires p.a <= |es| && (p.bad.Found? ==> p.bad.k < |es|)
  {
    if p.bad.Found? && p.bad.k > 0 then es[p.bad.k - 1].icount
    else if p.a > 0 then es[p.a - 1].icount
    else 0
  }

  function WindowEnd(es: seq<Epoch>, p: Probed, end: u64): u64
    requires p.bad.Found? ==> p.bad.k < |es|
  {
    if p.bad.Found? then es[p.bad.k].icount else end
  }

  /** Where the search over epoch records stops. */
  function EpochPhase(good: seq<bool>, fuel: nat): (p: Probed)
    ensures Brackets(good, p) && p.a <= |good| && (p.bad.Found? ==> p.bad.k < |good|) && p.fuel <= fuel
  {
    SearchBrackets(good, Probed(0, |good| - 1, Nothing, fuel));
    SearchEpochs(good, Probed(0, |good| - 1, Nothing, fuel))
  }

  /** The window of native bisection with `fuel` probes. */
  function NativeWindow(defect: Defect, s: Segment, segmentIndex: u32, run: nat, fuel: nat): (w: Window)
    requires s.Valid()
  {
    var o, es := OriginOf(s.header), EpochsOf(Records(s));
    var replayed := Timeline(defect, s, Replayed(run), segmentIndex);
    var p := EpochPhase(EpochsGood(o, replayed, es), fuel);
    Pinpoint(Agreement(o, replayed, Timeline(defect, s, Recorded, segmentIndex)),
             WindowStart(es, p), WindowEnd(es, p, s.header.endIcount), p.fuel)
  }

  /** One run without bisection. */
  function Unbisected(defect: Defect, s: Segment, segmentIndex: u32, run: nat): Result<Outcome, HvFault>
    requires s.Valid()
  {
    var v := HonestReplay(defect, s, run, segmentIndex);
    var end := s.header.endIcount;
    if v.Faulted? then Err(v.fault)
    else if !Disagrees(defect, s, run, segmentIndex) then
      Ok(Verified(ReplayedEnd(defect, s, run, segmentIndex), |EpochsOf(Records(s))|))
    else match FaultFrom(Records(s), s.Walk().torn, 0, end)
      case Some(f) => Err(f)
      case None => Ok(Diverged(0, end, Diagnose(defect, s, end, segmentIndex, run),
                               ReplayedEnd(defect, s, run, segmentIndex)))
  }

  /** The same run with native bisection of a divergence and `fuel` more probes. */
  ghost predicate IsBisected(defect: Defect, s: Segment, segmentIndex: u32, run: nat, fuel: nat,
                             r: Result<Outcome, HvFault>)
    requires s.Valid()
  {
    var u, w := Unbisected(defect, s, segmentIndex, run), NativeWindow(defect, s, segmentIndex, run, fuel);
    if u.Ok? && u.value.Diverged? then
      && r.Ok? && r.value.Diverged?
      && r.value.lo == w.lo && r.value.hi == w.hi
      && r.value.diagnostics == Diagnose(defect, s, r.value.hi, segmentIndex, run)
      && r.value.endStateHash == u.value.endStateHash
    else r == u
  }

  // ---- one record ----

  /** The pending fold is due before a record at `n`: the epoch record at the fold's own
      icount comes first, everything else there comes after. */
  predicate Due(at: u64, n: u64, isEpoch: bool) {
    n > at || (n == at && !isEpoch)
  }

  /** The pending fold landed, if it is due before a record. */
  function AfterFold(fold: Option<Act>, done: bool, g: Guest, r: Record): (bool, Guest)
    requires fold.Some? && !done ==> g.icount <= fold.value.at
  {
    if fold.Some? && !done && Due(fold.value.at, r.icount, r.kind == KIND_EPOCH_HASH)
    then (true, Land(Step(g, fold.value.at), fold.value.bytes))
    else (done, g)
  }

  /** A guest and its pending fold after meeting one more record. */
  function MeetRecord(fold: Option<Act>, done: bool, g: Guest, r: Record): (bool, Guest)
    requires g.icount <= r.icount
    requires fold.Some? && !done ==> g.icount <= fold.value.at
  {
    var (done1, g1) := AfterFold(fold, done, g, r);
    var g2 := Step(g1, r.icount);
    (done1, if r.IsAux() then g2 else Land(g2, [r.kind] + r.payload))
  }

  /** A due fold lands in its place in the timeline. */
  lemma FoldTracks(o: Origin, acts: seq<Act>, fold: Option<Act>, c: nat, done: bool, g: Guest, r: Record)
    requires Tracking(o, acts, fold, c, done, g) && g.icount <= r.icount
    requires forall i :: c <= i < |acts| ==> r.icount <= acts[i].at
    ensures fold.Some? && !done ==> g.icount <= fold.value.at
    ensures var (done1, g1) := AfterFold(fold, done, g, r);
            && Tracking(o, acts, fold, c, done1, g1) && g1.icount <= r.icount && (done ==> done1)
            && (fold.Some? && !done1 ==>
                  r.icount <= fold.value.at && (r.kind != KIND_EPOCH_HASH ==> r.icount < fold.value.at))
  {
    TrackPending(o, acts, fold, c, done, g);
    hide Tracking;
    if fold.Some? && !done && Due(fold.value.at, r.icount, r.kind == KIND_EPOCH_HASH) {
      TrackFire(o, acts, fold.value, c, g);
    }
  }

  /** A pending fold is not behind the guest. */
  lemma TrackPending(o: Origin, acts: seq<Act>, fold: Option<Act>, c: nat, done: bool, g: Guest)
    requires Tracking(o, acts, fold, c, done, g)
    ensures fold.Some? && !done ==> g.icount <= fold.value.at
  {
  }

  /** A record is met where it stands, its canonical bytes landing there. */
  lemma RecordTracks(o: Origin, acts: seq<Act>, fold: Option<Act>, c: nat, done: bool, g: Guest, r: Record)
    requires Tracking(o, acts, fold, c, done, g) && g.icount <= r.icount
    requires forall i :: c <= i < |acts| ==> r.icount <= acts[i].at
    requires fold.Some? && !done ==> r.icount <= fold.value.at && (!r.IsAux() ==> r.icount < fold.value.at)
    requires !r.IsAux() ==> c < |acts| && acts[c] == Act(r.icount, [r.kind] + r.payload)
    ensures var g2 := Step(g, r.icount);
            Tracking(o, acts, fold, c + (if r.IsAux() then 0 else 1), done,
                     if r.IsAux() then g2 else Land(g2, [r.kind] + r.payload))
  {
    hide Tracking;
    TrackStep(o, acts, fold, c, done, g, r.icount);
    if !r.IsAux() {
      TrackLand(o, acts, fold, c, done, Step(g, r.icount));
    }
  }

  lemma KindsApart(k: byte)
    requires CanonicalKind(k)
    ensures k != KIND_EPOCH_HASH
  {
  }

  /** Meeting the next record keeps tracking the timeline of the side. */
  lemma MeetTracks(o: Origin, recs: seq<Record>, fold: Option<Act>, j: nat, done: bool, g: Guest)
    requires j < |recs| && InOrder(recs)
    requires Tracking(o, CanonActs(recs), fold, |CanonActs(recs[..j])|, done, g) && g.icount <= recs[j].icount
    requires !recs[j].IsAux() ==> CanonicalKind(recs[j].kind)
    requires fold.None? ==> done
    ensures fold.Some? && !done ==> g.icount <= fold.value.at
    ensures var (done', g') := MeetRecord(fold, done, g, recs[j]);
            && g'.icount == recs[j].icount && (fold.None? ==> done')
            && Tracking(o, CanonActs(recs), fold, |CanonActs(recs[..j + 1])|, done', g')
  {
    var acts, c, r := CanonActs(recs), |CanonActs(recs[..j])|, recs[j];
    hide Tracking, CanonActs, AfterFold, InOrder, CanonicalKind, Due, EpochsOf, CrossEpochs, FoldBytes;
    NextRecord(recs, j);
    FoldTracks(o, acts, fold, c, done, g, r);
    var (done1, g1) := AfterFold(fold, done, g, r);
    if !r.IsAux() {
      KindsApart(r.kind);
    }
    RecordTracks(o, acts, fold, c, done1, g1, r);
  }

  /** Finishing: land a fold still due by `stop`, then step there. */
  function FinishAt(fold: Option<Act>, done: bool, g: Guest, stop: u64): Guest
    requires g.icount <= stop
    requires fold.Some? && !done ==> g.icount <= fold.value.at
  {
    if fold.Some? && !done && fold.value.at <= stop
    then Step(Land(Step(g, fold.value.at), fold.value.bytes), stop)
    else Step(g, stop)
  }

  lemma FinishTracks(o: Origin, acts: seq<Act>, fold: Option<Act>, c: nat, done: bool, g: Guest, stop: u64)
    requires Tracking(o, acts, fold, c, done, g) && g.icount <= stop
    requires forall i :: c <= i < |acts| ==> stop < acts[i].at
    ensures FinishAt(fold, done, g, stop) == StateAt(o, WithFold(acts, fold), stop)
  {
    if fold.Some? && !done && fold.value.at <= stop {
      TrackFire(o, acts, fold.value, c, g);
      var g1 := Land(Step(g, fold.value.at), fold.value.bytes);
      TrackStep(o, acts, fold, c, true, g1, stop);
      TrackEnd(o, acts, fold, c, true, Step(g1, stop));
    } else {
      TrackStep(o, acts, fold, c, done, g, stop);
      TrackEnd(o, acts, fold, c, done, Step(g, stop));
    }
  }

  /** Stepping to the end with every act still to come there keeps tracking. */
  lemma EndTracks(o: Origin, acts: seq<Act>, fold: Option<Act>, c: nat, done: bool, g: Guest, end: u64)
    requires Tracking(o, acts, fold, c, done, g) && g.icount <= end
    requires forall i :: c <= i < |acts| ==> end <= acts[i].at
    ensures fold.Some? && !done ==> g.icount <= fold.value.at
    ensures Tracking(o, acts, fold, c, done || (fold.Some? && fold.value.at <= end), FinishAt(fold, done, g, end))
    ensures FinishAt(fold, done, g, end).icount == end
  {
    TrackPending(o, acts, fold, c, done, g);
    hide Tracking;
    if fold.Some? && !done && fold.value.at <= end {
      TrackFire(o, acts, fold.value, c, g);
      TrackStep(o, acts, fold, c, true, Land(Step(g, fold.value.at), fold.value.bytes), end);
    } else {
      TrackStep(o, acts, fold, c, done, g, end);
    }
  }

  /** No canonical record is left at or before `stop`. */
  lemma NothingLeft(recs: seq<Record>, j: nat, stop: u64)
    requires j <= |recs| && InOrder(recs)
    requires j < |recs| ==> stop < recs[j].icount
    ensures |CanonActs(recs[..j])| <= |CanonActs(recs)|
    ensures forall i :: |CanonActs(recs[..j])| <= i < |CanonActs(recs)| ==> stop < CanonActs(recs)[i].at
  {
    if j == |recs| {
      assert recs[..j] == recs;
    } else {
      NextRecord(recs, j);
    }
  }

  // ---- the pending fold ----

  /** The fold a defect adds to one side, held back until the walk reaches its icount. */
  class VirtualFold {
    const at: u64
    const bytes: seq<byte>
    var done: bool

    constructor (fold: Option<Act>)
      ensures Holds(fold) && (done <==> fold.None?)
    {
      match fold {
        case None => at, bytes, done := 0, [], true;
        case Some(d) => at, bytes, done := d.at, d.bytes, false;
      }
    }

    /** This object carries the fold `d`. */
    ghost predicate Holds(d: Option<Act>)
      reads this
    {
      match d
      case None => done
      case Some(a) => at == a.at && bytes == a.bytes
    }

    method MaybeApply(sim: GuestSim, nextIcount: u64, nextIsEpoch: bool)
      requires !done && Due(at, nextIcount, nextIsEpoch) ==> sim.icount <= at && at + EPOCH < TWO64
      modifies this`done, sim
      ensures done == (old(done) || nextIcount > at || (nextIcount == at && !nextIsEpoch))
      ensures sim.State() == if !old(done) && (nextIcount > at || (nextIcount == at && !nextIsEpoch))
                             then Land(Step(old(sim.State()), at), bytes) else old(sim.State())
    {
      if done {
        return;
      }
      if nextIcount > at || (nextIcount == at && !nextIsEpoch) {
        sim.StepTo(at);
        sim.Fold(bytes);
        done := true;
      }
    }

    method Finish(sim: GuestSim, stop: u64)
      requires !done && at <= stop ==> sim.icount <= at && at + EPOCH < TWO64
      modifies this`done, sim
      ensures done == (old(done) || at <= stop)
      ensures sim.State() == if !old(done) && at <= stop
                             then Land(Step(old(sim.State()), at), bytes) else old(sim.State())
    {
      if !done && at <= stop {
        sim.StepTo(at);
        sim.Fold(bytes);
        done := true;
      }
    }
  }
}
