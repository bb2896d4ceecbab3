/** What replaying a segment means, and how a stepping guest with a lazily applied
    defect fold tracks it. */
module Replay {
  import opened Wrappers
  import opened Bytes
  import opened Fnv
  import opened Guest
  import opened Divergence
  import opened Dhilog
  import opened Validator
  import opened Hv

  // "mock-flake"
  const FLAKE_TAG: seq<byte> := [109, 111, 99, 107, 45, 102, 108, 97, 107, 101]

  /** The canonical records of a segment as a timeline of folds. */
  function CanonActs(recs: seq<Record>): (acts: seq<Act>)
    decreases |recs|
  {
    if recs == [] then []
    else if recs[0].IsAux() then CanonActs(recs[1..])
    else [Act(recs[0].icount, [recs[0].kind] + recs[0].payload)] + CanonActs(recs[1..])
  }

  /** A recorded epoch hash. */
  datatype Epoch = Epoch(index: u64, icount: u64, chain: Hash32)

  predicate IsEpochRecord(r: Record) { r.IsAux() && r.kind == KIND_EPOCH_HASH }

  function EpochOf(r: Record): Epoch
    requires |r.payload| == 40
  {
    Epoch(Get64(r.payload[0..8]), r.icount, r.payload[8..40])
  }

  /** The epoch hashes of a segment; malformed ones are skipped. */
  function EpochsOf(recs: seq<Record>): (es: seq<Epoch>)
    decreases |recs|
  {
    if recs == [] then []
    else if IsEpochRecord(recs[0]) && |recs[0].payload| == 40 then [EpochOf(recs[0])] + EpochsOf(recs[1..])
    else EpochsOf(recs[1..])
  }

  /** The defect fold a side applies, if the defect is about this side and segment. */
  function FoldFor(defect: Defect, side: Side, segmentIndex: u32): Option<Act> {
    match (defect, side)
    case (ReplayNondet(segment, at, period), Replayed(run)) =>
      if segment == segmentIndex then Some(Act(at, FLAKE_TAG + LE64(FlakeValue(run, period)))) else None
    case (RecordedSkew(segment, at), Recorded) =>
      if segment == segmentIndex then Some(Act(at, SKEW_FOLD)) else None
    case (_, _) => None
  }

  /** How many runs a flake folds the same value for; a period of 0 counts as 1. */
  function Period(flakePeriod: u32): (p: nat)
    ensures p >= 1
  {
    if flakePeriod > 1 then flakePeriod else 1
  }

  /** The value the flake folds in on a run. */
  function FlakeValue(run: nat, flakePeriod: u32): u64 { run / Period(flakePeriod) % TWO64 }

  function WithFold(acts: seq<Act>, fold: Option<Act>): seq<Act> {
    match fold
    case None => acts
    case Some(d) => Inject(acts, d)
  }

  lemma WithoutFold(acts: seq<Act>)
    ensures WithFold(acts, None) == acts
  {
  }

  function OriginOf(h: Header): Origin { Origin(h.machineConfig, h.baseSnapshot) }

  /** The timeline an execution of a segment lives through. */
  function Timeline(defect: Defect, s: Segment, side: Side, segmentIndex: u32): seq<Act>
    requires s.Valid()
  {
    WithFold(CanonActs(Records(s)), FoldFor(defect, side, segmentIndex))
  }

  ghost predicate InOrder(recs: seq<Record>) {
    forall i, j :: 0 <= i < j < |recs| ==> recs[i].icount <= recs[j].icount
  }

  ghost predicate Within(recs: seq<Record>, end: u64) {
    forall i :: 0 <= i < |recs| ==> recs[i].icount <= end
  }

  /** An END record steps the guest to the end, so only records at the end may follow it. */
  ghost predicate EndsLast(recs: seq<Record>, end: u64) {
    forall i, j :: 0 <= i < j < |recs| && recs[i].IsEnd() ==> recs[j].icount == end
  }

  /** What keeps a full replay from stepping backwards or past the last word. */
  ghost predicate Steppable(s: Segment)
    requires s.Valid()
  {
    && s.header.endIcount + EPOCH < TWO64
    && InOrder(Records(s)) && Within(Records(s), s.header.endIcount) && EndsLast(Records(s), s.header.endIcount)
  }

  /** The records a simulation to `stop` goes through: those before the first one past
      the stop, and before the first one it cannot apply. */
  function Met(recs: seq<Record>, stop: u64): (m: seq<Record>)
    ensures |m| <= |recs| && m == recs[..|m|]
    ensures forall i :: 0 <= i < |m| ==> m[i].icount <= stop && (m[i].IsAux() || CanonicalKind(m[i].kind))
    ensures |m| < |recs| ==>
              recs[|m|].icount > stop || !(recs[|m|].IsAux() || CanonicalKind(recs[|m|].kind))
    decreases |recs|
  {
    if recs == [] || recs[0].icount > stop || !(recs[0].IsAux() || CanonicalKind(recs[0].kind)) then []
    else [recs[0]] + Met(recs[1..], stop)
  }

  /** What keeps a simulation to `stop` from stepping backwards or past the last word. */
  ghost predicate SteppableTo(s: Segment, stop: u64)
    requires s.Valid()
  {
    stop + EPOCH < TWO64 && InOrder(Met(Records(s), stop))
  }

  /** The first record at or before `stop` that a simulation cannot apply. */
  function FaultFrom(recs: seq<Record>, torn: bool, j: nat, stop: u64): (f: Option<HvFault>)
    requires j <= |recs|
    decreases |recs| - j
  {
    if j == |recs| then (if torn then Some(UnappliableRecord(0)) else None)
    else if recs[j].icount > stop then None
    else if !recs[j].IsAux() && !CanonicalKind(recs[j].kind) then Some(UnappliableRecord(recs[j].icount))
    else FaultFrom(recs, torn, j + 1, stop)
  }

  /** The guest a simulation of one side ends with, or why it cannot. */
  function SimResult(defect: Defect, s: Segment, stop: u64, side: Side, segmentIndex: u32): Result<Guest, HvFault>
    requires s.Valid()
  {
    match FaultFrom(Records(s), s.Walk().torn, 0, stop)
    case Some(f) => Err(f)
    case None =>
      Ok(StateAt(OriginOf(s.header), WithFold(CanonActs(Met(Records(s), stop)), FoldFor(defect, side, segmentIndex)),
                 stop))
  }

  // ---- the honest replay ----

  /** How an honest replay ends: at a record it cannot apply, at the first epoch hash
      that disagrees, or after the last record. */
  datatype Honest = Faulted(fault: HvFault, at: nat) | Mismatch(at: nat) | Through(at: nat)

  function ReplayFrom(o: Origin, acts: seq<Act>, recs: seq<Record>, torn: bool, j: nat): (v: Honest)
    requires j <= |recs|
    ensures j <= v.at <= |recs|
    decreases |recs| - j
  {
    if j == |recs| then (if torn then Faulted(UnappliableRecord(0), j) else Through(j))
    else
      var r := recs[j];
      if !r.IsAux() && !CanonicalKind(r.kind) then Faulted(UnappliableRecord(r.icount), j)
      else if !IsEpochRecord(r) then ReplayFrom(o, acts, recs, torn, j + 1)
      else if |r.payload| != 40 then Faulted(UnappliableRecord(r.icount), j)
      else if ChainAt(o, acts, r.icount / EPOCH) != r.payload[8..40] then Mismatch(j)
      else ReplayFrom(o, acts, recs, torn, j + 1)
  }

  function HonestReplay(defect: Defect, s: Segment, run: nat, segmentIndex: u32): (v: Honest)
    requires s.Valid()
    ensures v.at <= |Records(s)|
  {
    ReplayFrom(OriginOf(s.header), Timeline(defect, s, Replayed(run), segmentIndex), Records(s), s.Walk().torn, 0)
  }

  /** The state hash a replay ends with. */
  function ReplayedEnd(defect: Defect, s: Segment, run: nat, segmentIndex: u32): Hash32
    requires s.Valid()
  {
    ChainValue(StateAt(OriginOf(s.header), Timeline(defect, s, Replayed(run), segmentIndex), s.header.endIcount))
  }

  /** The replay disagrees with the recording: at an epoch hash or at the end. */
  predicate Disagrees(defect: Defect, s: Segment, run: nat, segmentIndex: u32)
    requires s.Valid()
  {
    match HonestReplay(defect, s, run, segmentIndex)
    case Faulted(_, _) => false
    case Mismatch(_) => true
    case Through(_) => ReplayedEnd(defect, s, run, segmentIndex) != s.header.endStateHash
  }

  function EpochEvents(segmentIndex: u32, es: seq<Epoch>): (events: seq<VerifyEvent>)
    ensures |events| == |es|
  {
    seq(|es|, i requires 0 <= i < |es| => EpochOk(segmentIndex, es[i].index, es[i].icount))
  }

  /** The progress events of one run, in order. */
  function RunEvents(defect: Defect, s: Segment, run: nat, segmentIndex: u32): seq<VerifyEvent>
    requires s.Valid()
  {
    var v := HonestReplay(defect, s, run, segmentIndex);
    [SegmentStarted(segmentIndex)] + EpochEvents(segmentIndex, EpochsOf(Records(s)[..v.at]))
    + (if v.Faulted? then [] else [RunCompleted(segmentIndex)])
  }

  // ---- tracking a timeline with a pending fold ----

  /** After `c` canonical records, with the fold applied or still pending, the guest
      follows the timeline of its side. */
  ghost predicate Tracking(o: Origin, acts: seq<Act>, fold: Option<Act>, c: nat, done: bool, g: Guest) {
    && Sorted(acts) && c <= |acts|
    && Follows(o, WithFold(acts, fold), c + (if fold.Some? && done then 1 else 0), g)
    && (fold.Some? && !done ==> c <= |UpTo(acts, fold.value.at - 1)| && g.icount <= fold.value.at)
    && (fold.Some? && done ==> |UpTo(acts, fold.value.at - 1)| <= c)
  }

  lemma WithFoldSorted(acts: seq<Act>, fold: Option<Act>)
    requires Sorted(acts)
    ensures Sorted(WithFold(acts, fold))
  {
    if fold.Some? {
      InjectSorted(acts, fold.value);
    }
  }

  lemma TrackStart(o: Origin, acts: seq<Act>, fold: Option<Act>)
    requires Sorted(acts)
    ensures Tracking(o, acts, fold, 0, false, Guest(OFFSET_BASIS, Seed(o), 0))
    ensures fold.None? ==> Tracking(o, acts, fold, 0, true, Guest(OFFSET_BASIS, Seed(o), 0))
  {
    WithFoldSorted(acts, fold);
    StartFollows(o, WithFold(acts, fold));
  }

  /** Where the acts still to come sit in the timeline with the fold. */
  lemma FoldPositions(acts: seq<Act>, d: Act)
    requires Sorted(acts)
    ensures var p, t := |UpTo(acts, d.at - 1)|, Inject(acts, d);
            && p <= |acts| && |t| == |acts| + 1 && t[p] == d
            && (forall j :: 0 <= j < p ==> t[j] == acts[j] && acts[j].at < d.at)
            && (forall j :: p < j <= |acts| ==> t[j] == acts[j - 1])
            && (forall j :: p <= j < |acts| ==> d.at <= acts[j].at)
  {
    InjectPosition(acts, d.at - 1);
  }

  lemma TrackStep(o: Origin, acts: seq<Act>, fold: Option<Act>, c: nat, done: bool, g: Guest, n: u64)
    requires Tracking(o, acts, fold, c, done, g) && g.icount <= n
    requires forall j :: c <= j < |acts| ==> n <= acts[j].at
    requires fold.Some? && !done ==> n <= fold.value.at
    ensures Tracking(o, acts, fold, c, done, Step(g, n))
  {
    hide Follows, UpTo, Inject, Sorted, CrossEpochs;
    if fold.Some? {
      FoldPositions(acts, fold.value);
    }
    StepFollows(o, WithFold(acts, fold), c + (if fold.Some? && done then 1 else 0), g, n);
  }

  /** The pending fold lands: all earlier canonical records are in, no later one is. */
  lemma TrackFire(o: Origin, acts: seq<Act>, d: Act, c: nat, g: Guest)
    requires Tracking(o, acts, Some(d), c, false, g)
    requires forall j :: c <= j < |acts| ==> d.at <= acts[j].at
    ensures Tracking(o, acts, Some(d), c, true, Land(Step(g, d.at), d.bytes))
  {
    hide Follows, UpTo, Inject, Sorted, CrossEpochs, FoldBytes;
    FoldPositions(acts, d);
    TrackStep(o, acts, Some(d), c, false, g, d.at);
    LandAct(o, Inject(acts, d), c, Step(g, d.at));
  }

  /** A canonical record lands. */
  lemma TrackLand(o: Origin, acts: seq<Act>, fold: Option<Act>, c: nat, done: bool, g: Guest)
    requires Tracking(o, acts, fold, c, done, g) && c < |acts| && acts[c].at == g.icount
    requires fold.Some? && !done ==> g.icount < fold.value.at
    ensures Tracking(o, acts, fold, c + 1, done, Land(g, acts[c].bytes))
  {
    if fold.Some? {
      FoldPositions(acts, fold.value);
    }
    LandAct(o, WithFold(acts, fold), c + (if fold.Some? && done then 1 else 0), g);
  }

  /** Nothing left at or before the guest's icount: it is in the reference state. */
  lemma TrackEnd(o: Origin, acts: seq<Act>, fold: Option<Act>, c: nat, done: bool, g: Guest)
    requires Tracking(o, acts, fold, c, done, g)
    requires forall j :: c <= j < |acts| ==> g.icount < acts[j].at
    requires fold.Some? && !done ==> g.icount < fold.value.at
    ensures g == StateAt(o, WithFold(acts, fold), g.icount)
  {
    hide Follows, UpTo, Inject, Sorted, StateAt;
    if fold.Some? {
      FoldPositions(acts, fold.value);
    }
    FollowsIsStateAt(o, WithFold(acts, fold), c + (if fold.Some? && done then 1 else 0), g);
  }

  lemma TrackChain(o: Origin, acts: seq<Act>, fold: Option<Act>, c: nat, done: bool, g: Guest)
    requires Tracking(o, acts, fold, c, done, g)
    ensures g.chain == ChainAt(o, WithFold(acts, fold), g.icount / EPOCH)
  {
  }

  // ---- canonical acts of a prefix of the records ----

  lemma {:induction false} CanonActsConcat(a: seq<Record>, b: seq<Record>)
    ensures CanonActs(a + b) == CanonActs(a) + CanonActs(b)
    decreases |a|
  {
    if a == [] {
      assert a + b == b;
    } else {
      assert (a + b)[1..] == a[1..] + b;
      CanonActsConcat(a[1..], b);
    }
  }

  lemma {:induction false} EpochsOfConcat(a: seq<Record>, b: seq<Record>)
    ensures EpochsOf(a + b) == EpochsOf(a) + EpochsOf(b)
    decreases |a|
  {
    if a == [] {
      assert a + b == b;
    } else {
      assert (a + b)[1..] == a[1..] + b;
      EpochsOfConcat(a[1..], b);
    }
  }

  lemma {:induction false} CanonActsBounded(recs: seq<Record>, n: u64)
    requires forall i :: 0 <= i < |recs| ==> n <= recs[i].icount
    ensures forall i :: 0 <= i < |CanonActs(recs)| ==> n <= CanonActs(recs)[i].at
    decreases |recs|
  {
    if recs != [] {
      CanonActsBounded(recs[1..], n);
    }
  }

  lemma {:induction false} CanonActsSorted(recs: seq<Record>)
    requires InOrder(recs)
    ensures Sorted(CanonActs(recs))
    decreases |recs|
  {
    if recs != [] {
      CanonActsSorted(recs[1..]);
      CanonActsBounded(recs[1..], recs[0].icount);
    }
  }

  /** The next record of an ordered stream: what it adds, and that the acts still to
      come are not before it. */
  lemma NextRecord(recs: seq<Record>, j: nat)
    requires j < |recs|
    requires InOrder(recs)
    ensures var c, acts := |CanonActs(recs[..j])|, CanonActs(recs);
            && c <= |acts|
            && (forall i :: c <= i < |acts| ==> recs[j].icount <= acts[i].at)
            && |CanonActs(recs[..j + 1])| == c + (if recs[j].IsAux() then 0 else 1)
            && (!recs[j].IsAux() ==> c < |acts| && acts[c] == Act(recs[j].icount, [recs[j].kind] + recs[j].payload))
    ensures EpochsOf(recs[..j + 1]) == EpochsOf(recs[..j])
              + (if IsEpochRecord(recs[j]) && |recs[j].payload| == 40 then [EpochOf(recs[j])] else [])
  {
    assert recs == recs[..j] + recs[j..];
    CanonActsConcat(recs[..j], recs[j..]);
    CanonActsBounded(recs[j..], recs[j].icount);
    assert recs[..j + 1] == recs[..j] + [recs[j]];
    CanonActsConcat(recs[..j], [recs[j]]);
    EpochsOfConcat(recs[..j], [recs[j]]);
    assert [recs[j]][1..] == [];
  }

  // ---- what a simulation never meets does not matter ----

  lemma {:induction false} MetWithoutFault(recs: seq<Record>, torn: bool, j: nat, stop: u64)
    requires j <= |recs| && FaultFrom(recs, torn, j, stop) == None
    ensures var n := |Met(recs[j..], stop)|;
            j + n <= |recs| && (j + n < |recs| ==> recs[j + n].icount > stop)
    decreases |recs| - j
  {
    if j < |recs| && recs[j].icount <= stop {
      assert recs[j..][1..] == recs[j + 1..];
      MetWithoutFault(recs, torn, j + 1, stop);
    }
  }

  lemma LaterActsUncounted(a: seq<Act>, b: seq<Act>, n: int)
    requires forall i :: 0 <= i < |b| ==> n < b[i].at
    ensures UpTo(a + b, n) == UpTo(a, n)
  {
    UpToConcat(a, b, n);
    UpToNone(b, n);
    assert UpTo(a, n) + [] == UpTo(a, n);
  }

  lemma InjectEarlier(a: seq<Act>, b: seq<Act>, d: Act)
    requires forall i :: 0 <= i < |b| ==> d.at - 1 < b[i].at
    ensures Inject(a + b, d) == Inject(a, d) + b
  {
    LaterActsUncounted(a, b, d.at - 1);
    hide UpTo;
  }

  lemma SortedPrefix(a: seq<Act>, b: seq<Act>)
    requires Sorted(a + b)
    ensures Sorted(a)
  {
    assert forall i :: 0 <= i < |a| ==> (a + b)[i] == a[i];
  }

  /** Acts past `stop` leave the register at or before it alone, fold or no fold. */
  lemma LaterActsUnseen(a: seq<Act>, b: seq<Act>, fold: Option<Act>, n: int, stop: int)
    requires Sorted(a + b) && n <= stop && forall i :: 0 <= i < |b| ==> stop < b[i].at
    ensures RegAt(WithFold(a + b, fold), n) == RegAt(WithFold(a, fold), n)
  {
    hide Sorted, UpTo, FoldActs, Inject;
    SortedPrefix(a, b);
    LaterActsUncounted(a, b, n);
    if fold.Some? {
      var d := fold.value;
      if n < d.at {
        InjectedRegBefore(a + b, d, n);
        InjectedRegBefore(a, d, n);
      } else {
        InjectEarlier(a, b, d);
        LaterActsUncounted(Inject(a, d), b, n);
      }
    }
  }

  lemma LaterActsUnseenByState(o: Origin, a: seq<Act>, b: seq<Act>, fold: Option<Act>, stop: u64)
    requires Sorted(a + b) && forall i :: 0 <= i < |b| ==> stop < b[i].at
    ensures StateAt(o, WithFold(a + b, fold), stop) == StateAt(o, WithFold(a, fold), stop)
  {
    LaterActsUnseen(a, b, fold, stop, stop);
    var k := stop / EPOCH;
    forall i: nat | 0 < i <= k
      ensures RegBefore(WithFold(a + b, fold), i) == RegBefore(WithFold(a, fold), i)
    {
      LaterActsUnseen(a, b, fold, i * EPOCH - 1, stop);
    }
    SameRegistersSameChain(o, WithFold(a + b, fold), WithFold(a, fold), k);
  }

  lemma ActsPastStop(recs: seq<Record>, stop: u64)
    requires stop + 1 < TWO64 && forall i :: 0 <= i < |recs| ==> stop < recs[i].icount
    ensures forall i :: 0 <= i < |CanonActs(recs)| ==> stop < CanonActs(recs)[i].at
  {
    CanonActsBounded(recs, stop + 1);
  }

  /** In an ordered segment the result is the state of the whole timeline. */
  lemma SimResultIs(defect: Defect, s: Segment, stop: u64, side: Side, segmentIndex: u32)
    requires s.Valid() && InOrder(Records(s)) && stop + EPOCH < TWO64
    requires FaultFrom(Records(s), s.Walk().torn, 0, stop) == None
    ensures SimResult(defect, s, stop, side, segmentIndex)
            == Ok(StateAt(OriginOf(s.header), Timeline(defect, s, side, segmentIndex), stop))
  {
    hide FaultFrom, StateAt, WithFold, FoldFor, Records, Segment.Valid, Met;
    var recs, m := Records(s), Met(Records(s), stop);
    assert recs[0..] == recs;
    MetWithoutFault(recs, s.Walk().torn, 0, stop);
    var rest := recs[|m|..];
    assert recs == m + rest;
    CanonActsConcat(m, rest);
    CanonActsSorted(recs);
    ActsPastStop(rest, stop);
    LaterActsUnseenByState(OriginOf(s.header), CanonActs(m), CanonActs(rest), FoldFor(defect, side, segmentIndex),
                           stop);
  }
}
