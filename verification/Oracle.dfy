/** The recorded side of the mock re-simulates the writer. */
module Oracle {
  import opened Wrappers
  import opened Bytes
  import opened Guest
  import opened Divergence
  import opened Validator
  import opened Writer
  import opened Recording
  import opened Hv
  import opened Replay
  import opened WrittenReplay
  import SegmentWriter
  import MockHypervisor

  /** The defect that explains a recording: its skew, if it has one. */
  function DefectOf(spec: Spec, segmentIndex: u32): Defect {
    match spec.skewAt
    case None => NoDefect
    case Some(at) => RecordedSkew(segmentIndex, at)
  }

  lemma TimelineIs(defect: Defect, s: Segment, side: Side, segmentIndex: u32)
    requires s.Valid()
    ensures Timeline(defect, s, side, segmentIndex)
            == WithFold(CanonActs(Records(s)), FoldFor(defect, side, segmentIndex))
  {
  }

  lemma FoldsOf(spec: Spec, segmentIndex: u32, run: nat)
    ensures WithFold(EventActs(spec.events), FoldFor(DefectOf(spec, segmentIndex), Recorded, segmentIndex))
            == RecordedActs(spec)
    ensures WithFold(EventActs(spec.events), FoldFor(DefectOf(spec, segmentIndex), Replayed(run), segmentIndex))
            == EventActs(spec.events)
  {
    hide EventActs, Inject;
  }

  lemma WrittenTimelines(spec: Spec, segmentIndex: u32, run: nat)
    requires spec.Valid()
    ensures Written(spec).Valid()
    ensures Timeline(DefectOf(spec, segmentIndex), Written(spec), Recorded, segmentIndex) == RecordedActs(spec)
    ensures Timeline(DefectOf(spec, segmentIndex), Written(spec), Replayed(run), segmentIndex) == EventActs(spec.events)
  {
    hide *;
    WrittenIsSteppable(spec);
    WrittenActs(spec);
    FoldsOf(spec, segmentIndex, run);
    TimelineIs(DefectOf(spec, segmentIndex), Written(spec), Recorded, segmentIndex);
    TimelineIs(DefectOf(spec, segmentIndex), Written(spec), Replayed(run), segmentIndex);
  }

  lemma WriterGuestStart(spec: Spec)
    requires spec.Valid()
    ensures Follows(spec.Genesis(), RecordedActs(spec), |ActsOf(Merged(spec)[..0])|, SegmentWriter.WriterGuest(spec, 0))
    ensures SegmentWriter.WriterGuest(spec, 0).icount == 0
  {
    hide Merged, Spec.Valid, Follows, Sorted, RecordedActs;
    RecordedSorted(spec);
    StartFollows(spec.Genesis(), RecordedActs(spec));
    assert Merged(spec)[..0] == [];
    assert ActsOf([]) == [];
  }

  /** The writer's guest follows the recorded timeline. */
  lemma {:induction false} WriterGuestFollows(spec: Spec, n: nat)
    requires spec.Valid() && n <= |Merged(spec)|
    ensures Follows(spec.Genesis(), RecordedActs(spec), |ActsOf(Merged(spec)[..n])|, SegmentWriter.WriterGuest(spec, n))
    ensures SegmentWriter.WriterGuest(spec, n).icount == if n == 0 then 0 else Merged(spec)[n - 1].key.icount
    decreases n
  {
    hide *;
    if n == 0 {
      WriterGuestStart(spec);
    } else {
      var es, o, g := Merged(spec), spec.Genesis(), SegmentWriter.WriterGuest(spec, n - 1);
      WriterGuestFollows(spec, n - 1);
      MergedShape(spec);
      MergedActs(spec);
      if n > 1 {
        SegmentWriter.NextInOrder(es, n - 2);
      }
      SegmentWriter.WriterGuestStep(spec, n);
      SegmentWriter.StepIcount(g, es[n - 1].key.icount);
      SegmentWriter.StepToEmission(o, es, n - 1, g);
      SegmentWriter.LandEmission(o, es, n - 1, Step(g, es[n - 1].key.icount));
    }
  }

  /** The recorded-side oracle refines the writer: simulated to any stop, it is the
      writer's guest after all emissions at or before that stop, stepped there. */
  lemma OracleRefinesWriter(spec: Spec, segmentIndex: u32, stop: u64, n: nat)
    requires spec.Valid() && stop <= spec.endIcount && n <= |Merged(spec)|
    requires forall i :: 0 <= i < n ==> Merged(spec)[i].key.icount <= stop
    requires forall i :: n <= i < |Merged(spec)| ==> stop < Merged(spec)[i].key.icount
    ensures SegmentWriter.WriterGuest(spec, n).icount <= stop && Written(spec).Valid()
    ensures SimResult(DefectOf(spec, segmentIndex), Written(spec), stop, Recorded, segmentIndex)
            == Ok(Step(SegmentWriter.WriterGuest(spec, n), stop))
  {
    hide *;
    var es, o, acts, g := Merged(spec), spec.Genesis(), RecordedActs(spec), SegmentWriter.WriterGuest(spec, n);
    WriterGuestFollows(spec, n);
    MergedActs(spec);
    ActsAfter(es, n, stop);
    FollowsLength(o, acts, |ActsOf(es[..n])|, g);
    StepFollows(o, acts, |ActsOf(es[..n])|, g, stop);
    SegmentWriter.StepIcount(g, stop);
    FollowsIsStateAt(o, acts, |ActsOf(es[..n])|, Step(g, stop));
    WrittenIsSteppable(spec);
    WrittenTimelines(spec, segmentIndex, 0);
    AppliableHasNoFault(WrittenRecords(spec), 0, stop);
    MockHypervisor.StepBounds(Written(spec), stop);
    SimResultIs(DefectOf(spec, segmentIndex), Written(spec), stop, Recorded, segmentIndex);
  }

  lemma FollowsLength(o: Origin, acts: seq<Act>, i: nat, g: Guest)
    requires Follows(o, acts, i, g)
    ensures i <= |acts|
  {
  }

  lemma {:induction false} ActsPast(es: seq<Emitted>, stop: u64)
    requires forall i :: 0 <= i < |es| ==> stop < es[i].key.icount
    ensures forall j :: 0 <= j < |ActsOf(es)| ==> stop < ActsOf(es)[j].at
    decreases |es|
  {
    if es != [] {
      ActsPast(es[1..], stop);
    }
  }

  lemma ActsAfter(es: seq<Emitted>, n: nat, stop: u64)
    requires n <= |es| && forall i :: n <= i < |es| ==> stop < es[i].key.icount
    ensures |ActsOf(es[..n])| <= |ActsOf(es)|
    ensures forall j :: |ActsOf(es[..n])| <= j < |ActsOf(es)| ==> stop < ActsOf(es)[j].at
  {
    assert es == es[..n] + es[n..];
    ActsOfConcat(es[..n], es[n..]);
    ActsPast(es[n..], stop);
  }

  /** ... and it reproduces every recorded epoch hash and the recorded end hash. */
  lemma OracleReproducesRecording(spec: Spec, segmentIndex: u32)
    requires spec.Valid()
    ensures Written(spec).Valid()
    ensures var s, t := Written(spec), Timeline(DefectOf(spec, segmentIndex), Written(spec), Recorded, segmentIndex);
            var o := OriginOf(s.header);
            && (forall i :: 0 <= i < |EpochsOf(Records(s))| ==>
                  EpochsOf(Records(s))[i].chain == ChainAt(o, t, EpochsOf(Records(s))[i].icount / EPOCH))
            && s.header.endStateHash == ChainValue(StateAt(o, t, s.header.endIcount))
  {
    hide *;
    EndHashIs(spec);
    WrittenIsSteppable(spec);
    WrittenTimelines(spec, segmentIndex, 0);
    WrittenEpochs(spec);
    EpochBoundary(EpochsOf(WrittenRecords(spec)));
  }

  lemma EpochBoundary(es: seq<Epoch>)
    requires forall i :: 0 <= i < |es| ==> es[i].icount == (i + 1) * EPOCH
    ensures forall i :: 0 <= i < |es| ==> es[i].icount / EPOCH == i + 1
  {
  }

  lemma EndHashIs(spec: Spec)
    ensures EndHash(spec) == ChainValue(StateAt(spec.Genesis(), RecordedActs(spec), spec.endIcount))
  {
  }
}
