/** What replaying a written segment meets: the recorded inputs and the recorded hashes. */
module WrittenReplay {
  import opened Wrappers
  import opened Bytes
  import opened Guest
  import opened Dhilog
  import opened Validator
  import opened Merge
  import opened Writer
  import opened Recording
  import opened Replay
  import SegmentWriter

  lemma {:induction false} SelectSelect(p: Emitted -> bool, q: Emitted -> bool, es: seq<Emitted>)
    requires forall e :: p(e) ==> q(e)
    ensures Select(p, Select(q, es)) == Select(p, es)
    decreases |es|
  {
    if es != [] {
      SelectSelect(p, q, es[1..]);
      if q(es[0]) {
        SelectCons(p, es[0], Select(q, es[1..]));
      }
    }
  }

  lemma CanonActsOne(spec: Spec, e: Emitted, seqNo: u32)
    ensures CanonActs([RecordOf(spec, e, seqNo)]) == if IsCanonical(e) then [ActOf(e)] else []
  {
    assert [RecordOf(spec, e, seqNo)][1..] == [];
  }

  /** The canonical records of a list of emissions fold the canonical emissions. */
  lemma {:induction false} CanonActsOfRecords(spec: Spec, es: seq<Emitted>)
    requires |es| <= TWO32
    ensures CanonActs(RecordsFor(spec, es)) == ActsOf(Select(IsCanonical, es))
    decreases |es|
  {
    if es != [] {
      var n := |es| - 1;
      var front, e := es[..n], es[n];
      assert es == front + [e];
      CanonActsOfRecords(spec, front);
      SegmentWriter.RecordsForAppend(spec, front, e);
      CanonActsConcat(RecordsFor(spec, front), [RecordOf(spec, e, n)]);
      CanonActsOne(spec, e, n);
      SelectConcat(IsCanonical, front, [e]);
      SelectCons(IsCanonical, e, []);
      ActsOfConcat(Select(IsCanonical, front), Select(IsCanonical, [e]));
      ActsOfOne(e);
    }
  }

  lemma ActsOfOne(e: Emitted)
    ensures IsCanonical(e) ==> ActsOf([e]) == [ActOf(e)]
  {
    assert [e][1..] == [];
  }

  function EpochFor(spec: Spec, e: Emitted): Epoch
    requires e.value.EpochHash?
  {
    Epoch(e.value.k, e.key.icount, ChainAt(spec.Genesis(), RecordedActs(spec), e.value.k))
  }

  function EpochsFor(spec: Spec, es: seq<Emitted>): (out: seq<Epoch>)
    requires forall i :: 0 <= i < |es| ==> es[i].value.EpochHash?
    ensures |out| == |es| && forall i :: 0 <= i < |es| ==> out[i] == EpochFor(spec, es[i])
  {
    seq(|es|, i requires 0 <= i < |es| => EpochFor(spec, es[i]))
  }

  lemma EpochsForAll(spec: Spec, es: seq<Emitted>)
    requires forall z :: z in Select(IsEpoch, es) ==> IsEpoch(z) && z in es
    ensures forall i :: 0 <= i < |Select(IsEpoch, es)| ==> Select(IsEpoch, es)[i].value.EpochHash?
  {
    forall i | 0 <= i < |Select(IsEpoch, es)|
      ensures Select(IsEpoch, es)[i].value.EpochHash?
    {
      assert Select(IsEpoch, es)[i] in Select(IsEpoch, es);
    }
  }

  lemma EpochsOfOne(spec: Spec, e: Emitted, seqNo: u32)
    ensures EpochsOf([RecordOf(spec, e, seqNo)]) == if e.value.EpochHash? then [EpochFor(spec, e)] else []
  {
    hide ChainAt, BoundaryRip, RecordedActs, LE64, EndHash, CanonicalEvent.Payload, Zeros;
    var r := RecordOf(spec, e, seqNo);
    assert [r][1..] == [];
    if e.value.EpochHash? {
      var chain := ChainAt(spec.Genesis(), RecordedActs(spec), e.value.k);
      assert r.payload == LE64(e.value.k) + chain;
      assert r.payload[0..8] == LE64(e.value.k) && r.payload[8..40] == chain;
      Word64(e.value.k);
    }
  }

  ghost predicate AllEpochHashes(es: seq<Emitted>) {
    forall i :: 0 <= i < |es| ==> es[i].value.EpochHash?
  }

  lemma EpochHashesAre(spec: Spec, es: seq<Emitted>)
    ensures AllEpochHashes(Select(IsEpoch, es))
  {
    SelectMembers(IsEpoch, es);
    EpochsForAll(spec, es);
  }

  lemma EpochsForAppend(spec: Spec, a: seq<Emitted>, b: seq<Emitted>)
    requires AllEpochHashes(a) && AllEpochHashes(b) && AllEpochHashes(a + b)
    ensures EpochsFor(spec, a + b) == EpochsFor(spec, a) + EpochsFor(spec, b)
  {
    hide EpochFor;
  }

  lemma EpochsForOne(spec: Spec, e: Emitted)
    ensures AllEpochHashes(Select(IsEpoch, [e]))
    ensures EpochsFor(spec, Select(IsEpoch, [e])) == if e.value.EpochHash? then [EpochFor(spec, e)] else []
  {
    hide EpochFor;
    SelectCons(IsEpoch, e, []);
    assert [e] + [] == [e];
  }

  lemma SplitLast(es: seq<Emitted>)
    requires es != []
    ensures es == es[..|es| - 1] + [es[|es| - 1]]
  {
  }

  /** The epoch records of a list of emissions carry the recorded chains. */
  lemma {:induction false} EpochsOfRecords(spec: Spec, es: seq<Emitted>)
    requires |es| <= TWO32
    ensures AllEpochHashes(Select(IsEpoch, es))
    ensures EpochsOf(RecordsFor(spec, es)) == EpochsFor(spec, Select(IsEpoch, es))
    decreases |es|
  {
    EpochHashesAre(spec, es);
    if es != [] {
      hide RecordOf, RecordsFor, EpochFor, EpochsFor, EpochsOf, AllEpochHashes, Select;
      var n := |es| - 1;
      var front, e := es[..n], es[n];
      SplitLast(es);
      EpochsOfRecords(spec, front);
      SegmentWriter.RecordsForAppend(spec, front, e);
      EpochsOfConcat(RecordsFor(spec, front), [RecordOf(spec, e, n)]);
      EpochsOfOne(spec, e, n);
      SelectConcat(IsEpoch, front, [e]);
      EpochsForOne(spec, e);
      EpochsForAppend(spec, Select(IsEpoch, front), Select(IsEpoch, [e]));
    }
  }

  /** The replay of a written segment folds exactly the recorded inputs. */
  lemma WrittenActs(spec: Spec)
    requires spec.Valid()
    ensures CanonActs(WrittenRecords(spec)) == EventActs(spec.events)
  {
    KeptShape(spec);
    CanonActsOfRecords(spec, Kept(spec));
    SelectSelect(IsCanonical, IsRecord, Merged(spec));
    CanonicalInOrder(spec);
    EventEntriesActs(spec);
  }

  /** Its epoch records stand at every boundary, with the recorded guest's chain. */
  lemma WrittenEpochs(spec: Spec)
    requires spec.Valid()
    ensures var es := EpochsOf(WrittenRecords(spec));
            && |es| == spec.Epochs()
            && forall i :: 0 <= i < |es| ==>
                 es[i].index == i + 1 && es[i].icount == (i + 1) * EPOCH
                 && es[i].chain == ChainAt(spec.Genesis(), RecordedActs(spec), i + 1)
  {
    KeptShape(spec);
    EpochsOfRecords(spec, Kept(spec));
    SelectSelect(IsEpoch, IsRecord, Merged(spec));
    EpochsInOrder(spec);
  }

  /** Every record can be applied, and every epoch payload has its 40 bytes. */
  ghost predicate Appliable(recs: seq<Record>) {
    forall i :: 0 <= i < |recs| ==>
      (!recs[i].IsAux() ==> CanonicalKind(recs[i].kind)) && (IsEpochRecord(recs[i]) ==> |recs[i].payload| == 40)
  }

  lemma WrittenAppliable(spec: Spec)
    requires spec.Valid()
    ensures Appliable(WrittenRecords(spec))
  {
    forall i | 0 <= i < |Kept(spec)|
      ensures var r := WrittenRecords(spec)[i];
              (!r.IsAux() ==> CanonicalKind(r.kind)) && (IsEpochRecord(r) ==> |r.payload| == 40)
    {
      AppliableRecord(spec, Kept(spec)[i], i % TWO32);
    }
  }

  lemma AppliableRecord(spec: Spec, e: Emitted, seqNo: u32)
    ensures var r := RecordOf(spec, e, seqNo);
            (!r.IsAux() ==> CanonicalKind(r.kind)) && (IsEpochRecord(r) ==> |r.payload| == 40)
  {
  }

  lemma {:induction false} AppliableHasNoFault(recs: seq<Record>, j: nat, stop: u64)
    requires Appliable(recs) && j <= |recs|
    ensures FaultFrom(recs, false, j, stop) == None
    decreases |recs| - j
  {
    if j < |recs| {
      AppliableHasNoFault(recs, j + 1, stop);
    }
  }

  lemma {:induction false} AppliableReplays(o: Origin, acts: seq<Act>, recs: seq<Record>, j: nat)
    requires Appliable(recs) && j <= |recs|
    ensures !ReplayFrom(o, acts, recs, false, j).Faulted?
    decreases |recs| - j
  {
    if j < |recs| {
      AppliableReplays(o, acts, recs, j + 1);
    }
  }

  /** A segment the validator accepts can be stepped through; with 40-byte epoch
      payloads nothing in it can fault. */
  lemma ValidatedIsSteppable(s: Segment)
    requires s.Valid() && Verdict(s) == None && s.header.endIcount + EPOCH < TWO64
    ensures Steppable(s) && !s.Walk().torn
    ensures (forall i :: 0 <= i < |Records(s)| && IsEpochRecord(Records(s)[i]) ==> |Records(s)[i].payload| == 40) ==>
              Appliable(Records(s))
  {
    WellFormedRecords(s);
  }

  /** So can a written one, even with a zero end hash. */
  lemma WrittenIsSteppable(spec: Spec)
    requires spec.Valid()
    ensures Written(spec).Valid() && Steppable(Written(spec)) && !Written(spec).Walk().torn
    ensures Records(Written(spec)) == WrittenRecords(spec) && Appliable(WrittenRecords(spec))
    ensures OriginOf(Written(spec).header) == spec.Genesis() && Written(spec).header.endIcount == spec.endIcount
    ensures Written(spec).header.endStateHash == EndHash(spec)
  {
    var s, h := Written(spec), WrittenHeader(spec);
    assert s.header == h && h.endIcount == spec.endIcount && OriginOf(h) == spec.Genesis()
           && h.endStateHash == EndHash(spec) && spec.endIcount + EPOCH < TWO64;
    hide *;
    WriterAndParserAgree(spec);
    WrittenStreamSealed(spec);
    WrittenAppliable(spec);
    SealedIsSteppable(s);
  }

  lemma SealedIsSteppable(s: Segment)
    requires s.Valid() && SealedStream(s.header, Records(s)) && s.header.endIcount + EPOCH < TWO64
    ensures Steppable(s)
  {
    hide Records, Segment.Valid;
  }
}
