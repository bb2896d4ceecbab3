/** Facts about a merged recording: its timeline, its records, their encoding. */
module Recording {
  import opened Wrappers
  import opened Bytes
  import opened Guest
  import opened Divergence
  import opened Dhilog
  import opened Validator
  import opened Merge
  import opened Writer

  // ---- what the merge selects ----

  lemma InputBounded(spec: Spec, e: Emitted)
    requires spec.Valid() && e in Inputs(spec)
    ensures e.key.Leq(EndEntry(spec.endIcount).key) && e.key.icount <= spec.endIcount && !e.value.End?
    ensures e.value.Canonical? ==> e.value.event.Fits()
  {
    assert e in EpochEntries(spec.Epochs()) || e in SkewEntries(spec.skewAt)
           || e in EventEntries(spec.events) || e in MarkEntries(spec.frameMarks);
  }

  /** The merge is ordered and ends with the one END. */
  lemma MergedShape(spec: Spec)
    requires spec.Valid()
    ensures Ordered(Merged(spec))
    ensures Merged(spec) == Sort(Inputs(spec)) + [EndEntry(spec.endIcount)]
    ensures forall e :: e in Sort(Inputs(spec)) ==>
              e in Inputs(spec) && !e.value.End? && e.key.icount <= spec.endIcount
  {
    var inputs, end := Inputs(spec), EndEntry(spec.endIcount);
    forall e | e in inputs
      ensures e.key.Leq(end.key) && e.key.icount <= spec.endIcount && !e.value.End?
    {
      InputBounded(spec, e);
    }
    SortKeeps(inputs + [end]);
    SortLast(inputs, end);
    SortKeeps(inputs);
    assert forall e :: e in Sort(inputs) ==> e in multiset(Sort(inputs));
  }

  lemma SelectParts(p: Emitted -> bool, a: seq<Emitted>, b: seq<Emitted>, c: seq<Emitted>, d: seq<Emitted>,
                    e: seq<Emitted>)
    ensures Select(p, Sort(a + b + c + d + e))
            == Sort(Select(p, a) + Select(p, b) + Select(p, c) + Select(p, d) + Select(p, e))
  {
    SelectSort(p, a + b + c + d + e);
    SelectConcat(p, a + b + c + d, e);
    SelectConcat(p, a + b + c, d);
    SelectConcat(p, a + b, c);
    SelectConcat(p, a, b);
  }

  /** What a selection keeps of each kind of emission is what it keeps of the merge. */
  lemma SelectMerged(p: Emitted -> bool, spec: Spec, a: seq<Emitted>, b: seq<Emitted>, c: seq<Emitted>, d: seq<Emitted>,
                     e: seq<Emitted>)
    requires spec.Valid()
    requires Select(p, EpochEntries(spec.Epochs())) == a && Select(p, SkewEntries(spec.skewAt)) == b
    requires Select(p, EventEntries(spec.events)) == c && Select(p, MarkEntries(spec.frameMarks)) == d
    requires Select(p, [EndEntry(spec.endIcount)]) == e
    ensures Select(p, Merged(spec)) == Sort(a + b + c + d + e)
  {
    SelectParts(p, EpochEntries(spec.Epochs()), SkewEntries(spec.skewAt), EventEntries(spec.events),
                MarkEntries(spec.frameMarks), [EndEntry(spec.endIcount)]);
  }

  lemma EventsOrdered(spec: Spec)
    requires spec.Valid()
    ensures Sort(EventEntries(spec.events)) == EventEntries(spec.events) && Ordered(EventEntries(spec.events))
  {
    SortOrdered(EventEntries(spec.events));
  }

  lemma CanonicalParts(n: nat, skewAt: Option<u64>, events: seq<ScriptEvent>, marks: seq<FrameMark>, end: u64)
    requires n * EPOCH < TWO64
    ensures Select(IsCanonical, EpochEntries(n)) == []
    ensures Select(IsCanonical, SkewEntries(skewAt)) == []
    ensures Select(IsCanonical, EventEntries(events)) == EventEntries(events)
    ensures Select(IsCanonical, MarkEntries(marks)) == []
    ensures Select(IsCanonical, [EndEntry(end)]) == []
  {
    SelectNone(IsCanonical, EpochEntries(n));
    SelectNone(IsCanonical, SkewEntries(skewAt));
    SelectAll(IsCanonical, EventEntries(events));
    SelectNone(IsCanonical, MarkEntries(marks));
    SelectNone(IsCanonical, [EndEntry(end)]);
  }

  /** The canonical emissions come out in script order. */
  lemma CanonicalInOrder(spec: Spec)
    requires spec.Valid()
    ensures Select(IsCanonical, Merged(spec)) == EventEntries(spec.events)
  {
    hide *;
    var es := EventEntries(spec.events);
    EpochsFit(spec);
    CanonicalParts(spec.Epochs(), spec.skewAt, spec.events, spec.frameMarks, spec.endIcount);
    SelectMerged(IsCanonical, spec, [], [], es, [], []);
    EventsOrdered(spec);
    assert [] + [] + es + [] + [] == es;
  }

  lemma EpochParts(n: nat, skewAt: Option<u64>, events: seq<ScriptEvent>, marks: seq<FrameMark>, end: u64)
    requires n * EPOCH < TWO64
    ensures Select(IsEpoch, EpochEntries(n)) == EpochEntries(n)
    ensures Select(IsEpoch, SkewEntries(skewAt)) == []
    ensures Select(IsEpoch, EventEntries(events)) == []
    ensures Select(IsEpoch, MarkEntries(marks)) == []
    ensures Select(IsEpoch, [EndEntry(end)]) == []
  {
    SelectAll(IsEpoch, EpochEntries(n));
    SelectNone(IsEpoch, SkewEntries(skewAt));
    SelectNone(IsEpoch, EventEntries(events));
    SelectNone(IsEpoch, MarkEntries(marks));
    SelectNone(IsEpoch, [EndEntry(end)]);
  }

  lemma EpochsOrdered(n: nat)
    requires n * EPOCH < TWO64
    ensures Sort(EpochEntries(n)) == EpochEntries(n)
  {
    SortOrdered(EpochEntries(n));
  }

  /** Epoch hashes come out once per boundary, in order. */
  lemma EpochsInOrder(spec: Spec)
    requires spec.Valid()
    ensures spec.Epochs() * EPOCH < TWO64
    ensures Select(IsEpoch, Merged(spec)) == EpochEntries(spec.Epochs())
  {
    hide *;
    EpochsFit(spec);
    var es := EpochEntries(spec.Epochs());
    EpochParts(spec.Epochs(), spec.skewAt, spec.events, spec.frameMarks, spec.endIcount);
    SelectMerged(IsEpoch, spec, es, [], [], [], []);
    EpochsOrdered(spec.Epochs());
    assert es + [] + [] + [] + [] == es;
  }

  lemma EpochsFit(spec: Spec)
    ensures spec.Epochs() * EPOCH < TWO64
  {
  }

  /** Everything but the skew leaves a record. */
  lemma RecordsCounted(spec: Spec)
    requires spec.Valid()
    ensures |Kept(spec)| == spec.RecordCount()
  {
    var a, c, d, e :=
      EpochEntries(spec.Epochs()), EventEntries(spec.events), MarkEntries(spec.frameMarks), [EndEntry(spec.endIcount)];
    SelectAll(IsRecord, a);
    SelectNone(IsRecord, SkewEntries(spec.skewAt));
    SelectAll(IsRecord, c);
    SelectAll(IsRecord, d);
    SelectAll(IsRecord, e);
    SelectMerged(IsRecord, spec, a, [], c, d, e);
  }

  lemma {:induction false} ActsOfSelect(es: seq<Emitted>)
    ensures ActsOf(Select(Lands, es)) == ActsOf(es)
    decreases |es|
  {
    if es != [] {
      ActsOfSelect(es[1..]);
      if Lands(es[0]) {
        assert Select(Lands, es)[1..] == Select(Lands, es[1..]);
      }
    }
  }

  lemma {:induction false} ActsOfConcat(a: seq<Emitted>, b: seq<Emitted>)
    ensures ActsOf(a + b) == ActsOf(a) + ActsOf(b)
    decreases |a|
  {
    if a == [] {
      assert a + b == b;
    } else {
      assert (a + b)[1..] == a[1..] + b;
      ActsOfConcat(a[1..], b);
    }
  }

  lemma {:induction false} ActsOfMapped(es: seq<Emitted>)
    requires forall i :: 0 <= i < |es| ==> Lands(es[i])
    ensures |ActsOf(es)| == |es| && forall i :: 0 <= i < |es| ==> ActsOf(es)[i] == ActOf(es[i])
    decreases |es|
  {
    hide Lands, ActOf, ActsOf;
    ActsOfHead(es);
    if es != [] {
      ActsOfMapped(es[1..]);
    }
  }

  lemma ActsOfHead(es: seq<Emitted>)
    requires es != [] ==> Lands(es[0])
    ensures ActsOf(es) == if es == [] then [] else [ActOf(es[0])] + ActsOf(es[1..])
  {
    hide Lands, ActOf;
  }

  lemma ActsOfCons(x: Emitted, es: seq<Emitted>)
    requires Lands(x)
    ensures ActsOf([x] + es) == [ActOf(x)] + ActsOf(es)
  {
    assert ([x] + es)[1..] == es;
  }

  lemma InjectFront(acts: seq<Act>, d: Act)
    requires Sorted(acts) && (acts != [] ==> d.at <= acts[0].at)
    ensures Inject(acts, d) == [d] + acts
  {
    UpToNone(acts, d.at - 1);
  }

  lemma InjectCons(a: Act, rest: seq<Act>, d: Act)
    requires a.at < d.at
    ensures Inject([a] + rest, d) == [a] + Inject(rest, d)
  {
    assert ([a] + rest)[1..] == rest;
  }

  /** Inserting an emission into landing emissions injects its act into the timeline. */
  lemma {:induction false} InsertIsInject(x: Emitted, es: seq<Emitted>)
    requires Lands(x) && Ordered(es)
    requires forall i :: 0 <= i < |es| ==> Lands(es[i]) && (x.key.Leq(es[i].key) <==> x.key.icount <= es[i].key.icount)
    ensures ActsOf(Insert(x, es)) == Inject(ActsOf(es), ActOf(x))
    decreases |es|
  {
    if es == [] || x.key.Leq(es[0].key) {
      ActsOfMapped(es);
      ActsOfCons(x, es);
      assert Insert(x, es) == [x] + es;
      InjectFront(ActsOf(es), ActOf(x));
    } else {
      InsertIsInject(x, es[1..]);
      ActsOfCons(es[0], Insert(x, es[1..]));
      InjectCons(ActOf(es[0]), ActsOf(es[1..]), ActOf(x));
    }
  }

  lemma EventEntriesActs(spec: Spec)
    ensures ActsOf(EventEntries(spec.events)) == EventActs(spec.events)
  {
    ActsOfMapped(EventEntries(spec.events));
  }

  lemma LandingParts(n: nat, skewAt: Option<u64>, events: seq<ScriptEvent>, marks: seq<FrameMark>, end: u64)
    requires n * EPOCH < TWO64
    ensures Select(Lands, EpochEntries(n)) == [] && Select(Lands, SkewEntries(skewAt)) == SkewEntries(skewAt)
    ensures Select(Lands, EventEntries(events)) == EventEntries(events) && Select(Lands, MarkEntries(marks)) == []
    ensures Select(Lands, [EndEntry(end)]) == []
  {
    SelectNone(Lands, EpochEntries(n));
    SelectAll(Lands, SkewEntries(skewAt));
    SelectAll(Lands, EventEntries(events));
    SelectNone(Lands, MarkEntries(marks));
    SelectNone(Lands, [EndEntry(end)]);
  }

  lemma LandingInOrder(spec: Spec)
    requires spec.Valid()
    ensures Select(Lands, Merged(spec)) == Sort(SkewEntries(spec.skewAt) + EventEntries(spec.events))
  {
    hide *;
    var b, c := SkewEntries(spec.skewAt), EventEntries(spec.events);
    EpochsFit(spec);
    LandingParts(spec.Epochs(), spec.skewAt, spec.events, spec.frameMarks, spec.endIcount);
    SelectMerged(Lands, spec, [], b, c, [], []);
    assert [] + b + c + [] + [] == b + c;
  }

  /** Landing the merged emissions lives through exactly the recorded timeline: the
      skew falls before the inputs at its own icount. */
  lemma MergedActs(spec: Spec)
    requires spec.Valid()
    ensures ActsOf(Merged(spec)) == RecordedActs(spec)
  {
    var es := EventEntries(spec.events);
    ActsOfSelect(Merged(spec));
    LandingInOrder(spec);
    EventsOrdered(spec);
    EventEntriesActs(spec);
    match spec.skewAt {
      case None =>
        assert [] + es == es;
      case Some(at) =>
        SortCons(SkewEntry(at), es);
        InsertIsInject(SkewEntry(at), es);
    }
  }

  lemma RecordedSorted(spec: Spec)
    requires spec.Valid()
    ensures Sorted(EventActs(spec.events)) && Sorted(RecordedActs(spec))
    ensures forall i :: 0 <= i < |RecordedActs(spec)| ==> RecordedActs(spec)[i].at <= spec.endIcount
  {
    if spec.skewAt.Some? {
      InjectSorted(EventActs(spec.events), SkewAct(spec.skewAt.value));
    }
  }

  // ---- the written segment ----

  ghost function Kept(spec: Spec): (es: seq<Emitted>)
    requires spec.Valid()
  {
    Select(IsRecord, Merged(spec))
  }

  /** Records come in merge order; the last is the END, and no other one is. */
  lemma KeptShape(spec: Spec)
    requires spec.Valid()
    ensures Ordered(Kept(spec)) && |Kept(spec)| == spec.RecordCount()
    ensures forall i :: 0 <= i < |Kept(spec)| ==> Kept(spec)[i].key.icount <= spec.endIcount
    ensures forall i :: 0 <= i < |Kept(spec)| ==> (Kept(spec)[i].value.End? <==> i == |Kept(spec)| - 1)
    ensures Kept(spec)[|Kept(spec)| - 1] == EndEntry(spec.endIcount)
  {
    var end := EndEntry(spec.endIcount);
    var sorted := Sort(Inputs(spec));
    MergedShape(spec);
    SelectOrdered(IsRecord, Merged(spec));
    SelectConcat(IsRecord, sorted, [end]);
    SelectAll(IsRecord, [end]);
    SelectMembers(IsRecord, sorted);
    RecordsCounted(spec);
    var front := Select(IsRecord, sorted);
    assert Kept(spec) == front + [end];
    forall i | 0 <= i < |front|
      ensures !front[i].value.End? && front[i].key.icount <= spec.endIcount
    {
      assert front[i] in sorted;
    }
  }

  lemma KeptFits(spec: Spec)
    requires spec.Valid()
    ensures forall e :: e in Kept(spec) ==> IsRecord(e) && (e.value.Canonical? ==> e.value.event.Fits())
  {
    MergedShape(spec);
    SelectMembers(IsRecord, Merged(spec));
    forall e | e in Kept(spec)
      ensures IsRecord(e) && (e.value.Canonical? ==> e.value.event.Fits())
    {
      assert e in Merged(spec);
      if e != EndEntry(spec.endIcount) {
        InputBounded(spec, e);
      }
    }
  }

  ghost function WrittenRecords(spec: Spec): (recs: seq<Record>)
    requires spec.Valid()
  {
    RecordsFor(spec, Kept(spec))
  }

  lemma WrittenLimits(spec: Spec)
    requires spec.Valid()
    ensures Encodable(WrittenRecords(spec))
    ensures forall i :: 0 <= i < |Kept(spec)| ==> WithinLimits(WrittenRecords(spec)[i])
  {
    KeptFits(spec);
    forall i | 0 <= i < |Kept(spec)|
      ensures WithinLimits(WrittenRecords(spec)[i]) && |WrittenRecords(spec)[i].payload| < TWO16
    {
      assert Kept(spec)[i] in Kept(spec);
      LimitsOfRecord(spec, Kept(spec)[i], i % TWO32);
    }
  }

  lemma LimitsOfRecord(spec: Spec, e: Emitted, seqNo: u32)
    requires IsRecord(e) && (e.value.Canonical? ==> e.value.event.Fits())
    ensures WithinLimits(RecordOf(spec, e, seqNo))
    ensures RecordOf(spec, e, seqNo).IsEnd() <==> e.value.End?
  {
  }

  ghost function WrittenBody(spec: Spec): seq<byte>
    requires spec.Valid()
  {
    WrittenLimits(spec);
    EncodeRecords(WrittenRecords(spec))
  }

  ghost function EndVns(spec: Spec): (v: u64)
    requires spec.Valid()
  {
    QuotientFits(spec.endIcount * spec.clockNum, spec.clockDen);
    spec.endIcount * spec.clockNum / spec.clockDen
  }

  lemma QuotientFits(n: nat, d: nat)
    requires d > 0
    ensures n / d <= n
  {
    MultipleIsLarger(n / d, d);
    assert n / d * d <= n;
  }

  lemma MultipleIsLarger(q: nat, d: nat)
    requires d > 0
    ensures q <= q * d
  {
    assert q * d == q + q * (d - 1);
    assert q * (d - 1) >= 0;
  }

  ghost function WrittenHeader(spec: Spec): Header
    requires spec.Valid()
  {
    Header(DHILOG_VERSION, if spec.omitEpochHashes then 3 else 7,
           spec.baseSnapshot, spec.endSnapshot, spec.entropySeed, spec.machineConfig,
           spec.clockNum, spec.clockDen, spec.RecordCount(), spec.endIcount,
           EndVns(spec), EndHash(spec), BLAKE3(WrittenBody(spec)))
  }

  ghost function WrittenBytes(spec: Spec): seq<byte>
    requires spec.Valid()
  {
    EncodeHeader(WrittenHeader(spec)) + WrittenBody(spec)
  }

  ghost function Written(spec: Spec): Segment
    requires spec.Valid()
  {
    Segment(WrittenBytes(spec), WrittenHeader(spec))
  }

  lemma {:induction false} EncodeRecordsAppend(recs: seq<Record>, r: Record)
    requires Encodable(recs) && |r.payload| < TWO16
    ensures Encodable(recs + [r]) && EncodeRecords(recs + [r]) == EncodeRecords(recs) + EncodeRecord(r)
    decreases |recs|
  {
    hide EncodeRecord;
    if recs == [] {
      assert recs + [r] == [r];
      assert [r][1..] == [];
    } else {
      EncodeRecordsAppend(recs[1..], r);
      assert (recs + [r])[1..] == recs[1..] + [r];
      assert EncodeRecords(recs) + EncodeRecord(r)
             == EncodeRecord(recs[0]) + (EncodeRecords(recs[1..]) + EncodeRecord(r));
    }
  }

  lemma RecordAt(spec: Spec, es: seq<Emitted>, i: nat)
    requires i < |es| && i < TWO32 && IsRecord(es[i]) && (es[i].value.Canonical? ==> es[i].value.event.Fits())
    ensures var r := RecordsFor(spec, es)[i];
            && WithinLimits(r) && r.seqNo == i && r.icount == es[i].key.icount
            && (r.IsEnd() <==> es[i].value.End?)
  {
    hide RecordOf, WithinLimits, Record.IsEnd;
    assert RecordsFor(spec, es)[i] == RecordOf(spec, es[i], i);
    LimitsOfRecord(spec, es[i], i);
    FieldsOfRecord(spec, es[i], i);
  }

  lemma FieldsOfRecord(spec: Spec, e: Emitted, seqNo: u32)
    ensures RecordOf(spec, e, seqNo).seqNo == seqNo && RecordOf(spec, e, seqNo).icount == e.key.icount
  {
    hide RecordPayload, RecordKind, BoundaryRip;
  }

  lemma EndPayload(spec: Spec)
    ensures |RecordPayload(spec, End)| == 40 && RecordPayload(spec, End)[8..40] == EndHash(spec)
  {
    hide EndHash;
  }

  lemma StreamSealed(spec: Spec, es: seq<Emitted>, h: Header)
    requires 0 < |es| <= TWO32 && |es| == h.recordCount && Ordered(es)
    requires forall e :: e in es ==> IsRecord(e) && (e.value.Canonical? ==> e.value.event.Fits())
    requires forall i :: 0 <= i < |es| ==> es[i].key.icount <= h.endIcount && (es[i].value.End? <==> i == |es| - 1)
    requires es[|es| - 1] == EndEntry(h.endIcount) && h.endStateHash == EndHash(spec)
    ensures SealedStream(h, RecordsFor(spec, es))
  {
    hide RecordsFor, WithinLimits, EndHash, RecordOf;
    var recs, n := RecordsFor(spec, es), |es|;
    forall i | 0 <= i < n
      ensures WithinLimits(recs[i]) && recs[i].seqNo == i && recs[i].icount == es[i].key.icount
      ensures recs[i].IsEnd() <==> i == n - 1
    {
      assert es[i] in es;
      RecordAt(spec, es, i);
    }
    EndPayload(spec);
    assert recs[n - 1].payload == RecordPayload(spec, End) by { LastRecord(spec, es); }
  }

  lemma LastRecord(spec: Spec, es: seq<Emitted>)
    requires es != [] && es[|es| - 1].value.End?
    ensures RecordsFor(spec, es)[|es| - 1].payload == RecordPayload(spec, End)
  {
  }

  /** What the writer emits is a sealed stream under its own header. */
  lemma WrittenStreamSealed(spec: Spec)
    requires spec.Valid()
    ensures SealedStream(WrittenHeader(spec), WrittenRecords(spec))
  {
    var h := WrittenHeader(spec);
    assert h.recordCount == spec.RecordCount() < TWO32 && h.endIcount == spec.endIcount
           && h.endStateHash == EndHash(spec);
    assert WrittenRecords(spec) == RecordsFor(spec, Kept(spec)) && spec.RecordCount() > 0;
    hide *;
    KeptShape(spec);
    KeptFits(spec);
    StreamSealed(spec, Kept(spec), h);
  }

  lemma WrittenSegmentIs(spec: Spec)
    requires spec.Valid()
    ensures var s, h, body := Written(spec), WrittenHeader(spec), WrittenBody(spec);
            && s.header == h && s.bytes == EncodeHeader(h) + body && h.Sealed() && h.endStateHash == EndHash(spec)
            && h.bodyHash == BLAKE3(body)
  {
    hide EncodeHeader, WrittenBody, EndHash, EndVns, Spec.Valid;
  }

  /** Writer and parser agree: every output parses to its own header, frames back to
      exactly the merged records, and is accepted unless its end hash is zero. */
  lemma WriterAndParserAgree(spec: Spec)
    requires spec.Valid()
    ensures ParseHeader(WrittenBytes(spec)) == Ok(WrittenHeader(spec)) && Written(spec).Valid()
    ensures Written(spec).Walk() == Walk(CleanFrames(WrittenRecords(spec)), false)
    ensures Records(Written(spec)) == WrittenRecords(spec)
    ensures Verdict(Written(spec)) == None <==> EndHash(spec) != Zeros(32)
  {
    hide *;
    var h, body, recs := WrittenHeader(spec), WrittenBody(spec), WrittenRecords(spec);
    var s := Written(spec);
    WrittenSegmentIs(spec);
    ParseOfEncode(h, body);
    WrittenBodyIs(spec);
    FramesOfEncode(recs);
    WrittenStreamSealed(spec);
    SealedStreamPasses(h, recs);
    RecordsOfClean(recs);
    VerdictOfStream(s, h, body, recs);
  }

  lemma WrittenBodyIs(spec: Spec)
    requires spec.Valid()
    ensures Encodable(WrittenRecords(spec)) && WrittenBody(spec) == EncodeRecords(WrittenRecords(spec))
    ensures Written(spec).bytes == WrittenBytes(spec)
  {
    WrittenLimits(spec);
  }

  /** A sealed header over a stream that passes: only a zero end hash is refused. */
  lemma VerdictOfStream(s: Segment, h: Header, body: seq<byte>, recs: seq<Record>)
    requires s.header == h && s.bytes == EncodeHeader(h) + body && ParseHeader(s.bytes) == Ok(h)
    requires h.Sealed() && h.bodyHash == BLAKE3(body)
    requires Frames(body) == Walk(CleanFrames(recs), false) && RecordsOf(CleanFrames(recs)) == recs
    requires CheckFrom(h, Walk(CleanFrames(recs), false), 0) == None
    ensures s.Valid() && s.Walk() == Walk(CleanFrames(recs), false) && Records(s) == recs
    ensures Verdict(s) == None <==> h.endStateHash != Zeros(32)
  {
    hide EncodeHeader, Frames, CleanFrames, RecordsOf, CheckFrom, ParseHeader;
    assert s.Body() == body;
  }

  lemma RecordsOfClean(recs: seq<Record>)
    ensures RecordsOf(CleanFrames(recs)) == recs
  {
  }
}
