/** `write_segment`: one pass over the merged emissions with a stepping guest. */
module SegmentWriter {
  import opened Bytes
  import opened Fnv
  import opened Guest
  import opened Dhilog
  import opened Validator
  import opened Merge
  import opened Writer
  import opened Recording

  method CollectEpochs(endIcount: u64) returns (es: seq<Emitted>)
    requires endIcount + EPOCH < TWO64
    ensures es == EpochEntries(endIcount / EPOCH)
  {
    es := [];
    var k: nat := 1;
    while k * EPOCH <= endIcount
      invariant 1 <= k <= endIcount / EPOCH + 1
      invariant es == EpochEntries(k - 1)
      decreases endIcount + EPOCH - k * EPOCH
    {
      es := es + [EpochEntry(k)];
      k := k + 1;
    }
  }

  method CollectEvents(events: seq<ScriptEvent>) returns (es: seq<Emitted>)
    ensures es == EventEntries(events)
  {
    es := [];
    var i := 0;
    while i < |events|
      invariant 0 <= i <= |events| && es == EventEntries(events)[..i]
    {
      es := es + [EventEntry(events[i], i)];
      i := i + 1;
    }
  }

  method CollectMarks(marks: seq<FrameMark>) returns (es: seq<Emitted>)
    ensures es == MarkEntries(marks)
  {
    es := [];
    var i := 0;
    while i < |marks|
      invariant 0 <= i <= |marks| && es == MarkEntries(marks)[..i]
    {
      es := es + [MarkEntry(marks[i], i)];
      i := i + 1;
    }
  }

  /** Collect the emissions kind by kind, then sort them by key. */
  method CollectEmissions(spec: Spec) returns (emissions: seq<Emitted>)
    requires spec.Valid()
    ensures emissions == Merged(spec)
  {
    hide Sort, EpochEntries, EventEntries, MarkEntries;
    emissions := [];
    if !spec.omitEpochHashes {
      emissions := CollectEpochs(spec.endIcount);
    }
    assert emissions == EpochEntries(spec.Epochs());
    if spec.skewAt.Some? {
      emissions := emissions + [SkewEntry(spec.skewAt.value)];
    }
    assert emissions == EpochEntries(spec.Epochs()) + SkewEntries(spec.skewAt);
    var events := CollectEvents(spec.events);
    var marks := CollectMarks(spec.frameMarks);
    emissions := emissions + events + marks;
    emissions := emissions + [EndEntry(spec.endIcount)];
    emissions := Sort(emissions);
  }

  /** Append one framed record, zero-padded to eight bytes. */
  method PushRecord(body: seq<byte>, kind: byte, rflags: byte, seqNo: u32, icount: u64, payload: seq<byte>)
      returns (longer: seq<byte>)
    requires |payload| <= MAX_PAYLOAD
    ensures longer == body + EncodeRecord(Record(kind, rflags, seqNo, icount, BoundaryRip(icount), payload))
  {
    hide LE16, LE32, LE64, BoundaryRip, Zeros;
    longer := body + [kind, rflags];
    longer := longer + LE16(|payload|);
    longer := longer + LE32(seqNo);
    longer := longer + LE64(icount);
    longer := longer + LE64(BoundaryRip(icount));
    longer := longer + payload;
    var pad := (8 - |payload| % 8) % 8;
    longer := longer + Zeros(pad);
    PadBytes(|payload|);
  }

  lemma PadBytes(n: nat)
    ensures Zeros((8 - n % 8) % 8) == Padding(n)
  {
  }

  /** The acts still to come are at or after the next emission. */
  lemma ActsFromOrdered(es: seq<Emitted>, n: u64)
    requires forall i :: 0 <= i < |es| ==> n <= es[i].key.icount
    ensures forall i :: 0 <= i < |ActsOf(es)| ==> n <= ActsOf(es)[i].at
    decreases |es|
  {
    if es != [] {
      ActsFromOrdered(es[1..], n);
    }
  }

  /** Stepping to the next emission keeps following the timeline. */
  lemma StepToEmission(o: Origin, es: seq<Emitted>, n: nat, g: Guest)
    requires Ordered(es) && n < |es|
    requires Follows(o, ActsOf(es), |ActsOf(es[..n])|, g) && g.icount <= es[n].key.icount
    ensures Follows(o, ActsOf(es), |ActsOf(es[..n])|, Step(g, es[n].key.icount))
  {
    assert es == es[..n] + es[n..];
    ActsOfConcat(es[..n], es[n..]);
    ActsFromOrdered(es[n..], es[n].key.icount);
    StepFollows(o, ActsOf(es), |ActsOf(es[..n])|, g, es[n].key.icount);
  }

  lemma ActsOfPrefix(es: seq<Emitted>, n: nat)
    requires n < |es|
    ensures ActsOf(es[..n + 1]) == ActsOf(es[..n]) + (if Lands(es[n]) then [ActOf(es[n])] else [])
    ensures |ActsOf(es[..n])| <= |ActsOf(es)|
    ensures Lands(es[n]) ==> |ActsOf(es[..n])| < |ActsOf(es)| && ActsOf(es)[|ActsOf(es[..n])|] == ActOf(es[n])
  {
    assert es[..n + 1] == es[..n] + [es[n]];
    ActsOfConcat(es[..n], [es[n]]);
    assert es == es[..n] + es[n..];
    ActsOfConcat(es[..n], es[n..]);
    assert [es[n]][1..] == [];
  }

  /** Landing the emission the guest stands at. */
  lemma LandEmission(o: Origin, es: seq<Emitted>, n: nat, g: Guest)
    requires n < |es| && Follows(o, ActsOf(es), |ActsOf(es[..n])|, g) && g.icount == es[n].key.icount
    ensures Follows(o, ActsOf(es), |ActsOf(es[..n + 1])|, if Lands(es[n]) then Land(g, ActOf(es[n]).bytes) else g)
  {
    ActsOfPrefix(es, n);
    if Lands(es[n]) {
      LandAct(o, ActsOf(es), |ActsOf(es[..n])|, g);
    }
  }

  lemma KeptPrefix(es: seq<Emitted>, n: nat)
    requires n < |es|
    ensures Select(IsRecord, es[..n + 1]) == Select(IsRecord, es[..n]) + (if IsRecord(es[n]) then [es[n]] else [])
    ensures Select(IsRecord, es[..n]) <= Select(IsRecord, es)
    ensures IsRecord(es[n]) ==> |Select(IsRecord, es[..n])| < |Select(IsRecord, es)|
  {
    assert es[..n + 1] == es[..n] + [es[n]];
    SelectConcat(IsRecord, es[..n], [es[n]]);
    SelectCons(IsRecord, es[n], []);
    assert es == es[..n] + ([es[n]] + es[n + 1..]);
    SelectConcat(IsRecord, es[..n], [es[n]] + es[n + 1..]);
    SelectCons(IsRecord, es[n], es[n + 1..]);
  }

  lemma RecordsForAppend(spec: Spec, es: seq<Emitted>, e: Emitted)
    requires |es| < TWO32
    ensures RecordsFor(spec, es + [e]) == RecordsFor(spec, es) + [RecordOf(spec, e, |es|)]
  {
    hide RecordOf;
  }

  /** What a record says when guest `g` emits it. */
  function EmittedPayload(e: Emission, g: Guest): (p: seq<byte>) {
    match e
    case EpochHash(k) => LE64(k) + g.chain
    case Canonical(ev) => ev.Payload()
    case Mark(frameIndex) => LE32(frameIndex) + Zeros(4)
    case End => [1] + Zeros(7) + ChainValue(g)
    case Skew => []
  }

  function EmittedRecord(e: Emitted, seqNo: u32, g: Guest): Record {
    Record(RecordKind(e.value), if e.value.Canonical? then 0 else RFLAG_AUX, seqNo,
           e.key.icount, BoundaryRip(e.key.icount), EmittedPayload(e.value, g))
  }

  /** One emission: step to it, then fold it in or write its record, or both. */
  method EmitOne(e: Emitted, seqNo: u32, sim: GuestSim, body: seq<byte>)
      returns (longer: seq<byte>, next: nat, endHash: Hash32)
    requires sim.icount <= e.key.icount && e.key.icount + EPOCH < TWO64
    requires e.value.Canonical? ==> e.value.event.Fits()
    modifies sim
    ensures sim.State() == (var g := Step(old(sim.State()), e.key.icount);
                            if Lands(e) then Land(g, ActOf(e).bytes) else g)
    ensures IsRecord(e) ==> next == seqNo + 1 && |EmittedPayload(e.value, Step(old(sim.State()), e.key.icount))| < TWO16
    ensures IsRecord(e) ==> longer == body + EncodeRecord(EmittedRecord(e, seqNo, Step(old(sim.State()), e.key.icount)))
    ensures !IsRecord(e) ==> longer == body && next == seqNo
    ensures e.value.End? ==> endHash == ChainValue(Step(old(sim.State()), e.key.icount))
    ensures sim.icount == e.key.icount
  {
    hide EncodeRecord, FoldBytes, Step, ChainValue, BoundaryRip, LE64, LE32, Zeros, CanonicalEvent.Payload;
    StepIcount(sim.State(), e.key.icount);
    sim.StepTo(e.key.icount);
    longer, next, endHash := body, seqNo, Zeros(32);
    match e.value {
      case EpochHash(k) =>
        var p := LE64(k) + sim.chain;
        longer := PushRecord(longer, KIND_EPOCH_HASH, RFLAG_AUX, seqNo, e.key.icount, p);
        next := next + 1;
      case Skew =>
        sim.Fold(SKEW_FOLD);
      case Canonical(ev) =>
        ghost var r := sim.fnv;
        sim.Fold([ev.Kind()]);
        sim.Fold(ev.Payload());
        FoldBytesConcat(r, [ev.Kind()], ev.Payload());
        longer := PushRecord(longer, ev.Kind(), 0, seqNo, e.key.icount, ev.Payload());
        next := next + 1;
      case Mark(frameIndex) =>
        var p := LE32(frameIndex) + Zeros(4);
        longer := PushRecord(longer, KIND_FRAME_MARK, RFLAG_AUX, seqNo, e.key.icount, p);
        next := next + 1;
      case End =>
        endHash := sim.Hash();
        var p := [1] + Zeros(7) + endHash;
        longer := PushRecord(longer, KIND_END, RFLAG_AUX, seqNo, e.key.icount, p);
        next := next + 1;
    }
  }

  /** A guest that follows the recording emits the recorded hashes. */
  lemma EmitsRecorded(spec: Spec, n: nat, g: Guest, seqNo: u32)
    requires spec.Valid() && n < |Merged(spec)|
    requires Follows(spec.Genesis(), RecordedActs(spec), |ActsOf(Merged(spec)[..n])|, g)
    requires g.icount == Merged(spec)[n].key.icount
    ensures EmittedRecord(Merged(spec)[n], seqNo, g) == RecordOf(spec, Merged(spec)[n], seqNo)
    ensures Merged(spec)[n].value.End? ==> ChainValue(g) == EndHash(spec)
  {
    hide *;
    var e := Merged(spec)[n];
    if e.value.EpochHash? {
      FollowsChain(spec.Genesis(), RecordedActs(spec), |ActsOf(Merged(spec)[..n])|, g);
      EpochAtBoundary(spec, n);
      EmitsWhatItShould(spec, e, seqNo, g);
    } else if e.value.End? {
      EndFollowed(spec, n, g);
      EmitsWhatItShould(spec, e, seqNo, g);
    } else {
      EmitsWhatItShould(spec, e, seqNo, g);
    }
  }

  lemma FollowsChain(o: Origin, acts: seq<Act>, i: nat, g: Guest)
    requires Follows(o, acts, i, g)
    ensures g.chain == ChainAt(o, acts, g.icount / EPOCH)
  {
  }

  lemma EmitsWhatItShould(spec: Spec, e: Emitted, seqNo: u32, g: Guest)
    requires e.value.EpochHash? ==> g.chain == ChainAt(spec.Genesis(), RecordedActs(spec), e.value.k)
    requires e.value.End? ==> g == StateAt(spec.Genesis(), RecordedActs(spec), spec.endIcount)
    ensures EmittedRecord(e, seqNo, g) == RecordOf(spec, e, seqNo)
    ensures e.value.End? ==> ChainValue(g) == EndHash(spec)
  {
  }

  lemma EndFollowed(spec: Spec, n: nat, g: Guest)
    requires spec.Valid() && n < |Merged(spec)| && Merged(spec)[n].value.End?
    requires Follows(spec.Genesis(), RecordedActs(spec), |ActsOf(Merged(spec)[..n])|, g)
    requires g.icount == Merged(spec)[n].key.icount
    ensures g == StateAt(spec.Genesis(), RecordedActs(spec), spec.endIcount)
  {
    var es := Merged(spec);
    var o, acts := spec.Genesis(), RecordedActs(spec);
    assert !Lands(es[n]);
    hide *;
    EndIsLast(spec, n);
    MergedActs(spec);
    ActsOfPrefix(es, n);
    assert es[..n + 1] == es;
    assert ActsOf(es[..n]) == acts;
    FollowsIsStateAt(o, acts, |acts|, g);
  }

  lemma InputEpochAtBoundary(spec: Spec, e: Emitted)
    requires spec.Valid() && e in Inputs(spec) && e.value.EpochHash?
    ensures e.key.icount == e.value.k * EPOCH
  {
    assert e in EpochEntries(spec.Epochs()) || e in SkewEntries(spec.skewAt)
           || e in EventEntries(spec.events) || e in MarkEntries(spec.frameMarks);
  }

  /** An entry of the merge is the END, in last place, or one of the inputs. */
  lemma MergedIsInput(spec: Spec, n: nat)
    requires spec.Valid() && n < |Merged(spec)|
    ensures n < |Merged(spec)| - 1 ==> Merged(spec)[n] in Inputs(spec) && !Merged(spec)[n].value.End?
    ensures n == |Merged(spec)| - 1 ==> Merged(spec)[n] == EndEntry(spec.endIcount)
  {
    hide *;
    MergedShape(spec);
    if n < |Merged(spec)| - 1 {
      assert Sort(Inputs(spec))[n] == Merged(spec)[n];
      assert Merged(spec)[n] in Sort(Inputs(spec));
    }
  }

  lemma EpochAtBoundary(spec: Spec, n: nat)
    requires spec.Valid() && n < |Merged(spec)| && Merged(spec)[n].value.EpochHash?
    ensures Merged(spec)[n].key.icount / EPOCH == Merged(spec)[n].value.k
  {
    hide Merged, Spec.Valid;
    MergedIsInput(spec, n);
    InputEpochAtBoundary(spec, Merged(spec)[n]);
  }

  lemma EndIsLast(spec: Spec, n: nat)
    requires spec.Valid() && n < |Merged(spec)| && Merged(spec)[n].value.End?
    ensures n == |Merged(spec)| - 1 && Merged(spec)[n].key.icount == spec.endIcount
  {
    hide Merged, Spec.Valid;
    MergedIsInput(spec, n);
  }

  lemma MergedEntry(spec: Spec, n: nat)
    requires spec.Valid() && n < |Merged(spec)|
    ensures Merged(spec)[n].key.icount <= spec.endIcount
    ensures Merged(spec)[n].value.Canonical? ==> Merged(spec)[n].value.event.Fits()
  {
    hide Merged, Spec.Valid;
    MergedIsInput(spec, n);
    if n < |Merged(spec)| - 1 {
      InputBounded(spec, Merged(spec)[n]);
    }
  }

  /** Writing record by record writes the encoding of the whole list. */
  lemma BodyGrows(spec: Spec, n: nat)
    requires spec.Valid() && n < |Merged(spec)|
    ensures var es := Merged(spec);
            var before, after := Select(IsRecord, es[..n]), Select(IsRecord, es[..n + 1]);
            && |before| < TWO32 && Encodable(RecordsFor(spec, before)) && Encodable(RecordsFor(spec, after))
            && (IsRecord(es[n]) ==>
                 && |before| + 1 == |after| < TWO32 && |RecordOf(spec, es[n], |before|).payload| < TWO16
                 && EncodeRecords(RecordsFor(spec, after))
                    == EncodeRecords(RecordsFor(spec, before)) + EncodeRecord(RecordOf(spec, es[n], |before|)))
            && (!IsRecord(es[n]) ==> before == after)
  {
    var es := Merged(spec);
    hide Merged, Spec.Valid, Select, RecordOf, EncodeRecords, EncodeRecord, RecordsFor;
    KeptPrefix(es, n);
    RecordsCounted(spec);
    WrittenLimits(spec);
    var before, after := Select(IsRecord, es[..n]), Select(IsRecord, es[..n + 1]);
    PrefixEncodable(spec, before, Kept(spec));
    if IsRecord(es[n]) {
      MergedEntry(spec, n);
      LimitsOfRecord(spec, es[n], |before|);
      RecordsForAppend(spec, before, es[n]);
      EncodeRecordsAppend(RecordsFor(spec, before), RecordOf(spec, es[n], |before|));
    }
  }

  lemma PrefixEncodable(spec: Spec, a: seq<Emitted>, b: seq<Emitted>)
    requires a <= b && Encodable(RecordsFor(spec, b))
    ensures Encodable(RecordsFor(spec, a))
  {
    assert forall i :: 0 <= i < |a| ==> RecordsFor(spec, a)[i] == RecordsFor(spec, b)[i];
  }

  lemma WordsFit(spec: Spec)
    requires spec.Valid()
    ensures spec.endIcount + EPOCH < TWO64 && spec.RecordCount() < TWO32
  {
  }

  lemma StepIcount(g: Guest, n: u64)
    requires g.icount <= n
    ensures Step(g, n).icount == n
  {
  }

  lemma NextInOrder(es: seq<Emitted>, n: nat)
    requires Ordered(es) && n < |es|
    ensures n + 1 < |es| ==> es[n].key.icount <= es[n + 1].key.icount
  {
  }

  lemma NothingEmitted(spec: Spec, es: seq<Emitted>)
    ensures ActsOf(es[..0]) == [] && Select(IsRecord, es[..0]) == []
    ensures RecordsFor(spec, []) == [] && EncodeRecords([]) == []
  {
  }

  lemma AllEmitted(spec: Spec, es: seq<Emitted>)
    requires spec.Valid() && es == Merged(spec)
    ensures es[..|es|] == es && |es| > 0
    ensures RecordsFor(spec, Select(IsRecord, es)) == WrittenRecords(spec)
    ensures |Select(IsRecord, es)| == spec.RecordCount()
    ensures Encodable(WrittenRecords(spec)) && EncodeRecords(WrittenRecords(spec)) == WrittenBody(spec)
  {
    RecordsCounted(spec);
    WrittenLimits(spec);
  }

  /** The header over a finished body. */
  method Seal(spec: Spec, body: seq<byte>, recordCount: nat, endHash: Hash32) returns (out: seq<byte>)
    requires spec.Valid() && body == WrittenBody(spec)
    requires recordCount == spec.RecordCount() && endHash == EndHash(spec)
    ensures out == WrittenBytes(spec)
  {
    hide EncodeHeader, EncodeRecords, EndHash, WrittenRecords;
    var bodyHash := BLAKE3(body);
    var flags: u32 := if spec.omitEpochHashes then 3 else 3 + 4;
    QuotientFits(spec.endIcount * spec.clockNum, spec.clockDen);
    var endVns: u64 := spec.endIcount * spec.clockNum / spec.clockDen;
    out := EncodeHeader(Header(DHILOG_VERSION, flags, spec.baseSnapshot, spec.endSnapshot, spec.entropySeed,
                               spec.machineConfig, spec.clockNum, spec.clockDen, recordCount, spec.endIcount,
                               endVns, endHash, bodyHash));
    out := out + body;
  }

  /** What one more turn of the writer's loop adds to the body and to the timeline. */
  lemma OneTurn(spec: Spec, n: nat, g: Guest, seqNo: nat)
    requires spec.Valid() && n < |Merged(spec)|
    requires Follows(spec.Genesis(), RecordedActs(spec), |ActsOf(Merged(spec)[..n])|, g)
    requires g.icount <= Merged(spec)[n].key.icount
    requires seqNo == |Select(IsRecord, Merged(spec)[..n])|
    ensures var es := Merged(spec);
            var e, before, after := es[n], Select(IsRecord, es[..n]), Select(IsRecord, es[..n + 1]);
            var here := Step(g, e.key.icount);
            && e.key.icount <= spec.endIcount && (e.value.Canonical? ==> e.value.event.Fits())
            && (n + 1 < |es| ==> e.key.icount <= es[n + 1].key.icount)
            && Follows(spec.Genesis(), RecordedActs(spec), |ActsOf(es[..n + 1])|,
                       if Lands(e) then Land(here, ActOf(e).bytes) else here)
            && seqNo < TWO32 && Encodable(RecordsFor(spec, before)) && Encodable(RecordsFor(spec, after))
            && (IsRecord(e) ==>
                 && seqNo + 1 == |after| && |EmittedRecord(e, seqNo, here).payload| < TWO16
                 && EncodeRecords(RecordsFor(spec, after))
                    == EncodeRecords(RecordsFor(spec, before)) + EncodeRecord(EmittedRecord(e, seqNo, here)))
            && (!IsRecord(e) ==> before == after)
            && (n + 1 == |es| ==> e.value.End? && ChainValue(here) == EndHash(spec))
  {
    var es := Merged(spec);
    var o, acts := spec.Genesis(), RecordedActs(spec);
    var here := Step(g, es[n].key.icount);
    StepIcount(g, es[n].key.icount);
    hide *;
    MergedShape(spec);
    MergedActs(spec);
    BodyGrows(spec, n);
    MergedEntry(spec, n);
    StepToEmission(o, es, n, g);
    EmitsRecorded(spec, n, here, seqNo);
    LandEmission(o, es, n, here);
    NextInOrder(es, n);
    MergedIsInput(spec, n);
  }

  /** The writer's guest after its first `n` emissions. */
  ghost function WriterGuest(spec: Spec, n: nat): Guest
    requires spec.Valid() && n <= |Merged(spec)|
    decreases n
  {
    if n == 0 then Guest(OFFSET_BASIS, Seed(spec.Genesis()), 0)
    else
      var e, g := Merged(spec)[n - 1], WriterGuest(spec, n - 1);
      var here := if g.icount <= e.key.icount then Step(g, e.key.icount) else g;
      if Lands(e) then Land(here, ActOf(e).bytes) else here
  }

  lemma WriterGuestStep(spec: Spec, n: nat)
    requires spec.Valid() && 0 < n <= |Merged(spec)|
    ensures var e, g := Merged(spec)[n - 1], WriterGuest(spec, n - 1);
            g.icount <= e.key.icount ==>
              WriterGuest(spec, n)
              == (if Lands(e) then Land(Step(g, e.key.icount), ActOf(e).bytes) else Step(g, e.key.icount))
              && WriterGuest(spec, n).icount == e.key.icount
  {
    hide Merged, Spec.Valid, ActOf, Lands, FoldBytes, CrossEpochs;
  }

  lemma WriterGuestBegins(spec: Spec)
    requires spec.Valid()
    ensures WriterGuest(spec, 0) == Guest(OFFSET_BASIS, Seed(spec.Genesis()), 0)
  {
    hide Merged, Spec.Valid, Seed;
  }

  lemma EndStays(e: Emitted)
    requires e.value.End?
    ensures !Lands(e)
  {
  }

  /** Emit one sealed segment. Also returns the recorded end state hash. */
  method WriteSegment(spec: Spec) returns (out: seq<byte>, endHash: Hash32)
    requires spec.Valid()
    ensures out == WrittenBytes(spec) && endHash == EndHash(spec)
    ensures endHash == ChainValue(WriterGuest(spec, |Merged(spec)|))
  {
    hide Spec.Valid, Merged, ActsOf, Select, RecordsFor, EncodeRecords, EncodeRecord, Follows, RecordedActs, Ordered,
         WriterGuest,
         Seed, Sorted, ActOf, EmittedRecord, EmittedPayload, RecordOf, EndHash, Step, Land, StateAt, Lands, IsRecord,
         ChainValue, Spec.RecordCount, Spec.Genesis, WrittenBytes;
    WordsFit(spec);
    var emissions := CollectEmissions(spec);
    ghost var o, acts := spec.Genesis(), RecordedActs(spec);
    var sim := new GuestSim(spec.Genesis());
    var body: seq<byte> := [];
    var seqNo: nat := 0;
    endHash := Zeros(32);
    RecordedSorted(spec);
    StartFollows(o, acts);
    WriterGuestBegins(spec);
    NothingEmitted(spec, emissions);
    AllEmitted(spec, emissions);
    var n := 0;
    while n < |emissions|
      invariant 0 <= n <= |emissions| && emissions == Merged(spec) && fresh(sim)
      invariant Follows(o, acts, |ActsOf(emissions[..n])|, sim.State())
      invariant sim.State() == WriterGuest(spec, n)
      invariant n < |emissions| ==> sim.icount <= emissions[n].key.icount
      invariant seqNo == |Select(IsRecord, emissions[..n])|
      invariant Encodable(RecordsFor(spec, Select(IsRecord, emissions[..n])))
      invariant body == EncodeRecords(RecordsFor(spec, Select(IsRecord, emissions[..n])))
      invariant n == |emissions| ==> endHash == EndHash(spec) == ChainValue(sim.State())
    {
      OneTurn(spec, n, sim.State(), seqNo);
      WriterGuestStep(spec, n + 1);
      if emissions[n].value.End? {
        EndStays(emissions[n]);
      }
      body, seqNo, endHash := EmitOne(emissions[n], seqNo, sim, body);
      n := n + 1;
    }
    assert emissions[..n] == emissions;
    out := Seal(spec, body, seqNo, endHash);
  }
}
