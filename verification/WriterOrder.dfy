/** What stands in a written segment at each icount, in what order, byte for byte. */
module WriterOrder {
  import opened Wrappers
  import opened Bytes
  import opened Guest
  import opened Dhilog
  import opened Merge
  import opened Writer
  import opened Recording
  import opened WrittenReplay
  import opened Divergence
  import Hashed
  import SegmentWriter

  // ---- the reference ----

  /** A record without its sequence number and icount. */
  datatype Line = Line(kind: byte, rflags: byte, rip: u64, payload: seq<byte>)

  /** The records at one icount, in file order. */
  function At(recs: seq<Record>, n: u64): (lines: seq<Line>)
  {
    if recs == [] then []
    else
      var front, r := recs[..|recs| - 1], recs[|recs| - 1];
      At(front, n) + (if r.icount == n then [Line(r.kind, r.rflags, r.rip, r.payload)] else [])
  }

  /** The instruction pointer the mock shows at an icount: a 64 KiB window it walks through
      seven bytes an icount. */
  function Rip(n: u64): u64 { (4194304 + n * 7 % 0x1_0000_0000_0000_0000 % 65536) % 0x1_0000_0000_0000_0000 }

  /** An input event, as the frozen record layouts have it. */
  function EventLine(e: CanonicalEvent, n: u64): Line {
    match e
    case PadSet(port, buttons, frameHint) => Line(0x01, 0, Rip(n), [port, 0, 0, 0] + LE32(buttons) + LE32(frameHint))
    case DevEvent(deviceId, eventType, data) =>
      Line(0x02, 0, Rip(n), LE16(deviceId) + LE16(eventType) + LE32(|data| % 0x1_0000_0000) + data)
    case NetRx(frame) => Line(0x03, 0, Rip(n), frame)
  }

  function EventLines(events: seq<ScriptEvent>, n: u64): (lines: seq<Line>) {
    if events == [] then []
    else
      var front, e := events[..|events| - 1], events[|events| - 1];
      EventLines(front, n) + (if e.icount == n then [EventLine(e.event, n)] else [])
  }

  function MarkLines(marks: seq<FrameMark>, n: u64): (lines: seq<Line>) {
    if marks == [] then []
    else
      var front, m := marks[..|marks| - 1], marks[|marks| - 1];
      MarkLines(front, n)
      + (if m.icount == n then [Line(0x45, 1, Rip(n), LE32(m.frameIndex) + [0, 0, 0, 0])] else [])
  }

  /** The epoch hash: the boundary's number and the chain there. */
  function EpochLines(spec: Spec, n: u64): (lines: seq<Line>) {
    if !spec.omitEpochHashes && 0 < n <= spec.endIcount && n % 4096 == 0 then
      [Line(0x42, 1, Rip(n), LE64(n / 4096) + ChainAt(spec.Genesis(), RecordedActs(spec), n / 4096))]
    else []
  }

  /** The END: the stop reason and the state hash there. */
  function EndLines(spec: Spec, n: u64): (lines: seq<Line>) {
    if n == spec.endIcount then
      [Line(0x7F, 1, Rip(n),
            [1, 0, 0, 0, 0, 0, 0, 0] + ChainValue(StateAt(spec.Genesis(), RecordedActs(spec), spec.endIcount)))]
    else []
  }

  // ---- the merge at one icount ----

  function RecordAt(n: u64): Emitted -> bool {
    (e: Emitted) => IsRecord(e) && e.key.icount == n
  }

  function LineOf(spec: Spec, e: Emitted): Line {
    var r := RecordOf(spec, e, 0);
    Line(r.kind, r.rflags, r.rip, r.payload)
  }

  function LinesOf(spec: Spec, es: seq<Emitted>): (lines: seq<Line>)
    ensures |lines| == |es| && forall i :: 0 <= i < |es| ==> lines[i] == LineOf(spec, es[i])
  {
    seq(|es|, i requires 0 <= i < |es| => LineOf(spec, es[i]))
  }

  lemma LinesConcat(spec: Spec, a: seq<Emitted>, b: seq<Emitted>)
    ensures LinesOf(spec, a + b) == LinesOf(spec, a) + LinesOf(spec, b)
  {
    hide LineOf;
  }

  lemma LineOfRecord(spec: Spec, e: Emitted, seqNo: u32)
    ensures var r := RecordOf(spec, e, seqNo);
            Line(r.kind, r.rflags, r.rip, r.payload) == LineOf(spec, e) && r.icount == e.key.icount
  {
    hide RecordPayload, RecordKind, BoundaryRip;
  }

  lemma SelectOne(p: Emitted -> bool, e: Emitted)
    ensures Select(p, [e]) == if p(e) then [e] else []
  {
    SelectCons(p, e, []);
    assert [e] + [] == [e];
  }

  /** Of written emissions, the records at an icount are the emissions there. */
  lemma {:induction false} AtOfRecords(spec: Spec, es: seq<Emitted>, n: u64)
    requires |es| <= TWO32 && forall e :: e in es ==> IsRecord(e)
    ensures At(RecordsFor(spec, es), n) == LinesOf(spec, Select(RecordAt(n), es))
    decreases |es|
  {
    hide RecordOf, RecordsFor, LineOf, LinesOf, Select, IsRecord;
    if es == [] {
      NoRecords(spec, n);
    } else {
      var k := |es| - 1;
      var front, e := es[..k], es[k];
      SplitLast(es);
      AtOfRecords(spec, front, n);
      SegmentWriter.RecordsForAppend(spec, front, e);
      AtAppend(RecordsFor(spec, front), RecordOf(spec, e, k), n);
      LineOfRecord(spec, e, k);
      SelectConcat(RecordAt(n), front, [e]);
      SelectOne(RecordAt(n), e);
      assert e in es;
      LinesConcat(spec, Select(RecordAt(n), front), Select(RecordAt(n), [e]));
    }
  }

  lemma NoRecords(spec: Spec, n: u64)
    ensures At(RecordsFor(spec, []), n) == LinesOf(spec, Select(RecordAt(n), []))
  {
  }

  lemma AtAppend(recs: seq<Record>, r: Record, n: u64)
    ensures At(recs + [r], n)
            == At(recs, n) + (if r.icount == n then [Line(r.kind, r.rflags, r.rip, r.payload)] else [])
  {
    assert (recs + [r])[..|recs|] == recs;
  }

  // ---- what each kind contributes ----

  lemma RipIs(n: u64)
    ensures BoundaryRip(n) == Rip(n)
  {
  }

  lemma EventEntriesSnoc(events: seq<ScriptEvent>, k: nat)
    requires k < |events|
    ensures EventEntries(events[..k + 1]) == EventEntries(events[..k]) + [EventEntry(events[k], k)]
  {
  }

  lemma MarkEntriesSnoc(marks: seq<FrameMark>, k: nat)
    requires k < |marks|
    ensures MarkEntries(marks[..k + 1]) == MarkEntries(marks[..k]) + [MarkEntry(marks[k], k)]
  {
  }

  lemma LineOfEvent(spec: Spec, e: ScriptEvent, k: nat)
    ensures LineOf(spec, EventEntry(e, k)) == EventLine(e.event, e.icount)
  {
    RipIs(e.icount);
    hide BoundaryRip, Rip, LE16, LE32;
    assert Zeros(3) == [0, 0, 0];
    if e.event.PadSet? {
      assert [e.event.port] + Zeros(3) == [e.event.port, 0, 0, 0];
    }
  }

  lemma LineOfMark(spec: Spec, m: FrameMark, k: nat)
    ensures LineOf(spec, MarkEntry(m, k)) == Line(0x45, 1, Rip(m.icount), LE32(m.frameIndex) + [0, 0, 0, 0])
  {
    RipIs(m.icount);
    hide BoundaryRip, Rip, LE32;
    assert Zeros(4) == [0, 0, 0, 0];
  }

  lemma LineOfEpoch(spec: Spec, k: nat)
    requires k * EPOCH < TWO64
    ensures LineOf(spec, EpochEntry(k))
            == Line(0x42, 1, Rip(k * EPOCH), LE64(k) + ChainAt(spec.Genesis(), RecordedActs(spec), k))
  {
    RipIs(k * EPOCH);
    hide BoundaryRip, Rip, LE64, ChainAt, RecordedActs;
  }

  lemma LineOfEnd(spec: Spec)
    ensures LineOf(spec, EndEntry(spec.endIcount))
            == Line(0x7F, 1, Rip(spec.endIcount),
                    [1, 0, 0, 0, 0, 0, 0, 0] + ChainValue(StateAt(spec.Genesis(), RecordedActs(spec), spec.endIcount)))
  {
    RipIs(spec.endIcount);
    hide BoundaryRip, Rip, ChainValue, StateAt, RecordedActs;
    assert [1] + Zeros(7) == [1, 0, 0, 0, 0, 0, 0, 0];
  }

  lemma {:induction false} EventsThere(spec: Spec, events: seq<ScriptEvent>, n: u64)
    ensures LinesOf(spec, Select(RecordAt(n), EventEntries(events))) == EventLines(events, n)
    decreases |events|
  {
    if events != [] {
      var k := |events| - 1;
      var front, e := events[..k], events[k];
      hide LineOf, LinesOf, Select, EventEntries, EventLine;
      EventsThere(spec, front, n);
      EventEntriesSnoc(events, k);
      assert events[..k + 1] == events;
      SelectConcat(RecordAt(n), EventEntries(front), [EventEntry(e, k)]);
      SelectOne(RecordAt(n), EventEntry(e, k));
      LineOfEvent(spec, e, k);
      LinesConcat(spec, Select(RecordAt(n), EventEntries(front)), Select(RecordAt(n), [EventEntry(e, k)]));
    }
  }

  lemma {:induction false} MarksThere(spec: Spec, marks: seq<FrameMark>, n: u64)
    ensures LinesOf(spec, Select(RecordAt(n), MarkEntries(marks))) == MarkLines(marks, n)
    decreases |marks|
  {
    if marks != [] {
      var k := |marks| - 1;
      var front, m := marks[..k], marks[k];
      hide LineOf, LinesOf, Select, MarkEntries;
      MarksThere(spec, front, n);
      MarkEntriesSnoc(marks, k);
      assert marks[..k + 1] == marks;
      SelectConcat(RecordAt(n), MarkEntries(front), [MarkEntry(m, k)]);
      SelectOne(RecordAt(n), MarkEntry(m, k));
      LineOfMark(spec, m, k);
      LinesConcat(spec, Select(RecordAt(n), MarkEntries(front)), Select(RecordAt(n), [MarkEntry(m, k)]));
    }
  }

  lemma EpochEntriesSnoc(k: nat)
    requires (k + 1) * EPOCH < TWO64
    ensures EpochEntries(k + 1) == EpochEntries(k) + [EpochEntry(k + 1)]
  {
  }

  /** Of the first `k` boundaries, the one at `n` if there is one. */
  lemma {:induction false} EpochsThere(k: nat, n: u64)
    requires k * EPOCH < TWO64
    ensures Select(RecordAt(n), EpochEntries(k))
            == if 0 < n <= k * EPOCH && n % EPOCH == 0 then [EpochEntry(n / EPOCH)] else []
    decreases k
  {
    if k > 0 {
      hide Select, EpochEntries;
      EpochsThere(k - 1, n);
      EpochEntriesSnoc(k - 1);
      SelectConcat(RecordAt(n), EpochEntries(k - 1), [EpochEntry(k)]);
      SelectOne(RecordAt(n), EpochEntry(k));
      Multiples(n, k);
    }
  }

  lemma Multiples(n: nat, k: nat)
    requires k > 0
    ensures n == k * EPOCH ==> n % EPOCH == 0 && n / EPOCH == k
    ensures n % EPOCH == 0 && (k - 1) * EPOCH < n <= k * EPOCH ==> n == k * EPOCH
  {
  }

  lemma WithinEpochs(spec: Spec, n: u64)
    ensures 0 < n <= spec.Epochs() * EPOCH && n % EPOCH == 0
            <==> !spec.omitEpochHashes && 0 < n <= spec.endIcount && n % 4096 == 0
    ensures n / EPOCH == n / 4096 && (n % EPOCH == 0 ==> n / EPOCH * EPOCH == n)
  {
  }

  lemma SkewsThere(skewAt: Option<u64>, n: u64)
    ensures Select(RecordAt(n), SkewEntries(skewAt)) == []
  {
    SelectNone(RecordAt(n), SkewEntries(skewAt));
  }

  // ---- their order ----

  lemma OrderedConcat(x: seq<Emitted>, y: seq<Emitted>)
    requires Ordered(x) && Ordered(y)
    requires forall i, j :: 0 <= i < |x| && 0 <= j < |y| ==> x[i].key.Leq(y[j].key)
    ensures Ordered(x + y)
  {
    hide Key.Leq;
    var z := x + y;
    forall i, j | 0 <= i < j < |z|
      ensures z[i].key.Leq(z[j].key)
    {
      if j < |x| {
        assert x[i].key.Leq(x[j].key);
      } else if i < |x| {
        assert x[i].key.Leq(y[j - |x|].key);
      } else {
        assert y[i - |x|].key.Leq(y[j - |x|].key);
      }
    }
  }

  /** All emissions of `es` are at this icount, with a rank of these. */
  ghost predicate Ranked(es: seq<Emitted>, n: u64, low: nat, high: nat) {
    forall i :: 0 <= i < |es| ==> es[i].key.icount == n && low <= es[i].key.rank <= high
  }

  lemma RankedConcat(x: seq<Emitted>, y: seq<Emitted>, n: u64, a: nat, b: nat, c: nat, d: nat)
    requires Ordered(x) && Ordered(y) && Ranked(x, n, a, b) && Ranked(y, n, c, d) && a <= b < c <= d
    ensures Ordered(x + y) && Ranked(x + y, n, a, d)
  {
    assert forall i, j :: 0 <= i < |x| && 0 <= j < |y| ==> x[i].key.Leq(y[j].key);
    hide Ordered, Key.Leq;
    OrderedConcat(x, y);
  }

  lemma {:induction false} EventsOrdered(events: seq<ScriptEvent>, n: u64)
    ensures var es := Select(RecordAt(n), EventEntries(events));
            Ordered(es) && Ranked(es, n, 2, 2) && forall i :: 0 <= i < |es| ==> es[i].key.tie < |events|
    decreases |events|
  {
    if events != [] {
      var k := |events| - 1;
      hide Select, EventEntries;
      EventsOrdered(events[..k], n);
      EventEntriesSnoc(events, k);
      assert events[..k + 1] == events;
      SelectConcat(RecordAt(n), EventEntries(events[..k]), [EventEntry(events[k], k)]);
      SelectOne(RecordAt(n), EventEntry(events[k], k));
    }
  }

  lemma {:induction false} MarksOrdered(marks: seq<FrameMark>, n: u64)
    ensures var es := Select(RecordAt(n), MarkEntries(marks));
            Ordered(es) && Ranked(es, n, 3, 3) && forall i :: 0 <= i < |es| ==> es[i].key.tie < |marks|
    decreases |marks|
  {
    if marks != [] {
      var k := |marks| - 1;
      hide Select, MarkEntries;
      MarksOrdered(marks[..k], n);
      MarkEntriesSnoc(marks, k);
      assert marks[..k + 1] == marks;
      SelectConcat(RecordAt(n), MarkEntries(marks[..k]), [MarkEntry(marks[k], k)]);
      SelectOne(RecordAt(n), MarkEntry(marks[k], k));
    }
  }

  lemma OneOrdered(es: seq<Emitted>)
    requires |es| <= 1
    ensures Ordered(es)
  {
  }

  lemma Joined(a: seq<Emitted>, c: seq<Emitted>, d: seq<Emitted>, e: seq<Emitted>, n: u64)
    requires |a| <= 1 && |e| <= 1 && Ordered(c) && Ordered(d)
    requires Ranked(a, n, 0, 0) && Ranked(c, n, 2, 2) && Ranked(d, n, 3, 3) && Ranked(e, n, 4, 4)
    ensures Sort(a + [] + c + d + e) == a + c + d + e
  {
    hide *;
    OneOrdered(a);
    OneOrdered(e);
    RankedConcat(a, c, n, 0, 0, 2, 2);
    RankedConcat(a + c, d, n, 0, 2, 3, 3);
    RankedConcat(a + c + d, e, n, 0, 3, 4, 4);
    assert a + [] == a;
    SortOrdered(a + c + d + e);
  }

  /** The emissions that leave a record at one icount, in merge order. */
  lemma MergedThere(spec: Spec, n: u64)
    requires spec.Valid()
    ensures var a := Select(RecordAt(n), EpochEntries(spec.Epochs()));
            var e := Select(RecordAt(n), [EndEntry(spec.endIcount)]);
            Select(RecordAt(n), Merged(spec))
            == a + Select(RecordAt(n), EventEntries(spec.events)) + Select(RecordAt(n), MarkEntries(spec.frameMarks))
               + e
  {
    hide Merged, Spec.Valid, Select, EpochEntries, EventEntries, MarkEntries, SkewEntries, Ordered;
    EpochsFit(spec);
    var p := RecordAt(n);
    var a, c := Select(p, EpochEntries(spec.Epochs())), Select(p, EventEntries(spec.events));
    var d, e := Select(p, MarkEntries(spec.frameMarks)), Select(p, [EndEntry(spec.endIcount)]);
    EpochsThere(spec.Epochs(), n);
    WithinEpochs(spec, n);
    SkewsThere(spec.skewAt, n);
    EventsOrdered(spec.events, n);
    MarksOrdered(spec.frameMarks, n);
    SelectOne(p, EndEntry(spec.endIcount));
    SelectMerged(p, spec, a, [], c, d, e);
    Joined(a, c, d, e, n);
  }

  lemma KeptThere(spec: Spec, n: u64)
    requires spec.Valid()
    ensures Select(RecordAt(n), Kept(spec)) == Select(RecordAt(n), Merged(spec))
  {
    hide Merged, Spec.Valid;
    SelectSelect(RecordAt(n), IsRecord, Merged(spec));
  }

  /** The whole recording, icount by icount: the epoch hash if this is a boundary, then the
      input events here in script order, then the frame marks here in script order, then
      the END if this is the end; each with its kind, flags and payload. Nothing else
      stands here. */
  lemma WrittenAt(spec: Spec, n: u64)
    requires spec.Valid()
    ensures At(WrittenRecords(spec), n)
            == EpochLines(spec, n) + EventLines(spec.events, n) + MarkLines(spec.frameMarks, n) + EndLines(spec, n)
  {
    hide *;
    var p := RecordAt(n);
    EpochsFit(spec);
    KeptIsRecords(spec);
    AtOfRecords(spec, Kept(spec), n);
    KeptThere(spec, n);
    MergedThere(spec, n);
    var a, c := Select(p, EpochEntries(spec.Epochs())), Select(p, EventEntries(spec.events));
    var d, e := Select(p, MarkEntries(spec.frameMarks)), Select(p, [EndEntry(spec.endIcount)]);
    LinesConcat(spec, a + c + d, e);
    LinesConcat(spec, a + c, d);
    LinesConcat(spec, a, c);
    EventsThere(spec, spec.events, n);
    MarksThere(spec, spec.frameMarks, n);
    EpochLinesAre(spec, n);
    EndLinesAre(spec, n);
  }

  lemma KeptIsRecords(spec: Spec)
    requires spec.Valid()
    ensures |Kept(spec)| <= TWO32 && WrittenRecords(spec) == RecordsFor(spec, Kept(spec))
    ensures forall e :: e in Kept(spec) ==> IsRecord(e)
  {
    KeptFits(spec);
    KeptShape(spec);
    SegmentWriter.WordsFit(spec);
  }

  lemma EpochLinesAre(spec: Spec, n: u64)
    requires spec.Valid()
    ensures spec.Epochs() * EPOCH < TWO64
    ensures LinesOf(spec, Select(RecordAt(n), EpochEntries(spec.Epochs()))) == EpochLines(spec, n)
  {
    hide LineOf, ChainAt, RecordedActs, Rip, LE64, Spec.Valid, Select, EpochEntries;
    EpochsFit(spec);
    EpochsThere(spec.Epochs(), n);
    WithinEpochs(spec, n);
    if 0 < n <= spec.Epochs() * EPOCH && n % EPOCH == 0 {
      LineOfEpoch(spec, n / EPOCH);
    }
  }

  lemma EndLinesAre(spec: Spec, n: u64)
    ensures LinesOf(spec, Select(RecordAt(n), [EndEntry(spec.endIcount)])) == EndLines(spec, n)
  {
    hide LineOf, ChainValue, StateAt, RecordedActs, Rip, Select;
    SelectOne(RecordAt(n), EndEntry(spec.endIcount));
    LineOfEnd(spec);
  }

  // ---- the order of kinds ----

  lemma {:induction false} Both(recs: seq<Record>, i: nat, j: nat, n: u64) returns (a: nat, b: nat)
    requires i < j < |recs| && recs[i].icount == recs[j].icount == n
    ensures a < b < |At(recs, n)| && At(recs, n)[a].kind == recs[i].kind && At(recs, n)[b].kind == recs[j].kind
    decreases |recs|
  {
    var k := |recs| - 1;
    var front := recs[..k];
    if j < k {
      a, b := Both(front, i, j, n);
    } else {
      a := One(front, i, n);
      b := |At(front, n)|;
    }
  }

  lemma {:induction false} One(recs: seq<Record>, i: nat, n: u64) returns (a: nat)
    requires i < |recs| && recs[i].icount == n
    ensures a < |At(recs, n)| && At(recs, n)[a].kind == recs[i].kind
    decreases |recs|
  {
    var k := |recs| - 1;
    var front := recs[..k];
    if i < k {
      a := One(front, i, n);
    } else {
      a := |At(front, n)|;
    }
  }

  lemma {:induction false} EventKinds(events: seq<ScriptEvent>, n: u64)
    ensures forall i :: 0 <= i < |EventLines(events, n)| ==> 0x01 <= EventLines(events, n)[i].kind <= 0x03
    decreases |events|
  {
    if events != [] {
      EventKinds(events[..|events| - 1], n);
    }
  }

  lemma {:induction false} MarkKinds(marks: seq<FrameMark>, n: u64)
    ensures forall i :: 0 <= i < |MarkLines(marks, n)| ==> MarkLines(marks, n)[i].kind == 0x45
    decreases |marks|
  {
    if marks != [] {
      MarkKinds(marks[..|marks| - 1], n);
    }
  }

  /** Two records at one icount: no epoch hash after another record, no input event after
      a frame mark, nothing after the END. */
  lemma KindsInOrder(spec: Spec, i: nat, j: nat)
    requires spec.Valid() && i < j < |WrittenRecords(spec)|
    requires WrittenRecords(spec)[i].icount == WrittenRecords(spec)[j].icount
    ensures var first, second := WrittenRecords(spec)[i].kind, WrittenRecords(spec)[j].kind;
            && second != 0x42
            && (first == 0x45 ==> second == 0x45 || second == 0x7F)
            && first != 0x7F
  {
    hide WrittenRecords, Spec.Valid, At, EventLines, MarkLines, ChainAt, RecordedActs, Rip, LE64, ChainValue, StateAt;
    var n := WrittenRecords(spec)[i].icount;
    var a, b := Both(WrittenRecords(spec), i, j, n);
    WrittenAt(spec, n);
    EventKinds(spec.events, n);
    MarkKinds(spec.frameMarks, n);
  }

  // ---- the timeline and the header ----

  /** What an input feeds the register: its record's kind, then its payload. */
  lemma FoldedIs(e: CanonicalEvent, n: u64)
    ensures e.Folded() == [EventLine(e, n).kind] + EventLine(e, n).payload
  {
    hide LE16, LE32, Rip;
    assert Zeros(3) == [0, 0, 0];
    if e.PadSet? {
      assert [e.port] + Zeros(3) == [e.port, 0, 0, 0];
    }
  }

  /** The recorded guest lives through the inputs in script order and, if the recording is
      skewed, the skew's tag after the earlier inputs and before those at its icount. */
  lemma RecordedTimeline(spec: Spec) returns (acts: seq<Act>, p: nat)
    requires spec.Valid()
    ensures |acts| == |spec.events| && p <= |acts|
    ensures forall i :: 0 <= i < |acts| ==>
              var e := spec.events[i];
              acts[i] == Act(e.icount, [EventLine(e.event, e.icount).kind] + EventLine(e.event, e.icount).payload)
    ensures match spec.skewAt
            case None => RecordedActs(spec) == acts
            case Some(at) =>
              && RecordedActs(spec) == acts[..p] + [Act(at, Ascii("mock-recorded-skew-v1"))] + acts[p..]
              && (forall j :: 0 <= j < p ==> acts[j].at < at) && (forall j :: p <= j < |acts| ==> at <= acts[j].at)
  {
    hide EventLine, CanonicalEvent.Folded, Ascii, Inject, Spec.Valid;
    acts, p := EventActs(spec.events), 0;
    RecordedSorted(spec);
    SkewTag();
    forall i | 0 <= i < |acts|
      ensures var e := spec.events[i];
              acts[i] == Act(e.icount, [EventLine(e.event, e.icount).kind] + EventLine(e.event, e.icount).payload)
    {
      FoldedIs(spec.events[i].event, spec.events[i].icount);
    }
    if spec.skewAt.Some? {
      p := Hashed.InjectIs(acts, SkewAct(spec.skewAt.value));
    }
  }

  lemma SkewTag()
    ensures SKEW_FOLD == Ascii("mock-recorded-skew-v1")
  {
  }

  /** The header of a written segment: version 1.0, sealed with auxiliary records, with the
      epoch bit unless they were omitted; its count, times and hashes. */
  lemma WrittenHeaderIs(spec: Spec)
    requires spec.Valid()
    ensures var s, h := Written(spec), Written(spec).header;
            && Encodable(WrittenRecords(spec)) && s.bytes == EncodeHeader(h) + EncodeRecords(WrittenRecords(spec))
            && h.version == 0x0100 && h.flags == (if spec.omitEpochHashes then 3 else 7)
            && h.baseSnapshot == spec.baseSnapshot && h.endSnapshot == spec.endSnapshot
            && h.entropySeed == spec.entropySeed && h.machineConfig == spec.machineConfig
            && h.clockNum == spec.clockNum && h.clockDen == spec.clockDen
            && h.recordCount == |WrittenRecords(spec)| && h.endIcount == spec.endIcount
            && h.endVns * spec.clockDen <= spec.endIcount * spec.clockNum < (h.endVns + 1) * spec.clockDen
            && h.bodyHash == BLAKE3(s.bytes[256..])
            && h.endStateHash == ChainValue(StateAt(Origin(spec.machineConfig, spec.baseSnapshot), RecordedActs(spec),
                                                    spec.endIcount))
  {
    hide *;
    KeptShape(spec);
    CountIs(spec);
    HeaderFields(spec);
    SegmentBytes(spec);
    QuotientBounds(spec.endIcount * spec.clockNum, spec.clockDen);
  }

  lemma HeaderFields(spec: Spec)
    requires spec.Valid()
    ensures spec.clockDen != 0
    ensures var h := Written(spec).header;
            && h.version == 0x0100 && h.flags == (if spec.omitEpochHashes then 3 else 7)
            && h.baseSnapshot == spec.baseSnapshot && h.endSnapshot == spec.endSnapshot
            && h.entropySeed == spec.entropySeed && h.machineConfig == spec.machineConfig
            && h.clockNum == spec.clockNum && h.clockDen == spec.clockDen
            && h.recordCount == spec.RecordCount() && h.endIcount == spec.endIcount
            && h.endVns == spec.endIcount * spec.clockNum / spec.clockDen && h.bodyHash == BLAKE3(WrittenBody(spec))
            && h.endStateHash == ChainValue(StateAt(Origin(spec.machineConfig, spec.baseSnapshot), RecordedActs(spec),
                                                    spec.endIcount))
  {
    hide EncodeHeader, WrittenBody, WrittenRecords, ChainValue, StateAt, RecordedActs, Kept;
  }

  lemma SegmentBytes(spec: Spec)
    requires spec.Valid()
    ensures Encodable(WrittenRecords(spec)) && WrittenBody(spec) == EncodeRecords(WrittenRecords(spec))
    ensures var s := Written(spec);
            s.bytes == EncodeHeader(s.header) + EncodeRecords(WrittenRecords(spec))
            && |s.bytes| >= 256 && s.bytes[256..] == WrittenBody(spec)
  {
    hide EncodeHeader, WrittenRecords, EncodeRecords, WrittenHeader, Spec.Valid;
    WrittenLimits(spec);
  }

  lemma CountIs(spec: Spec)
    requires spec.Valid()
    ensures |WrittenRecords(spec)| == |Kept(spec)|
  {
    hide Spec.Valid, Kept;
  }

  lemma QuotientBounds(n: nat, d: nat)
    requires d > 0
    ensures n / d * d <= n < (n / d + 1) * d
  {
  }
}
