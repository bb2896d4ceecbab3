/** The segment writer: merge the inputs of a recording, step the guest through
    them, and emit one sealed segment. */
module Writer {
  import opened Wrappers
  import opened Bytes
  import opened Guest
  import opened Divergence
  import opened Dhilog
  import opened Validator
  import opened Merge

  const DHILOG_VERSION: u16 := 0x0100
  const RFLAG_AUX: byte := 1

  datatype CanonicalEvent =
    | PadSet(port: byte, buttons: u32, frameHint: u32)
    | DevEvent(deviceId: u16, eventType: u16, data: seq<byte>)
    | NetRx(frame: seq<byte>)
  {
    function Kind(): (k: byte)
      ensures CanonicalKind(k)
    {
      match this
      case PadSet(_, _, _) => KIND_PAD_SET
      case DevEvent(_, _, _) => KIND_DEV_EVENT
      case NetRx(_) => KIND_NET_RX
    }

    /** Payloads stay within the frozen format's bounds. */
    predicate Fits() {
      match this
      case PadSet(_, _, _) => true
      case DevEvent(_, _, data) => 8 + |data| <= MAX_PAYLOAD
      case NetRx(frame) => |frame| <= MAX_NET_FRAME
    }

    function Payload(): (p: seq<byte>)
      ensures Fits() ==> |p| <= MAX_PAYLOAD && (NetRx? ==> |p| <= MAX_NET_FRAME)
    {
      match this
      case PadSet(port, buttons, frameHint) => [port] + Zeros(3) + LE32(buttons) + LE32(frameHint)
      case DevEvent(deviceId, eventType, data) => LE16(deviceId) + LE16(eventType) + LE32(|data| % TWO32) + data
      case NetRx(frame) => frame
    }

    /** What lands in the register: the kind, then the payload. */
    function Folded(): seq<byte> {
      [Kind()] + Payload()
    }
  }

  datatype ScriptEvent = ScriptEvent(icount: u64, event: CanonicalEvent)

  datatype FrameMark = FrameMark(frameIndex: u32, icount: u64)

  datatype Spec = Spec(
    baseSnapshot: Hash32,
    endSnapshot: Hash32,
    entropySeed: Hash32,
    machineConfig: Hash32,
    clockNum: u32,
    clockDen: u32,
    endIcount: u64,
    events: seq<ScriptEvent>,
    frameMarks: seq<FrameMark>,
    skewAt: Option<u64>,
    omitEpochHashes: bool)
  {
    function Genesis(): Origin { Origin(machineConfig, baseSnapshot) }

    function Epochs(): nat { if omitEpochHashes then 0 else endIcount / EPOCH }

    function RecordCount(): nat { Epochs() + |events| + |frameMarks| + 1 }

    /** What the writer asserts of its caller, and that no machine word overflows. */
    ghost predicate Valid() {
      && (forall i, j :: 0 <= i < j < |events| ==> events[i].icount <= events[j].icount)
      && (forall i :: 0 <= i < |events| ==> events[i].icount <= endIcount && events[i].event.Fits())
      && (forall i :: 0 <= i < |frameMarks| ==> frameMarks[i].icount <= endIcount)
      && (skewAt.Some? ==> skewAt.value <= endIcount)
      && clockDen != 0
      && endIcount * clockNum < TWO64
      && endIcount + EPOCH < TWO64
      && RecordCount() < TWO32
    }
  }

  function BoundaryRip(icount: u64): u64 {
    (0x0040_0000 + icount * 7 % TWO64 % 0x1_0000) % TWO64
  }

  // ---- the merged emissions ----

  datatype Emission = EpochHash(k: u64) | Skew | Canonical(event: CanonicalEvent) | Mark(frameIndex: u32) | End

  type Emitted = Entry<Emission>

  const RANK_EPOCH: nat := 0
  const RANK_SKEW: nat := 1
  const RANK_CANONICAL: nat := 2
  const RANK_FRAME: nat := 3
  const RANK_END: nat := 4

  function EpochEntry(k: nat): Emitted
    requires k * EPOCH < TWO64
  {
    Entry(Key(k * EPOCH, RANK_EPOCH, 0), EpochHash(k))
  }

  function SkewEntry(at: u64): Emitted {
    Entry(Key(at, RANK_SKEW, 0), Skew)
  }

  function EventEntry(e: ScriptEvent, i: nat): Emitted {
    Entry(Key(e.icount, RANK_CANONICAL, i), Canonical(e.event))
  }

  function MarkEntry(m: FrameMark, i: nat): Emitted {
    Entry(Key(m.icount, RANK_FRAME, i), Mark(m.frameIndex))
  }

  function EndEntry(end: u64): Emitted {
    Entry(Key(end, RANK_END, 0), End)
  }

  function EpochEntries(n: nat): (es: seq<Emitted>)
    requires n * EPOCH < TWO64
    ensures |es| == n && forall i :: 0 <= i < n ==> es[i] == EpochEntry(i + 1)
  {
    seq(n, i requires 0 <= i < n => EpochEntry(i + 1))
  }

  function SkewEntries(skewAt: Option<u64>): seq<Emitted> {
    match skewAt
    case None => []
    case Some(at) => [SkewEntry(at)]
  }

  function EventEntries(events: seq<ScriptEvent>): (es: seq<Emitted>)
    ensures |es| == |events| && forall i :: 0 <= i < |es| ==> es[i] == EventEntry(events[i], i)
  {
    seq(|events|, i requires 0 <= i < |events| => EventEntry(events[i], i))
  }

  function MarkEntries(marks: seq<FrameMark>): (es: seq<Emitted>)
    ensures |es| == |marks| && forall i :: 0 <= i < |es| ==> es[i] == MarkEntry(marks[i], i)
  {
    seq(|marks|, i requires 0 <= i < |marks| => MarkEntry(marks[i], i))
  }

  ghost function Inputs(spec: Spec): seq<Emitted>
    requires spec.Valid()
  {
    EpochEntries(spec.Epochs()) + SkewEntries(spec.skewAt) + EventEntries(spec.events) + MarkEntries(spec.frameMarks)
  }

  /** Everything the recording emits, in order. */
  ghost function Merged(spec: Spec): seq<Emitted>
    requires spec.Valid()
  {
    Sort(Inputs(spec) + [EndEntry(spec.endIcount)])
  }

  // ---- what a recording means ----

  predicate Lands(e: Emitted) { e.value.Canonical? || e.value.Skew? }

  predicate IsCanonical(e: Emitted) { e.value.Canonical? }

  predicate IsEpoch(e: Emitted) { e.value.EpochHash? }

  predicate IsRecord(e: Emitted) { !e.value.Skew? }

  function ActOf(e: Emitted): Act {
    Act(e.key.icount,
        match e.value
        case Skew => SKEW_FOLD
        case Canonical(ev) => ev.Folded()
        case _ => [])
  }

  /** The folds an emission list makes, in order. */
  function ActsOf(es: seq<Emitted>): (acts: seq<Act>)
    decreases |es|
  {
    if es == [] then []
    else if Lands(es[0]) then [ActOf(es[0])] + ActsOf(es[1..])
    else ActsOf(es[1..])
  }

  /** The recorded inputs as a timeline. */
  function EventActs(events: seq<ScriptEvent>): (acts: seq<Act>)
    ensures |acts| == |events|
    ensures forall i :: 0 <= i < |events| ==> acts[i] == Act(events[i].icount, events[i].event.Folded())
  {
    seq(|events|, i requires 0 <= i < |events| => Act(events[i].icount, events[i].event.Folded()))
  }

  function SkewAct(at: u64): Act { Act(at, SKEW_FOLD) }

  /** The timeline the recorded guest lived through: the inputs, and the skew if any. */
  function RecordedActs(spec: Spec): (acts: seq<Act>) {
    match spec.skewAt
    case None => EventActs(spec.events)
    case Some(at) => Inject(EventActs(spec.events), SkewAct(at))
  }

  /** The state hash of the recorded guest where the segment ends. */
  function EndHash(spec: Spec): Hash32 {
    ChainValue(StateAt(spec.Genesis(), RecordedActs(spec), spec.endIcount))
  }

  function RecordPayload(spec: Spec, e: Emission): (p: seq<byte>) {
    match e
    case EpochHash(k) => LE64(k) + ChainAt(spec.Genesis(), RecordedActs(spec), k)
    case Canonical(ev) => ev.Payload()
    case Mark(frameIndex) => LE32(frameIndex) + Zeros(4)
    case End => [1] + Zeros(7) + EndHash(spec)
    case Skew => []
  }

  function RecordKind(e: Emission): byte {
    match e
    case EpochHash(_) => KIND_EPOCH_HASH
    case Canonical(ev) => ev.Kind()
    case Mark(_) => KIND_FRAME_MARK
    case End => KIND_END
    case Skew => 0
  }

  /** The record an emission leaves: recorded hashes are those of the recorded guest. */
  function RecordOf(spec: Spec, e: Emitted, seqNo: u32): Record {
    Record(RecordKind(e.value), if e.value.Canonical? then 0 else RFLAG_AUX, seqNo,
           e.key.icount, BoundaryRip(e.key.icount), RecordPayload(spec, e.value))
  }

  function RecordsFor(spec: Spec, es: seq<Emitted>): (recs: seq<Record>)
    ensures |recs| == |es|
    ensures forall i :: 0 <= i < |es| ==> recs[i] == RecordOf(spec, es[i], i % TWO32)
  {
    seq(|es|, i requires 0 <= i < |es| => RecordOf(spec, es[i], i % TWO32))
  }
}
