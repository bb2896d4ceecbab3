/** The structural validator of one segment, and what passing it means. */
module Validator {
  import opened Wrappers
  import opened Bytes
  import opened Dhilog

  const MAX_PAYLOAD: nat := 4096
  const MAX_NET_FRAME: nat := 2048

  /** A parsed segment: the original bytes and their header. */
  datatype Segment = Segment(bytes: seq<byte>, header: Header)
  {
    ghost predicate Valid() { ParseHeader(bytes) == Ok(header) }

    function Body(): seq<byte>
      requires Valid()
    {
      bytes[HEADER_LEN..]
    }

    function Walk(): Dhilog.Walk
      requires Valid()
    {
      Frames(Body())
    }
  }

  method ParseSegment(bytes: seq<byte>) returns (r: Result<Segment, DhilogError>)
    ensures r.Ok? <==> ParseHeader(bytes).Ok?
    ensures r.Ok? ==> r.value.Valid() && r.value.bytes == bytes
    ensures r.Err? ==> ParseHeader(bytes) == Err(r.error)
  {
    var h := ParseHeader(bytes);
    match h
    case Err(e) => r := Err(e);
    case Ok(header) => r := Ok(Segment(bytes, header));
  }

  datatype EndPayload = EndPayload(stopReason: byte, endStateHash: Hash32)

  function DecodeEnd(payload: seq<byte>): (r: Result<EndPayload, DhilogError>)
    ensures r.Ok? <==> |payload| == 40
  {
    if |payload| != 40 then Err(Framing) else Ok(EndPayload(payload[0], payload[8..40]))
  }

  predicate CanonicalKind(kind: byte) {
    kind == KIND_PAD_SET || kind == KIND_DEV_EVENT || kind == KIND_NET_RX
  }

  // ---- the verdict as a function ----

  /** The icount of the record before index `j`. */
  function PrevIcount(w: Walk, j: nat): u64
    requires j <= |w.frames|
  {
    if j == 0 then 0 else w.frames[j - 1].rec.icount
  }

  /** A terminal END stands just before index `j`. */
  predicate EndBefore(w: Walk, j: nat)
    requires j <= |w.frames|
  {
    j > 0 && w.frames[j - 1].rec.IsEnd()
  }

  /** The first rule broken by frame `f` at index `count`, after a record at `prev`. */
  function CheckFrame(h: Header, f: Frame, count: nat, prev: u64, endSeen: bool): (v: Option<RuleId>) {
    var r := f.rec;
    if endSeen then Some(R5)
    else if !f.paddingZeroed || r.rflags > 1 || |r.payload| > MAX_PAYLOAD then Some(R4)
    else if !r.IsAux() && r.kind == KIND_NET_RX && |r.payload| > MAX_NET_FRAME then Some(R4)
    else if !r.IsAux() && !CanonicalKind(r.kind) then Some(R4)
    else if count >= TWO32 || r.seqNo != count || r.icount < prev || r.icount > h.endIcount then Some(R5)
    else if !r.IsEnd() then None
    else if DecodeEnd(r.payload).Err? then Some(R4)
    else if r.icount != h.endIcount then Some(R5)
    else if DecodeEnd(r.payload).value.endStateHash != h.endStateHash then Some(R4)
    else None
  }

  function CheckRecord(h: Header, w: Walk, j: nat): (v: Option<RuleId>)
    requires j < |w.frames|
  {
    CheckFrame(h, w.frames[j], j, PrevIcount(w, j), EndBefore(w, j))
  }

  /** The first rule broken by the records from index `j` on, or by the end of the walk. */
  function CheckFrom(h: Header, w: Walk, j: nat): (v: Option<RuleId>)
    requires j <= |w.frames|
    decreases |w.frames| - j
  {
    if j == |w.frames| then
      if w.torn || !EndBefore(w, j) || j != h.recordCount then Some(R4) else None
    else if CheckRecord(h, w, j).Some? then CheckRecord(h, w, j)
    else CheckFrom(h, w, j + 1)
  }

  /** The rule a segment breaks first: R4 (sealed and integral) or R5 (monotone). */
  function Verdict(s: Segment): (v: Option<RuleId>)
    requires s.Valid()
  {
    if !s.header.Sealed() then Some(R4)
    else if s.header.endStateHash == Zeros(32) then Some(R4)
    else if BLAKE3(s.Body()) != s.header.bodyHash then Some(R4)
    else CheckFrom(s.header, s.Walk(), 0)
  }

  lemma NextOfRest(w: Walk, count: nat, f: Frame, rest: Walk)
    requires count <= |w.frames|
    requires Walk(w.frames[count..], w.torn) == Walk([f] + rest.frames, rest.torn)
    ensures count < |w.frames| && w.frames[count] == f && rest == Walk(w.frames[count + 1..], w.torn)
  {
    assert w.frames[count..][0] == f;
    assert rest.frames == w.frames[count..][1..];
  }

  /** The checks made on one record, in order. */
  method FrameIssue(h: Header, f: Frame, count: nat, prev: u64, endSeen: bool) returns (v: Option<RuleId>)
    ensures v == CheckFrame(h, f, count, prev, endSeen)
  {
    var rec, zeroed := f.rec, f.paddingZeroed;
    if endSeen {
      return Some(R5);
    }
    if !zeroed {
      return Some(R4);
    }
    if rec.rflags > 1 {
      return Some(R4);
    }
    if |rec.payload| > MAX_PAYLOAD {
      return Some(R4);
    }
    if !rec.IsAux() && rec.kind == KIND_NET_RX && |rec.payload| > MAX_NET_FRAME {
      return Some(R4);
    }
    if !rec.IsAux() && !CanonicalKind(rec.kind) {
      return Some(R4);
    }
    if count >= TWO32 {
      return Some(R5);
    }
    if rec.seqNo != count {
      return Some(R5);
    }
    if rec.icount < prev {
      return Some(R5);
    }
    if rec.icount > h.endIcount {
      return Some(R5);
    }
    if rec.kind == KIND_END && rec.IsAux() {
      var end := DecodeEnd(rec.payload);
      if end.Err? {
        return Some(R4);
      }
      if rec.icount != h.endIcount {
        return Some(R5);
      }
      if end.value.endStateHash != h.endStateHash {
        return Some(R4);
      }
    }
    v := None;
  }

  /** One turn of the walk: the check of record `j`, and what it leaves for the next. */
  lemma CheckStep(h: Header, w: Walk, j: nat)
    requires j <= |w.frames|
    ensures j == |w.frames| ==>
              CheckFrom(h, w, j) == if w.torn || !EndBefore(w, j) || j != h.recordCount then Some(R4) else None
    ensures j < |w.frames| ==>
              var v := CheckFrame(h, w.frames[j], j, PrevIcount(w, j), EndBefore(w, j));
              && CheckFrom(h, w, j) == (if v.Some? then v else CheckFrom(h, w, j + 1))
              && (v == None ==> !EndBefore(w, j))
              && PrevIcount(w, j + 1) == w.frames[j].rec.icount && EndBefore(w, j + 1) == w.frames[j].rec.IsEnd()
  {
    hide Record.IsEnd, Record.IsAux, CanonicalKind, DecodeEnd;
  }

  lemma BeforeFirst(w: Walk)
    ensures PrevIcount(w, 0) == 0 && !EndBefore(w, 0)
  {
  }

  /** One walk over the records with running counters. */
  method ValidateStructure(s: Segment) returns (v: Option<RuleId>)
    requires s.Valid()
    ensures v == Verdict(s)
  {
    hide CheckFrom, CheckFrame, EndBefore, PrevIcount, Record.IsEnd;
    var h := s.header;
    if h.flags % 2 == 0 {
      return Some(R4);
    }
    if h.endStateHash == Zeros(32) {
      return Some(R4);
    }
    if BLAKE3(s.bytes[HEADER_LEN..]) != h.bodyHash {
      return Some(R4);
    }
    var count: nat := 0;
    var prev: u64 := 0;
    var endSeen := false;
    var walk := new RecordIter(s.bytes, HEADER_LEN);
    ghost var w := s.Walk();
    BeforeFirst(w);
    while true
      invariant walk.Valid() && fresh(walk) && walk.buf == s.bytes
      invariant count <= |w.frames| && walk.Rest() == Walk(w.frames[count..], w.torn)
      invariant prev == PrevIcount(w, count) && endSeen == EndBefore(w, count)
      invariant CheckFrom(h, w, 0) == CheckFrom(h, w, count)
      decreases |walk.buf| - walk.off
    {
      CheckStep(h, w, count);
      var item := walk.Next();
      if item.None? {
        break;
      }
      if item.value.Err? {
        return Some(R4);
      }
      var rec := item.value.value.rec;
      NextOfRest(w, count, item.value.value, walk.Rest());
      var issue := FrameIssue(h, item.value.value, count, prev, endSeen);
      if issue.Some? {
        return issue;
      }
      endSeen := endSeen || rec.IsEnd();
      prev := rec.icount;
      count := count + 1;
    }
    if !endSeen {
      return Some(R4);
    }
    if count != h.recordCount {
      return Some(R4);
    }
    v := None;
  }

  // ---- what passing means ----

  /** Kind, flag and size limits of a single record. */
  predicate WithinLimits(r: Record) {
    && r.rflags <= 1
    && |r.payload| <= MAX_PAYLOAD
    && (!r.IsAux() ==> CanonicalKind(r.kind))
    && (!r.IsAux() && r.kind == KIND_NET_RX ==> |r.payload| <= MAX_NET_FRAME)
  }

  /** A record stream a header can seal: limits, numbering, order, one END, last. */
  ghost predicate SealedStream(h: Header, recs: seq<Record>) {
    && 0 < |recs| <= TWO32 && |recs| == h.recordCount
    && (forall i :: 0 <= i < |recs| ==> WithinLimits(recs[i]) && recs[i].seqNo == i && recs[i].icount <= h.endIcount)
    && (forall i, j :: 0 <= i < j < |recs| ==> recs[i].icount <= recs[j].icount)
    && (forall i :: 0 <= i < |recs| ==> (recs[i].IsEnd() <==> i == |recs| - 1))
    && |recs[|recs| - 1].payload| == 40
    && recs[|recs| - 1].icount == h.endIcount
    && recs[|recs| - 1].payload[8..40] == h.endStateHash
  }

  /** Sealed and integral: the body is exactly the encoding of a sealed stream. */
  ghost predicate WellFormed(s: Segment)
    requires s.Valid()
  {
    && s.header.Sealed()
    && s.header.endStateHash != Zeros(32)
    && BLAKE3(s.Body()) == s.header.bodyHash
    && exists recs: seq<Record> ::
         Encodable(recs) && s.Body() == EncodeRecords(recs) && SealedStream(s.header, recs)
  }

  /** A walk passes from `j` on exactly when every later record passes and it ends well. */
  lemma {:induction false} CheckFromIff(h: Header, w: Walk, j: nat)
    requires j <= |w.frames|
    ensures CheckFrom(h, w, j) == None
            <==> && (forall i :: j <= i < |w.frames| ==> CheckRecord(h, w, i) == None)
                 && !w.torn && EndBefore(w, |w.frames|) && |w.frames| == h.recordCount
    decreases |w.frames| - j
  {
    if j < |w.frames| {
      CheckFromIff(h, w, j + 1);
    }
  }

  lemma {:induction false} StepwiseMonotone(w: Walk, i: nat, j: nat)
    requires i < j < |w.frames|
    requires forall k :: 0 < k < |w.frames| ==> PrevIcount(w, k) <= w.frames[k].rec.icount
    ensures w.frames[i].rec.icount <= w.frames[j].rec.icount
  {
    if i + 1 < j {
      StepwiseMonotone(w, i, j - 1);
    }
    assert PrevIcount(w, j) <= w.frames[j].rec.icount;
  }

  lemma RecordPasses(h: Header, w: Walk, i: nat)
    requires i < |w.frames| && CheckRecord(h, w, i) == None
    ensures var r := w.frames[i].rec;
            && w.frames[i].paddingZeroed && WithinLimits(r) && r.seqNo == i && i < TWO32
            && PrevIcount(w, i) <= r.icount <= h.endIcount
            && !EndBefore(w, i)
            && (r.IsEnd() ==> |r.payload| == 40 && r.icount == h.endIcount && r.payload[8..40] == h.endStateHash)
  {
  }

  /** What passing says of each record and of the walk. */
  lemma PassingRecords(h: Header, w: Walk)
    requires CheckFrom(h, w, 0) == None
    ensures Undamaged(w) && 0 < |w.frames| == h.recordCount <= TWO32
    ensures forall i :: 0 <= i < |w.frames| ==>
              && WithinLimits(w.frames[i].rec) && w.frames[i].rec.seqNo == i
              && w.frames[i].rec.icount <= h.endIcount
  {
    hide CheckFrom, CheckRecord, WithinLimits, PrevIcount, Record.IsEnd;
    CheckFromIff(h, w, 0);
    forall i | 0 <= i < |w.frames|
      ensures w.frames[i].paddingZeroed && WithinLimits(w.frames[i].rec) && w.frames[i].rec.seqNo == i && i < TWO32
      ensures w.frames[i].rec.icount <= h.endIcount
    {
      RecordPasses(h, w, i);
    }
  }

  /** Their icounts are ordered. */
  lemma PassingOrder(h: Header, w: Walk, i: nat, j: nat)
    requires CheckFrom(h, w, 0) == None && i < j < |w.frames|
    ensures w.frames[i].rec.icount <= w.frames[j].rec.icount
  {
    hide CheckFrom, CheckRecord, WithinLimits, PrevIcount, EndBefore, Record.IsEnd;
    CheckFromIff(h, w, 0);
    forall k | 0 < k < |w.frames|
      ensures PrevIcount(w, k) <= w.frames[k].rec.icount
    {
      RecordPasses(h, w, k);
    }
    StepwiseMonotone(w, i, j);
  }

  /** The last one is the END, and the only one. */
  lemma PassingEnd(h: Header, w: Walk, i: nat)
    requires CheckFrom(h, w, 0) == None && i < |w.frames|
    ensures w.frames[i].rec.IsEnd() <==> i == |w.frames| - 1
    ensures var r := w.frames[|w.frames| - 1].rec;
            |r.payload| == 40 && r.icount == h.endIcount && r.payload[8..40] == h.endStateHash
  {
    hide CheckFrom, CheckRecord, WithinLimits, PrevIcount, Record.IsEnd;
    CheckFromIff(h, w, 0);
    RecordPasses(h, w, |w.frames| - 1);
    if i + 1 < |w.frames| {
      RecordPasses(h, w, i + 1);
    }
  }

  lemma PassingStream(h: Header, w: Walk)
    requires CheckFrom(h, w, 0) == None
    ensures Undamaged(w) && SealedStream(h, RecordsOf(w.frames))
  {
    hide CheckFrom, WithinLimits, Undamaged, PrevIcount, EndBefore, Record.IsEnd;
    PassingRecords(h, w);
    var recs := RecordsOf(w.frames);
    forall i, j | 0 <= i < j < |recs|
      ensures recs[i].icount <= recs[j].icount
    {
      PassingOrder(h, w, i, j);
    }
    forall i | 0 <= i < |recs|
      ensures recs[i].IsEnd() <==> i == |recs| - 1
    {
      PassingEnd(h, w, i);
    }
    PassingEnd(h, w, |recs| - 1);
  }

  lemma SealedStreamPasses(h: Header, recs: seq<Record>)
    requires SealedStream(h, recs)
    ensures CheckFrom(h, Walk(CleanFrames(recs), false), 0) == None
  {
    var w := Walk(CleanFrames(recs), false);
    forall i | 0 <= i < |recs|
      ensures CheckRecord(h, w, i) == None
    {
      assert w.frames[i] == Frame(recs[i], true);
      if i > 0 {
        assert w.frames[i - 1] == Frame(recs[i - 1], true);
      }
    }
    CheckFromIff(h, w, 0);
  }

  /** The validator accepts exactly the well-formed segments. */
  lemma AcceptsExactlyWellFormed(s: Segment)
    requires s.Valid()
    ensures Verdict(s) == None <==> WellFormed(s)
  {
    if Verdict(s) == None {
      PassingStream(s.header, s.Walk());
      EncodeOfFrames(s.Body());
      var recs := RecordsOf(s.Walk().frames);
      assert Encodable(recs) && s.Body() == EncodeRecords(recs) && SealedStream(s.header, recs);
    }
    if WellFormed(s) {
      var recs: seq<Record> :| Encodable(recs) && s.Body() == EncodeRecords(recs) && SealedStream(s.header, recs);
      FramesOfEncode(recs);
      SealedStreamPasses(s.header, recs);
    }
  }

  /** What a walk over the body yields, torn or not. */
  function Records(s: Segment): seq<Record>
    requires s.Valid()
  {
    RecordsOf(s.Walk().frames)
  }

  lemma WellFormedRecords(s: Segment)
    requires s.Valid() && Verdict(s) == None
    ensures Undamaged(s.Walk()) && SealedStream(s.header, Records(s))
  {
    PassingStream(s.header, s.Walk());
  }
}
