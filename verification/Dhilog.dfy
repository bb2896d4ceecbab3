/** One sealed DHILOG segment: header, record framing, structural validator. */
module Dhilog {
  import opened Wrappers
  import opened Bytes

  const HEADER_LEN: nat := 256
  const RECORD_HEADER_LEN: nat := 24

  const KIND_PAD_SET: byte := 0x01
  const KIND_DEV_EVENT: byte := 0x02
  const KIND_NET_RX: byte := 0x03
  const KIND_EPOCH_HASH: byte := 0x42
  const KIND_FRAME_MARK: byte := 0x45
  const KIND_END: byte := 0x7F

  // "DHILOG"
  const MAGIC: seq<byte> := [68, 72, 73, 76, 79, 71]

  datatype DhilogError = Truncated | BadMagic | BadHeaderLen(len: u32) | NonzeroReserved | Framing

  /** The assembly rules a segment or a path can break. */
  datatype RuleId = R1 | R2 | R3 | R4 | R5 | R6

  datatype Header = Header(
    version: u16,
    flags: u32,
    baseSnapshot: Hash32,
    endSnapshot: Hash32,
    entropySeed: Hash32,
    machineConfig: Hash32,
    clockNum: u32,
    clockDen: u32,
    recordCount: u64,
    endIcount: u64,
    endVns: u64,
    endStateHash: Hash32,
    bodyHash: Hash32)
  {
    predicate Sealed() { flags % 2 == 1 }
    predicate EpochHashes() { flags / 4 % 2 == 1 }
  }

  // ---- header ----

  function Lead(h: Header): (b: seq<byte>)
    ensures |b| == 16
  {
    MAGIC + LE16(h.version) + LE32(HEADER_LEN) + LE32(h.flags)
  }

  function Ids(h: Header): (b: seq<byte>)
    ensures |b| == 128
  {
    h.baseSnapshot + h.endSnapshot + h.entropySeed + h.machineConfig
  }

  function Clock(h: Header): (b: seq<byte>)
    ensures |b| == 8
  {
    LE32(h.clockNum) + LE32(h.clockDen)
  }

  function Counts(h: Header): (b: seq<byte>)
    ensures |b| == 24
  {
    LE64(h.recordCount) + LE64(h.endIcount) + LE64(h.endVns)
  }

  function Seals(h: Header): (b: seq<byte>)
    ensures |b| == 80
  {
    h.endStateHash + h.bodyHash + Zeros(16)
  }

  function EncodeHeader(h: Header): (b: seq<byte>)
    ensures |b| == HEADER_LEN
  {
    Lead(h) + Ids(h) + Clock(h) + Counts(h) + Seals(h)
  }

  function ParseHeader(bytes: seq<byte>): (r: Result<Header, DhilogError>) {
    if |bytes| < HEADER_LEN then Err(Truncated)
    else if bytes[0..6] != MAGIC then Err(BadMagic)
    else if Get32(bytes[8..12]) != HEADER_LEN then Err(BadHeaderLen(Get32(bytes[8..12])))
    else if !AllZero(bytes[240..256]) then Err(NonzeroReserved)
    else Ok(Header(
      Get16(bytes[6..8]), Get32(bytes[12..16]),
      bytes[16..48], bytes[48..80], bytes[80..112], bytes[112..144],
      Get32(bytes[144..148]), Get32(bytes[148..152]),
      Get64(bytes[152..160]), Get64(bytes[160..168]), Get64(bytes[168..176]),
      bytes[176..208], bytes[208..240]))
  }

  lemma LeadCuts(h: Header, b: seq<byte>)
    requires 16 <= |b| && b[0..16] == Lead(h)
    ensures b[0..6] == MAGIC && b[6..8] == LE16(h.version) && b[8..12] == LE32(HEADER_LEN) && b[12..16] == LE32(h.flags)
  {
    Cut4(b, 0, MAGIC, LE16(h.version), LE32(HEADER_LEN), LE32(h.flags));
  }

  lemma IdsCuts(h: Header, b: seq<byte>)
    requires 144 <= |b| && b[16..144] == Ids(h)
    ensures b[16..48] == h.baseSnapshot && b[48..80] == h.endSnapshot
    ensures b[80..112] == h.entropySeed && b[112..144] == h.machineConfig
  {
    Cut4(b, 16, h.baseSnapshot, h.endSnapshot, h.entropySeed, h.machineConfig);
  }

  lemma ClockCuts(h: Header, b: seq<byte>)
    requires 152 <= |b| && b[144..152] == Clock(h)
    ensures b[144..148] == LE32(h.clockNum) && b[148..152] == LE32(h.clockDen)
  {
    Cut2(b, 144, LE32(h.clockNum), LE32(h.clockDen));
  }

  lemma CountsCuts(h: Header, b: seq<byte>)
    requires 176 <= |b| && b[152..176] == Counts(h)
    ensures b[152..160] == LE64(h.recordCount) && b[160..168] == LE64(h.endIcount) && b[168..176] == LE64(h.endVns)
  {
    Cut3(b, 152, LE64(h.recordCount), LE64(h.endIcount), LE64(h.endVns));
  }

  lemma SealsCuts(h: Header, b: seq<byte>)
    requires 256 <= |b| && b[176..256] == Seals(h)
    ensures b[176..208] == h.endStateHash && b[208..240] == h.bodyHash && b[240..256] == Zeros(16)
  {
    Cut3(b, 176, h.endStateHash, h.bodyHash, Zeros(16));
  }

  lemma HeaderWords(h: Header)
    ensures Get16(LE16(h.version)) == h.version && Get32(LE32(HEADER_LEN)) == HEADER_LEN
            && Get32(LE32(h.flags)) == h.flags
    ensures Get32(LE32(h.clockNum)) == h.clockNum && Get32(LE32(h.clockDen)) == h.clockDen
    ensures Get64(LE64(h.recordCount)) == h.recordCount && Get64(LE64(h.endIcount)) == h.endIcount
    ensures Get64(LE64(h.endVns)) == h.endVns
  {
    Word16(h.version);
    Word32(HEADER_LEN);
    Word32(h.flags);
    Word32(h.clockNum);
    Word32(h.clockDen);
    Word64(h.recordCount);
    Word64(h.endIcount);
    Word64(h.endVns);
  }

  /** A written header parses back to itself. */
  lemma ParseOfEncode(h: Header, body: seq<byte>)
    ensures ParseHeader(EncodeHeader(h) + body) == Ok(h)
  {
    var b := EncodeHeader(h) + body;
    assert b[0..16] == Lead(h) && b[16..144] == Ids(h) && b[144..152] == Clock(h)
           && b[152..176] == Counts(h) && b[176..256] == Seals(h) by {
      assert b[0..256] == EncodeHeader(h);
      Cut2(b, 0, Lead(h) + Ids(h) + Clock(h) + Counts(h), Seals(h));
      Cut4(b, 0, Lead(h), Ids(h), Clock(h), Counts(h));
    }
    LeadCuts(h, b);
    IdsCuts(h, b);
    ClockCuts(h, b);
    CountsCuts(h, b);
    SealsCuts(h, b);
    HeaderWords(h);
  }

  /** Whatever parses is exactly an encoded header followed by a body. */
  lemma EncodeOfParse(bytes: seq<byte>)
    requires ParseHeader(bytes).Ok?
    ensures bytes == EncodeHeader(ParseHeader(bytes).value) + bytes[HEADER_LEN..]
  {
    var h := ParseHeader(bytes).value;
    var b := bytes;
    assert Lead(h) == b[0..16] by {
      Word16Bytes(b[6..8]);
      Word32Bytes(b[8..12]);
      Word32Bytes(b[12..16]);
      Paste(b, 0, 6, 8);
      Paste(b, 0, 8, 12);
      Paste(b, 0, 12, 16);
    }
    assert Ids(h) == b[16..144] by {
      Paste(b, 16, 48, 80);
      Paste(b, 16, 80, 112);
      Paste(b, 16, 112, 144);
    }
    assert Clock(h) == b[144..152] by {
      Word32Bytes(b[144..148]);
      Word32Bytes(b[148..152]);
      Paste(b, 144, 148, 152);
    }
    assert Counts(h) == b[152..176] by {
      Word64Bytes(b[152..160]);
      Word64Bytes(b[160..168]);
      Word64Bytes(b[168..176]);
      Paste(b, 152, 160, 168);
      Paste(b, 152, 168, 176);
    }
    assert Seals(h) == b[176..256] by {
      AllZeroIsZeros(b[240..256]);
      Paste(b, 176, 208, 240);
      Paste(b, 176, 240, 256);
    }
    Paste(b, 0, 16, 144);
    Paste(b, 0, 144, 152);
    Paste(b, 0, 152, 176);
    Paste(b, 0, 176, 256);
    Paste(b, 0, 256, |b|);
  }

  // ---- records ----

  datatype Record = Record(kind: byte, rflags: byte, seqNo: u32, icount: u64, rip: u64, payload: seq<byte>)
  {
    /** Auxiliary records are observations; canonical ones are inputs. */
    predicate IsAux() { rflags % 2 == 1 }

    predicate IsEnd() { kind == KIND_END && IsAux() }
  }

  /** A record together with what the framing says about its padding. */
  datatype Frame = Frame(rec: Record, paddingZeroed: bool)

  /** Everything a walk over a body meets: frames, then possibly damage. */
  datatype Walk = Walk(frames: seq<Frame>, torn: bool)

  function RecordHead(r: Record): (b: seq<byte>)
    requires |r.payload| < TWO16
    ensures |b| == RECORD_HEADER_LEN
  {
    [r.kind, r.rflags] + LE16(|r.payload|) + LE32(r.seqNo) + (LE64(r.icount) + LE64(r.rip))
  }

  function EncodeRecord(r: Record): (b: seq<byte>)
    requires |r.payload| < TWO16
    ensures |b| == RECORD_HEADER_LEN + Pad8(|r.payload|)
  {
    RecordHead(r) + r.payload + Padding(|r.payload|)
  }

  predicate Encodable(recs: seq<Record>) {
    forall i :: 0 <= i < |recs| ==> |recs[i].payload| < TWO16
  }

  function EncodeRecords(recs: seq<Record>): seq<byte>
    requires Encodable(recs)
  {
    if recs == [] then [] else EncodeRecord(recs[0]) + EncodeRecords(recs[1..])
  }

  /** The length field of the record at the start of `rem`. */
  function PayloadLen(rem: seq<byte>): (n: nat)
    requires RECORD_HEADER_LEN <= |rem|
  {
    Get16(rem[2..4])
  }

  predicate FrameFits(rem: seq<byte>) {
    RECORD_HEADER_LEN <= |rem| && RECORD_HEADER_LEN + Pad8(PayloadLen(rem)) <= |rem|
  }

  function FrameLen(rem: seq<byte>): (n: nat)
    requires FrameFits(rem)
    ensures RECORD_HEADER_LEN <= n <= |rem|
  {
    RECORD_HEADER_LEN + Pad8(PayloadLen(rem))
  }

  function FrameAt(rem: seq<byte>): (f: Frame)
    requires FrameFits(rem)
  {
    var n := PayloadLen(rem);
    Frame(Record(rem[0], rem[1], Get32(rem[4..8]), Get64(rem[8..16]), Get64(rem[16..24]),
                 rem[RECORD_HEADER_LEN..RECORD_HEADER_LEN + n]),
          AllZero(rem[RECORD_HEADER_LEN + n..FrameLen(rem)]))
  }

  /** The frames of a body. */
  function Frames(body: seq<byte>): (w: Walk)
    decreases |body|
  {
    if body == [] then Walk([], false)
    else if !FrameFits(body) then Walk([], true)
    else
      var w := Frames(body[FrameLen(body)..]);
      Walk([FrameAt(body)] + w.frames, w.torn)
  }

  lemma FramesTurn(body: seq<byte>)
    ensures body == [] ==> Frames(body) == Walk([], false)
    ensures body != [] && !FrameFits(body) ==> Frames(body) == Walk([], true)
    ensures FrameFits(body) ==>
              var w := Frames(body[FrameLen(body)..]);
              Frames(body) == Walk([FrameAt(body)] + w.frames, w.torn)
  {
    hide PayloadLen, FrameAt;
  }

  /** The iterator over a segment's records: each call frames the next one. */
  class RecordIter {
    const buf: seq<byte>
    var off: nat

    ghost predicate Valid()
      reads this
    {
      off <= |buf|
    }

    constructor (buf: seq<byte>, off: nat)
      requires off <= |buf|
      ensures Valid() && this.buf == buf && this.off == off
    {
      this.buf := buf;
      this.off := off;
    }

    /** What the rest of the walk will yield. */
    function Rest(): Walk
      requires Valid()
      reads this
    {
      Frames(buf[off..])
    }

    method Next() returns (item: Option<Result<Frame, DhilogError>>)
      requires Valid()
      modifies this`off
      ensures Valid()
      ensures old(Rest()) == match item
                             case None => Walk([], false)
                             case Some(Err(_)) => Walk([], true)
                             case Some(Ok(f)) => Walk([f] + Rest().frames, Rest().torn)
      ensures item.None? || item.value.Err? ==> off == |buf|
      ensures item.Some? ==> old(off) < off && (item.value.Err? ==> item.value.error == Framing)
    {
      hide Frames, Get16, Get32, Get64, AllZero;
      FramesTurn(buf[off..]);
      if off >= |buf| {
        assert buf[off..] == [];
        return None;
      }
      var rem := buf[off..];
      if |rem| < RECORD_HEADER_LEN {
        off := |buf|;
        return Some(Err(Framing));
      }
      var payloadLen: nat := Get16(rem[2..4]);
      var total := RECORD_HEADER_LEN + Pad8(payloadLen);
      if |rem| < total {
        off := |buf|;
        return Some(Err(Framing));
      }
      var rec := Record(rem[0], rem[1], Get32(rem[4..8]), Get64(rem[8..16]), Get64(rem[16..24]),
                        rem[RECORD_HEADER_LEN..RECORD_HEADER_LEN + payloadLen]);
      var padding := rem[RECORD_HEADER_LEN + payloadLen..total];
      off := off + total;
      assert rem[total..] == buf[off..];
      item := Some(Ok(Frame(rec, AllZero(padding))));
    }
  }

  lemma RecordHeadCuts(r: Record, b: seq<byte>)
    requires |r.payload| < TWO16 && 24 <= |b| && b[0..24] == RecordHead(r)
    ensures b[0] == r.kind && b[1] == r.rflags && b[2..4] == LE16(|r.payload|) && b[4..8] == LE32(r.seqNo)
    ensures b[8..16] == LE64(r.icount) && b[16..24] == LE64(r.rip)
  {
    Cut4(b, 0, [r.kind, r.rflags], LE16(|r.payload|), LE32(r.seqNo), LE64(r.icount) + LE64(r.rip));
    Cut2(b, 8, LE64(r.icount), LE64(r.rip));
    assert b[0] == b[0..2][0] && b[1] == b[0..2][1];
  }

  /** A written record frames back to itself. */
  lemma FrameOfEncode(r: Record, rest: seq<byte>)
    requires |r.payload| < TWO16
    ensures var b := EncodeRecord(r) + rest;
            FrameFits(b) && FrameLen(b) == |EncodeRecord(r)| && FrameAt(b) == Frame(r, true)
  {
    var b := EncodeRecord(r) + rest;
    var n := |r.payload|;
    assert b[0..|EncodeRecord(r)|] == EncodeRecord(r);
    Cut3(b, 0, RecordHead(r), r.payload, Padding(n));
    RecordHeadCuts(r, b);
    Word16(n);
    Word32(r.seqNo);
    Word64(r.icount);
    Word64(r.rip);
  }

  /** A frame with zero padding is exactly an encoded record. */
  lemma EncodeOfFrame(rem: seq<byte>)
    requires FrameFits(rem) && FrameAt(rem).paddingZeroed
    ensures |FrameAt(rem).rec.payload| < TWO16
    ensures EncodeRecord(FrameAt(rem).rec) == rem[..FrameLen(rem)]
  {
    var r := FrameAt(rem).rec;
    var n := PayloadLen(rem);
    assert RecordHead(r) == rem[0..24] by {
      Word16Bytes(rem[2..4]);
      Word32Bytes(rem[4..8]);
      Word64Bytes(rem[8..16]);
      Word64Bytes(rem[16..24]);
      assert [rem[0], rem[1]] == rem[0..2];
      Paste(rem, 0, 2, 4);
      Paste(rem, 0, 4, 8);
      Paste(rem, 8, 16, 24);
      Paste(rem, 0, 8, 24);
    }
    AllZeroIsZeros(rem[24 + n..24 + Pad8(n)]);
    Paste(rem, 0, 24, 24 + n);
    Paste(rem, 0, 24 + n, 24 + Pad8(n));
  }

  /** The frames of a clean walk over records `recs`. */
  function CleanFrames(recs: seq<Record>): (fs: seq<Frame>)
    ensures |fs| == |recs|
  {
    seq(|recs|, i requires 0 <= i < |recs| => Frame(recs[i], true))
  }

  /** Written records are walked back, in order and undamaged. */
  lemma {:induction false} FramesOfEncode(recs: seq<Record>)
    requires Encodable(recs)
    ensures Frames(EncodeRecords(recs)) == Walk(CleanFrames(recs), false)
    decreases |recs|
  {
    hide Frames, FrameFits, FrameLen, FrameAt, EncodeRecord;
    FramesTurn(EncodeRecords(recs));
    if recs != [] {
      var rest := EncodeRecords(recs[1..]);
      FramesOfEncode(recs[1..]);
      FrameOfEncode(recs[0], rest);
      assert EncodeRecords(recs)[FrameLen(EncodeRecords(recs))..] == rest;
      assert CleanFrames(recs) == [Frame(recs[0], true)] + CleanFrames(recs[1..]);
    }
  }

  function RecordsOf(frames: seq<Frame>): (recs: seq<Record>)
    ensures |recs| == |frames|
    ensures forall i :: 0 <= i < |frames| ==> recs[i] == frames[i].rec
  {
    seq(|frames|, i requires 0 <= i < |frames| => frames[i].rec)
  }

  lemma RecordsOfCons(f: Frame, fs: seq<Frame>)
    ensures RecordsOf([f] + fs) == [f.rec] + RecordsOf(fs)
  {
  }

  predicate Undamaged(w: Walk) {
    !w.torn && forall i :: 0 <= i < |w.frames| ==> w.frames[i].paddingZeroed
  }

  lemma UndamagedStep(body: seq<byte>)
    requires body != [] && Undamaged(Frames(body))
    ensures FrameFits(body) && FrameAt(body).paddingZeroed
    ensures var v := Frames(body[FrameLen(body)..]);
            Undamaged(v) && RecordsOf(Frames(body).frames) == [FrameAt(body).rec] + RecordsOf(v.frames)
  {
    var w, v := Frames(body), Frames(body[FrameLen(body)..]);
    assert w.frames[0] == FrameAt(body);
    assert v.frames == w.frames[1..];
    RecordsOfCons(FrameAt(body), v.frames);
  }

  /** A walk without damage is over exactly the encoding of its records. */
  lemma {:induction false} EncodeOfFrames(body: seq<byte>)
    requires Undamaged(Frames(body))
    ensures Encodable(RecordsOf(Frames(body).frames))
    ensures EncodeRecords(RecordsOf(Frames(body).frames)) == body
    decreases |body|
  {
    if body != [] {
      UndamagedStep(body);
      var rest := body[FrameLen(body)..];
      EncodeOfFrame(body);
      EncodeOfFrames(rest);
      assert RecordsOf(Frames(body).frames)[1..] == RecordsOf(Frames(rest).frames);
    }
  }
}
