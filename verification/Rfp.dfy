/** The `.rfp` frame pack: an append-only writer, and a reader that must never take a
    torn pack for a complete one. */
module Rfp {
  import opened Wrappers
  import opened Bytes

  const HEADER_LEN: nat := 60
  const RECORD_LEN: nat := 28
  const FOOTER_LEN: nat := 49

  // "RFPK0002"
  const RFP_MAGIC: seq<byte> := [82, 70, 80, 75, 48, 48, 48, 50]
  // "RFPEND\0\0"
  const RFP_END_MAGIC: seq<byte> := [82, 70, 80, 69, 78, 68, 0, 0]

  datatype PixelFormat = Rgb555Le | Bgr555Le | Rgb565Le | Indexed8(paletteGpa: u64)

  datatype RfpError =
    | Truncated
    | BadMagic
    | UnsupportedVersion(version: u32)
    | UnknownPixFmt(v: byte)
    | UnsupportedFormat(f: PixelFormat)

  function PixFmtToByte(f: PixelFormat): (r: Result<byte, RfpError>) {
    match f
    case Rgb555Le => Ok(0)
    case Bgr555Le => Ok(1)
    case Rgb565Le => Ok(2)
    case Indexed8(_) => Err(UnsupportedFormat(f))
  }

  function PixFmtFromByte(v: byte): (r: Result<PixelFormat, RfpError>) {
    if v == 0 then Ok(Rgb555Le)
    else if v == 1 then Ok(Bgr555Le)
    else if v == 2 then Ok(Rgb565Le)
    else Err(UnknownPixFmt(v))
  }

  type JobId = j: seq<byte> | |j| == 16 witness Zeros(16)

  datatype RfpHeader = RfpHeader(
    flags: u32,
    gpaBase: u64,
    width: u16,
    height: u16,
    stride: u32,
    pixelFormat: PixelFormat,
    clockNum: u32,
    clockDen: u32,
    jobId: JobId)

  datatype Comp = Raw | Lz4

  datatype RfpRecord = RfpRecord(frameIndex: u64, segmentIndex: u32, comp: Comp, icount: u64, bytes: seq<byte>)

  // ---- the encoding ----

  function Geometry(h: RfpHeader): (b: seq<byte>)
    ensures |b| == 16
  {
    LE64(h.gpaBase) + LE16(h.width) + LE16(h.height) + LE32(h.stride)
  }

  function Identity(h: RfpHeader): (b: seq<byte>)
    ensures |b| == 24
  {
    LE32(h.clockNum) + LE32(h.clockDen) + h.jobId
  }

  /** Bytes the writer zeroes and the reader skips. */
  type Pad = p: seq<byte> | |p| == 3 witness Zeros(3)

  /** The header with its pixel format byte and any padding. */
  function HeaderWith(h: RfpHeader, pix: byte, pad: Pad): (b: seq<byte>)
    ensures |b| == HEADER_LEN
  {
    RFP_MAGIC + (LE32(2) + LE32(h.flags)) + Geometry(h) + ([pix] + pad + Identity(h))
  }

  function EncodeHeader(h: RfpHeader, pix: byte): (b: seq<byte>)
    ensures |b| == HEADER_LEN
  {
    HeaderWith(h, pix, Zeros(3))
  }

  function CompByte(c: Comp): byte { if c.Raw? then 0 else 1 }

  function RecordHeadWith(r: RfpRecord, pad: Pad): (b: seq<byte>)
    ensures |b| == RECORD_LEN
  {
    LE64(r.frameIndex) + LE32(r.segmentIndex) + ([CompByte(r.comp)] + pad) + (LE64(r.icount) + LE32(|r.bytes| % TWO32))
  }

  function RecordHead(r: RfpRecord): (b: seq<byte>)
    ensures |b| == RECORD_LEN
  {
    RecordHeadWith(r, Zeros(3))
  }

  function EncodeRecord(r: RfpRecord): (b: seq<byte>)
    ensures |b| == RECORD_LEN + |r.bytes|
  {
    RecordHead(r) + r.bytes
  }

  function EncodeRecords(recs: seq<RfpRecord>): (b: seq<byte>)
    decreases |recs|
  {
    if recs == [] then [] else EncodeRecord(recs[0]) + EncodeRecords(recs[1..])
  }

  lemma {:induction false} EncodeRecordsConcat(a: seq<RfpRecord>, b: seq<RfpRecord>)
    ensures EncodeRecords(a + b) == EncodeRecords(a) + EncodeRecords(b)
    decreases |a|
  {
    hide EncodeRecord;
    if a == [] {
      assert a + b == b;
    } else {
      assert (a + b)[1..] == a[1..] + b;
      EncodeRecordsConcat(a[1..], b);
    }
  }

  lemma EncodeOne(r: RfpRecord)
    ensures EncodeRecords([r]) == EncodeRecord(r)
  {
    assert [r][1..] == [];
  }

  function Pack(h: RfpHeader, pix: byte, recs: seq<RfpRecord>): (b: seq<byte>)
  {
    EncodeHeader(h, pix) + EncodeRecords(recs)
  }

  function Footer(count: nat, complete: bool, pack: seq<byte>): (b: seq<byte>)
    ensures |b| == FOOTER_LEN
  {
    RFP_END_MAGIC + LE64(count % TWO64) + [if complete then 1 else 0] + BLAKE3(pack)
  }

  /** A finished pack. */
  function Finished(h: RfpHeader, pix: byte, recs: seq<RfpRecord>, complete: bool): (b: seq<byte>) {
    Pack(h, pix, recs) + Footer(|recs|, complete, Pack(h, pix, recs))
  }

  // ---- the writer ----

  class RfpWriter {
    var buf: seq<byte>
    var count: nat

    /** What has been written so far. */
    ghost predicate Holds(h: RfpHeader, pix: byte, recs: seq<RfpRecord>)
      reads this
    {
      buf == Pack(h, pix, recs) && count == |recs|
    }

    constructor FromHeader(h: RfpHeader, pix: byte)
      ensures Holds(h, pix, [])
    {
      var b := RFP_MAGIC + (LE32(2) + LE32(h.flags)) + Geometry(h) + ([pix] + Zeros(3) + Identity(h));
      buf := b + [];
      count := 0;
    }

    /** A format without an encoding is refused. */
    static method New(h: RfpHeader) returns (r: Result<RfpWriter, RfpError>)
      ensures match PixFmtToByte(h.pixelFormat)
              case Err(e) => r == Err(e)
              case Ok(pix) => r.Ok? && fresh(r.value) && r.value.Holds(h, pix, [])
    {
      var pix := PixFmtToByte(h.pixelFormat);
      if pix.Err? {
        return Err(pix.error);
      }
      var w := new RfpWriter.FromHeader(h, pix.value);
      r := Ok(w);
    }

    method Push(record: RfpRecord, ghost h: RfpHeader, ghost pix: byte, ghost recs: seq<RfpRecord>)
      requires Holds(h, pix, recs)
      modifies this
      ensures Holds(h, pix, recs + [record])
    {
      hide RecordHead, EncodeHeader;
      EncodeRecordsConcat(recs, [record]);
      EncodeOne(record);
      buf := buf + (RecordHead(record) + record.bytes);
      count := count + 1;
    }

    method Finish(complete: bool, ghost h: RfpHeader, ghost pix: byte, ghost recs: seq<RfpRecord>)
        returns (out: seq<byte>)
      requires Holds(h, pix, recs)
      ensures out == Finished(h, pix, recs, complete)
    {
      var hash := BLAKE3(buf);
      out := buf + (RFP_END_MAGIC + LE64(count % TWO64) + [if complete then 1 else 0] + hash);
    }
  }

  // ---- the reader as a function ----

  datatype Outcome =
    | Complete(header: RfpHeader, records: seq<RfpRecord>)
    | Torn(header: RfpHeader, records: seq<RfpRecord>)

  function ReadHeader(b: seq<byte>): (r: Result<RfpHeader, RfpError>)
    ensures r.Ok? ==> |b| >= HEADER_LEN
  {
    if |b| < HEADER_LEN then Err(Truncated)
    else if b[0..8] != RFP_MAGIC then Err(BadMagic)
    else if Get32(b[8..12]) != 2 then Err(UnsupportedVersion(Get32(b[8..12])))
    else
      match PixFmtFromByte(b[32])
      case Err(e) => Err(e)
      case Ok(f) => Ok(RfpHeader(Get32(b[12..16]), Get64(b[16..24]), Get16(b[24..26]), Get16(b[26..28]),
                                 Get32(b[28..32]), f, Get32(b[36..40]), Get32(b[40..44]), b[44..60]))
  }

  /** A footer that could be genuine: end magic in place and a matching hash. It is looked
      for in the last 49 bytes, wherever those lie. */
  predicate FooterFound(b: seq<byte>) {
    |b| >= FOOTER_LEN
    && var fs := |b| - FOOTER_LEN;
       b[fs..fs + 8] == RFP_END_MAGIC && BLAKE3(b[0..fs]) == b[fs + 17..fs + 49]
  }

  /** What a walk over the record zone yields, and whether it ends on a record boundary. */
  datatype Walked = Walked(records: seq<RfpRecord>, framingOk: bool)

  function ByteLen(rem: seq<byte>): (n: nat)
    requires RECORD_LEN <= |rem|
  {
    Get32(rem[24..28])
  }

  predicate RecordFits(rem: seq<byte>) {
    RECORD_LEN <= |rem| && RECORD_LEN + ByteLen(rem) <= |rem| && rem[12] <= 1
  }

  function RecordAt(rem: seq<byte>): (r: RfpRecord)
    requires RecordFits(rem)
    ensures |r.bytes| == ByteLen(rem)
  {
    RfpRecord(Get64(rem[0..8]), Get32(rem[8..12]), if rem[12] == 0 then Raw else Lz4, Get64(rem[16..24]),
              rem[RECORD_LEN..RECORD_LEN + ByteLen(rem)])
  }

  function Walk(rem: seq<byte>): (w: Walked)
    decreases |rem|
  {
    if rem == [] then Walked([], true)
    else if !RecordFits(rem) then Walked([], false)
    else
      var w := Walk(rem[RECORD_LEN + ByteLen(rem)..]);
      Walked([RecordAt(rem)] + w.records, w.framingOk)
  }

  /** The bytes records are read from: up to the footer, if there is one. */
  function RecordZone(b: seq<byte>): seq<byte> {
    var end := if FooterFound(b) then |b| - FOOTER_LEN else |b|;
    if HEADER_LEN <= end then b[HEADER_LEN..end] else []
  }

  function ReadOutcome(b: seq<byte>): Result<Outcome, RfpError> {
    match ReadHeader(b)
    case Err(e) => Err(e)
    case Ok(h) =>
      var w := Walk(RecordZone(b));
      if FooterFound(b) && w.framingOk then
        var fs := |b| - FOOTER_LEN;
        if b[fs + 16] == 1 && Get64(b[fs + 8..fs + 16]) == |w.records| then Ok(Complete(h, w.records))
        else Ok(Torn(h, w.records))
      else Ok(Torn(h, w.records))
  }

  // ---- the reader ----

  lemma SliceOfSlice(b: seq<byte>, i: nat, j: nat, k: nat, l: nat)
    requires i <= j <= |b| && k <= l <= j - i
    ensures b[i..j][k..l] == b[i + k..i + l]
  {
    var x, y := b[i..j][k..l], b[i + k..i + l];
    assert |x| == |y|;
    forall m | 0 <= m < |x|
      ensures x[m] == y[m]
    {
      assert b[i..j][k + m] == b[i + (k + m)];
    }
  }

  /** The record at `off`, if one fits before the end of the zone. */
  method ReadRecord(b: seq<byte>, off: nat, zoneEnd: nat) returns (r: Option<RfpRecord>)
    requires off <= zoneEnd <= |b|
    ensures r == if RecordFits(b[off..zoneEnd]) then Some(RecordAt(b[off..zoneEnd])) else None
  {
    hide Get32, Get64;
    ghost var rem := b[off..zoneEnd];
    if zoneEnd - off < RECORD_LEN {
      return None;
    }
    SliceOfSlice(b, off, zoneEnd, 24, 28);
    var len: nat := Get32(b[off + 24..off + 28]);
    assert ByteLen(rem) == len;
    if zoneEnd - off - RECORD_LEN < len {
      return None;
    }
    if b[off + 12] > 1 {
      return None;
    }
    SliceOfSlice(b, off, zoneEnd, 0, 8);
    SliceOfSlice(b, off, zoneEnd, 8, 12);
    SliceOfSlice(b, off, zoneEnd, 16, 24);
    SliceOfSlice(b, off, zoneEnd, RECORD_LEN, RECORD_LEN + len);
    r := Some(RfpRecord(Get64(b[off..off + 8]), Get32(b[off + 8..off + 12]), if b[off + 12] == 0 then Raw else Lz4,
                        Get64(b[off + 16..off + 24]), b[off + RECORD_LEN..off + RECORD_LEN + len]));
  }

  /** What a walk yields when `read` records came before the rest of it. */
  function After(read: seq<RfpRecord>, rest: Walked): Walked {
    Walked(read + rest.records, rest.framingOk)
  }

  lemma WalkTurn(b: seq<byte>, off: nat, zoneEnd: nat, read: seq<RfpRecord>)
    requires off < zoneEnd <= |b|
    ensures var rem := b[off..zoneEnd];
            if RecordFits(rem) then
              var next := off + RECORD_LEN + |RecordAt(rem).bytes|;
              next <= zoneEnd && After(read, Walk(rem)) == After(read + [RecordAt(rem)], Walk(b[next..zoneEnd]))
            else After(read, Walk(rem)) == Walked(read, false)
  {
    hide RecordAt;
    var rem := b[off..zoneEnd];
    if RecordFits(rem) {
      var n := RECORD_LEN + ByteLen(rem);
      assert rem[n..] == b[off + n..zoneEnd];
      var w := Walk(rem[n..]);
      assert read + ([RecordAt(rem)] + w.records) == read + [RecordAt(rem)] + w.records;
    } else {
      assert read + [] == read;
    }
  }

  lemma WalkEnds(read: seq<RfpRecord>)
    ensures After(read, Walk([])) == Walked(read, true)
  {
    assert read + [] == read;
  }

  method WalkRecords(b: seq<byte>, zoneEnd: nat) returns (records: seq<RfpRecord>, framingOk: bool)
    requires HEADER_LEN <= |b| && zoneEnd <= |b|
    ensures Walked(records, framingOk) == Walk(if HEADER_LEN <= zoneEnd then b[HEADER_LEN..zoneEnd] else [])
  {
    hide RecordAt, RecordFits, Walk, After;
    records, framingOk := [], true;
    WalkEnds([]);
    if zoneEnd < HEADER_LEN {
      NoneBefore([]);
      return;
    }
    NoneBefore(b[HEADER_LEN..zoneEnd]);
    var off := HEADER_LEN;
    while off < zoneEnd
      invariant HEADER_LEN <= off <= zoneEnd && framingOk
      invariant Walk(b[HEADER_LEN..zoneEnd]) == After(records, Walk(b[off..zoneEnd]))
      decreases zoneEnd - off
    {
      WalkTurn(b, off, zoneEnd, records);
      var r := ReadRecord(b, off, zoneEnd);
      if r.None? {
        framingOk := false;
        return;
      }
      records := records + [r.value];
      off := off + RECORD_LEN + |r.value.bytes|;
    }
    assert b[off..zoneEnd] == [];
    WalkEnds(records);
  }

  lemma NoneBefore(rem: seq<byte>)
    ensures After([], Walk(rem)) == Walk(rem)
  {
    hide Walk;
    assert [] + Walk(rem).records == Walk(rem).records;
  }

  /** Parse a pack: a damaged header is an error, anything else degrades to torn. */
  method ReadRfp(b: seq<byte>) returns (r: Result<Outcome, RfpError>)
    ensures r == ReadOutcome(b)
  {
    hide Walk, ReadHeader;
    var header := ReadHeader(b);
    if header.Err? {
      return Err(header.error);
    }
    var zoneEnd := |b|;
    var footerOk := false;
    if |b| >= FOOTER_LEN {
      var fs := |b| - FOOTER_LEN;
      if b[fs..fs + 8] == RFP_END_MAGIC && BLAKE3(b[0..fs]) == b[fs + 17..fs + 49] {
        footerOk, zoneEnd := true, fs;
      }
    }
    var records, framingOk := WalkRecords(b, zoneEnd);
    if footerOk && framingOk {
      var count := Get64(b[zoneEnd + 8..zoneEnd + 16]);
      var complete := b[zoneEnd + 16] == 1;
      if complete && count == |records| {
        return Ok(Complete(header.value, records));
      }
    }
    r := Ok(Torn(header.value, records));
  }

  // ---- round trip ----

  predicate Packable(recs: seq<RfpRecord>) {
    forall i :: 0 <= i < |recs| ==> |recs[i].bytes| < TWO32
  }

  lemma RecordHeadCuts(r: RfpRecord, pad: Pad, b: seq<byte>)
    requires |r.bytes| < TWO32 && Has(b, 0, RecordHeadWith(r, pad))
    ensures |b| >= 28 && Get64(b[0..8]) == r.frameIndex && Get32(b[8..12]) == r.segmentIndex
            && b[12] == CompByte(r.comp)
    ensures Get64(b[16..24]) == r.icount && Get32(b[24..28]) == |r.bytes|
  {
    hide LE64, LE32, Get64, Get32;
    var n: u32 := |r.bytes|;
    assert |r.bytes| % TWO32 == n;
    Cut4(b, 0, LE64(r.frameIndex), LE32(r.segmentIndex), [CompByte(r.comp)] + pad, LE64(r.icount) + LE32(n));
    Cut2(b, 12, [CompByte(r.comp)], pad);
    Cut2(b, 16, LE64(r.icount), LE32(n));
    assert b[12] == b[12..13][0];
    Word64(r.frameIndex);
    Word32(r.segmentIndex);
    Word64(r.icount);
    Word32(n);
  }

  /** A written record is read back, whatever its padding and whatever follows it. */
  lemma RecordReads(r: RfpRecord, pad: Pad, rem: seq<byte>)
    requires |r.bytes| < TWO32 && Has(rem, 0, RecordHeadWith(r, pad) + r.bytes)
    ensures RecordFits(rem) && ByteLen(rem) == |r.bytes| && RecordAt(rem) == r
  {
    hide Get64, Get32, RecordHeadWith;
    HasBoth(rem, 0, RecordHeadWith(r, pad), r.bytes);
    RecordHeadCuts(r, pad, rem);
    HasSlice(rem, RECORD_LEN, r.bytes);
  }

  lemma EncodeRecordIs(r: RfpRecord)
    ensures EncodeRecord(r) == RecordHeadWith(r, Zeros(3)) + r.bytes
  {
    hide RecordHeadWith;
  }

  /** A prefix too short for its record holds none. */
  lemma RecordCut(r: RfpRecord, rem: seq<byte>)
    requires |r.bytes| < TWO32 && 0 < |rem| < |EncodeRecord(r)| && rem == EncodeRecord(r)[..|rem|]
    ensures !RecordFits(rem)
  {
    hide Get64, Get32, RecordHeadWith;
    if |rem| >= RECORD_LEN {
      assert rem[0..RECORD_LEN] == RecordHead(r);
      RecordHeadCuts(r, Zeros(3), rem);
    }
  }

  lemma EncodeCons(recs: seq<RfpRecord>)
    requires recs != []
    ensures EncodeRecords(recs) == EncodeRecord(recs[0]) + EncodeRecords(recs[1..])
    ensures |EncodeRecord(recs[0])| == RECORD_LEN + |recs[0].bytes|
  {
    hide EncodeRecord;
  }

  lemma WalkCons(b: seq<byte>, r: RfpRecord)
    requires RecordFits(b) && RecordAt(b) == r && ByteLen(b) == |r.bytes|
    ensures RECORD_LEN + |r.bytes| <= |b|
    ensures var w := Walk(b[RECORD_LEN + |r.bytes|..]);
            Walk(b) == Walked([r] + w.records, w.framingOk)
  {
    hide RecordAt;
  }

  /** The first `n` bytes of written records walk to the first few records, and end where
      they end. */
  ghost predicate EndsOnRecord(recs: seq<RfpRecord>, n: nat, w: Walked) {
    exists i: nat :: i <= |recs| && n == |EncodeRecords(recs[..i])| && w.records == recs[..i]
  }

  lemma EndsOnNext(recs: seq<RfpRecord>, n: nat, w: Walked)
    requires recs != [] && EndsOnRecord(recs[1..], n, w)
    ensures EndsOnRecord(recs, |EncodeRecord(recs[0])| + n, Walked([recs[0]] + w.records, w.framingOk))
  {
    hide EncodeRecord;
    var rest := recs[1..];
    var i: nat :| i <= |rest| && n == |EncodeRecords(rest[..i])| && w.records == rest[..i];
    assert recs[..i + 1][1..] == rest[..i] && recs[..i + 1] == [recs[0]] + rest[..i];
    EncodeCons(recs[..i + 1]);
  }

  /** What a walk yields on the first `n` bytes of written records: the records that end
      there, and no success off a record boundary. */
  lemma {:induction false} PrefixWalk(recs: seq<RfpRecord>, n: nat)
    requires Packable(recs) && n <= |EncodeRecords(recs)|
    ensures Walk(EncodeRecords(recs)[..n]).framingOk ==> EndsOnRecord(recs, n, Walk(EncodeRecords(recs)[..n]))
    decreases |recs|
  {
    hide EncodeRecord, EncodeRecords, RecordHeadWith, RecordFits, RecordAt, EndsOnRecord, Walk, Has;
    var b := EncodeRecords(recs)[..n];
    if n == 0 {
      NothingYet(recs);
    } else {
      SomeRecords(recs);
      EncodeCons(recs);
      var first := EncodeRecord(recs[0]);
      if n < |first| {
        assert b == first[..n];
        RecordCut(recs[0], b);
        WalkStops(b);
      } else {
        HasFirst(b, first);
        EncodeRecordIs(recs[0]);
        RecordReads(recs[0], Zeros(3), b);
        WalkCons(b, recs[0]);
        assert b[|first|..] == EncodeRecords(recs[1..])[..n - |first|];
        PrefixWalk(recs[1..], n - |first|);
        if Walk(b).framingOk {
          EndsOnNext(recs, n - |first|, Walk(b[|first|..]));
        }
      }
    }
  }

  lemma SomeRecords(recs: seq<RfpRecord>)
    requires |EncodeRecords(recs)| > 0
    ensures recs != []
  {
  }

  lemma NothingYet(recs: seq<RfpRecord>)
    ensures EndsOnRecord(recs, 0, Walk([]))
  {
    assert recs[..0] == [] && |EncodeRecords(recs[..0])| == 0;
  }

  lemma WalkStops(b: seq<byte>)
    requires b != [] && !RecordFits(b)
    ensures !Walk(b).framingOk
  {
  }

  lemma HasFirst(b: seq<byte>, x: seq<byte>)
    requires |x| <= |b| && b[..|x|] == x
    ensures Has(b, 0, x)
  {
  }

  /** Written records walk back to themselves. */
  lemma {:induction false} WholeWalk(recs: seq<RfpRecord>)
    requires Packable(recs)
    ensures Walk(EncodeRecords(recs)) == Walked(recs, true)
    decreases |recs|
  {
    hide EncodeRecord, RecordFits, RecordAt;
    if recs != [] {
      var b, first := EncodeRecords(recs), EncodeRecord(recs[0]);
      EncodeCons(recs);
      HasFirst(b, first);
      EncodeRecordIs(recs[0]);
      RecordReads(recs[0], Zeros(3), b);
      assert b[|first|..] == EncodeRecords(recs[1..]);
      WholeWalk(recs[1..]);
    }
  }

  lemma HeaderCuts(h: RfpHeader, pix: byte, pad: Pad, b: seq<byte>)
    requires Has(b, 0, HeaderWith(h, pix, pad))
    ensures |b| >= 60 && b[0..8] == RFP_MAGIC && Get32(b[8..12]) == 2 && Get32(b[12..16]) == h.flags && b[32] == pix
    ensures Has(b, 16, Geometry(h)) && Has(b, 36, Identity(h))
  {
    hide Get32, LE32, Geometry, Identity;
    Cut4(b, 0, RFP_MAGIC, LE32(2) + LE32(h.flags), Geometry(h), [pix] + pad + Identity(h));
    Cut2(b, 8, LE32(2), LE32(h.flags));
    Cut3(b, 32, [pix], pad, Identity(h));
    assert b[32] == b[32..33][0];
    Word32(2);
    Word32(h.flags);
  }

  lemma GeometryCuts(h: RfpHeader, b: seq<byte>)
    requires Has(b, 16, Geometry(h))
    ensures |b| >= 32 && Get64(b[16..24]) == h.gpaBase && Get16(b[24..26]) == h.width && Get16(b[26..28]) == h.height
    ensures Get32(b[28..32]) == h.stride
  {
    hide Get32, LE32, Get64, LE64, Get16, LE16;
    Cut4(b, 16, LE64(h.gpaBase), LE16(h.width), LE16(h.height), LE32(h.stride));
    Word64(h.gpaBase);
    Word16(h.width);
    Word16(h.height);
    Word32(h.stride);
  }

  lemma IdentityCuts(h: RfpHeader, b: seq<byte>)
    requires Has(b, 36, Identity(h))
    ensures |b| >= 60 && Get32(b[36..40]) == h.clockNum && Get32(b[40..44]) == h.clockDen && b[44..60] == h.jobId
  {
    hide Get32, LE32;
    Cut3(b, 36, LE32(h.clockNum), LE32(h.clockDen), h.jobId);
    Word32(h.clockNum);
    Word32(h.clockDen);
  }

  /** A written header is read back, whatever its padding and whatever follows it. */
  lemma HeaderReads(h: RfpHeader, pix: byte, pad: Pad, b: seq<byte>)
    requires PixFmtToByte(h.pixelFormat) == Ok(pix) && Has(b, 0, HeaderWith(h, pix, pad))
    ensures ReadHeader(b) == Ok(h) && |b| >= HEADER_LEN
  {
    hide Has, HeaderWith, Geometry, Identity, Get16, Get32, Get64;
    HeaderCuts(h, pix, pad, b);
    GeometryCuts(h, b);
    IdentityCuts(h, b);
  }

  lemma EncodeHeaderIs(h: RfpHeader, pix: byte)
    ensures EncodeHeader(h, pix) == HeaderWith(h, pix, Zeros(3))
  {
    hide HeaderWith;
  }

  lemma FooterCuts(b: seq<byte>, at: nat, count: nat, complete: bool, pack: seq<byte>)
    requires Has(b, at, Footer(count, complete, pack)) && count < TWO64
    ensures at + 49 <= |b| && b[at..at + 8] == RFP_END_MAGIC && Get64(b[at + 8..at + 16]) == count
    ensures b[at + 16] == (if complete then 1 else 0) && b[at + 17..at + 49] == BLAKE3(pack)
  {
    hide LE64, Get64;
    assert count % TWO64 == count;
    Cut4(b, at, RFP_END_MAGIC, LE64(count), [if complete then 1 else 0], BLAKE3(pack));
    assert b[at + 16] == b[at + 16..at + 17][0];
    Word64(count);
  }

  /** The untruncated pack reads back as it was written: complete if and only if it was
      finished so. */
  lemma ReadsBack(h: RfpHeader, pix: byte, recs: seq<RfpRecord>, complete: bool)
    requires PixFmtToByte(h.pixelFormat) == Ok(pix) && Packable(recs) && |recs| < TWO64
    ensures ReadOutcome(Finished(h, pix, recs, complete)) == Ok(if complete then Complete(h, recs) else Torn(h, recs))
  {
    hide EncodeHeader, EncodeRecords, Footer, Has, ReadHeader, Walk, Get64, Packable;
    var pack, b := Pack(h, pix, recs), Finished(h, pix, recs, complete);
    var footer := Footer(|recs|, complete, pack);
    WholeStands(b);
    HasBoth(b, 0, pack, footer);
    HasBoth(b, 0, EncodeHeader(h, pix), EncodeRecords(recs));
    EncodeHeaderIs(h, pix);
    HeaderReads(h, pix, Zeros(3), b);
    FooterCuts(b, |pack|, |recs|, complete, pack);
    assert |pack| == |b| - FOOTER_LEN;
    PrefixIs(b, pack);
    assert b[0..|pack|] == pack;
    HasSlice(b, HEADER_LEN, EncodeRecords(recs));
    WholeWalk(recs);
  }

  // ---- torn packs ----

  /** Where a truncated pack could still seem to end: the end magic over its header, or
      at the start of one of its records. */
  ghost predicate MagicFree(h: RfpHeader, pix: byte, recs: seq<RfpRecord>, complete: bool) {
    && (forall k: nat :: 11 <= k < HEADER_LEN ==> !Has(Finished(h, pix, recs, complete), k, RFP_END_MAGIC))
    && (forall i :: 0 <= i < |recs| ==> LE64(recs[i].frameIndex) != RFP_END_MAGIC)
  }

  lemma RecordStart(r: RfpRecord, b: seq<byte>, at: nat)
    requires Has(b, at, EncodeRecord(r))
    ensures Has(b, at, LE64(r.frameIndex))
  {
    hide LE64, LE32, Has;
    var rest := LE32(r.segmentIndex) + ([CompByte(r.comp)] + Zeros(3)) + (LE64(r.icount) + LE32(|r.bytes| % TWO32));
    HasBoth(b, at, RecordHead(r), r.bytes);
    assert RecordHead(r) == LE64(r.frameIndex) + rest;
    HasBoth(b, at, LE64(r.frameIndex), rest);
  }

  lemma {:induction false} RecordStands(b: seq<byte>, at: nat, recs: seq<RfpRecord>, i: nat)
    requires i < |recs| && Has(b, at, EncodeRecords(recs))
    ensures Has(b, at + |EncodeRecords(recs[..i])|, EncodeRecord(recs[i]))
    decreases |recs|
  {
    hide Has, EncodeRecord;
    EncodeCons(recs);
    HasBoth(b, at, EncodeRecord(recs[0]), EncodeRecords(recs[1..]));
    if i == 0 {
      assert recs[..0] == [];
    } else {
      RecordStands(b, at + |EncodeRecord(recs[0])|, recs[1..], i - 1);
      EncodeCons(recs[..i]);
      assert recs[..i][1..] == recs[1..][..i - 1];
    }
  }

  lemma SameBytes(b: seq<byte>, n: nat, at: nat, x: seq<byte>)
    requires n <= |b|
    ensures Has(b[..n], at, x) ==> Has(b, at, x)
    ensures Has(b, at, x) && at + |x| <= n ==> Has(b[..n], at, x)
  {
    if at + |x| <= n {
      assert b[..n][at..at + |x|] == b[at..at + |x|];
    }
  }

  lemma ZoneOfPrefix(h: RfpHeader, pix: byte, recs: seq<RfpRecord>, complete: bool, n: nat, fs: nat)
    requires HEADER_LEN <= fs <= |Pack(h, pix, recs)| && fs <= n <= |Finished(h, pix, recs, complete)|
    ensures Finished(h, pix, recs, complete)[..n][HEADER_LEN..fs] == EncodeRecords(recs)[..fs - HEADER_LEN]
  {
    hide EncodeHeader, EncodeRecords, Footer;
    var b := Finished(h, pix, recs, complete);
    assert b[..n][HEADER_LEN..fs] == b[HEADER_LEN..fs];
    assert b[HEADER_LEN..|Pack(h, pix, recs)|] == EncodeRecords(recs);
    SliceOfSlice(b, HEADER_LEN, |Pack(h, pix, recs)|, 0, fs - HEADER_LEN);
  }

  /** A truncated pack whose footer is found after the header reads past a record start
      that looks like the end magic. */
  lemma CompletePrefix(h: RfpHeader, pix: byte, recs: seq<RfpRecord>, complete: bool, n: nat)
    requires Packable(recs) && HEADER_LEN + FOOTER_LEN <= n < |Finished(h, pix, recs, complete)|
    requires var p := Finished(h, pix, recs, complete)[..n];
             FooterFound(p) && Walk(RecordZone(p)).framingOk
    ensures exists i :: 0 <= i < |recs| && LE64(recs[i].frameIndex) == RFP_END_MAGIC
  {
    hide EncodeHeader, EncodeRecords, EncodeRecord, Has, Walk, LE64, Footer, Packable;
    var b, fs := Finished(h, pix, recs, complete), n - FOOTER_LEN;
    var p, rs := b[..n], EncodeRecords(recs);
    assert |b| == HEADER_LEN + |rs| + FOOTER_LEN;
    ZoneOfPrefix(h, pix, recs, complete, n, fs);
    PrefixWalk(recs, fs - HEADER_LEN);
    assert EndsOnRecord(recs, fs - HEADER_LEN, Walk(rs[..fs - HEADER_LEN]));
    var i: nat :|
      i <= |recs| && fs - HEADER_LEN == |EncodeRecords(recs[..i])| && Walk(rs[..fs - HEADER_LEN]).records == recs[..i];
    assert recs[..|recs|] == recs;
    assert i < |recs|;
    WholeStands(b);
    HasBoth(b, 0, Pack(h, pix, recs), Footer(|recs|, complete, Pack(h, pix, recs)));
    HasBoth(b, 0, EncodeHeader(h, pix), rs);
    RecordStands(b, HEADER_LEN, recs, i);
    RecordStart(recs[i], b, fs);
    MagicAt(p, fs);
    SameBytes(b, n, fs, RFP_END_MAGIC);
    SameStretch(b, fs, LE64(recs[i].frameIndex), RFP_END_MAGIC);
  }

  lemma MagicAt(p: seq<byte>, fs: nat)
    requires FooterFound(p) && fs == |p| - FOOTER_LEN
    ensures Has(p, fs, RFP_END_MAGIC)
  {
  }

  lemma SameStretch(b: seq<byte>, at: nat, x: seq<byte>, y: seq<byte>)
    requires Has(b, at, x) && Has(b, at, y) && |x| == |y|
    ensures x == y
  {
  }

  lemma CompleteNeeds(p: seq<byte>)
    requires ReadOutcome(p).Ok? && ReadOutcome(p).value.Complete?
    ensures FooterFound(p) && Walk(RecordZone(p)).framingOk
  {
    hide Walk, ReadHeader, FooterFound, RecordZone;
  }

  lemma HeaderKept(h: RfpHeader, pix: byte, recs: seq<RfpRecord>, complete: bool, n: nat)
    requires PixFmtToByte(h.pixelFormat) == Ok(pix) && HEADER_LEN <= n <= |Finished(h, pix, recs, complete)|
    ensures ReadHeader(Finished(h, pix, recs, complete)[..n]) == Ok(h)
  {
    hide EncodeHeader, EncodeRecords, Footer, Has, ReadHeader;
    var b := Finished(h, pix, recs, complete);
    WholeStands(b);
    HasBoth(b, 0, Pack(h, pix, recs), Footer(|recs|, complete, Pack(h, pix, recs)));
    HasBoth(b, 0, EncodeHeader(h, pix), EncodeRecords(recs));
    SameBytes(b, n, 0, EncodeHeader(h, pix));
    EncodeHeaderIs(h, pix);
    HeaderReads(h, pix, Zeros(3), b[..n]);
  }

  lemma HeaderOf(p: seq<byte>, h: RfpHeader)
    requires ReadHeader(p) == Ok(h)
    ensures ReadOutcome(p).Ok? && ReadOutcome(p).value.header == h
  {
    hide Walk, ReadHeader, FooterFound, RecordZone;
  }

  /** A torn pack never resumes: cut anywhere at or after its header, a pack still names
      its header and reads as torn, unless the end magic stands over the header or at the
      start of a record. */
  lemma TornNeverResumes(h: RfpHeader, pix: byte, recs: seq<RfpRecord>, complete: bool, n: nat)
    requires PixFmtToByte(h.pixelFormat) == Ok(pix) && Packable(recs) && MagicFree(h, pix, recs, complete)
    requires HEADER_LEN <= n < |Finished(h, pix, recs, complete)|
    ensures var r := ReadOutcome(Finished(h, pix, recs, complete)[..n]);
            r.Ok? && r.value.Torn? && r.value.header == h
  {
    hide Finished, Walk, ReadHeader, ReadOutcome, RecordZone, LE64, Packable;
    var p := Finished(h, pix, recs, complete)[..n];
    HeaderKept(h, pix, recs, complete, n);
    HeaderOf(p, h);
    if ReadOutcome(p).value.Complete? {
      CompleteNeeds(p);
      var fs := n - FOOTER_LEN;
      MagicAt(p, fs);
      SameBytes(Finished(h, pix, recs, complete), n, fs, RFP_END_MAGIC);
      if fs >= HEADER_LEN {
        CompletePrefix(h, pix, recs, complete, n);
      }
    }
  }

  /** The last 49 bytes of `p` are a footer marked complete that counts `k` records. */
  ghost predicate FooterCounts(p: seq<byte>, k: nat) {
    FooterFound(p) && p[|p| - 33] == 1 && Get64(p[|p| - 41..|p| - 33]) == k
  }

  lemma OutcomeIs(p: seq<byte>, h: RfpHeader)
    requires ReadHeader(p) == Ok(h)
    ensures var w := Walk(RecordZone(p));
            ReadOutcome(p).Ok? && (ReadOutcome(p).value.Complete? <==> w.framingOk && FooterCounts(p, |w.records|))
  {
    hide Walk, ReadHeader, RecordZone, Get64;
  }

  lemma ZoneAtRecord(recs: seq<RfpRecord>, i: nat)
    requires i <= |recs|
    ensures |EncodeRecords(recs[..i])| <= |EncodeRecords(recs)|
            && EncodeRecords(recs)[..|EncodeRecords(recs[..i])|] == EncodeRecords(recs[..i])
  {
    hide EncodeRecords;
    assert recs == recs[..i] + recs[i..];
    EncodeRecordsConcat(recs[..i], recs[i..]);
  }

  lemma FooterZone(p: seq<byte>, k: nat)
    requires FooterCounts(p, k)
    ensures |p| >= FOOTER_LEN
    ensures RecordZone(p) == if |p| - FOOTER_LEN < HEADER_LEN then [] else p[HEADER_LEN..|p| - FOOTER_LEN]
  {
    hide Get64;
  }

  lemma PackLen(h: RfpHeader, pix: byte, recs: seq<RfpRecord>, complete: bool)
    ensures |Pack(h, pix, recs)| == HEADER_LEN + |EncodeRecords(recs)|
    ensures |Finished(h, pix, recs, complete)| == HEADER_LEN + |EncodeRecords(recs)| + FOOTER_LEN
  {
    hide EncodeHeader, EncodeRecords, Footer;
  }

  lemma FirstFew(recs: seq<RfpRecord>, i: nat)
    requires Packable(recs) && i <= |recs|
    ensures Packable(recs[..i]) && |recs[..i]| == i && recs[..|recs|] == recs
  {
  }

  /** Exactly which truncations read as complete: those that end in bytes that are a
      footer, hash and all, marked complete, and either lie over the header and count no
      records, or start where record `i` starts and count `i`. */
  lemma CompletePrefixIff(h: RfpHeader, pix: byte, recs: seq<RfpRecord>, complete: bool, n: nat)
    requires PixFmtToByte(h.pixelFormat) == Ok(pix) && Packable(recs)
             && HEADER_LEN <= n < |Finished(h, pix, recs, complete)|
    ensures var p := Finished(h, pix, recs, complete)[..n];
            && ReadOutcome(p).Ok?
            && (ReadOutcome(p).value.Complete? <==>
                  if n < HEADER_LEN + FOOTER_LEN then FooterCounts(p, 0)
                  else
                    exists i: nat ::
                      i < |recs| && n == HEADER_LEN + |EncodeRecords(recs[..i])| + FOOTER_LEN && FooterCounts(p, i))
  {
    hide Finished, Walk, ReadHeader, ReadOutcome, RecordZone, Packable, EncodeRecords, FooterCounts, Pack, EndsOnRecord;
    var p := Finished(h, pix, recs, complete)[..n];
    HeaderKept(h, pix, recs, complete, n);
    OutcomeIs(p, h);
    PackLen(h, pix, recs, complete);
    var k := |Walk(RecordZone(p)).records|;
    if n < HEADER_LEN + FOOTER_LEN {
      EmptyWalk();
      if FooterCounts(p, 0) {
        FooterZone(p, 0);
      }
      if FooterCounts(p, k) {
        FooterZone(p, k);
      }
    } else {
      var fs := n - FOOTER_LEN;
      ZoneOfPrefix(h, pix, recs, complete, n, fs);
      if ReadOutcome(p).value.Complete? {
        FooterZone(p, k);
        PrefixWalk(recs, fs - HEADER_LEN);
        RecordIndex(recs, fs - HEADER_LEN, Walk(RecordZone(p)));
        FirstFew(recs, k);
      }
      if i: nat :| i < |recs| && n == HEADER_LEN + |EncodeRecords(recs[..i])| + FOOTER_LEN && FooterCounts(p, i) {
        FooterZone(p, i);
        ZoneAtRecord(recs, i);
        FirstFew(recs, i);
        WholeWalk(recs[..i]);
      }
    }
  }

  lemma EmptyWalk()
    ensures Walk([]) == Walked([], true)
  {
  }

  lemma RecordIndex(recs: seq<RfpRecord>, n: nat, w: Walked)
    requires EndsOnRecord(recs, n, w) && n < |EncodeRecords(recs)|
    ensures |w.records| < |recs| && n == |EncodeRecords(recs[..|w.records|])|
  {
    hide EncodeRecords;
    var i: nat :| i <= |recs| && n == |EncodeRecords(recs[..i])| && w.records == recs[..i];
    assert recs[..|recs|] == recs;
  }

  /** The gap: nothing asks the footer to start after the header. A 65-byte file whose
      footer lies over its own header reads as a complete pack of no records. */
  lemma FooterOverHeader(flags: u32)
    ensures var front := RFP_MAGIC + (LE32(2) + LE32(flags));
            var r := ReadOutcome(front + Footer(0, true, front));
            r.Ok? && r.value.Complete? && r.value.records == []
  {
    hide LE32, LE64, Get16, Get32, Get64, Footer, Has;
    var front := RFP_MAGIC + (LE32(2) + LE32(flags));
    var b := front + Footer(0, true, front);
    WholeStands(b);
    HasBoth(b, 0, front, Footer(0, true, front));
    FooterCuts(b, 16, 0, true, front);
    PrefixIs(b, front);
    Cut3(b, 0, RFP_MAGIC, LE32(2), LE32(flags));
    Word32(2);
    assert |b| == 65 && b[0..16] == front;
    assert FooterFound(b);
    assert RecordZone(b) == [];
  }
}
