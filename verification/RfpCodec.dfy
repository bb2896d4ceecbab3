/** What a complete frame pack is, for an arbitrary file. */
module RfpCodec {
  import opened Wrappers
  import opened Bytes
  import opened Rfp

  // ---- packs with any padding ----

  function RecordsWith(recs: seq<RfpRecord>, pads: seq<Pad>): (b: seq<byte>)
    requires |recs| == |pads|
    decreases |recs|
  {
    if recs == [] then []
    else RecordHeadWith(recs[0], pads[0]) + recs[0].bytes + RecordsWith(recs[1..], pads[1..])
  }

  function PackWith(h: RfpHeader, pix: byte, pad: Pad, recs: seq<RfpRecord>, pads: seq<Pad>): (b: seq<byte>)
    requires |recs| == |pads|
  {
    HeaderWith(h, pix, pad) + RecordsWith(recs, pads)
  }

  /** A pack finished as complete, with any bytes where the writer leaves zeroes. */
  function FileWith(h: RfpHeader, pix: byte, pad: Pad, recs: seq<RfpRecord>, pads: seq<Pad>): (b: seq<byte>)
    requires |recs| == |pads|
  {
    PackWith(h, pix, pad, recs, pads) + Footer(|recs|, true, PackWith(h, pix, pad, recs, pads))
  }

  function NoPads(n: nat): (pads: seq<Pad>)
    ensures |pads| == n
  {
    seq(n, _ => Zeros(3))
  }

  lemma {:induction false} RecordsWithZeroes(recs: seq<RfpRecord>)
    ensures RecordsWith(recs, NoPads(|recs|)) == EncodeRecords(recs)
    decreases |recs|
  {
    if recs != [] {
      hide RecordHeadWith;
      EncodeRecordIs(recs[0]);
      assert NoPads(|recs|)[1..] == NoPads(|recs| - 1);
      RecordsWithZeroes(recs[1..]);
    }
  }

  /** With zeroes for padding it is the pack the writer finishes. */
  lemma WrittenWithZeroes(h: RfpHeader, pix: byte, recs: seq<RfpRecord>)
    ensures FileWith(h, pix, Zeros(3), recs, NoPads(|recs|)) == Finished(h, pix, recs, true)
  {
    hide HeaderWith, RecordsWith, EncodeRecords, Footer, EncodeHeader;
    RecordsWithZeroes(recs);
    EncodeHeaderIs(h, pix);
  }

  // ---- such a pack reads as complete ----

  lemma RecordsCons(recs: seq<RfpRecord>, pads: seq<Pad>)
    requires |recs| == |pads| > 0
    ensures RecordsWith(recs, pads)
            == RecordHeadWith(recs[0], pads[0]) + recs[0].bytes + RecordsWith(recs[1..], pads[1..])
  {
    hide RecordHeadWith;
  }

  lemma {:induction false} WalkWith(recs: seq<RfpRecord>, pads: seq<Pad>)
    requires |recs| == |pads| && Packable(recs)
    ensures Walk(RecordsWith(recs, pads)) == Walked(recs, true)
    decreases |recs|
  {
    hide RecordHeadWith, RecordsWith, RecordFits, RecordAt, Walk;
    if recs == [] {
      NoRecords();
    } else {
      var b, first := RecordsWith(recs, pads), RecordHeadWith(recs[0], pads[0]) + recs[0].bytes;
      RecordsCons(recs, pads);
      HasFirst(b, first);
      RecordReads(recs[0], pads[0], b);
      WalkCons(b, recs[0]);
      assert b[|first|..] == RecordsWith(recs[1..], pads[1..]);
      WalkWith(recs[1..], pads[1..]);
    }
  }

  lemma NoRecords()
    ensures Walk([]) == Walked([], true) && RecordsWith([], []) == []
  {
  }

  lemma ReadsWith(h: RfpHeader, pix: byte, pad: Pad, recs: seq<RfpRecord>, pads: seq<Pad>)
    requires |recs| == |pads| && PixFmtToByte(h.pixelFormat) == Ok(pix) && Packable(recs) && |recs| < TWO64
    ensures ReadOutcome(FileWith(h, pix, pad, recs, pads)) == Ok(Complete(h, recs))
  {
    hide HeaderWith, RecordsWith, Footer, Has, ReadHeader, Walk, Get64, Packable;
    var pack, b := PackWith(h, pix, pad, recs, pads), FileWith(h, pix, pad, recs, pads);
    var footer := Footer(|recs|, true, pack);
    WholeStands(b);
    HasBoth(b, 0, pack, footer);
    HasBoth(b, 0, HeaderWith(h, pix, pad), RecordsWith(recs, pads));
    HeaderReads(h, pix, pad, b);
    FooterCuts(b, |pack|, |recs|, true, pack);
    assert |pack| == |b| - FOOTER_LEN;
    PrefixIs(b, pack);
    HasSlice(b, HEADER_LEN, RecordsWith(recs, pads));
    WalkWith(recs, pads);
  }

  // ---- and nothing else does ----

  /** A header that reads is one the writer could have written, but for its padding. */
  lemma HeaderIs(b: seq<byte>, h: RfpHeader)
    requires ReadHeader(b) == Ok(h)
    ensures |b| >= HEADER_LEN && PixFmtToByte(h.pixelFormat) == Ok(b[32])
    ensures b[0..HEADER_LEN] == HeaderWith(h, b[32], b[33..36])
  {
    hide Get16, Get32, Get64, LE16, LE32, LE64, ReadHeader, PixFmtToByte, HeaderWith, Geometry, Identity;
    HeaderFields(b, h);
    FrontIs(b, h);
    GeometryIs(b, h);
    IdentityIs(b, h);
    HeaderPieces(h, b[32], b[33..36]);
    PixAlone(b);
    Paste(b, 32, 33, 36);
    Paste(b, 32, 36, 60);
    Paste(b, 0, 8, 16);
    Paste(b, 0, 16, 32);
    Paste(b, 0, 32, 60);
  }

  lemma HeaderPieces(h: RfpHeader, pix: byte, pad: Pad)
    ensures HeaderWith(h, pix, pad) == RFP_MAGIC + (LE32(2) + LE32(h.flags)) + Geometry(h) + ([pix] + pad + Identity(h))
    ensures HEADER_LEN == 60
  {
    hide LE32, Geometry, Identity;
  }

  lemma PixAlone(b: seq<byte>)
    requires |b| > 32
    ensures b[32..33] == [b[32]]
  {
  }

  lemma FrontIs(b: seq<byte>, h: RfpHeader)
    requires |b| >= 60 && Get32(b[8..12]) == 2 && Get32(b[12..16]) == h.flags
    ensures b[8..16] == LE32(2) + LE32(h.flags)
  {
    hide Get32, LE32;
    Word32Bytes(b[8..12]);
    Word32Bytes(b[12..16]);
    Paste(b, 8, 12, 16);
  }

  lemma GeometryIs(b: seq<byte>, h: RfpHeader)
    requires |b| >= 60 && Get64(b[16..24]) == h.gpaBase && Get16(b[24..26]) == h.width && Get16(b[26..28]) == h.height
    requires Get32(b[28..32]) == h.stride
    ensures b[16..32] == Geometry(h)
  {
    hide Get16, Get32, Get64, LE16, LE32, LE64;
    Word64Bytes(b[16..24]);
    Word16Bytes(b[24..26]);
    Word16Bytes(b[26..28]);
    Word32Bytes(b[28..32]);
    Paste(b, 16, 24, 26);
    Paste(b, 16, 26, 28);
    Paste(b, 16, 28, 32);
  }

  lemma IdentityIs(b: seq<byte>, h: RfpHeader)
    requires |b| >= 60 && Get32(b[36..40]) == h.clockNum && Get32(b[40..44]) == h.clockDen && b[44..60] == h.jobId
    ensures b[36..60] == Identity(h)
  {
    hide Get32, LE32;
    Word32Bytes(b[36..40]);
    Word32Bytes(b[40..44]);
    Paste(b, 36, 40, 44);
    Paste(b, 36, 44, 60);
  }

  lemma HeaderFields(b: seq<byte>, h: RfpHeader)
    requires ReadHeader(b) == Ok(h)
    ensures |b| >= HEADER_LEN && PixFmtToByte(h.pixelFormat) == Ok(b[32])
    ensures b[0..8] == RFP_MAGIC && Get32(b[8..12]) == 2 && Get32(b[12..16]) == h.flags && Get64(b[16..24]) == h.gpaBase
    ensures Get16(b[24..26]) == h.width && Get16(b[26..28]) == h.height && Get32(b[28..32]) == h.stride
    ensures Get32(b[36..40]) == h.clockNum && Get32(b[40..44]) == h.clockDen && b[44..60] == h.jobId
  {
    hide Get16, Get32, Get64;
  }

  /** So is a record that fits. */
  lemma RecordIs(rem: seq<byte>)
    requires RecordFits(rem)
    ensures var r := RecordAt(rem);
            && |r.bytes| < TWO32 && RECORD_LEN + |r.bytes| <= |rem|
            && rem == RecordHeadWith(r, rem[13..16]) + r.bytes + rem[RECORD_LEN + |r.bytes|..]
  {
    hide Get32, Get64, LE32, LE64;
    var r := RecordAt(rem);
    var n: u32 := Get32(rem[24..28]);
    assert |r.bytes| == n && |r.bytes| % TWO32 == n;
    Word64Bytes(rem[0..8]);
    Word32Bytes(rem[8..12]);
    Word64Bytes(rem[16..24]);
    Word32Bytes(rem[24..28]);
    assert rem[12..16] == [CompByte(r.comp)] + rem[13..16];
    assert rem[0..28] == rem[0..8] + rem[8..12] + rem[12..16] + (rem[16..24] + rem[24..28]);
    assert rem == rem[0..28] + rem[28..28 + n] + rem[28 + n..];
  }

  /** The padding of the records a walk yields. */
  function PadsOf(rem: seq<byte>): (pads: seq<Pad>)
    decreases |rem|
  {
    if !RecordFits(rem) then [] else [rem[13..16]] + PadsOf(rem[RECORD_LEN + ByteLen(rem)..])
  }

  lemma WalkTo(rem: seq<byte>)
    requires rem != [] && Walk(rem).framingOk
    ensures RecordFits(rem)
    ensures var r := RecordAt(rem);
            var rest := rem[RECORD_LEN + |r.bytes|..];
            Walk(rest).framingOk && Walk(rem).records == [r] + Walk(rest).records
            && PadsOf(rem) == [rem[13..16]] + PadsOf(rest)
  {
    hide RecordAt;
  }

  /** A record zone that walks to its end is made of such records. */
  lemma {:induction false} WalkIs(rem: seq<byte>)
    requires Walk(rem).framingOk
    ensures var recs, pads := Walk(rem).records, PadsOf(rem);
            |recs| == |pads| && Packable(recs) && rem == RecordsWith(recs, pads)
    decreases |rem|
  {
    hide RecordHeadWith, RecordAt, RecordFits, Walk, PadsOf, RecordsWith;
    if rem == [] {
      NothingWalked();
    } else {
      WalkTo(rem);
      RecordIs(rem);
      var r := RecordAt(rem);
      var rest := rem[RECORD_LEN + |r.bytes|..];
      WalkIs(rest);
      var recs, pads := Walk(rem).records, PadsOf(rem);
      assert recs[1..] == Walk(rest).records && pads[1..] == PadsOf(rest);
      RecordsCons(recs, pads);
    }
  }

  lemma NothingWalked()
    ensures Walk([]).records == [] && PadsOf([]) == [] && RecordsWith([], []) == []
  {
  }

  /** A footer that counts `k` records is the one the writer gives a complete pack. */
  lemma FooterIs(b: seq<byte>, k: nat)
    requires FooterCounts(b, k)
    ensures k < TWO64 && |b| >= FOOTER_LEN
    ensures var fs := |b| - FOOTER_LEN;
            b == b[..fs] + Footer(k, true, b[..fs])
  {
    hide Get64, LE64;
    var fs := |b| - FOOTER_LEN;
    Word64Bytes(b[fs + 8..fs + 16]);
    assert b[0..fs] == b[..fs];
    assert b[fs..] == b[fs..fs + 8] + b[fs + 8..fs + 16] + [b[fs + 16]] + b[fs + 17..fs + 49];
    assert b == b[..fs] + b[fs..];
  }

  // ---- what "complete" means ----

  /** `b` is a pack of `recs`, finished as complete, but for its padding. */
  ghost predicate IsPack(b: seq<byte>, h: RfpHeader, recs: seq<RfpRecord>, pix: byte, pad: Pad, pads: seq<Pad>) {
    && PixFmtToByte(h.pixelFormat) == Ok(pix) && Packable(recs) && |recs| < TWO64
    && |recs| == |pads| && b == FileWith(h, pix, pad, recs, pads)
  }

  lemma CompleteIs(b: seq<byte>, h: RfpHeader, recs: seq<RfpRecord>)
    ensures ReadOutcome(b) == Ok(Complete(h, recs)) <==>
              ReadHeader(b) == Ok(h) && Walk(RecordZone(b)) == Walked(recs, true) && FooterCounts(b, |recs|)
  {
    hide Walk, ReadHeader, RecordZone, Get64;
  }

  /** A file with room for both a header and a footer reads as complete with these records
      if and only if it is the finished pack of them, up to the bytes the reader skips. */
  lemma CompleteIff(b: seq<byte>, h: RfpHeader, recs: seq<RfpRecord>)
    requires |b| >= HEADER_LEN + FOOTER_LEN
    ensures ReadOutcome(b) == Ok(Complete(h, recs)) <==> exists pix, pad, pads :: IsPack(b, h, recs, pix, pad, pads)
  {
    hide Walk, ReadHeader, ReadOutcome, RecordZone, FooterCounts, HeaderWith, RecordsWith, Footer, PadsOf, Packable,
         PixFmtToByte;
    CompleteIs(b, h, recs);
    if ReadOutcome(b) == Ok(Complete(h, recs)) {
      var fs := |b| - FOOTER_LEN;
      FooterIs(b, |recs|);
      FooterZone(b, |recs|);
      HeaderIs(b, h);
      var rem := b[HEADER_LEN..fs];
      WalkIs(rem);
      assert b[..fs] == b[0..HEADER_LEN] + rem;
      assert IsPack(b, h, recs, b[32], b[33..36], PadsOf(rem));
    }
    if pix, pad, pads :| IsPack(b, h, recs, pix, pad, pads) {
      ReadsWith(h, pix, pad, recs, pads);
    }
  }

  /** In a shorter file the footer lies over the header: it reads as complete only as a
      pack without records, and then exactly when that footer is in place. */
  lemma ShortCompleteIff(b: seq<byte>, h: RfpHeader, recs: seq<RfpRecord>)
    requires |b| < HEADER_LEN + FOOTER_LEN
    ensures ReadOutcome(b) == Ok(Complete(h, recs)) <==> ReadHeader(b) == Ok(h) && recs == [] && FooterCounts(b, 0)
  {
    hide Walk, ReadHeader, ReadOutcome, RecordZone, FooterCounts;
    CompleteIs(b, h, recs);
    EmptyWalk();
    if FooterCounts(b, 0) {
      FooterZone(b, 0);
    }
    if FooterCounts(b, |recs|) {
      FooterZone(b, |recs|);
    }
  }
}
