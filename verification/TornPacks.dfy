/** Cuts of finished packs that are finished packs themselves. No reader can tell such a
    torn pack from a complete one: the footer it ends in was stored in its fields. */
module TornPacks {
  import opened Wrappers
  import opened Bytes
  import opened Rfp
  import opened RfpCodec

  // ---- a record that starts like a footer ----

  /** The length field of the record below: four bytes of the hash it stores. */
  function StoredLen(h: RfpHeader, pix: byte, recs: seq<RfpRecord>): u32 {
    Get32(BLAKE3(Pack(h, pix, recs))[7..11])
  }

  /** A record whose encoding starts with the footer of the pack before it. */
  function FooterRecord(h: RfpHeader, pix: byte, recs: seq<RfpRecord>): (r: RfpRecord)
    requires |recs| < TWO32 && StoredLen(h, pix, recs) >= 21
    ensures |r.bytes| == StoredLen(h, pix, recs)
  {
    var x := BLAKE3(Pack(h, pix, recs));
    RfpRecord(Get64(RFP_END_MAGIC), |recs|, Raw, Get64([1] + x[0..7]), x[11..32] + Zeros(StoredLen(h, pix, recs) - 21))
  }

  lemma CountWord(k: u32)
    ensures LE64(k) == LE32(k) + Zeros(4)
  {
    WordSizes();
    ShortWord(k, 4, 4);
  }

  lemma FooterRecordHead(h: RfpHeader, pix: byte, recs: seq<RfpRecord>)
    requires |recs| < TWO32 && StoredLen(h, pix, recs) >= 21
    ensures var x := BLAKE3(Pack(h, pix, recs));
            RecordHead(FooterRecord(h, pix, recs))
            == RFP_END_MAGIC + LE64(|recs|) + ([1] + x[0..7]) + x[7..11]
  {
    hide LE32, LE64, Get32, Get64, Pack;
    var x, n := BLAKE3(Pack(h, pix, recs)), StoredLen(h, pix, recs);
    Word64Bytes(RFP_END_MAGIC);
    Word64Bytes([1] + x[0..7]);
    Word32Bytes(x[7..11]);
    CountWord(|recs|);
    assert n % TWO32 == n;
    assert [CompByte(Raw)] + Zeros(3) == Zeros(4);
  }

  lemma FooterRecordStarts(h: RfpHeader, pix: byte, recs: seq<RfpRecord>)
    requires |recs| < TWO32 && StoredLen(h, pix, recs) >= 21
    ensures EncodeRecord(FooterRecord(h, pix, recs))
            == Footer(|recs|, true, Pack(h, pix, recs)) + Zeros(StoredLen(h, pix, recs) - 21)
  {
    hide LE32, LE64, Get32, Get64, Pack, RecordHead;
    var x, n := BLAKE3(Pack(h, pix, recs)), StoredLen(h, pix, recs);
    FooterRecordHead(h, pix, recs);
    assert |recs| % TWO64 == |recs|;
    assert ([1] + x[0..7]) + x[7..11] + x[11..32] == [1] + x;
  }

  /** A pack that holds such a record, cut 49 bytes into it, is byte for byte the finished
      pack of the records before it, whatever follows and however the pack was finished. */
  lemma CutIsFinished(h: RfpHeader, pix: byte, recs: seq<RfpRecord>, rest: seq<RfpRecord>, complete: bool)
    requires |recs| < TWO32 && StoredLen(h, pix, recs) >= 21
    ensures var all := Finished(h, pix, recs + [FooterRecord(h, pix, recs)] + rest, complete);
            var n := |Pack(h, pix, recs)| + FOOTER_LEN;
            n < |all| && all[..n] == Finished(h, pix, recs, true)
  {
    hide EncodeHeader, EncodeRecords, EncodeRecord, Footer, FooterRecord, StoredLen;
    var r := FooterRecord(h, pix, recs);
    EncodeRecordsConcat(recs + [r], rest);
    EncodeRecordsConcat(recs, [r]);
    EncodeOne(r);
    FooterRecordStarts(h, pix, recs);
  }

  /** A torn pack that reads as complete: a pack finished as incomplete among them. */
  lemma TornReadsComplete(h: RfpHeader, pix: byte, recs: seq<RfpRecord>, rest: seq<RfpRecord>, complete: bool)
    requires PixFmtToByte(h.pixelFormat) == Ok(pix) && Packable(recs)
    requires |recs| < TWO32 && StoredLen(h, pix, recs) >= 21
    ensures var all := Finished(h, pix, recs + [FooterRecord(h, pix, recs)] + rest, complete);
            var n := |Pack(h, pix, recs)| + FOOTER_LEN;
            n < |all| && ReadOutcome(all[..n]) == Ok(Complete(h, recs))
  {
    hide *;
    CutIsFinished(h, pix, recs, rest, complete);
    FitsCount(|recs|);
    ReadsBack(h, pix, recs, true);
  }

  lemma FitsCount(n: nat)
    requires n < TWO32
    ensures n < TWO64
  {
  }

  // ---- a header that holds a footer ----

  /** The first 20 bytes of the header below. */
  function Lead(flags: u32, low: u32): (b: seq<byte>)
    ensures |b| == 20
  {
    RFP_MAGIC + (LE32(2) + LE32(flags)) + LE32(low)
  }

  /** A header that stores, from byte 20 on, the footer of its first 20 bytes. */
  function FooterHeader(flags: u32, low: u32): RfpHeader {
    var x := BLAKE3(Lead(flags, low));
    RfpHeader(flags, Get64(LE32(low) + RFP_END_MAGIC[0..4]), Get16(RFP_END_MAGIC[4..6]), Get16(RFP_END_MAGIC[6..8]), 0,
              Rgb555Le, Get32([1] + x[0..3]), Get32(x[3..7]), x[7..23])
  }

  /** The last nine bytes of that footer are the start of the first record. */
  predicate HoldsRest(r: RfpRecord, flags: u32, low: u32) {
    var x := BLAKE3(Lead(flags, low));
    r.frameIndex == Get64(x[23..31]) && r.segmentIndex % 256 == x[31]
  }

  lemma FooterHeaderBytes(flags: u32, low: u32)
    ensures var x := BLAKE3(Lead(flags, low));
            EncodeHeader(FooterHeader(flags, low), 0) == Lead(flags, low) + RFP_END_MAGIC + LE64(0) + [1] + x[0..23]
  {
    hide LE16, LE32, LE64, Get16, Get32, Get64;
    var x, m, zero := BLAKE3(Lead(flags, low)), RFP_END_MAGIC, 0;
    Word64Bytes(LE32(low) + m[0..4]);
    Word16Bytes(m[4..6]);
    Word16Bytes(m[6..8]);
    Word32Bytes([1] + x[0..3]);
    Word32Bytes(x[3..7]);
    NoWord();
    var h := FooterHeader(flags, low);
    assert Geometry(h) == LE32(low) + m + Zeros(4);
    assert [0] + Zeros(3) == Zeros(4);
    assert Identity(h) == [1] + x[0..23];
    assert Zeros(4) + Zeros(4) == LE64(0);
  }

  lemma NoWord()
    ensures LE32(0) == Zeros(4) && LE64(0) == Zeros(8)
  {
    ZeroWord(4);
    ZeroWord(8);
  }

  lemma RestBytes(r: RfpRecord, flags: u32, low: u32)
    requires HoldsRest(r, flags, low)
    ensures |EncodeRecord(r)| >= 9 && EncodeRecord(r)[..9] == BLAKE3(Lead(flags, low))[23..32]
  {
    hide LE64, Get64, Lead;
    var x := BLAKE3(Lead(flags, low));
    Word64Bytes(x[23..31]);
    assert LE32(r.segmentIndex)[0] == x[31];
    hide LE32;
    assert EncodeRecord(r)[..9] == LE64(r.frameIndex) + [LE32(r.segmentIndex)[0]];
    assert x[23..32] == x[23..31] + [x[31]];
  }

  /** A pack with such a header and first record, cut at 69 bytes, ends in a footer that
      lies over its header, for every hash. */
  lemma CutIsFooter(flags: u32, low: u32, r: RfpRecord, rest: seq<RfpRecord>, complete: bool)
    requires HoldsRest(r, flags, low)
    ensures var all := Finished(FooterHeader(flags, low), 0, [r] + rest, complete);
            69 < |all| && all[..69] == Lead(flags, low) + Footer(0, true, Lead(flags, low))
  {
    hide EncodeHeader, EncodeRecords, EncodeRecord, FooterHeader, LE64, Lead, HoldsRest, Footer;
    var x, h := BLAKE3(Lead(flags, low)), FooterHeader(flags, low);
    FooterHeaderBytes(flags, low);
    RestBytes(r, flags, low);
    EncodeRecordsConcat([r], rest);
    EncodeOne(r);
    var body := EncodeRecord(r) + EncodeRecords(rest);
    assert (EncodeHeader(h, 0) + body)[..69] == EncodeHeader(h, 0) + body[..9];
    assert body[..9] == x[23..32];
    FooterBytes(Lead(flags, low));
    assert x[0..23] + x[23..32] == x;
  }

  lemma FooterBytes(b: seq<byte>)
    ensures Footer(0, true, b) == RFP_END_MAGIC + LE64(0) + [1] + BLAKE3(b)
  {
    hide LE64;
  }

  /** So it reads as complete, without the records it was cut from. */
  lemma TornHeaderReadsComplete(flags: u32, low: u32, r: RfpRecord, rest: seq<RfpRecord>, complete: bool)
    requires HoldsRest(r, flags, low)
    ensures var h := FooterHeader(flags, low);
            var all := Finished(h, 0, [r] + rest, complete);
            69 < |all| && ReadOutcome(all[..69]) == Ok(Complete(h, []))
  {
    hide EncodeRecords, Footer, ReadHeader, ReadOutcome, Finished, FooterCounts, HoldsRest, Lead, Get64;
    var h, lead := FooterHeader(flags, low), Lead(flags, low);
    CutIsFooter(flags, low, r, rest, complete);
    HeaderKept(h, 0, [r] + rest, complete, 69);
    CountedFooter(lead);
    ShortCompleteIff(lead + Footer(0, true, lead), h, []);
  }

  lemma CountedFooter(lead: seq<byte>)
    ensures FooterCounts(lead + Footer(0, true, lead), 0)
  {
    hide Footer, Has, Get64;
    var b := lead + Footer(0, true, lead);
    WholeStands(b);
    HasBoth(b, 0, lead, Footer(0, true, lead));
    FooterCuts(b, |lead|, 0, true, lead);
    PrefixIs(b, lead);
  }
}
