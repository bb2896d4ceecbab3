/** What an unfinished or damaged frame pack gives back: every record before the damage. */
module RfpTorn {
  import opened Wrappers
  import opened Bytes
  import opened Rfp
  import opened RfpCodec
  import Layouts

  /** No record starts here: too short for a head, an unknown compression, or a length that
      runs past the end. */
  predicate Unreadable(rest: seq<byte>) {
    |rest| < 28 || rest[12] > 1 || 28 + Get32(rest[24..28]) > |rest|
  }

  /** The zone is these records, with whatever padding, and then nothing readable. */
  ghost predicate Splits(zone: seq<byte>, recs: seq<RfpRecord>, pads: seq<Pad>, rest: seq<byte>) {
    |recs| == |pads| && Packable(recs) && zone == RecordsWith(recs, pads) + rest && Unreadable(rest)
  }

  lemma UnreadableIs(rest: seq<byte>)
    ensures Unreadable(rest) <==> !RecordFits(rest)
    ensures Unreadable(rest) ==> Walk(rest) == Walked([], rest == [])
  {
    hide Get32;
  }

  /** Such a zone walks to exactly those records. */
  lemma {:induction false} SplitWalks(zone: seq<byte>, recs: seq<RfpRecord>, pads: seq<Pad>, rest: seq<byte>)
    requires Splits(zone, recs, pads, rest)
    ensures Walk(zone) == Walked(recs, rest == [])
    decreases |recs|
  {
    hide RecordHeadWith, RecordsWith, RecordFits, RecordAt, Walk, Unreadable, Has;
    if recs == [] {
      NoRecords();
      assert zone == rest;
      UnreadableIs(rest);
    } else {
      var first := RecordHeadWith(recs[0], pads[0]) + recs[0].bytes;
      RecordsCons(recs, pads);
      assert zone == first + (RecordsWith(recs[1..], pads[1..]) + rest);
      HasFirst(zone, first);
      RecordReads(recs[0], pads[0], zone);
      WalkCons(zone, recs[0]);
      assert zone[|first|..] == RecordsWith(recs[1..], pads[1..]) + rest;
      SplitWalks(zone[|first|..], recs[1..], pads[1..], rest);
    }
  }

  lemma SplitsMore(zone: seq<byte>, r: RfpRecord, pad: Pad, recs: seq<RfpRecord>, pads: seq<Pad>, rest: seq<byte>,
                   later: seq<byte>)
    requires Splits(later, recs, pads, rest) && |r.bytes| < TWO32
    requires zone == RecordHeadWith(r, pad) + r.bytes + later
    ensures Splits(zone, [r] + recs, [pad] + pads, rest)
  {
    hide RecordHeadWith, Unreadable, RecordsWith;
    RecordsCons([r] + recs, [pad] + pads);
    assert ([r] + recs)[1..] == recs && ([pad] + pads)[1..] == pads;
  }

  /** Every zone is of that shape. */
  lemma {:induction false} ZoneSplits(zone: seq<byte>) returns (pads: seq<Pad>, rest: seq<byte>)
    ensures Splits(zone, Walk(zone).records, pads, rest)
    decreases |zone|
  {
    hide RecordHeadWith, RecordFits, RecordAt, Splits;
    UnreadableIs(zone);
    if Unreadable(zone) {
      pads, rest := [], zone;
      NothingSplit(zone);
    } else {
      RecordIs(zone);
      var r := RecordAt(zone);
      var later := zone[RECORD_LEN + |r.bytes|..];
      pads, rest := ZoneSplits(later);
      WalkCons(zone, r);
      SplitsMore(zone, r, zone[13..16], Walk(later).records, pads, rest, later);
      pads := [zone[13..16]] + pads;
    }
  }

  lemma NothingSplit(zone: seq<byte>)
    requires Unreadable(zone)
    ensures Splits(zone, [], [], zone)
  {
    hide Unreadable;
  }

  // ---- whole files ----

  /** The last 49 bytes are not a footer of the bytes before them. */
  predicate NoFooter(b: seq<byte>)
    requires |b| >= 60
  {
    b[|b| - 49..|b| - 41] != Ascii("RFPEND\0\0") || BLAKE3(b[..|b| - 49]) != b[|b| - 32..]
  }

  lemma NoFooterIs(b: seq<byte>)
    requires |b| >= 60
    ensures NoFooter(b) <==> !FooterFound(b)
    ensures NoFooter(b) ==> RecordZone(b) == b[60..]
    ensures !NoFooter(b) && |b| >= 109 ==> RecordZone(b) == b[60..|b| - 49]
  {
    Layouts.PackMagics();
    hide Ascii;
    assert b[..|b| - 49] == b[0..|b| - 49];
    assert b[60..|b|] == b[60..];
  }

  lemma OutcomeOf(b: seq<byte>, h: RfpHeader)
    requires ReadHeader(b) == Ok(h)
    ensures var w := Walk(RecordZone(b));
            && (!FooterFound(b) ==> ReadOutcome(b) == Ok(Torn(h, w.records)))
            && (FooterFound(b) && !w.framingOk ==> ReadOutcome(b) == Ok(Torn(h, w.records)))
            && (FooterFound(b) && w.framingOk ==>
                  var fs := |b| - 49;
                  ReadOutcome(b) == Ok(if b[fs + 16] == 1 && Get64(b[fs + 8..fs + 16]) == |w.records|
                                       then Complete(h, w.records) else Torn(h, w.records)))
  {
    hide Walk, ReadHeader, RecordZone, Get64;
  }

  /** A file without a footer gives back, as torn, exactly the records it starts with, up to
      the first bytes that hold none. */
  lemma TornIff(b: seq<byte>, h: RfpHeader, recs: seq<RfpRecord>)
    requires ReadHeader(b) == Ok(h) && NoFooter(b)
    ensures ReadOutcome(b) == Ok(Torn(h, recs)) <==> exists pads, rest :: Splits(b[60..], recs, pads, rest)
  {
    hide *;
    HeaderRoom(b);
    NoFooterIs(b);
    OutcomeOf(b, h);
    if ReadOutcome(b) == Ok(Torn(h, recs)) {
      var pads, rest := ZoneSplits(b[60..]);
    }
    if pads, rest :| Splits(b[60..], recs, pads, rest) {
      SplitWalks(b[60..], recs, pads, rest);
    }
  }

  lemma HeaderRoom(b: seq<byte>)
    ensures ReadHeader(b).Ok? ==> |b| >= 60
  {
  }

  /** The footer at the end is marked complete and counts `k` records. */
  predicate CountsAll(b: seq<byte>, k: nat)
    requires |b| >= 60
  {
    b[|b| - 33] == 1 && Get64(b[|b| - 41..|b| - 33]) == k
  }

  /** The record zone before the footer splits so, and is damaged or not what was counted. */
  ghost predicate SplitsUnfinished(b: seq<byte>, recs: seq<RfpRecord>, pads: seq<Pad>, rest: seq<byte>)
    requires |b| >= 109
  {
    Splits(b[60..|b| - 49], recs, pads, rest) && (rest != [] || !CountsAll(b, |recs|))
  }

  lemma SplitsUnfinishedIs(b: seq<byte>, recs: seq<RfpRecord>, pads: seq<Pad>, rest: seq<byte>)
    requires |b| >= 109
    ensures SplitsUnfinished(b, recs, pads, rest)
            <==> Splits(b[60..|b| - 49], recs, pads, rest) && (rest != [] || !CountsAll(b, |recs|))
  {
    hide Splits, CountsAll;
  }

  lemma CountsAllIs(b: seq<byte>, k: nat)
    requires |b| >= 60
    ensures CountsAll(b, k) <==>
              var fs := |b| - 49;
              b[fs + 16] == 1 && Get64(b[fs + 8..fs + 16]) == k
  {
    hide Get64;
  }

  /** A file with a footer after its header gives back the records before it, or those
      before the damage; it is torn when there is damage, when the footer says so, or when
      the footer counts other records. */
  lemma FinishedTornIff(b: seq<byte>, h: RfpHeader, recs: seq<RfpRecord>)
    requires ReadHeader(b) == Ok(h) && |b| >= 109 && !NoFooter(b)
    ensures ReadOutcome(b) == Ok(Torn(h, recs)) <==>
              exists pads, rest :: SplitsUnfinished(b, recs, pads, rest)
  {
    hide *;
    NoFooterIs(b);
    OutcomeOf(b, h);
    var zone := b[60..|b| - 49];
    CountsAllIs(b, |Walk(zone).records|);
    if ReadOutcome(b) == Ok(Torn(h, recs)) {
      var pads, rest := ZoneSplits(zone);
      SplitWalks(zone, recs, pads, rest);
      SplitsUnfinishedIs(b, recs, pads, rest);
    }
    if pads, rest :| SplitsUnfinished(b, recs, pads, rest) {
      SplitsUnfinishedIs(b, recs, pads, rest);
      SplitWalks(zone, recs, pads, rest);
    }
  }

  // ---- packs as the writer leaves them ----

  lemma WrittenSplits(recs: seq<RfpRecord>, rest: seq<byte>)
    requires Packable(recs) && Unreadable(rest)
    ensures Splits(EncodeRecords(recs) + rest, recs, NoPads(|recs|), rest)
  {
    hide RecordsWith, EncodeRecords, Unreadable;
    RecordsWithZeroes(recs);
  }

  lemma PackReads(h: RfpHeader, pix: byte, recs: seq<RfpRecord>, rest: seq<byte>)
    requires PixFmtToByte(h.pixelFormat) == Ok(pix)
    ensures |Pack(h, pix, recs) + rest| >= 60 && (Pack(h, pix, recs) + rest)[60..] == EncodeRecords(recs) + rest
    ensures ReadHeader(Pack(h, pix, recs) + rest) == Ok(h)
  {
    hide EncodeHeader, EncodeRecords, ReadHeader, Has;
    var b := Pack(h, pix, recs) + rest;
    EncodeHeaderIs(h, pix);
    assert b == EncodeHeader(h, pix) + (EncodeRecords(recs) + rest);
    HasFirst(b, EncodeHeader(h, pix));
    HeaderReads(h, pix, Zeros(3), b);
  }

  /** Damage after some whole records keeps exactly those records: a head that is cut
      short, a record that is, or an unknown compression byte. */
  lemma DamageKeepsRecords(h: RfpHeader, pix: byte, recs: seq<RfpRecord>, rest: seq<byte>)
    requires PixFmtToByte(h.pixelFormat) == Ok(pix) && Packable(recs) && Unreadable(rest)
    requires |Pack(h, pix, recs) + rest| >= 60 && NoFooter(Pack(h, pix, recs) + rest)
    ensures ReadOutcome(Pack(h, pix, recs) + rest) == Ok(Torn(h, recs))
  {
    hide *;
    PackReads(h, pix, recs, rest);
    WrittenSplits(recs, rest);
    TornIff(Pack(h, pix, recs) + rest, h, recs);
  }

  lemma {:induction false} WholeRecords(recs: seq<RfpRecord>, n: nat) returns (k: nat)
    requires n <= |EncodeRecords(recs)|
    ensures k <= |recs| && |EncodeRecords(recs[..k])| <= n
    ensures k < |recs| ==> n < |EncodeRecords(recs[..k + 1])|
    decreases |recs|
  {
    hide EncodeRecords;
    assert recs[..|recs|] == recs;
    if |EncodeRecords(recs)| == n {
      k := |recs|;
    } else {
      SomeRecords(recs);
      var last := |recs| - 1;
      var front := recs[..last];
      if n >= |EncodeRecords(front)| {
        k := last;
      } else {
        k := WholeRecords(front, n);
        assert front[..k] == recs[..k];
        assert k < |front| ==> front[..k + 1] == recs[..k + 1];
        assert front[..|front|] == front;
      }
    }
  }

  lemma CutAt(recs: seq<RfpRecord>, k: nat, n: nat) returns (rest: seq<byte>)
    requires Packable(recs) && k <= |recs| && |EncodeRecords(recs[..k])| <= n <= |EncodeRecords(recs)|
    requires k < |recs| ==> n < |EncodeRecords(recs[..k + 1])|
    ensures Unreadable(rest) && EncodeRecords(recs)[..n] == EncodeRecords(recs[..k]) + rest
  {
    hide EncodeRecords, EncodeRecord, RecordFits, Unreadable;
    var whole := EncodeRecords(recs[..k]);
    assert recs == recs[..k] + recs[k..];
    EncodeRecordsConcat(recs[..k], recs[k..]);
    rest := EncodeRecords(recs)[..n][|whole|..];
    UnreadableIs(rest);
    if k == |recs| {
      assert recs[..k] == recs && rest == [];
      NothingFits();
    } else {
      var r := recs[k];
      assert recs[..k + 1] == recs[..k] + [r];
      EncodeRecordsConcat(recs[..k], [r]);
      EncodeOne(r);
      EncodeCons(recs[k..]);
      assert rest == EncodeRecord(r)[..|rest|];
      if rest == [] {
        NothingFits();
      } else {
        RecordCut(r, rest);
      }
    }
  }

  lemma NothingFits()
    ensures !RecordFits([])
  {
  }

  /** A pack cut anywhere at or after its header, without a footer in the cut, gives back
      every record that lies in it whole, and no other. */
  lemma TornKeepsPrefix(h: RfpHeader, pix: byte, recs: seq<RfpRecord>, n: nat) returns (k: nat)
    requires PixFmtToByte(h.pixelFormat) == Ok(pix) && Packable(recs)
    requires 60 <= n <= |Pack(h, pix, recs)| && NoFooter(Pack(h, pix, recs)[..n])
    ensures k <= |recs| && 60 + |EncodeRecords(recs[..k])| <= n
    ensures k < |recs| ==> n < 60 + |EncodeRecords(recs[..k + 1])|
    ensures ReadOutcome(Pack(h, pix, recs)[..n]) == Ok(Torn(h, recs[..k]))
  {
    hide EncodeRecords, EncodeHeader, Packable, ReadOutcome, NoFooter, Unreadable;
    PackLen(h, pix, recs, true);
    k := WholeRecords(recs, n - 60);
    var rest := CutAt(recs, k, n - 60);
    FirstFew(recs, k);
    assert Pack(h, pix, recs)[..n] == EncodeHeader(h, pix) + EncodeRecords(recs)[..n - 60];
    assert Pack(h, pix, recs)[..n] == Pack(h, pix, recs[..k]) + rest;
    DamageKeepsRecords(h, pix, recs[..k], rest);
  }

  // ---- the header ----

  /** What makes a pack an error rather than torn, in the order it is noticed. */
  lemma HeaderErrors(b: seq<byte>)
    ensures |b| < 60 ==> ReadOutcome(b) == Err(Truncated)
    ensures |b| >= 60 && b[..8] != Ascii("RFPK0002") ==> ReadOutcome(b) == Err(BadMagic)
    ensures |b| >= 60 && b[..8] == Ascii("RFPK0002") ==>
              var version, format := Get32(b[8..12]), b[32];
              if version != 2 then ReadOutcome(b) == Err(UnsupportedVersion(version))
              else if format > 2 then ReadOutcome(b) == Err(UnknownPixFmt(format))
              else ReadOutcome(b).Ok?
  {
    hide Walk, FooterFound, RecordZone, Get64, Get16, Ascii, Get32;
    Layouts.PackMagics();
    if |b| >= 60 {
      assert b[..8] == b[0..8];
    }
  }
}
