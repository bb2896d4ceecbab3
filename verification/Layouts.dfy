/** Where every field of the three file formats stands, byte by byte. */
module Layouts {
  import opened Wrappers
  import opened Bytes
  import Dhilog
  import Container
  import ContainerCodec
  import Rfp

  /** `x` is the number `n` in `x`'s own width, least significant byte first. */
  ghost predicate Spells(x: seq<byte>, n: nat) {
    forall i: nat :: i < |x| ==> x[i] == n / Pow256(i) % 256
  }

  lemma LESpells(n: nat, k: nat)
    ensures Spells(LE(n, k), n)
  {
    forall i: nat | i < k
      ensures LE(n, k)[i] == n / Pow256(i) % 256
    {
      DigitOfLE(n, k, i);
    }
  }

  /** The number of padding bytes after `n` bytes is what is missing to a multiple of eight. */
  lemma PaddingIs(n: nat)
    ensures Padding(n) == Zeros((8 - n % 8) % 8)
  {
  }

  // ---- DHILOG ----

  /** The 256-byte segment header. */
  ghost predicate SegmentHeader(b: seq<byte>, h: Dhilog.Header) {
    && |b| == 256 && b[0..6] == Ascii("DHILOG") && Spells(b[6..8], h.version) && Spells(b[8..12], 256)
    && Spells(b[12..16], h.flags)
    && b[16..48] == h.baseSnapshot && b[48..80] == h.endSnapshot && b[80..112] == h.entropySeed
    && b[112..144] == h.machineConfig
    && Spells(b[144..148], h.clockNum) && Spells(b[148..152], h.clockDen)
    && Spells(b[152..160], h.recordCount) && Spells(b[160..168], h.endIcount) && Spells(b[168..176], h.endVns)
    && b[176..208] == h.endStateHash && b[208..240] == h.bodyHash && b[240..256] == Zeros(16)
  }

  lemma SegmentMagic()
    ensures Dhilog.MAGIC == Ascii("DHILOG")
  {
  }

  lemma SegmentWords(h: Dhilog.Header)
    ensures Spells(LE16(h.version), h.version) && Spells(LE32(Dhilog.HEADER_LEN), 256) && Spells(LE32(h.flags), h.flags)
    ensures Spells(LE32(h.clockNum), h.clockNum) && Spells(LE32(h.clockDen), h.clockDen)
    ensures Spells(LE64(h.recordCount), h.recordCount) && Spells(LE64(h.endIcount), h.endIcount)
    ensures Spells(LE64(h.endVns), h.endVns)
  {
    hide Spells;
    LESpells(h.version, 2);
    LESpells(256, 4);
    LESpells(h.flags, 4);
    LESpells(h.clockNum, 4);
    LESpells(h.clockDen, 4);
    LESpells(h.recordCount, 8);
    LESpells(h.endIcount, 8);
    LESpells(h.endVns, 8);
  }

  lemma SegmentHeaderLayout(h: Dhilog.Header)
    ensures SegmentHeader(Dhilog.EncodeHeader(h), h)
  {
    hide Spells, LE16, LE32, LE64, Ascii;
    var b := Dhilog.EncodeHeader(h);
    SegmentMagic();
    SegmentWords(h);
    assert b[0..16] == Dhilog.Lead(h) && b[16..144] == Dhilog.Ids(h) && b[144..152] == Dhilog.Clock(h)
           && b[152..176] == Dhilog.Counts(h) && b[176..256] == Dhilog.Seals(h);
    Dhilog.LeadCuts(h, b);
    Dhilog.IdsCuts(h, b);
    Dhilog.ClockCuts(h, b);
    Dhilog.CountsCuts(h, b);
    Dhilog.SealsCuts(h, b);
  }

  /** A record: its 24-byte head, its payload, and zeroes to a multiple of eight. */
  ghost predicate SegmentRecord(b: seq<byte>, r: Dhilog.Record) {
    var n := |r.payload|;
    && |b| == 24 + n + (8 - n % 8) % 8
    && b[0] == r.kind && b[1] == r.rflags && Spells(b[2..4], n) && Spells(b[4..8], r.seqNo)
    && Spells(b[8..16], r.icount) && Spells(b[16..24], r.rip)
    && b[24..24 + n] == r.payload && b[24 + n..] == Zeros((8 - n % 8) % 8)
  }

  lemma SegmentRecordLayout(r: Dhilog.Record)
    requires |r.payload| < TWO16
    ensures SegmentRecord(Dhilog.EncodeRecord(r), r)
  {
    hide Spells, Dhilog.RecordHead, Padding;
    var b, head, n := Dhilog.EncodeRecord(r), Dhilog.RecordHead(r), |r.payload|;
    PaddingIs(n);
    RecordHeadLayout(r);
    assert b[0..24] == head;
    assert b[0] == head[0] && b[1] == head[1];
    assert b[2..4] == head[2..4] && b[4..8] == head[4..8] && b[8..16] == head[8..16] && b[16..24] == head[16..24];
  }

  lemma RecordHeadLayout(r: Dhilog.Record)
    requires |r.payload| < TWO16
    ensures var b := Dhilog.RecordHead(r);
            && b[0] == r.kind && b[1] == r.rflags && Spells(b[2..4], |r.payload|) && Spells(b[4..8], r.seqNo)
            && Spells(b[8..16], r.icount) && Spells(b[16..24], r.rip)
  {
    hide Spells, LE16, LE32, LE64;
    var b, n: u16 := Dhilog.RecordHead(r), |r.payload|;
    LESpells(n, 2);
    LESpells(r.seqNo, 4);
    LESpells(r.icount, 8);
    LESpells(r.rip, 8);
    WordsAre(n, r.seqNo, r.icount);
    WordsAre(n, r.seqNo, r.rip);
    assert b[0..24] == b && b[0..2] == [r.kind, r.rflags];
    Cut4(b, 0, [r.kind, r.rflags], LE16(n), LE32(r.seqNo), LE64(r.icount) + LE64(r.rip));
    Cut2(b, 8, LE64(r.icount), LE64(r.rip));
  }

  lemma WordsAre(a: u16, b: u32, c: u64)
    ensures LE16(a) == LE(a, 2) && LE32(b) == LE(b, 4) && LE64(c) == LE(c, 8)
  {
  }

  // ---- the container ----

  /** The container's 160-byte header. */
  ghost predicate ContainerHead(b: seq<byte>, c: Container.DilogContainer) {
    && |b| == 160 && b[0..8] == Ascii("DILOG\0\r\n") && Spells(b[8..12], 2)
    && Spells(b[12..16], if c.epochHashesEverywhere then 1 else 0)
    && Spells(b[16..20], |c.segments|) && Spells(b[20..24], |Container.PRINT_META(c.meta)|)
    && b[24..56] == c.rootRef && b[56..88] == c.guestImage && b[88..120] == c.machineConfig
    && Spells(b[120..124], c.clockNum) && Spells(b[124..128], c.clockDen)
    && Spells(b[128..132], c.fpsNum) && Spells(b[132..136], c.fpsDen) && b[136..160] == Zeros(24)
  }

  lemma ContainerMagics()
    ensures Container.CONTAINER_MAGIC == Ascii("DILOG\0\r\n") && Container.END_MAGIC == Ascii("DILOGEND")
  {
  }

  lemma ContainerWords(c: Container.DilogContainer)
    requires |c.segments| < TWO32 && |Container.PRINT_META(c.meta)| < TWO32
    ensures Spells(LE32(Container.CONTAINER_VERSION), 2)
    ensures Spells(LE32(Container.Flags(c)), if c.epochHashesEverywhere then 1 else 0)
    ensures Spells(LE32(|c.segments|), |c.segments|)
    ensures Spells(LE32(|Container.PRINT_META(c.meta)|), |Container.PRINT_META(c.meta)|)
    ensures Spells(LE32(c.clockNum), c.clockNum) && Spells(LE32(c.clockDen), c.clockDen)
    ensures Spells(LE32(c.fpsNum), c.fpsNum) && Spells(LE32(c.fpsDen), c.fpsDen)
  {
    hide Spells;
    LESpells(2, 4);
    LESpells(if c.epochHashesEverywhere then 1 else 0, 4);
    LESpells(|c.segments|, 4);
    LESpells(|Container.PRINT_META(c.meta)|, 4);
    LESpells(c.clockNum, 4);
    LESpells(c.clockDen, 4);
    LESpells(c.fpsNum, 4);
    LESpells(c.fpsDen, 4);
  }

  lemma ContainerHeadLayout(c: Container.DilogContainer)
    requires |c.segments| < TWO32 && |Container.PRINT_META(c.meta)| < TWO32
    ensures ContainerHead(Container.Head(c), c)
  {
    hide Spells, LE32, Ascii, Container.Flags;
    var b := Container.Head(c);
    var flags, n, m := Container.Flags(c), |c.segments|, |Container.PRINT_META(c.meta)|;
    ContainerMagics();
    ContainerWords(c);
    ContainerCodec.HeadIs(c);
    var p := Container.Preamble(flags, n, m);
    assert b[0..24] == p && b[24..120] == Container.Refs(c) && b[120..136] == Container.Rates(c)
           && b[136..160] == Zeros(24);
    Cut2(b, 0, Container.CONTAINER_MAGIC, LE32(Container.CONTAINER_VERSION) + LE32(flags) + LE32(n) + LE32(m));
    Cut4(b, 8, LE32(Container.CONTAINER_VERSION), LE32(flags), LE32(n), LE32(m));
    Cut3(b, 24, c.rootRef, c.guestImage, c.machineConfig);
    Cut4(b, 120, LE32(c.clockNum), LE32(c.clockDen), LE32(c.fpsNum), LE32(c.fpsDen));
  }

  /** One 152-byte table entry. */
  ghost predicate ContainerEntry(e: seq<byte>, s: Container.ContainerSegment, off: nat) {
    && |e| == 152 && Spells(e[0..8], s.nodeId)
    && e[8..40] == s.baseRef && e[40..72] == s.childRef && e[72..104] == s.endStateHash && e[104..136] == s.logId
    && Spells(e[136..144], off) && Spells(e[144..152], |s.blob.bytes|)
  }

  lemma ContainerEntryLayout(s: Container.ContainerSegment, off: u64)
    requires |s.blob.bytes| < TWO64
    ensures ContainerEntry(Container.TableEntry(s, off), s, off)
  {
    hide Spells, LE64;
    var e, n: u64 := Container.TableEntry(s, off), |s.blob.bytes|;
    ContainerCodec.SmallMod(off, off);
    ContainerCodec.SmallMod(n, n);
    EntryWords(s.nodeId, off, n);
    assert e[0..136] == Container.EntryIds(s) && e[136..144] == LE64(off) && e[144..152] == LE64(n);
    Cut2(e, 0, LE64(s.nodeId), s.baseRef + s.childRef + s.endStateHash + s.logId);
    Cut4(e, 8, s.baseRef, s.childRef, s.endStateHash, s.logId);
  }

  lemma EntryWords(a: u64, b: u64, c: u64)
    ensures Spells(LE64(a), a) && Spells(LE64(b), b) && Spells(LE64(c), c)
  {
    hide Spells;
    LESpells(a, 8);
    LESpells(b, 8);
    LESpells(c, 8);
  }

  /** Where the table starts: after the header and the padded metadata. */
  function TableStart(c: Container.DilogContainer): nat {
    var m := |Container.PRINT_META(c.meta)|;
    160 + m + (8 - m % 8) % 8
  }

  /** Where blob `i` starts: after the table, or after the padded blob before it. The
      footer starts where one more blob would. */
  function BlobStart(c: Container.DilogContainer, i: nat): nat
    requires i <= |c.segments|
  {
    if i == 0 then TableStart(c) + 152 * |c.segments|
    else
      var n := |c.segments[i - 1].blob.bytes|;
      BlobStart(c, i - 1) + n + (8 - n % 8) % 8
  }

  lemma {:induction false} BlobStarts(c: Container.DilogContainer, i: nat)
    requires i <= |c.segments|
    ensures ContainerCodec.BlobOff(c, i) == BlobStart(c, i) && |Container.Front(c)| == TableStart(c)
    decreases i
  {
    hide Pad8, Container.Front, Container.Body, ContainerCodec.BlobOff, Container.Blob;
    ContainerCodec.Extent(c);
    Pad8Is(|Container.PRINT_META(c.meta)|);
    if i == 0 {
      ContainerCodec.BlobOffEnds(c);
    } else {
      BlobStarts(c, i - 1);
      ContainerCodec.BlobOffStep(c, i - 1);
      Container.BlobIs(c.segments[i - 1]);
      Pad8Is(|c.segments[i - 1].blob.bytes|);
    }
  }

  /** The whole file: header, metadata and its padding, one table entry and one padded blob
      per segment in path order, and a footer that hashes all of it. */
  ghost predicate ContainerFile(b: seq<byte>, c: Container.DilogContainer) {
    var meta, n := Container.PRINT_META(c.meta), |c.segments|;
    && |b| == BlobStart(c, n) + 40 && TableStart(c) + 152 * n <= |b| && |b| >= 160
    && ContainerHead(b[..160], c) && Has(b, 160, meta + Zeros((8 - |meta| % 8) % 8))
    && (forall i :: 0 <= i < n ==> Stored(b, c, i))
    && b[|b| - 40..|b| - 8] == BLAKE3(b[..|b| - 40]) && b[|b| - 8..] == Ascii("DILOGEND")
  }

  /** The entry and the blob of segment `i` are in place. */
  ghost predicate Stored(b: seq<byte>, c: Container.DilogContainer, i: nat)
    requires i < |c.segments|
  {
    var s, at := c.segments[i], TableStart(c) + 152 * i;
    var n := |s.blob.bytes|;
    && at + 152 <= |b| && ContainerEntry(b[at..at + 152], s, BlobStart(c, i))
    && Has(b, BlobStart(c, i), s.blob.bytes + Zeros((8 - n % 8) % 8))
  }

  lemma StoredAt(c: Container.DilogContainer, i: nat)
    requires ContainerCodec.Canonical(c) && i < |c.segments|
    ensures Stored(Container.Encode(c), c, i)
  {
    hide *;
    var b, s := Container.Encode(c), c.segments[i];
    ContainerCodec.CanonicalParts(c);
    ContainerCodec.StandsOfWrite(c);
    ContainerCodec.StandsParts(b, c);
    ContainerCodec.Extent(c);
    BlobStarts(c, i);
    ContainerCodec.BlobOffDef(c, i);
    ContainerCodec.BlobWithin(c, i);
    ContainerCodec.TableHas(b, |Container.Front(c)|, c.segments, Container.BlobsOff(c), i);
    ContainerEntryLayout(s, ContainerCodec.BlobOff(c, i));
    ContainerCodec.BlobsHas(b, Container.BlobsOff(c), c.segments, i);
    Container.BlobIs(s);
    PaddingIs(|s.blob.bytes|);
    ContainerCodec.TableEntrySize(s, BlobStart(c, i));
    StoredFrom(b, c, i);
  }

  lemma StoredFrom(b: seq<byte>, c: Container.DilogContainer, i: nat)
    requires i < |c.segments|
    requires Has(b, TableStart(c) + Container.TableLen(i), Container.TableEntry(c.segments[i], BlobStart(c, i)))
    requires ContainerEntry(Container.TableEntry(c.segments[i], BlobStart(c, i)), c.segments[i], BlobStart(c, i))
    requires var s := c.segments[i].blob.bytes;
             Has(b, BlobStart(c, i), s + Zeros((8 - |s| % 8) % 8))
    ensures Stored(b, c, i)
  {
    hide ContainerEntry, Container.TableEntry, BlobStart, TableStart;
  }

  lemma ContainerFileLayout(c: Container.DilogContainer)
    requires ContainerCodec.Canonical(c)
    ensures ContainerFile(Container.Encode(c), c)
  {
    hide *;
    var b, body := Container.Encode(c), Container.Body(c);
    ContainerCodec.CanonicalParts(c);
    ContainerCodec.StandsOfWrite(c);
    ContainerCodec.StandsParts(b, c);
    ContainerCodec.Extent(c);
    ContainerCodec.BlobOffEnds(c);
    BlobStarts(c, 0);
    BlobStarts(c, |c.segments|);
    FirstBlob(c);
    ContainerCodec.MetaStands(b, c);
    ContainerHeadLayout(c);
    forall i | 0 <= i < |c.segments|
      ensures Stored(b, c, i)
    {
      StoredAt(c, i);
    }
    ContainerCodec.BodyIs(c);
    FileFrom(b, c, body);
  }

  lemma FirstBlob(c: Container.DilogContainer)
    ensures BlobStart(c, 0) == TableStart(c) + 152 * |c.segments|
  {
  }

  lemma FileFrom(b: seq<byte>, c: Container.DilogContainer, body: seq<byte>)
    requires b == body + (BLAKE3(body) + Container.END_MAGIC) && |body| == BlobStart(c, |c.segments|)
    requires Has(b, 0, Container.Front(c)) && |Container.Front(c)| == TableStart(c)
    requires |body| >= TableStart(c) + 152 * |c.segments| && ContainerHead(Container.Head(c), c)
    requires forall i :: 0 <= i < |c.segments| ==> Stored(b, c, i)
    ensures ContainerFile(b, c)
  {
    hide BlobStart, Stored, ContainerHead, Ascii, Container.Head, Padding;
    ContainerMagics();
    var meta := Container.PRINT_META(c.meta);
    PaddingIs(|meta|);
    HasBoth(b, 0, Container.Head(c), meta + Padding(|meta|));
    PrefixIs(b, Container.Head(c));
    assert b[..160] == b[0..160];
    assert b[..|b| - 40] == body;
    assert b[|b| - 40..|b| - 8] == BLAKE3(body) && b[|b| - 8..] == Container.END_MAGIC;
  }

  // ---- the frame pack ----

  /** A frame pack's 60-byte header, with its pixel format byte. */
  ghost predicate PackHeader(b: seq<byte>, h: Rfp.RfpHeader) {
    && |b| == 60 && b[0..8] == Ascii("RFPK0002") && Spells(b[8..12], 2) && Spells(b[12..16], h.flags)
    && Spells(b[16..24], h.gpaBase) && Spells(b[24..26], h.width) && Spells(b[26..28], h.height)
    && Spells(b[28..32], h.stride)
    && b[32] == (match h.pixelFormat case Rgb555Le => 0 case Bgr555Le => 1 case Rgb565Le => 2 case Indexed8(_) => 255)
    && b[33..36] == Zeros(3) && Spells(b[36..40], h.clockNum) && Spells(b[40..44], h.clockDen) && b[44..60] == h.jobId
  }

  lemma PackMagics()
    ensures Rfp.RFP_MAGIC == Ascii("RFPK0002") && Rfp.RFP_END_MAGIC == Ascii("RFPEND\0\0")
  {
  }

  lemma PackWords(h: Rfp.RfpHeader)
    ensures Spells(LE32(2), 2) && Spells(LE32(h.flags), h.flags) && Spells(LE64(h.gpaBase), h.gpaBase)
    ensures Spells(LE16(h.width), h.width) && Spells(LE16(h.height), h.height) && Spells(LE32(h.stride), h.stride)
    ensures Spells(LE32(h.clockNum), h.clockNum) && Spells(LE32(h.clockDen), h.clockDen)
  {
    hide Spells;
    LESpells(2, 4);
    LESpells(h.flags, 4);
    LESpells(h.gpaBase, 8);
    LESpells(h.width, 2);
    LESpells(h.height, 2);
    LESpells(h.stride, 4);
    LESpells(h.clockNum, 4);
    LESpells(h.clockDen, 4);
  }

  lemma PackHeaderLayout(h: Rfp.RfpHeader, pix: byte)
    requires Rfp.PixFmtToByte(h.pixelFormat) == Ok(pix)
    ensures PackHeader(Rfp.EncodeHeader(h, pix), h)
  {
    hide Spells, LE16, LE32, LE64, Ascii;
    var b := Rfp.EncodeHeader(h, pix);
    PackMagics();
    PackWords(h);
    assert b[0..8] == Rfp.RFP_MAGIC && b[8..12] == LE32(2) && b[12..16] == LE32(h.flags);
    assert b[16..32] == Rfp.Geometry(h) && b[33..36] == Zeros(3) && b[36..60] == Rfp.Identity(h);
    Cut4(b, 16, LE64(h.gpaBase), LE16(h.width), LE16(h.height), LE32(h.stride));
    Cut3(b, 36, LE32(h.clockNum), LE32(h.clockDen), h.jobId);
  }

  /** A stored frame: its 28-byte head and its bytes. */
  ghost predicate PackRecord(b: seq<byte>, r: Rfp.RfpRecord) {
    && |b| == 28 + |r.bytes| && Spells(b[0..8], r.frameIndex) && Spells(b[8..12], r.segmentIndex)
    && b[12] == (if r.comp.Raw? then 0 else 1) && b[13..16] == Zeros(3)
    && Spells(b[16..24], r.icount) && Spells(b[24..28], |r.bytes|) && b[28..] == r.bytes
  }

  lemma PackRecordLayout(r: Rfp.RfpRecord)
    requires |r.bytes| < TWO32
    ensures PackRecord(Rfp.EncodeRecord(r), r)
  {
    hide Spells, LE32, LE64;
    var b, n: u32 := Rfp.EncodeRecord(r), |r.bytes|;
    ContainerCodec.SmallWord(n, n);
    RecordWords(r.frameIndex, r.segmentIndex, r.icount, n);
    assert b[0..8] == LE64(r.frameIndex) && b[8..12] == LE32(r.segmentIndex);
    assert b[16..24] == LE64(r.icount) && b[24..28] == LE32(n);
  }

  lemma RecordWords(a: u64, b: u32, c: u64, d: u32)
    ensures Spells(LE64(a), a) && Spells(LE32(b), b) && Spells(LE64(c), c) && Spells(LE32(d), d)
  {
    hide Spells;
    LESpells(a, 8);
    LESpells(b, 4);
    LESpells(c, 8);
    LESpells(d, 4);
  }

  /** The 49-byte footer of a finished pack. */
  ghost predicate PackFooter(b: seq<byte>, count: nat, complete: bool, before: seq<byte>) {
    && |b| == 49 && b[0..8] == Ascii("RFPEND\0\0") && Spells(b[8..16], count)
    && b[16] == (if complete then 1 else 0) && b[17..49] == BLAKE3(before)
  }

  /** A finished pack: header, records in turn, footer over both. */
  lemma FinishedPackLayout(h: Rfp.RfpHeader, pix: byte, recs: seq<Rfp.RfpRecord>, complete: bool)
    requires |recs| < TWO64
    ensures var b, n := Rfp.Finished(h, pix, recs, complete), 60 + |Rfp.EncodeRecords(recs)|;
            && |b| == n + 49 && b[..60] == Rfp.EncodeHeader(h, pix) && b[60..n] == Rfp.EncodeRecords(recs)
            && PackFooter(b[n..], |recs|, complete, b[..n])
  {
    hide Spells, LE64, Ascii, Rfp.EncodeHeader, Rfp.EncodeRecords;
    PackMagics();
    var count: u64 := |recs|;
    ContainerCodec.SmallMod(count, count);
    EntryWords(count, count, count);
    var b, pack := Rfp.Finished(h, pix, recs, complete), Rfp.Pack(h, pix, recs);
    var n := 60 + |Rfp.EncodeRecords(recs)|;
    assert b[..n] == pack && b[n..] == Rfp.Footer(|recs|, complete, pack);
    assert b[60..n] == pack[60..];
    var f := b[n..];
    assert f[0..8] == Rfp.RFP_END_MAGIC && f[8..16] == LE64(count) && f[17..49] == BLAKE3(pack);
  }
}
