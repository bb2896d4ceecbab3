/** Reading and writing containers are inverse to each other. */
module ContainerCodec {
  import opened Wrappers
  import opened Bytes
  import opened Dhilog
  import opened Validator
  import opened Rules
  import opened Container
  import opened ContainerReader

  // ---- canonical containers ----

  /** An embedded segment that stands on its own. */
  ghost predicate Sound(s: ContainerSegment) {
    s.blob.Valid() && s.blob.header.version == SUPPORTED_VERSION && Verdict(s.blob) == None
  }

  function BaseBefore(root: Hash32, segs: seq<ContainerSegment>, k: nat): Hash32
    requires k <= |segs|
  {
    if k == 0 then root else segs[k - 1].childRef
  }

  /** Sound segments, each starting where the one before it ended. */
  ghost predicate Chained(root: Hash32, m: Machine, segs: seq<ContainerSegment>) {
    forall k :: 0 <= k < |segs| ==> Sound(segs[k]) && Agrees(segs[k], m, BaseBefore(root, segs, k))
  }

  function MachineIn(c: DilogContainer): Machine { Machine(c.machineConfig, c.clockNum, c.clockDen) }

  /** The containers that have an encoding: metadata that parses back, lengths that fit
      their fields, the flag that is the AND, and a chain. */
  ghost predicate Canonical(c: DilogContainer) {
    && 0 < |c.segments| < TWO32 && |PRINT_META(c.meta)| < TWO32 && |Encode(c)| < TWO64
    && c.meta.version == 1 && PARSE_META(PRINT_META(c.meta)) == Some(c.meta)
    && c.epochHashesEverywhere == AllEpochs(c.segments)
    && Chained(c.rootRef, MachineIn(c), c.segments)
  }

  // ---- what was read is what would be written, field by field ----

  lemma Whole32(b: seq<byte>, at: nat)
    requires at + 4 <= |b|
    ensures LE32(Get32(b[at..at + 4])) == b[at..at + 4]
  {
    Word32Bytes(b[at..at + 4]);
  }

  lemma ZerosAre(s: seq<byte>, n: nat)
    requires AllZero(s) && |s| == n
    ensures s == Zeros(n)
  {
    AllZeroIsZeros(s);
  }

  lemma PreambleOf(b: seq<byte>)
    requires |b| >= HEAD_LEN && b[0..8] == CONTAINER_MAGIC && Get32(b[8..12]) == CONTAINER_VERSION
    ensures b[0..24] == Preamble(Get32(b[12..16]), Get32(b[16..20]), Get32(b[20..24]))
  {
    hide Get32, LE32;
    Whole32(b, 8);
    Whole32(b, 12);
    Whole32(b, 16);
    Whole32(b, 20);
    Paste(b, 0, 8, 24);
    Paste(b, 8, 20, 24);
    Paste(b, 8, 16, 20);
    Paste(b, 8, 12, 16);
  }

  lemma RefsOf(b: seq<byte>, c: DilogContainer)
    requires |b| >= HEAD_LEN && c.rootRef == b[24..56] && c.guestImage == b[56..88] && c.machineConfig == b[88..120]
    ensures b[24..120] == Refs(c)
  {
    Paste(b, 24, 56, 88);
    Paste(b, 24, 88, 120);
  }

  lemma RatesOf(b: seq<byte>, c: DilogContainer)
    requires |b| >= HEAD_LEN && c.clockNum == Get32(b[120..124]) && c.clockDen == Get32(b[124..128])
    requires c.fpsNum == Get32(b[128..132]) && c.fpsDen == Get32(b[132..136])
    ensures b[120..136] == Rates(c)
  {
    hide Get32, LE32;
    Whole32(b, 120);
    Whole32(b, 124);
    Whole32(b, 128);
    Whole32(b, 132);
    Paste(b, 120, 124, 128);
    Paste(b, 120, 128, 132);
    Paste(b, 120, 132, 136);
  }

  lemma HeadOf(b: seq<byte>, c: DilogContainer)
    requires |b| >= HEAD_LEN && AllZero(b[136..160])
    requires b[0..24] == Preamble(Flags(c), |c.segments| % TWO32, |PRINT_META(c.meta)| % TWO32)
    requires b[24..120] == Refs(c) && b[120..136] == Rates(c)
    ensures b[0..HEAD_LEN] == Head(c)
  {
    hide Preamble, Refs, Rates, Flags;
    ZerosAre(b[136..160], 24);
    Paste(b, 0, 24, 120);
    Paste(b, 0, 120, 136);
    Paste(b, 0, 136, 160);
  }

  lemma FrontOf(b: seq<byte>, c: DilogContainer)
    requires |b| >= HEAD_LEN + Pad8(|PRINT_META(c.meta)|) && b[0..HEAD_LEN] == Head(c)
    requires b[HEAD_LEN..HEAD_LEN + |PRINT_META(c.meta)|] == PRINT_META(c.meta)
    requires AllZero(b[HEAD_LEN + |PRINT_META(c.meta)|..HEAD_LEN + Pad8(|PRINT_META(c.meta)|)])
    ensures b[0..|Front(c)|] == Front(c)
  {
    hide Head, Pad8;
    var n := |PRINT_META(c.meta)|;
    ZerosAre(b[HEAD_LEN + n..HEAD_LEN + Pad8(n)], Pad8(n) - n);
    Paste(b, HEAD_LEN, HEAD_LEN + n, HEAD_LEN + Pad8(n));
    Paste(b, 0, HEAD_LEN, HEAD_LEN + Pad8(n));
  }

  lemma IdsOf(e: seq<byte>, s: ContainerSegment)
    requires |e| == ENTRY_LEN && s == ParseEntry(e, s.blob)
    ensures e[0..136] == EntryIds(s)
  {
    hide LE64, Get64;
    Word64Bytes(e[0..8]);
    Paste(e, 8, 40, 72);
    Paste(e, 8, 72, 104);
    Paste(e, 8, 104, 136);
    Paste(e, 0, 8, 136);
  }

  lemma EntryOf(e: seq<byte>, s: ContainerSegment, off: nat)
    requires |e| == ENTRY_LEN && s == ParseEntry(e, s.blob)
    requires Get64(e[136..144]) == off && Get64(e[144..152]) == |s.blob.bytes|
    ensures e == TableEntry(s, off)
  {
    hide LE64, Get64, ParseEntry, EntryIds;
    IdsOf(e, s);
    Word64Bytes(e[136..144]);
    Word64Bytes(e[144..152]);
    SmallMod(off, Get64(e[136..144]));
    SmallMod(|s.blob.bytes|, Get64(e[144..152]));
    Paste(e, 136, 144, 152);
    Paste(e, 0, 136, 152);
    assert e[0..152] == e;
  }

  lemma SmallMod(n: nat, w: u64)
    requires n == w
    ensures n % TWO64 == w
  {
  }

  lemma BlobOf(b: seq<byte>, off: nat, s: ContainerSegment, footer: nat)
    requires off % 8 == 0 && off <= footer <= |b| && BlobAt(b, off, |s.blob.bytes|, footer) == Ok(s.blob.bytes)
    ensures off + |Blob(s)| == Pad8(off + |s.blob.bytes|) && Has(b, off, Blob(s))
  {
    var n := |s.blob.bytes|;
    Pad8Adds(off, n);
    ZerosAre(b[off + n..Pad8(off + n)], Pad8(n) - n);
    Paste(b, off, off + n, off + Pad8(n));
  }

  predicate Aligned(n: nat) { n % 8 == 0 }

  /** The entries and blobs read so far stand where they would be written. */
  ghost predicate SoFar(b: seq<byte>, l: Layout, off: nat, segs: seq<ContainerSegment>) {
    && l.Fits(b) && |segs| <= l.count && Aligned(off) && off == l.blobsOff + |Blobs(segs)| && off <= l.footer
    && Has(b, l.tableOff, Table(segs, l.blobsOff)) && Has(b, l.blobsOff, Blobs(segs))
    && ChainedIn(b, segs)
  }

  /** The chain, with the root and the machine the header names. */
  ghost predicate ChainedIn(b: seq<byte>, segs: seq<ContainerSegment>)
    requires |b| >= HEAD_LEN
  {
    Chained(b[24..56], MachineOf(b), segs)
  }

  lemma SoFarStart(b: seq<byte>, l: Layout)
    requires l.Fits(b) && Aligned(l.tableOff)
    ensures SoFar(b, l, l.blobsOff, [])
  {
    TableAligned(l.tableOff, l.count);
  }

  lemma TableGrows(segs: seq<ContainerSegment>, s: ContainerSegment, off: nat)
    ensures Table(segs + [s], off) == Table(segs, off) + TableEntry(s, off + |Blobs(segs)|)
    ensures Blobs(segs + [s]) == Blobs(segs) + Blob(s)
  {
    hide TableEntry, Blob;
    assert (segs + [s])[..|segs|] == segs;
  }

  lemma ChainGrows(root: Hash32, m: Machine, segs: seq<ContainerSegment>, s: ContainerSegment)
    requires Chained(root, m, segs) && Sound(s) && Agrees(s, m, BaseBefore(root, segs, |segs|))
    ensures Chained(root, m, segs + [s])
  {
    hide Sound, Agrees;
    var more := segs + [s];
    forall k | 0 <= k < |more|
      ensures Sound(more[k]) && Agrees(more[k], m, BaseBefore(root, more, k))
    {
      assert BaseBefore(root, more, k) == BaseBefore(root, segs, k);
      if k < |segs| {
        assert more[k] == segs[k];
      }
    }
  }

  lemma ChainGrowsIn(b: seq<byte>, segs: seq<ContainerSegment>, s: ContainerSegment)
    requires |b| >= HEAD_LEN && ChainedIn(b, segs) && Sound(s) && Agrees(s, MachineOf(b), NextBase(b, segs))
    ensures ChainedIn(b, segs + [s])
  {
    hide Chained, Sound, Agrees, MachineOf;
    assert NextBase(b, segs) == BaseBefore(b[24..56], segs, |segs|);
    ChainGrows(b[24..56], MachineOf(b), segs, s);
  }

  lemma BlobSound(bytes: seq<byte>, idx: nat, s: ContainerSegment)
    requires ReadBlob(bytes, idx) == Ok(s.blob)
    ensures Sound(s)
  {
  }

  lemma SoFarParts(b: seq<byte>, l: Layout, off: nat, segs: seq<ContainerSegment>)
    requires SoFar(b, l, off, segs)
    ensures l.Fits(b) && |b| >= HEAD_LEN && l.footer <= |b|
    ensures |segs| <= l.count && off % 8 == 0 && off == l.blobsOff + |Blobs(segs)| && off <= l.footer
  {
    hide Chained, Blobs, Table, Has, TableLen;
  }

  lemma SoFarStands(b: seq<byte>, l: Layout, off: nat, segs: seq<ContainerSegment>)
    requires SoFar(b, l, off, segs) && |b| >= HEAD_LEN
    ensures Has(b, l.tableOff, Table(segs, l.blobsOff)) && Has(b, l.blobsOff, Blobs(segs))
    ensures ChainedIn(b, segs)
  {
    hide ChainedIn, Blobs, Table, Has, TableLen;
  }

  lemma SoFarFrom(b: seq<byte>, l: Layout, off: nat, segs: seq<ContainerSegment>)
    requires l.Fits(b) && |b| >= HEAD_LEN && |segs| <= l.count && off % 8 == 0 && off == l.blobsOff + |Blobs(segs)|
             && off <= l.footer
    requires Has(b, l.tableOff, Table(segs, l.blobsOff)) && Has(b, l.blobsOff, Blobs(segs))
    requires ChainedIn(b, segs)
    ensures SoFar(b, l, off, segs)
  {
    hide ChainedIn, Blobs, Table, Has, TableLen;
  }

  lemma EntryStands(b: seq<byte>, l: Layout, i: nat)
    requires i < l.count && l.Fits(b)
    ensures Has(b, l.tableOff + TableLen(i), EntryBytes(b, l, i))
  {
    EntryFits(l, i, b);
  }

  lemma SoFarStep(b: seq<byte>, l: Layout, off: nat, segs: seq<ContainerSegment>, s: ContainerSegment)
    requires SoFar(b, l, off, segs) && l.Fits(b) && off <= l.footer && |segs| < l.count
    requires ReadEntry(b, l, |segs|, off, NextBase(b, segs)) == Ok(s)
    ensures SoFar(b, l, Pad8(off + |s.blob.bytes|), segs + [s])
  {
    hide *;
    SoFarParts(b, l, off, segs);
    SoFarStands(b, l, off, segs);
    EntryIs(b, l, |segs|, off, NextBase(b, segs), s);
    EntryEnds(b, l, |segs|, off, NextBase(b, segs));
    EntryOf(EntryBytes(b, l, |segs|), s, off);
    EntryStands(b, l, |segs|);
    BlobOf(b, off, s, l.footer);
    TableGrows(segs, s, l.blobsOff);
    HasBoth(b, l.tableOff, Table(segs, l.blobsOff), TableEntry(s, off));
    HasBoth(b, l.blobsOff, Blobs(segs), Blob(s));
    BlobSound(s.blob.bytes, |segs| + 1, s);
    ChainGrowsIn(b, segs, s);
    PadIsAligned(off + |s.blob.bytes|);
    SoFarFrom(b, l, Pad8(off + |s.blob.bytes|), segs + [s]);
  }

  lemma PadIsAligned(n: nat)
    ensures Pad8(n) % 8 == 0
  {
  }

  lemma ReadFromTurn(b: seq<byte>, l: Layout, i: nat, off: nat, segs: seq<ContainerSegment>, s: ContainerSegment)
    requires i < l.count && l.Fits(b) && off <= l.footer
    requires Pad8(off + |s.blob.bytes|) <= l.footer
    ensures ReadEntry(b, l, i, off, NextBase(b, segs)) == Ok(s) ==>
              ReadFrom(b, l, i, off, segs) == ReadFrom(b, l, i + 1, Pad8(off + |s.blob.bytes|), segs + [s])
  {
    hide Pad8, ReadEntry, Finish, NextBase;
    EntryEnds(b, l, i, off, NextBase(b, segs));
  }

  lemma FaultStops(b: seq<byte>, l: Layout, i: nat, off: nat, segs: seq<ContainerSegment>)
    requires i < l.count && l.Fits(b) && off <= l.footer && ReadFrom(b, l, i, off, segs).Ok?
    ensures ReadEntry(b, l, i, off, NextBase(b, segs)).Ok?
  {
    hide Pad8, ReadEntry, Finish, NextBase;
  }

  lemma ReadFromDone(b: seq<byte>, l: Layout, off: nat, segs: seq<ContainerSegment>)
    requires l.Fits(b) && off <= l.footer
    ensures ReadFrom(b, l, l.count, off, segs) == Finish(b, l, off, segs)
  {
  }

  lemma FinishSegments(b: seq<byte>, l: Layout, off: nat, segs: seq<ContainerSegment>, c: DilogContainer)
    requires |b| >= HEAD_LEN && Finish(b, l, off, segs) == Ok(c)
    ensures c.segments == segs && off == l.footer && Finish(b, l, l.footer, c.segments) == Ok(c)
  {
  }

  /** Whatever is read has, entry by entry, the bytes it was read from. */
  lemma {:induction false} ReadFromSound(b: seq<byte>, l: Layout, off: nat, segs: seq<ContainerSegment>,
                                         c: DilogContainer)
    requires SoFar(b, l, off, segs) && |segs| <= l.count && l.Fits(b) && off <= l.footer
    requires ReadFrom(b, l, |segs|, off, segs) == Ok(c)
    ensures SoFar(b, l, l.footer, c.segments) && |c.segments| == l.count && |b| >= HEAD_LEN
    ensures Finish(b, l, l.footer, c.segments) == Ok(c)
    decreases l.count - |segs|
  {
    hide *;
    SoFarParts(b, l, off, segs);
    if |segs| == l.count {
      ReadFromDone(b, l, off, segs);
      FinishSegments(b, l, off, segs, c);
    } else {
      var e := ReadEntry(b, l, |segs|, off, NextBase(b, segs));
      FaultStops(b, l, |segs|, off, segs);
      var s := e.value;
      EntryEnds(b, l, |segs|, off, NextBase(b, segs));
      ReadFromTurn(b, l, |segs|, off, segs, s);
      SoFarStep(b, l, off, segs, s);
      ReadFromSound(b, l, Pad8(off + |s.blob.bytes|), segs + [s], c);
    }
  }

  lemma EndsAre(b: seq<byte>)
    requires CheckEnds(b) == None
    ensures |b| >= HEAD_LEN + FOOTER_LEN && b[0..8] == CONTAINER_MAGIC && Get32(b[8..12]) == CONTAINER_VERSION
    ensures Get32(b[12..16]) <= 1 && AllZero(b[136..160])
    ensures Has(b, |b| - FOOTER_LEN, BLAKE3(b[0..|b| - FOOTER_LEN]) + END_MAGIC)
  {
    hide Get32;
    Paste(b, |b| - FOOTER_LEN, |b| - 8, |b|);
  }

  lemma LayoutIs(b: seq<byte>, l: Layout)
    requires |b| >= HEAD_LEN + FOOTER_LEN && ReadLayout(b) == Ok(l)
    ensures var n := |PRINT_META(l.meta)|;
            && l.Fits(b) && 0 < l.count == Get32(b[16..20]) < TWO32 && n == Get32(b[20..24]) < TWO32
            && l.tableOff == HEAD_LEN + Pad8(n) && l.tableOff % 8 == 0 && l.footer == |b| - FOOTER_LEN
            && HEAD_LEN + Pad8(n) <= |b|
            && b[HEAD_LEN..HEAD_LEN + n] == PRINT_META(l.meta) && AllZero(b[HEAD_LEN + n..HEAD_LEN + Pad8(n)])
            && l.meta.version == 1 && PARSE_META(PRINT_META(l.meta)) == Some(l.meta)
  {
    hide Get32;
  }

  lemma FinishIs(b: seq<byte>, l: Layout, segs: seq<ContainerSegment>, c: DilogContainer)
    requires |b| >= HEAD_LEN && Finish(b, l, l.footer, segs) == Ok(c) && Get32(b[12..16]) <= 1
    ensures c.segments == segs && c.meta == l.meta && c.epochHashesEverywhere == AllEpochs(segs)
    ensures Flags(c) == Get32(b[12..16]) && MachineOf(b) == MachineIn(c)
    ensures c.rootRef == b[24..56] && c.guestImage == b[56..88] && c.machineConfig == b[88..120]
    ensures c.clockNum == Get32(b[120..124]) && c.clockDen == Get32(b[124..128])
    ensures c.fpsNum == Get32(b[128..132]) && c.fpsDen == Get32(b[132..136])
  {
    hide Get32, AllEpochs;
  }

  lemma SmallWord(n: nat, w: u32)
    requires n == w
    ensures n % TWO32 == w
  {
  }

  /** The front of what was read is the front of what would be written. */
  lemma FrontStands(b: seq<byte>, l: Layout, c: DilogContainer)
    requires CheckEnds(b) == None && |b| >= HEAD_LEN + FOOTER_LEN && ReadLayout(b) == Ok(l)
    requires |c.segments| == l.count && Finish(b, l, l.footer, c.segments) == Ok(c)
    ensures |Front(c)| == l.tableOff && Has(b, 0, Front(c))
  {
    hide *;
    EndsAre(b);
    LayoutIs(b, l);
    FinishIs(b, l, c.segments, c);
    HeadLengths(b);
    PreambleOf(b);
    SmallWord(|c.segments|, Get32(b[16..20]));
    SmallWord(|PRINT_META(c.meta)|, Get32(b[20..24]));
    RefsOf(b, c);
    RatesOf(b, c);
    HeadOf(b, c);
    FrontOf(b, c);
    HasFront(b, Front(c));
  }

  lemma HeadLengths(b: seq<byte>)
    requires |b| >= HEAD_LEN + FOOTER_LEN
    ensures |b| >= 200 && HEAD_LEN == 160
  {
  }

  lemma BodyIs(c: DilogContainer)
    ensures Body(c) == Front(c) + Table(c.segments, BlobsOff(c)) + Blobs(c.segments)
    ensures Encode(c) == Body(c) + (BLAKE3(Body(c)) + END_MAGIC)
    ensures BlobsOff(c) == |Front(c)| + TableLen(|c.segments|)
            && |Table(c.segments, BlobsOff(c))| == TableLen(|c.segments|)
  {
    hide Front, Table, Blobs;
  }

  lemma WholeIs(b: seq<byte>, x: seq<byte>, y: seq<byte>)
    requires Has(b, 0, x) && Has(b, |x|, y) && |b| == |x| + |y|
    ensures b == x + y
  {
    HasBoth(b, 0, x, y);
  }

  lemma LayoutExtent(b: seq<byte>, l: Layout)
    requires l.Fits(b)
    ensures l.blobsOff == l.tableOff + TableLen(l.count) && l.footer <= |b| && |b| >= HEAD_LEN
  {
  }

  lemma DecodeParts(b: seq<byte>, c: DilogContainer)
    requires Decode(b) == Ok(c)
    ensures CheckEnds(b) == None && |b| >= HEAD_LEN + FOOTER_LEN && ReadLayout(b).Ok?
    ensures var l := ReadLayout(b).value;
            l.Fits(b) && l.footer == |b| - FOOTER_LEN && l.blobsOff <= l.footer
            && ReadFrom(b, l, 0, l.blobsOff, []) == Ok(c)
  {
    hide ReadFrom, ReadLayout;
  }

  lemma FooterLen(h: Hash32)
    ensures |h + END_MAGIC| == FOOTER_LEN
  {
  }

  lemma CanonicalFrom(c: DilogContainer, count: nat)
    requires |c.segments| == count && 0 < count < TWO32 && |PRINT_META(c.meta)| < TWO32 && |Encode(c)| < TWO64
    requires c.meta.version == 1 && PARSE_META(PRINT_META(c.meta)) == Some(c.meta)
    requires c.epochHashesEverywhere == AllEpochs(c.segments) && Chained(c.rootRef, MachineIn(c), c.segments)
    ensures Canonical(c)
  {
    hide Chained, AllEpochs, Encode;
  }

  lemma ChainedInIs(b: seq<byte>, c: DilogContainer)
    requires |b| >= HEAD_LEN && ChainedIn(b, c.segments) && c.rootRef == b[24..56] && MachineOf(b) == MachineIn(c)
    ensures Chained(c.rootRef, MachineIn(c), c.segments)
  {
    hide Chained, MachineOf, MachineIn;
  }

  /** Canonical encoding: whatever is read, writing it gives back the same bytes, for
      every byte string; and it is canonical, if its length fits a machine word. */
  lemma WriteOfRead(b: seq<byte>, c: DilogContainer)
    requires Decode(b) == Ok(c)
    ensures Encode(c) == b
    ensures |b| < TWO64 ==> Canonical(c)
  {
    hide *;
    DecodeParts(b, c);
    var l := ReadLayout(b).value;
    LayoutIs(b, l);
    LayoutExtent(b, l);
    SoFarStart(b, l);
    ReadFromSound(b, l, l.blobsOff, [], c);
    SoFarParts(b, l, l.footer, c.segments);
    SoFarStands(b, l, l.footer, c.segments);
    FrontStands(b, l, c);
    BodyIs(c);
    HasBoth(b, 0, Front(c), Table(c.segments, BlobsOff(c)));
    HasBoth(b, 0, Front(c) + Table(c.segments, BlobsOff(c)), Blobs(c.segments));
    PrefixIs(b, Body(c));
    EndsAre(b);
    FooterLen(BLAKE3(Body(c)));
    WholeIs(b, Body(c), BLAKE3(Body(c)) + END_MAGIC);
    FinishIs(b, l, c.segments, c);
    if |b| < TWO64 {
      ChainedInIs(b, c);
      CanonicalFrom(c, l.count);
    }
  }

  // ---- what was written is read back ----

  lemma PreambleCuts(b: seq<byte>, flags: u32, count: u32, metaLen: u32)
    requires Has(b, 0, Preamble(flags, count, metaLen))
    ensures |b| >= 24 && b[0..8] == CONTAINER_MAGIC && Get32(b[8..12]) == CONTAINER_VERSION
    ensures Get32(b[12..16]) == flags && Get32(b[16..20]) == count && Get32(b[20..24]) == metaLen
  {
    hide LE32, Get32;
    Cut2(b, 0, CONTAINER_MAGIC, LE32(CONTAINER_VERSION) + LE32(flags) + LE32(count) + LE32(metaLen));
    Cut4(b, 8, LE32(CONTAINER_VERSION), LE32(flags), LE32(count), LE32(metaLen));
    Word32(CONTAINER_VERSION);
    Word32(flags);
    Word32(count);
    Word32(metaLen);
  }

  lemma RefsCuts(b: seq<byte>, c: DilogContainer)
    requires Has(b, 24, Refs(c))
    ensures |b| >= 120 && b[24..56] == c.rootRef && b[56..88] == c.guestImage && b[88..120] == c.machineConfig
  {
    Cut3(b, 24, c.rootRef, c.guestImage, c.machineConfig);
  }

  lemma RatesCuts(b: seq<byte>, c: DilogContainer)
    requires Has(b, 120, Rates(c))
    ensures |b| >= 136 && Get32(b[120..124]) == c.clockNum && Get32(b[124..128]) == c.clockDen
    ensures Get32(b[128..132]) == c.fpsNum && Get32(b[132..136]) == c.fpsDen
  {
    hide LE32, Get32;
    Cut4(b, 120, LE32(c.clockNum), LE32(c.clockDen), LE32(c.fpsNum), LE32(c.fpsDen));
    Word32(c.clockNum);
    Word32(c.clockDen);
    Word32(c.fpsNum);
    Word32(c.fpsDen);
  }

  lemma ZerosCut(b: seq<byte>, at: nat, n: nat)
    requires Has(b, at, Zeros(n))
    ensures at + n <= |b| && AllZero(b[at..at + n])
  {
    assert b[at..at + n] == Zeros(n);
  }

  lemma HeadIs(c: DilogContainer)
    requires |c.segments| < TWO32 && |PRINT_META(c.meta)| < TWO32
    ensures Head(c) == Preamble(Flags(c), |c.segments|, |PRINT_META(c.meta)|) + Refs(c) + Rates(c) + Zeros(24)
  {
    SmallWord(|c.segments|, |c.segments|);
    SmallWord(|PRINT_META(c.meta)|, |PRINT_META(c.meta)|);
    hide Preamble, Refs, Rates, Flags;
  }

  /** The header fields of a written container. */
  ghost predicate HeadReads(b: seq<byte>, c: DilogContainer) {
    && |b| >= 160 && b[0..8] == CONTAINER_MAGIC && Get32(b[8..12]) == CONTAINER_VERSION
    && Get32(b[12..16]) == Flags(c) && Get32(b[16..20]) == |c.segments| && Get32(b[20..24]) == |PRINT_META(c.meta)|
    && b[24..56] == c.rootRef && b[56..88] == c.guestImage && b[88..120] == c.machineConfig
    && Get32(b[120..124]) == c.clockNum && Get32(b[124..128]) == c.clockDen
    && Get32(b[128..132]) == c.fpsNum && Get32(b[132..136]) == c.fpsDen
    && AllZero(b[136..160])
  }

  lemma HeadReadsFrom(b: seq<byte>, c: DilogContainer)
    requires |c.segments| < TWO32 && |PRINT_META(c.meta)| < TWO32 && Has(b, 0, Head(c))
    ensures HeadReads(b, c)
  {
    hide Has, Head, Refs, Rates, Preamble, Get32, Flags;
    var p := Preamble(Flags(c), |c.segments|, |PRINT_META(c.meta)|);
    HeadIs(c);
    HasBoth(b, 0, p + Refs(c) + Rates(c), Zeros(24));
    HasBoth(b, 0, p + Refs(c), Rates(c));
    HasBoth(b, 0, p, Refs(c));
    PreambleCuts(b, Flags(c), |c.segments|, |PRINT_META(c.meta)|);
    RefsCuts(b, c);
    RatesCuts(b, c);
    ZerosCut(b, 136, 24);
  }

  lemma EndsOfWrite(b: seq<byte>, c: DilogContainer, x: seq<byte>)
    requires HeadReads(b, c) && b == x + (BLAKE3(x) + END_MAGIC) && |x| >= HEAD_LEN
    ensures CheckEnds(b) == None
  {
    hide Get32;
    var h := BLAKE3(x);
    assert b[0..|b| - FOOTER_LEN] == x;
    assert b[|x|..|x| + 32 + 8] == h + END_MAGIC;
    Cut2(b, |x|, h, END_MAGIC);
    assert Flags(c) <= 1;
  }

  /** Where the parts of a written container lie. */
  function LayoutOf(c: DilogContainer): Layout {
    Layout(|c.segments|, c.meta, |Front(c)|, BlobsOff(c), |Body(c)|)
  }

  /** The metadata and its padding. */
  lemma MetaStands(b: seq<byte>, c: DilogContainer)
    requires Has(b, 0, Front(c))
    ensures Has(b, 0, Head(c)) && Has(b, HEAD_LEN, PRINT_META(c.meta))
    ensures var n := |PRINT_META(c.meta)|;
            HEAD_LEN + Pad8(n) <= |b| && AllZero(b[HEAD_LEN + n..HEAD_LEN + Pad8(n)])
  {
    hide Has, Head, Pad8;
    var meta, n := PRINT_META(c.meta), |PRINT_META(c.meta)|;
    HasBoth(b, 0, Head(c), meta + Padding(n));
    HasBoth(b, HEAD_LEN, meta, Padding(n));
    ZerosCut(b, HEAD_LEN + n, Pad8(n) - n);
  }

  lemma LayoutFrom(b: seq<byte>, meta: Meta, tableOff: nat, footer: nat)
    requires |b| >= HEAD_LEN + FOOTER_LEN && footer == |b| - FOOTER_LEN
    requires var n := |PRINT_META(meta)|;
             && Get32(b[16..20]) > 0 && n == Get32(b[20..24]) && tableOff == HEAD_LEN + Pad8(n) <= |b|
             && Has(b, HEAD_LEN, PRINT_META(meta)) && AllZero(b[HEAD_LEN + n..tableOff])
    requires tableOff + TableLen(Get32(b[16..20])) <= footer
    requires meta.version == 1 && PARSE_META(PRINT_META(meta)) == Some(meta)
    ensures ReadLayout(b) == Ok(Layout(Get32(b[16..20]), meta, tableOff, tableOff + TableLen(Get32(b[16..20])), footer))
  {
    HasSlice(b, HEAD_LEN, PRINT_META(meta));
    hide Get32, Has, TableLen;
  }

  lemma CanonicalParts(c: DilogContainer)
    requires Canonical(c)
    ensures 0 < |c.segments| < TWO32 && |PRINT_META(c.meta)| < TWO32 && |Encode(c)| < TWO64
    ensures c.meta.version == 1 && PARSE_META(PRINT_META(c.meta)) == Some(c.meta)
    ensures c.epochHashesEverywhere == AllEpochs(c.segments) && Chained(c.rootRef, MachineIn(c), c.segments)
  {
    hide Encode, Chained, AllEpochs;
  }

  lemma HeadReadsParts(b: seq<byte>, c: DilogContainer)
    requires HeadReads(b, c)
    ensures |b| >= HEAD_LEN && Get32(b[12..16]) == Flags(c) && Get32(b[16..20]) == |c.segments|
            && Get32(b[20..24]) == |PRINT_META(c.meta)|
    ensures b[24..56] == c.rootRef && MachineOf(b) == MachineIn(c)
  {
    hide Get32, Flags;
  }

  lemma Extent(c: DilogContainer)
    ensures |Body(c)| == BlobsOff(c) + |Blobs(c.segments)| && BlobsOff(c) == |Front(c)| + TableLen(|c.segments|)
    ensures |Front(c)| == HEAD_LEN + Pad8(|PRINT_META(c.meta)|)
    ensures |Encode(c)| == |Body(c)| + FOOTER_LEN && |Front(c)| >= HEAD_LEN
    ensures LayoutOf(c) == Layout(|c.segments|, c.meta, |Front(c)|, BlobsOff(c), |Body(c)|)
  {
    hide Front, Table, Blobs;
    FooterLen(BLAKE3(Body(c)));
  }

  lemma LayoutOfWrite(b: seq<byte>, c: DilogContainer)
    requires Canonical(c) && HeadReads(b, c) && Has(b, 0, Front(c)) && |b| == |Body(c)| + FOOTER_LEN
    ensures |b| >= HEAD_LEN + FOOTER_LEN && ReadLayout(b) == Ok(LayoutOf(c))
  {
    hide *;
    CanonicalParts(c);
    HeadReadsParts(b, c);
    MetaStands(b, c);
    Extent(c);
    LayoutFrom(b, c.meta, |Front(c)|, |Body(c)|);
  }

  lemma {:induction false} TableHas(b: seq<byte>, at: nat, segs: seq<ContainerSegment>, off: nat, i: nat)
    requires i < |segs| && Has(b, at, Table(segs, off))
    ensures Has(b, at + TableLen(i), TableEntry(segs[i], off + |Blobs(segs[..i])|))
    decreases |segs|
  {
    hide Has, TableEntry, TableLen, Blobs;
    var n := |segs| - 1;
    var front := segs[..n];
    HasBoth(b, at, Table(front, off), TableEntry(segs[n], off + |Blobs(front)|));
    if i < n {
      TableHas(b, at, front, off, i);
      assert front[..i] == segs[..i];
    }
  }

  lemma {:induction false} BlobsHas(b: seq<byte>, at: nat, segs: seq<ContainerSegment>, i: nat)
    requires i < |segs| && Has(b, at, Blobs(segs))
    ensures Has(b, at + |Blobs(segs[..i])|, Blob(segs[i])) && |Blobs(segs[..i])| + |Blob(segs[i])| <= |Blobs(segs)|
    decreases |segs|
  {
    hide Has, Blob;
    var n := |segs| - 1;
    var front := segs[..n];
    HasBoth(b, at, Blobs(front), Blob(segs[n]));
    if i < n {
      BlobsHas(b, at, front, i);
      assert front[..i] == segs[..i];
    }
  }

  lemma EntryCuts(e: seq<byte>, s: ContainerSegment, off: u64)
    requires e == TableEntry(s, off) && |s.blob.bytes| < TWO64
    ensures |e| == 152 && Get64(e[136..144]) == off && Get64(e[144..152]) == |s.blob.bytes|
    ensures ParseEntry(e, s.blob) == s
  {
    hide LE64, Get64;
    var n: u64 := |s.blob.bytes|;
    SmallMod(off, off);
    SmallMod(n, n);
    assert e[0..152] == e;
    Cut2(e, 0, EntryIds(s), LE64(off) + LE64(n));
    Cut2(e, 136, LE64(off), LE64(n));
    Cut2(e, 0, LE64(s.nodeId), s.baseRef + s.childRef + s.endStateHash + s.logId);
    Cut4(e, 8, s.baseRef, s.childRef, s.endStateHash, s.logId);
    Word64(off);
    Word64(n);
    Word64(s.nodeId);
  }

  lemma BlobReads(b: seq<byte>, off: nat, s: ContainerSegment, footer: nat)
    requires Has(b, off, Blob(s)) && off % 8 == 0 && off + |Blob(s)| <= footer <= |b|
    ensures off <= footer && BlobAt(b, off, |s.blob.bytes|, footer) == Ok(s.blob.bytes)
    ensures Pad8(off + |s.blob.bytes|) == off + |Blob(s)|
  {
    var n := |s.blob.bytes|;
    Pad8Adds(off, n);
    HasBoth(b, off, s.blob.bytes, Padding(n));
    ZerosCut(b, off + n, Pad8(n) - n);
    hide Pad8, Padding;
  }

  lemma SoundReads(s: ContainerSegment, idx: nat)
    requires Sound(s)
    ensures ReadBlob(s.blob.bytes, idx) == Ok(s.blob)
  {
    hide Verdict, ParseHeader;
    assert Segment(s.blob.bytes, s.blob.header) == s.blob;
    SoundParses(s);
  }

  lemma SoundParses(s: ContainerSegment)
    requires Sound(s)
    ensures ParseHeader(s.blob.bytes) == Ok(s.blob.header)
  {
    hide Verdict, ParseHeader;
  }

  lemma EntryFrom(b: seq<byte>, l: Layout, i: nat, off: nat, base: Hash32, s: ContainerSegment)
    requires i < l.count && l.Fits(b) && off <= l.footer
    requires var e := EntryBytes(b, l, i);
             Get64(e[136..144]) == off && Get64(e[144..152]) == |s.blob.bytes| && ParseEntry(e, s.blob) == s
    requires BlobAt(b, off, |s.blob.bytes|, l.footer) == Ok(s.blob.bytes) && ReadBlob(s.blob.bytes, i + 1) == Ok(s.blob)
    requires Agrees(s, MachineOf(b), base)
    ensures ReadEntry(b, l, i, off, base) == Ok(s)
  {
    hide Pad8, EntryBytes, BlobAt, ReadBlob, ParseEntry, Agrees, MachineOf, Get64, Verdict, ParseHeader;
  }

  /** Where the `i`th blob of a container starts. */
  function BlobOff(c: DilogContainer, i: nat): nat
    requires i <= |c.segments|
  {
    BlobsOff(c) + |Blobs(c.segments[..i])|
  }

  lemma BlobOffDef(c: DilogContainer, i: nat)
    requires i <= |c.segments|
    ensures BlobOff(c, i) == BlobsOff(c) + |Blobs(c.segments[..i])|
  {
    hide Blobs, BlobsOff;
  }

  lemma SumAligned(m: nat, n: nat)
    requires m % 8 == 0 && n % 8 == 0
    ensures (m + n) % 8 == 0
  {
  }

  lemma BlobOffStep(c: DilogContainer, i: nat)
    requires i < |c.segments|
    ensures BlobOff(c, i) % 8 == 0 && BlobOff(c, i + 1) == BlobOff(c, i) + |Blob(c.segments[i])|
  {
    hide *;
    Extent(c);
    FrontAligned(c);
    TableAligned(|Front(c)|, |c.segments|);
    BlobsAligned(c.segments[..i]);
    TableSnoc(c.segments, i, 0);
    BlobOffDef(c, i);
    BlobOffDef(c, i + 1);
    SumAligned(BlobsOff(c), |Blobs(c.segments[..i])|);
  }

  lemma BlobOffEnds(c: DilogContainer)
    ensures BlobOff(c, 0) == BlobsOff(c) && BlobOff(c, |c.segments|) == |Body(c)|
  {
    hide *;
    Extent(c);
    NoBlobs();
    assert c.segments[..|c.segments|] == c.segments;
    assert c.segments[..0] == [];
    BlobOffDef(c, 0);
    BlobOffDef(c, |c.segments|);
  }

  lemma LinkAt(c: DilogContainer, i: nat)
    requires Chained(c.rootRef, MachineIn(c), c.segments) && i < |c.segments|
    ensures Sound(c.segments[i]) && Agrees(c.segments[i], MachineIn(c), BaseBefore(c.rootRef, c.segments, i))
  {
  }

  lemma BaseOfPrefix(b: seq<byte>, c: DilogContainer, i: nat)
    requires i <= |c.segments| && |b| >= HEAD_LEN && b[24..56] == c.rootRef
    ensures NextBase(b, c.segments[..i]) == BaseBefore(c.rootRef, c.segments, i)
  {
  }

  lemma LayoutFits(b: seq<byte>, c: DilogContainer)
    requires |b| == |Body(c)| + FOOTER_LEN
    ensures LayoutOf(c).Fits(b) && LayoutOf(c).count == |c.segments| && LayoutOf(c).footer == |Body(c)|
    ensures LayoutOf(c).tableOff == |Front(c)| && LayoutOf(c).blobsOff == BlobsOff(c)
  {
    hide Front, Body, Blobs, TableLen;
    Extent(c);
  }

  lemma EntryIsStretch(b: seq<byte>, l: Layout, i: nat, x: seq<byte>)
    requires i < l.count && l.Fits(b) && Has(b, l.tableOff + TableLen(i), x) && |x| == ENTRY_LEN
    ensures EntryBytes(b, l, i) == x
  {
    EntryFits(l, i, b);
  }

  /** The bytes a written container has where they are looked for. */
  ghost predicate Stands(b: seq<byte>, c: DilogContainer) {
    && |b| == |Body(c)| + FOOTER_LEN && HeadReads(b, c) && Has(b, 0, Front(c))
    && Has(b, |Front(c)|, Table(c.segments, BlobsOff(c))) && Has(b, BlobsOff(c), Blobs(c.segments))
  }

  lemma StandsParts(b: seq<byte>, c: DilogContainer)
    requires Stands(b, c)
    ensures |b| == |Body(c)| + FOOTER_LEN && HeadReads(b, c) && Has(b, 0, Front(c))
    ensures Has(b, |Front(c)|, Table(c.segments, BlobsOff(c))) && Has(b, BlobsOff(c), Blobs(c.segments))
  {
    hide HeadReads, Has, Body, Front, Table, Blobs;
  }

  lemma BlobWithin(c: DilogContainer, i: nat)
    requires i < |c.segments| && |Encode(c)| < TWO64
    ensures BlobOff(c, i) + |Blob(c.segments[i])| <= |Body(c)| && BlobOff(c, i) < TWO64
            && |c.segments[i].blob.bytes| < TWO64
  {
    BlobsHas(Blobs(c.segments), 0, c.segments, i);
    Extent(c);
    hide Front, Blobs, Body, Encode, TableLen;
  }

  lemma TableEntrySize(s: ContainerSegment, off: nat)
    ensures |TableEntry(s, off)| == ENTRY_LEN
  {
  }

  /** Each entry of a written container reads back as its segment. */
  lemma EntryOfWrite(b: seq<byte>, c: DilogContainer, i: nat)
    requires Canonical(c) && Stands(b, c) && i < |c.segments|
    ensures |b| >= HEAD_LEN && LayoutOf(c).Fits(b) && LayoutOf(c).count == |c.segments|
            && BlobOff(c, i) <= LayoutOf(c).footer
    ensures BlobOff(c, i + 1) <= LayoutOf(c).footer
            && Pad8(BlobOff(c, i) + |c.segments[i].blob.bytes|) == BlobOff(c, i + 1)
    ensures ReadEntry(b, LayoutOf(c), i, BlobOff(c, i), NextBase(b, c.segments[..i])) == Ok(c.segments[i])
  {
    hide *;
    var l, s, off := LayoutOf(c), c.segments[i], BlobOff(c, i);
    CanonicalParts(c);
    StandsParts(b, c);
    HeadReadsParts(b, c);
    LayoutFits(b, c);
    BlobOffDef(c, i);
    BlobOffStep(c, i);
    BlobWithin(c, i);
    TableHas(b, |Front(c)|, c.segments, BlobsOff(c), i);
    TableEntrySize(s, off);
    EntryIsStretch(b, l, i, TableEntry(s, off));
    EntryCuts(EntryBytes(b, l, i), s, off);
    BlobsHas(b, BlobsOff(c), c.segments, i);
    BodyWithin(b, c);
    BlobReads(b, off, s, l.footer);
    LinkAt(c, i);
    SoundReads(s, i + 1);
    BaseOfPrefix(b, c, i);
    EntryFrom(b, l, i, off, NextBase(b, c.segments[..i]), s);
  }

  lemma BodyWithin(b: seq<byte>, c: DilogContainer)
    requires |b| == |Body(c)| + FOOTER_LEN
    ensures |Body(c)| <= |b|
  {
    hide Body;
  }

  lemma PrefixSnoc(segs: seq<ContainerSegment>, i: nat)
    requires i < |segs|
    ensures segs[..i] + [segs[i]] == segs[..i + 1]
  {
  }

  lemma {:induction false} ReadFromOfWrite(b: seq<byte>, c: DilogContainer, i: nat)
    requires Canonical(c) && Stands(b, c) && i <= |c.segments|
    ensures |b| >= HEAD_LEN && LayoutOf(c).Fits(b) && LayoutOf(c).count == |c.segments|
            && BlobOff(c, i) <= LayoutOf(c).footer
    ensures ReadFrom(b, LayoutOf(c), i, BlobOff(c, i), c.segments[..i]) == Finish(b, LayoutOf(c), |Body(c)|, c.segments)
    decreases |c.segments| - i
  {
    hide *;
    var l, segs := LayoutOf(c), c.segments;
    StandsParts(b, c);
    HeadReadsParts(b, c);
    LayoutFits(b, c);
    CanonicalParts(c);
    if i < |segs| {
      EntryOfWrite(b, c, i);
      ReadFromTurn(b, l, i, BlobOff(c, i), segs[..i], segs[i]);
      PrefixSnoc(segs, i);
      ReadFromOfWrite(b, c, i + 1);
    } else {
      BlobOffEnds(c);
      assert segs[..|segs|] == segs;
      ReadFromDone(b, l, BlobOff(c, i), segs);
    }
  }

  lemma FinishOfWrite(b: seq<byte>, c: DilogContainer)
    requires HeadReads(b, c) && c.epochHashesEverywhere == AllEpochs(c.segments)
    ensures |b| >= HEAD_LEN && Finish(b, LayoutOf(c), |Body(c)|, c.segments) == Ok(c)
  {
    hide Get32, AllEpochs, Body, Front;
  }

  lemma StandsOfWrite(c: DilogContainer)
    requires |c.segments| < TWO32 && |PRINT_META(c.meta)| < TWO32
    ensures Stands(Encode(c), c)
  {
    hide HeadReads, Has, Body, Front, Table, Blobs;
    var b := Encode(c);
    BodyIs(c);
    Extent(c);
    assert Has(b, 0, b) by { WholeStands(b); }
    HasBoth(b, 0, Body(c), BLAKE3(Body(c)) + END_MAGIC);
    HasBoth(b, 0, Front(c) + Table(c.segments, BlobsOff(c)), Blobs(c.segments));
    HasBoth(b, 0, Front(c), Table(c.segments, BlobsOff(c)));
    MetaStands(b, c);
    HeadReadsFrom(b, c);
  }

  lemma DecodeIs(b: seq<byte>, l: Layout)
    requires CheckEnds(b) == None && |b| >= HEAD_LEN + FOOTER_LEN && ReadLayout(b) == Ok(l) && l.Fits(b)
    ensures l.blobsOff <= l.footer && Decode(b) == ReadFrom(b, l, 0, l.blobsOff, [])
  {
    hide ReadFrom, ReadLayout, CheckEnds;
  }

  /** Reading what was written gives the container back, for every canonical container. */
  lemma ReadOfWrite(c: DilogContainer)
    requires Canonical(c)
    ensures Decode(Encode(c)) == Ok(c)
  {
    hide *;
    var b := Encode(c);
    CanonicalParts(c);
    StandsOfWrite(c);
    StandsParts(b, c);
    BodyIs(c);
    Extent(c);
    EndsOfWrite(b, c, Body(c));
    LayoutOfWrite(b, c);
    LayoutFits(b, c);
    BlobOffEnds(c);
    assert c.segments[..0] == [];
    ReadFromOfWrite(b, c, 0);
    FinishOfWrite(b, c);
    DecodeIs(b, LayoutOf(c));
  }

  /** The reader accepts exactly what the writer emits. */
  lemma AcceptsExactlyWritten(b: seq<byte>)
    requires |b| < TWO64
    ensures Decode(b).Ok? <==> exists c :: Canonical(c) && Encode(c) == b
  {
    hide *;
    if Decode(b).Ok? {
      WriteOfRead(b, Decode(b).value);
    } else if c :| Canonical(c) && Encode(c) == b {
      ReadOfWrite(c);
    }
  }
}
