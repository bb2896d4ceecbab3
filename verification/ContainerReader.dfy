/** Reading a container: total over all bytes, and exactly the inverse of writing one. */
module ContainerReader {
  import opened Wrappers
  import opened Bytes
  import opened Dhilog
  import opened Validator
  import opened Rules
  import opened Container

  // ---- the reader as a function ----

  /** Where a container's parts lie, read from its header. */
  datatype Layout = Layout(count: nat, meta: Meta, tableOff: nat, blobsOff: nat, footer: nat)
  {
    predicate Fits(b: seq<byte>) {
      HEAD_LEN <= |b| && tableOff + TableLen(count) == blobsOff <= footer <= |b|
    }
  }

  /** The fixed header and the footer: magic, version, reserved bytes, integrity. */
  function CheckEnds(b: seq<byte>): Option<ContainerError> {
    if |b| < HEAD_LEN + FOOTER_LEN then Some(ContainerError.Truncated)
    else if b[0..8] != CONTAINER_MAGIC then Some(ContainerError.BadMagic)
    else if Get32(b[8..12]) != CONTAINER_VERSION then Some(UnsupportedVersion(Get32(b[8..12])))
    else if Get32(b[12..16]) > 1 then Some(ContainerError.NonzeroReserved)
    else if !AllZero(b[136..160]) then Some(ContainerError.NonzeroReserved)
    else if b[|b| - 8..|b|] != END_MAGIC then Some(BadEndMagic)
    else if BLAKE3(b[0..|b| - FOOTER_LEN]) != b[|b| - FOOTER_LEN..|b| - 8] then Some(BadFooterHash)
    else None
  }

  /** The metadata and the extent of the table. */
  function ReadLayout(b: seq<byte>): (r: Result<Layout, ContainerError>)
    requires |b| >= HEAD_LEN + FOOTER_LEN
    ensures r.Ok? ==>
              r.value.count > 0 && r.value.tableOff % 8 == 0 && r.value.Fits(b) && r.value.footer == |b| - FOOTER_LEN
  {
    var count, metaLen, footer := Get32(b[16..20]), Get32(b[20..24]), |b| - FOOTER_LEN;
    var tableOff := HEAD_LEN + Pad8(metaLen);
    var blobsOff := tableOff + TableLen(count);
    if count == 0 then Err(NonCanonical)
    else if blobsOff > footer then Err(ContainerError.Truncated)
    else if !AllZero(b[HEAD_LEN + metaLen..tableOff]) then Err(NonCanonical)
    else
      match PARSE_META(b[HEAD_LEN..HEAD_LEN + metaLen])
      case None => Err(BadMeta)
      case Some(meta) =>
        if meta.version != 1 then Err(BadMeta)
        else if PRINT_META(meta) != b[HEAD_LEN..HEAD_LEN + metaLen] then Err(NonCanonical)
        else Ok(Layout(count, meta, tableOff, blobsOff, footer))
  }

  /** What every segment must share with the container. */
  datatype Machine = Machine(config: Hash32, clockNum: u32, clockDen: u32)

  function MachineOf(b: seq<byte>): Machine
    requires |b| >= HEAD_LEN
  {
    Machine(b[88..120], Get32(b[120..124]), Get32(b[124..128]))
  }

  /** The table entry's fields without its extent. */
  function ParseEntry(e: seq<byte>, blob: Segment): ContainerSegment
    requires |e| == ENTRY_LEN
  {
    ContainerSegment(Get64(e[0..8]), e[8..40], e[40..72], e[72..104], e[104..136], blob)
  }

  /** Does an entry agree with its embedded header, the container and the chain? */
  predicate Agrees(s: ContainerSegment, m: Machine, base: Hash32) {
    var h := s.blob.header;
    && s.baseRef == h.baseSnapshot && s.childRef == h.endSnapshot && s.endStateHash == h.endStateHash
    && h.machineConfig == m.config && h.clockNum == m.clockNum && h.clockDen == m.clockDen
    && s.baseRef == base
  }

  /** The embedded segment, validated on its own. */
  function ReadBlob(bytes: seq<byte>, idx: nat): (r: Result<Segment, ContainerError>)
    ensures r.Ok? ==> r.value.Valid() && r.value.bytes == bytes
                      && r.value.header.version == SUPPORTED_VERSION && Verdict(r.value) == None
    ensures r.Err? ==> r.error == BadSegment(idx)
  {
    match ParseHeader(bytes)
    case Err(_) => Err(BadSegment(idx))
    case Ok(h) =>
      if h.version != SUPPORTED_VERSION then Err(BadSegment(idx))
      else if Verdict(Segment(bytes, h)).Some? then Err(BadSegment(idx))
      else Ok(Segment(bytes, h))
  }

  lemma EntryFits(l: Layout, i: nat, b: seq<byte>)
    requires i < l.count && l.Fits(b)
    ensures l.tableOff + TableLen(i) + ENTRY_LEN == l.tableOff + TableLen(i + 1) <= l.blobsOff <= |b|
  {
  }

  /** Table entry `i`. */
  function EntryBytes(b: seq<byte>, l: Layout, i: nat): (e: seq<byte>)
    requires i < l.count && l.Fits(b)
    ensures |e| == ENTRY_LEN
  {
    EntryFits(l, i, b);
    b[l.tableOff + TableLen(i)..l.tableOff + TableLen(i) + ENTRY_LEN]
  }

  /** The blob of `len` bytes at `off`, zero-padded before the footer. */
  function BlobAt(b: seq<byte>, off: nat, len: nat, footer: nat): (r: Result<seq<byte>, ContainerError>)
    requires off <= footer <= |b|
    ensures r.Ok? ==>
              && |r.value| == len && Pad8(off + len) <= footer
              && r.value == b[off..off + len] && AllZero(b[off + len..Pad8(off + len)])
  {
    if off + len > footer then Err(ContainerError.Truncated)
    else if Pad8(off + len) > footer then Err(ContainerError.Truncated)
    else if !AllZero(b[off + len..Pad8(off + len)]) then Err(NonCanonical)
    else Ok(b[off..off + len])
  }

  /** Segment `i`, whose blob must start at `off`. */
  function ReadEntry(b: seq<byte>, l: Layout, i: nat, off: nat,
                     base: Hash32): (r: Result<ContainerSegment, ContainerError>)
    requires i < l.count && l.Fits(b) && off <= l.footer
  {
    var e := EntryBytes(b, l, i);
    if Get64(e[136..144]) != off then Err(NonCanonical)
    else
      match BlobAt(b, off, Get64(e[144..152]), l.footer)
      case Err(x) => Err(x)
      case Ok(bytes) =>
        match ReadBlob(bytes, i + 1)
        case Err(x) => Err(x)
        case Ok(blob) =>
          var s := ParseEntry(e, blob);
          if Agrees(s, MachineOf(b), base) then Ok(s) else Err(Disagreement(i + 1))
  }

  lemma EntryIs(b: seq<byte>, l: Layout, i: nat, off: nat, base: Hash32, s: ContainerSegment)
    requires i < l.count && l.Fits(b) && off <= l.footer && ReadEntry(b, l, i, off, base) == Ok(s)
    ensures var e := EntryBytes(b, l, i);
            && Get64(e[136..144]) == off && Get64(e[144..152]) == |s.blob.bytes|
            && BlobAt(b, off, |s.blob.bytes|, l.footer) == Ok(s.blob.bytes)
            && ReadBlob(s.blob.bytes, i + 1) == Ok(s.blob)
            && s == ParseEntry(e, s.blob) && Agrees(s, MachineOf(b), base)
  {
    hide Pad8, EntryBytes, BlobAt, ReadBlob, Agrees, MachineOf, Get64, Verdict, ParseHeader;
  }

  lemma EntryEnds(b: seq<byte>, l: Layout, i: nat, off: nat, base: Hash32)
    requires i < l.count && l.Fits(b) && off <= l.footer
    ensures ReadEntry(b, l, i, off, base).Ok? ==>
              Pad8(off + |ReadEntry(b, l, i, off, base).value.blob.bytes|) <= l.footer
  {
    hide *;
    if ReadEntry(b, l, i, off, base).Ok? {
      EntryIs(b, l, i, off, base, ReadEntry(b, l, i, off, base).value);
    }
  }

  /** The snapshot the next entry must start from. */
  function NextBase(b: seq<byte>, segs: seq<ContainerSegment>): Hash32
    requires |b| >= HEAD_LEN
  {
    if segs == [] then b[24..56] else segs[|segs| - 1].childRef
  }

  function AllEpochs(segs: seq<ContainerSegment>): bool {
    forall i :: 0 <= i < |segs| ==> segs[i].blob.header.EpochHashes()
  }

  /** After the last entry: nothing between it and the footer, and the flag is the AND. */
  function Finish(b: seq<byte>, l: Layout, off: nat,
                  segs: seq<ContainerSegment>): Result<DilogContainer, ContainerError>
    requires |b| >= HEAD_LEN
  {
    if off != l.footer then Err(NonCanonical)
    else if (Get32(b[12..16]) % 2 == 1) != AllEpochs(segs) then Err(NonCanonical)
    else Ok(DilogContainer(AllEpochs(segs), b[24..56], b[56..88], b[88..120], Get32(b[120..124]), Get32(b[124..128]),
                           Get32(b[128..132]), Get32(b[132..136]), l.meta, segs))
  }

  function ReadFrom(b: seq<byte>, l: Layout, i: nat, off: nat,
                    segs: seq<ContainerSegment>): Result<DilogContainer, ContainerError>
    requires i <= l.count && l.Fits(b) && off <= l.footer
    decreases l.count - i
  {
    hide Pad8, ReadEntry, Finish, NextBase;
    if i == l.count then Finish(b, l, off, segs)
    else
      EntryEnds(b, l, i, off, NextBase(b, segs));
      match ReadEntry(b, l, i, off, NextBase(b, segs))
      case Err(e) => Err(e)
      case Ok(s) => ReadFrom(b, l, i + 1, Pad8(off + |s.blob.bytes|), segs + [s])
  }

  /** What reading yields, for every byte string. */
  function Decode(b: seq<byte>): Result<DilogContainer, ContainerError> {
    if CheckEnds(b).Some? then Err(CheckEnds(b).value)
    else
      match ReadLayout(b)
      case Err(e) => Err(e)
      case Ok(l) => ReadFrom(b, l, 0, l.blobsOff, [])
  }

  // ---- the reader ----

  method ReadEnds(b: seq<byte>) returns (v: Option<ContainerError>)
    ensures v == CheckEnds(b)
  {
    if |b| < HEAD_LEN + FOOTER_LEN {
      return Some(ContainerError.Truncated);
    }
    if b[0..8] != CONTAINER_MAGIC {
      return Some(ContainerError.BadMagic);
    }
    var version := Get32(b[8..12]);
    if version != CONTAINER_VERSION {
      return Some(UnsupportedVersion(version));
    }
    var flags := Get32(b[12..16]);
    if flags > 1 {
      return Some(ContainerError.NonzeroReserved);
    }
    if !AllZero(b[136..160]) {
      return Some(ContainerError.NonzeroReserved);
    }
    var footer := |b| - FOOTER_LEN;
    if b[footer + 32..|b|] != END_MAGIC {
      return Some(BadEndMagic);
    }
    if BLAKE3(b[0..footer]) != b[footer..footer + 32] {
      return Some(BadFooterHash);
    }
    v := None;
  }

  method ReadSegment(b: seq<byte>, l: Layout, i: nat, off: nat, base: Hash32)
      returns (r: Result<ContainerSegment, ContainerError>)
    requires i < l.count && l.Fits(b) && off <= l.footer
    ensures r == ReadEntry(b, l, i, off, base)
  {
    hide ParseHeader, Verdict;
    EntryFits(l, i, b);
    var e := b[l.tableOff + TableLen(i)..l.tableOff + TableLen(i) + ENTRY_LEN];
    if Get64(e[136..144]) != off {
      return Err(NonCanonical);
    }
    var blobEnd := off + Get64(e[144..152]);
    if blobEnd > l.footer {
      return Err(ContainerError.Truncated);
    }
    var paddedEnd := Pad8(blobEnd);
    if paddedEnd > l.footer {
      return Err(ContainerError.Truncated);
    }
    if !AllZero(b[blobEnd..paddedEnd]) {
      return Err(NonCanonical);
    }
    var header := ParseHeader(b[off..blobEnd]);
    if header.Err? || header.value.version != SUPPORTED_VERSION {
      return Err(BadSegment(i + 1));
    }
    BlobParsed(b[off..blobEnd], header.value);
    var blob := Segment(b[off..blobEnd], header.value);
    var issue := ValidateStructure(blob);
    if issue.Some? {
      return Err(BadSegment(i + 1));
    }
    var s := ParseEntry(e, blob);
    if !Agrees(s, MachineOf(b), base) {
      return Err(Disagreement(i + 1));
    }
    r := Ok(s);
  }

  lemma BlobParsed(bytes: seq<byte>, h: Header)
    requires ParseHeader(bytes) == Ok(h)
    ensures Segment(bytes, h).Valid()
  {
  }

  /** Parse and fully validate. */
  method Read(b: seq<byte>) returns (r: Result<DilogContainer, ContainerError>)
    ensures r == Decode(b)
  {
    hide ReadEntry, CheckEnds, Finish, NextBase, Pad8;
    var issue := ReadEnds(b);
    if issue.Some? {
      return Err(issue.value);
    }
    EndsLength(b);
    var layout := ReadLayout(b);
    if layout.Err? {
      return Err(layout.error);
    }
    var l := layout.value;
    var segments: seq<ContainerSegment> := [];
    var expectedBlobOff := l.blobsOff;
    var i := 0;
    while i < l.count
      invariant 0 <= i <= l.count && 0 <= expectedBlobOff <= l.footer
      invariant ReadFrom(b, l, 0, l.blobsOff, []) == ReadFrom(b, l, i, expectedBlobOff, segments)
    {
      EntryEnds(b, l, i, expectedBlobOff, NextBase(b, segments));
      var seg := ReadSegment(b, l, i, expectedBlobOff, NextBase(b, segments));
      if seg.Err? {
        return Err(seg.error);
      }
      segments := segments + [seg.value];
      expectedBlobOff := Pad8(expectedBlobOff + |seg.value.blob.bytes|);
      i := i + 1;
    }
    r := Finish(b, l, expectedBlobOff, segments);
  }

  lemma EndsLength(b: seq<byte>)
    ensures CheckEnds(b) == None ==> |b| >= HEAD_LEN + FOOTER_LEN
  {
  }
}
