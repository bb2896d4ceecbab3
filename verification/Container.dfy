/** The `.dilog` container: its one encoding, and the reader that accepts nothing else. */
module Container {
  import opened Wrappers
  import opened Bytes
  import opened Validator

  const HEAD_LEN: nat := 160
  const ENTRY_LEN: nat := 152
  const FOOTER_LEN: nat := 40
  const CONTAINER_VERSION: u32 := 2

  // "DILOG\0\r\n"
  const CONTAINER_MAGIC: seq<byte> := [68, 73, 76, 79, 71, 0, 13, 10]
  // "DILOGEND"
  const END_MAGIC: seq<byte> := [68, 73, 76, 79, 71, 69, 78, 68]

  datatype DeterminismClass = DeterminismClass(cpuModel: string, microcode: string, hostKernel: string,
                                               vmmVersion: string)

  datatype Meta = Meta(version: u32, experimentId: string, goalNodeId: u64, determinismClass: DeterminismClass,
                       producer: string)

  /** The canonical print of the metadata, and its parser: any functions at all. */
  const PRINT_META: Meta -> seq<byte>
  const PARSE_META: seq<byte> -> Option<Meta>

  datatype ContainerSegment = ContainerSegment(
    nodeId: u64,
    baseRef: Hash32,
    childRef: Hash32,
    endStateHash: Hash32,
    logId: Hash32,
    blob: Segment)

  datatype DilogContainer = DilogContainer(
    epochHashesEverywhere: bool,
    rootRef: Hash32,
    guestImage: Hash32,
    machineConfig: Hash32,
    clockNum: u32,
    clockDen: u32,
    fpsNum: u32,
    fpsDen: u32,
    meta: Meta,
    segments: seq<ContainerSegment>)

  datatype ContainerError =
    | Truncated
    | BadMagic
    | UnsupportedVersion(version: u32)
    | NonzeroReserved
    | BadEndMagic
    | BadFooterHash
    | NonCanonical
    | BadMeta
    | BadSegment(index: nat)
    | Disagreement(index: nat)

  // ---- the encoding ----

  function Preamble(flags: u32, count: u32, metaLen: u32): (b: seq<byte>)
    ensures |b| == 24
  {
    CONTAINER_MAGIC + (LE32(CONTAINER_VERSION) + LE32(flags) + LE32(count) + LE32(metaLen))
  }

  function Refs(c: DilogContainer): (b: seq<byte>)
    ensures |b| == 96
  {
    c.rootRef + c.guestImage + c.machineConfig
  }

  function Rates(c: DilogContainer): (b: seq<byte>)
    ensures |b| == 16
  {
    LE32(c.clockNum) + LE32(c.clockDen) + LE32(c.fpsNum) + LE32(c.fpsDen)
  }

  function Flags(c: DilogContainer): u32 { if c.epochHashesEverywhere then 1 else 0 }

  function Head(c: DilogContainer): (b: seq<byte>)
    ensures |b| == HEAD_LEN
  {
    Preamble(Flags(c), |c.segments| % TWO32, |PRINT_META(c.meta)| % TWO32) + Refs(c) + Rates(c) + Zeros(24)
  }

  /** Header and metadata, padded to where the table starts. */
  function Front(c: DilogContainer): (b: seq<byte>)
    ensures |b| == HEAD_LEN + Pad8(|PRINT_META(c.meta)|)
  {
    Head(c) + (PRINT_META(c.meta) + Padding(|PRINT_META(c.meta)|))
  }

  function EntryIds(s: ContainerSegment): (b: seq<byte>)
    ensures |b| == 136
  {
    LE64(s.nodeId) + (s.baseRef + s.childRef + s.endStateHash + s.logId)
  }

  function TableEntry(s: ContainerSegment, off: nat): (b: seq<byte>)
    ensures |b| == ENTRY_LEN
  {
    EntryIds(s) + (LE64(off % TWO64) + LE64(|s.blob.bytes| % TWO64))
  }

  function Blob(s: ContainerSegment): (b: seq<byte>)
    ensures |b| == Pad8(|s.blob.bytes|)
  {
    s.blob.bytes + Padding(|s.blob.bytes|)
  }

  /** The padded segment bytes, one after the other as the table lists them. */
  function Blobs(segs: seq<ContainerSegment>): (b: seq<byte>)
    decreases |segs|
  {
    if segs == [] then [] else Blobs(segs[..|segs| - 1]) + Blob(segs[|segs| - 1])
  }

  function TableLen(n: nat): nat { ENTRY_LEN * n }

  /** The table of segments whose blobs start at `off`. */
  function Table(segs: seq<ContainerSegment>, off: nat): (b: seq<byte>)
    ensures |b| == TableLen(|segs|)
    decreases |segs|
  {
    if segs == [] then []
    else
      var front := segs[..|segs| - 1];
      Table(front, off) + TableEntry(segs[|segs| - 1], off + |Blobs(front)|)
  }

  function BlobsOff(c: DilogContainer): nat { |Front(c)| + TableLen(|c.segments|) }

  function Body(c: DilogContainer): (b: seq<byte>) {
    Front(c) + Table(c.segments, BlobsOff(c)) + Blobs(c.segments)
  }

  /** The one encoding of a container. */
  function Encode(c: DilogContainer): (b: seq<byte>) {
    Body(c) + (BLAKE3(Body(c)) + END_MAGIC)
  }

  // ---- the writer ----

  lemma TableSnoc(segs: seq<ContainerSegment>, i: nat, off: nat)
    requires i < |segs|
    ensures Table(segs[..i + 1], off) == Table(segs[..i], off) + TableEntry(segs[i], off + |Blobs(segs[..i])|)
    ensures Blobs(segs[..i + 1]) == Blobs(segs[..i]) + Blob(segs[i])
  {
    hide TableEntry, Blob;
    assert segs[..i + 1][..i] == segs[..i];
  }

  /** `resize(pad8(len), 0)` on a buffer. */
  method ZeroPad(out: seq<byte>) returns (padded: seq<byte>)
    ensures padded == out + Padding(|out|)
  {
    padded := out;
    while |padded| < Pad8(|out|)
      invariant |out| <= |padded| <= Pad8(|out|)
      invariant padded == out + Zeros(|padded| - |out|)
      decreases Pad8(|out|) - |padded|
    {
      padded := padded + [0];
    }
  }

  method WriteTable(out0: seq<byte>, segs: seq<ContainerSegment>, blobsOff: nat) returns (out: seq<byte>)
    ensures out == out0 + Table(segs, blobsOff)
  {
    hide TableEntry, Blob;
    out := out0;
    var blobOffset := blobsOff;
    var i := 0;
    assert segs[..0] == [];
    while i < |segs|
      invariant 0 <= i <= |segs| && blobOffset == blobsOff + |Blobs(segs[..i])|
      invariant out == out0 + Table(segs[..i], blobsOff)
    {
      TableSnoc(segs, i, blobsOff);
      out := out + TableEntry(segs[i], blobOffset);
      blobOffset := blobOffset + Pad8(|segs[i].blob.bytes|);
      i := i + 1;
    }
    assert segs[..|segs|] == segs;
  }

  lemma PadAligned(out: seq<byte>, bytes: seq<byte>)
    requires |out| % 8 == 0
    ensures out + bytes + Padding(|out + bytes|) == out + (bytes + Padding(|bytes|))
  {
    Pad8Adds(|out|, |bytes|);
    assert Padding(|out + bytes|) == Padding(|bytes|);
  }

  method WriteBlobs(out0: seq<byte>, segs: seq<ContainerSegment>) returns (out: seq<byte>)
    requires |out0| % 8 == 0
    ensures out == out0 + Blobs(segs)
  {
    hide TableEntry, Table, Pad8, Padding, Blob, Blobs;
    out := out0;
    var i := 0;
    NoBlobs();
    assert segs[..0] == [];
    while i < |segs|
      invariant 0 <= i <= |segs| && out == out0 + Blobs(segs[..i])
    {
      TableSnoc(segs, i, 0);
      BlobIs(segs[i]);
      BlobsAligned(segs[..i]);
      PadAligned(out, segs[i].blob.bytes);
      out := ZeroPad(out + segs[i].blob.bytes);
      i := i + 1;
    }
    assert segs[..|segs|] == segs;
  }

  lemma {:induction false} BlobsAligned(segs: seq<ContainerSegment>)
    ensures |Blobs(segs)| % 8 == 0
    decreases |segs|
  {
    if segs != [] {
      BlobsAligned(segs[..|segs| - 1]);
    }
  }

  lemma NoBlobs()
    ensures Blobs([]) == []
  {
  }

  lemma BlobIs(s: ContainerSegment)
    ensures Blob(s) == s.blob.bytes + Padding(|s.blob.bytes|)
  {
  }

  method Write(c: DilogContainer) returns (out: seq<byte>)
    ensures out == Encode(c)
  {
    hide Head, TableEntry, Blobs, Table, Pad8;
    var meta := PRINT_META(c.meta);
    out := Head(c);
    PadAligned(Head(c), meta);
    out := ZeroPad(out + meta);
    FrontAligned(c);
    var blobsOff := |out| + ENTRY_LEN * |c.segments|;
    out := WriteTable(out, c.segments, blobsOff);
    TableAligned(|Front(c)|, |c.segments|);
    out := WriteBlobs(out, c.segments);
    var footer := BLAKE3(out);
    out := out + footer + END_MAGIC;
  }

  lemma FrontAligned(c: DilogContainer)
    ensures |Front(c)| % 8 == 0
  {
  }

  lemma TableAligned(n: nat, k: nat)
    requires n % 8 == 0
    ensures (n + TableLen(k)) % 8 == 0
  {
    assert ENTRY_LEN * k == 8 * (19 * k);
  }
}
