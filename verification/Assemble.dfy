/** Assembling a validated path into a container that survives storage. */
module Assemble {
  import opened Wrappers
  import opened Bytes
  import opened Dhilog
  import opened Validator
  import opened Rules
  import opened Container
  import opened ContainerReader
  import opened ContainerCodec

  /** What the container needs beyond the path. */
  datatype Context = Context(experimentId: string, guestImage: Hash32, fpsNum: u32, fpsDen: u32,
                             determinismClass: DeterminismClass)

  /** The producer string of the build: any. */
  const PRODUCER: string

  function TableRow(e: Edge): ContainerSegment
    requires e.node.inputLogId.Some?
  {
    var h := e.segment.header;
    ContainerSegment(e.node.nodeId, h.baseSnapshot, h.endSnapshot, h.endStateHash, e.node.inputLogId.value, e.segment)
  }

  function Unlogged(edges: seq<Edge>): (b: seq<bool>)
    ensures |b| == |edges| && forall i :: 0 <= i < |b| ==> (b[i] <==> edges[i].node.inputLogId.None?)
  {
    seq(|edges|, i requires 0 <= i < |edges| => edges[i].node.inputLogId.None?)
  }

  function Rows(edges: seq<Edge>): (segs: seq<ContainerSegment>)
    requires forall i :: 0 <= i < |edges| ==> edges[i].node.inputLogId.Some?
    ensures |segs| == |edges| && forall i :: 0 <= i < |segs| ==> segs[i] == TableRow(edges[i])
  {
    seq(|edges|, i requires 0 <= i < |edges| && edges[i].node.inputLogId.Some? => TableRow(edges[i]))
  }

  predicate EpochsEverywhere(edges: seq<Edge>) {
    forall i :: 0 <= i < |edges| ==> edges[i].segment.header.EpochHashes()
  }

  function ContainerOf(root: PathNode, edges: seq<Edge>, ctx: Context, segs: seq<ContainerSegment>): DilogContainer
    requires edges != []
  {
    var first := edges[0].segment.header;
    DilogContainer(EpochsEverywhere(edges), root.snapshotRef, ctx.guestImage, first.machineConfig, first.clockNum,
                   first.clockDen, ctx.fpsNum, ctx.fpsDen,
                   Meta(1, ctx.experimentId, edges[|edges| - 1].node.nodeId, ctx.determinismClass, PRODUCER), segs)
  }

  /** What assembly yields: an empty path and a row without a log are lineage violations. */
  function Assembled(root: PathNode, edges: seq<Edge>, ctx: Context): Result<DilogContainer, SpliceError>
    requires AllParsed(edges)
  {
    if edges == [] then Err(Rule(R3, 0))
    else if PathVerdict(root, edges).Some? then Err(PathVerdict(root, edges).value)
    else
      match First(Unlogged(edges), 0)
      case Some(i) => Err(Rule(R3, SegIdx(i)))
      case None => Ok(ContainerOf(root, edges, ctx, Rows(edges)))
  }

  method AllHaveEpochs(edges: seq<Edge>) returns (all: bool)
    ensures all == EpochsEverywhere(edges)
  {
    var i := 0;
    while i < |edges|
      invariant 0 <= i <= |edges| && forall k :: 0 <= k < i ==> edges[k].segment.header.EpochHashes()
    {
      if !edges[i].segment.header.EpochHashes() {
        return false;
      }
      i := i + 1;
    }
    all := true;
  }

  method Assemble(root: PathNode, edges: seq<Edge>, ctx: Context) returns (r: Result<DilogContainer, SpliceError>)
    requires AllParsed(edges)
    ensures r == Assembled(root, edges, ctx)
  {
    hide PathVerdict, AllParsed;
    if edges == [] {
      return Err(Rule(R3, 0));
    }
    var issue := Validate(root, edges);
    if issue.Some? {
      return Err(issue.value);
    }
    var first := edges[0].segment.header;
    var everywhere := AllHaveEpochs(edges);
    var goal := edges[|edges| - 1].node.nodeId;
    var segments: seq<ContainerSegment> := [];
    var i := 0;
    while i < |edges|
      invariant 0 <= i <= |edges| && |segments| == i
      invariant First(Unlogged(edges), 0) == First(Unlogged(edges), i)
      invariant forall k :: 0 <= k < i ==> edges[k].node.inputLogId.Some? && segments[k] == TableRow(edges[k])
    {
      var node, h := edges[i].node, edges[i].segment.header;
      if node.inputLogId.None? {
        return Err(Rule(R3, SegIdx(i)));
      }
      segments := segments + [ContainerSegment(node.nodeId, h.baseSnapshot, h.endSnapshot, h.endStateHash,
                                               node.inputLogId.value, edges[i].segment)];
      i := i + 1;
    }
    assert segments == Rows(edges);
    r := Ok(DilogContainer(everywhere, root.snapshotRef, ctx.guestImage, first.machineConfig, first.clockNum,
                           first.clockDen,
                           ctx.fpsNum, ctx.fpsDen, Meta(1, ctx.experimentId, goal, ctx.determinismClass, PRODUCER),
                           segments));
  }

  // ---- what assembly guarantees ----

  /** A path assembles if and only if it is a nonempty lineage whose rows all have logs. */
  lemma AssemblesExactlyLineages(root: PathNode, edges: seq<Edge>, ctx: Context)
    requires AllParsed(edges)
    ensures Assembled(root, edges, ctx).Ok? <==>
              edges != [] && Lineage(root, edges) && forall i :: 0 <= i < |edges| ==> edges[i].node.inputLogId.Some?
  {
    hide PathVerdict, AllParsed, Lineage, First;
    AcceptsExactlyLineages(root, edges);
  }

  lemma LineageLink(root: PathNode, edges: seq<Edge>, i: nat)
    requires AllParsed(edges) && Lineage(root, edges) && i < |edges|
    ensures edges[i].segment.Valid() && edges[i].segment.header.version == SUPPORTED_VERSION
            && Verdict(edges[i].segment) == None
    ensures MachineAs(edges[i].segment.header, edges[0].segment.header)
    ensures edges[i].segment.header.baseSnapshot
            == (if i == 0 then root.snapshotRef else edges[i - 1].segment.header.endSnapshot)
  {
    assert WellFormed(edges[i].segment) && Linked(root, edges, i);
    hide WellFormed, Verdict, Segment.Valid;
    AcceptsExactlyWellFormed(edges[i].segment);
  }

  lemma RowAgrees(root: PathNode, edges: seq<Edge>, ctx: Context, i: nat)
    requires AllParsed(edges) && Lineage(root, edges) && i < |edges|
    requires forall k :: 0 <= k < |edges| ==> edges[k].node.inputLogId.Some?
    ensures var c := ContainerOf(root, edges, ctx, Rows(edges));
            Sound(c.segments[i]) && Agrees(c.segments[i], MachineIn(c), BaseBefore(c.rootRef, c.segments, i))
  {
    hide WellFormed, Verdict, Segment.Valid, AllParsed, Lineage;
    LineageLink(root, edges, i);
  }

  lemma AssembledIs(root: PathNode, edges: seq<Edge>, ctx: Context, c: DilogContainer)
    requires AllParsed(edges) && Assembled(root, edges, ctx) == Ok(c)
    ensures edges != [] && forall k :: 0 <= k < |edges| ==> edges[k].node.inputLogId.Some?
    ensures c == ContainerOf(root, edges, ctx, Rows(edges))
  {
    hide PathVerdict, AllParsed, First, EpochsEverywhere;
  }

  lemma AssembledChain(root: PathNode, edges: seq<Edge>, ctx: Context, c: DilogContainer)
    requires AllParsed(edges) && Assembled(root, edges, ctx) == Ok(c)
    ensures |c.segments| == |edges| > 0 && c.meta.version == 1 && c.epochHashesEverywhere == AllEpochs(c.segments)
    ensures forall i :: 0 <= i < |edges| ==> c.segments[i].blob == edges[i].segment
    ensures Chained(c.rootRef, MachineIn(c), c.segments)
  {
    hide PathVerdict, AllParsed, Lineage, Sound, Agrees, Assembled, MachineIn, BaseBefore;
    AssembledIs(root, edges, ctx, c);
    AssemblesExactlyLineages(root, edges, ctx);
    forall i | 0 <= i < |edges|
      ensures Sound(c.segments[i]) && Agrees(c.segments[i], MachineIn(c), BaseBefore(c.rootRef, c.segments, i))
    {
      RowAgrees(root, edges, ctx, i);
    }
  }

  /** What the container takes from the path: the goal is the last node, the root's snapshot
      is the root reference, machine and clock are those of the first segment, the flag says
      whether every segment has epoch hashes, and row `i` names node, log, snapshots and
      hash of segment `i` and carries its bytes. */
  lemma AssembledFields(root: PathNode, edges: seq<Edge>, ctx: Context, c: DilogContainer)
    requires AllParsed(edges) && Assembled(root, edges, ctx) == Ok(c)
    ensures |edges| == |c.segments| > 0 && c.rootRef == root.snapshotRef && c.guestImage == ctx.guestImage
    ensures c.fpsNum == ctx.fpsNum && c.fpsDen == ctx.fpsDen
    ensures c.meta == Meta(1, ctx.experimentId, edges[|edges| - 1].node.nodeId, ctx.determinismClass, PRODUCER)
    ensures c.epochHashesEverywhere <==> forall i :: 0 <= i < |edges| ==> edges[i].segment.header.flags / 4 % 2 == 1
    ensures forall i :: 0 <= i < |edges| ==>
              var row, h := c.segments[i], edges[i].segment.header;
              && row.nodeId == edges[i].node.nodeId && Some(row.logId) == edges[i].node.inputLogId
              && row.baseRef == h.baseSnapshot && row.childRef == h.endSnapshot && row.endStateHash == h.endStateHash
              && row.blob == edges[i].segment
              && c.machineConfig == h.machineConfig && c.clockNum == h.clockNum && c.clockDen == h.clockDen
  {
    hide PathVerdict, AllParsed, First, Lineage;
    AssembledIs(root, edges, ctx, c);
    AssemblesExactlyLineages(root, edges, ctx);
    forall i | 0 <= i < |edges|
      ensures MachineAs(edges[i].segment.header, edges[0].segment.header)
    {
      LineageLink(root, edges, i);
    }
  }

  /** What assembly refuses: an empty path as a lineage violation at no segment, a path that
      breaks a rule as that rule, and a row without a log as a lineage violation there. */
  lemma AssemblyRefused(root: PathNode, edges: seq<Edge>, ctx: Context, i: nat)
    requires AllParsed(edges)
    ensures edges == [] ==> Assembled(root, edges, ctx) == Err(Rule(R3, 0))
    ensures edges != [] && PathVerdict(root, edges).Some? ==>
              Assembled(root, edges, ctx) == Err(PathVerdict(root, edges).value)
    ensures PathVerdict(root, edges) == None && i < |edges| && edges[i].node.inputLogId.None?
            && (forall k :: 0 <= k < i ==> edges[k].node.inputLogId.Some?) ==>
              Assembled(root, edges, ctx) == Err(Rule(R3, (i + 1) % 0x1_0000_0000))
  {
    hide PathVerdict, AllParsed;
    if i < |edges| && edges[i].node.inputLogId.None? && forall k :: 0 <= k < i ==> edges[k].node.inputLogId.Some? {
      FirstIs(Unlogged(edges), i);
    }
  }

  /** Assembly survives storage: what was assembled, written and read again is the same
      container, with every input segment byte for byte where its table entry says, given
      metadata that parses back and lengths that fit their fields. */
  lemma SurvivesStorage(root: PathNode, edges: seq<Edge>, ctx: Context, c: DilogContainer)
    requires AllParsed(edges) && Assembled(root, edges, ctx) == Ok(c)
    requires PARSE_META(PRINT_META(c.meta)) == Some(c.meta)
    requires |edges| < TWO32 && |PRINT_META(c.meta)| < TWO32 && |Encode(c)| < TWO64
    ensures Decode(Encode(c)) == Ok(c) && |c.segments| == |edges|
    ensures forall i :: 0 <= i < |edges| ==> Has(Encode(c), BlobOff(c, i), edges[i].segment.bytes)
  {
    hide *;
    AssembledChain(root, edges, ctx, c);
    CanonicalFrom(c, |edges|);
    ReadOfWrite(c);
    StandsOfWrite(c);
    StandsParts(Encode(c), c);
    forall i | 0 <= i < |edges|
      ensures Has(Encode(c), BlobOff(c, i), edges[i].segment.bytes)
    {
      BlobsHas(Encode(c), BlobsOff(c), c.segments, i);
      BlobOffDef(c, i);
      BlobIs(c.segments[i]);
      HasBoth(Encode(c), BlobOff(c, i), edges[i].segment.bytes, Padding(|edges[i].segment.bytes|));
    }
  }
}
