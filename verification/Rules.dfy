/** The assembly rules of a path: one validator per rule, in a fixed order. */
module Rules {
  import opened Wrappers
  import opened Bytes
  import opened Dhilog
  import opened Validator

  const SUPPORTED_VERSION: u16 := 0x0100

  /** One row of a path; only the root has neither log nor incoming edge. */
  datatype PathNode = PathNode(
    nodeId: u64,
    parentId: Option<u64>,
    snapshotRef: Hash32,
    inputLogId: Option<Hash32>,
    stateHash: Option<Hash32>)

  /** An edge of the path: the child node and the segment that leads to it. */
  datatype Edge = Edge(node: PathNode, segment: Segment)

  datatype SpliceError =
    | Rule(rule: RuleId, segmentIndex: u32)
    | VerifyUnsupported(nodes: seq<u64>)

  ghost predicate AllParsed(edges: seq<Edge>) {
    forall i :: 0 <= i < |edges| ==> edges[i].segment.Valid()
  }

  function SegIdx(i: nat): u32 { (i + 1) % TWO32 }

  /** The first index at or after `from` that breaks. */
  function First(breaks: seq<bool>, from: nat): (r: Option<nat>)
    requires from <= |breaks|
    ensures r.None? ==> forall j :: from <= j < |breaks| ==> !breaks[j]
    ensures r.Some? ==> from <= r.value < |breaks| && breaks[r.value] && forall j :: from <= j < r.value ==> !breaks[j]
    decreases |breaks| - from
  {
    if from == |breaks| then None else if breaks[from] then Some(from) else First(breaks, from + 1)
  }

  lemma FirstNone(b: seq<bool>)
    requires forall i :: 0 <= i < |b| ==> !b[i]
    ensures First(b, 0) == None
  {
  }

  lemma FirstIs(b: seq<bool>, j: nat)
    requires j < |b| && b[j] && forall i :: 0 <= i < j ==> !b[i]
    ensures First(b, 0) == Some(j)
  {
  }

  // ---- what breaks each rule ----

  /** The node an edge starts from. */
  function Parent(root: PathNode, edges: seq<Edge>, i: nat): PathNode
    requires i < |edges|
  {
    if i == 0 then root else edges[i - 1].node
  }

  predicate MachineAs(a: Header, b: Header) {
    a.machineConfig == b.machineConfig && a.clockNum == b.clockNum && a.clockDen == b.clockDen
  }

  predicate Linked(root: PathNode, edges: seq<Edge>, i: nat)
    requires i < |edges|
  {
    && edges[i].segment.header.baseSnapshot == Parent(root, edges, i).snapshotRef
    && (i > 0 ==> edges[i - 1].node.snapshotRef == edges[i - 1].segment.header.endSnapshot)
    && edges[i].node.parentId == Some(Parent(root, edges, i).nodeId)
  }

  function BreaksR1(edges: seq<Edge>): (b: seq<bool>)
    ensures |b| == |edges|
  {
    seq(|edges|, i requires 0 <= i < |edges| => edges[i].segment.header.version != SUPPORTED_VERSION)
  }

  function BreaksR2(edges: seq<Edge>): (b: seq<bool>)
    ensures |b| == |edges|
  {
    seq(|edges|, i requires 0 <= i < |edges| => !MachineAs(edges[i].segment.header, edges[0].segment.header))
  }

  function BreaksR3(root: PathNode, edges: seq<Edge>): (b: seq<bool>)
    ensures |b| == |edges|
  {
    seq(|edges|, i requires 0 <= i < |edges| => !Linked(root, edges, i))
  }

  function BreaksR4R5(edges: seq<Edge>): (b: seq<bool>)
    requires AllParsed(edges)
    ensures |b| == |edges|
  {
    seq(|edges|, i requires 0 <= i < |edges| && edges[i].segment.Valid() => Verdict(edges[i].segment).Some?)
  }

  function Missing(edges: seq<Edge>): (nodes: seq<u64>)
    ensures nodes == [] <==> forall i :: 0 <= i < |edges| ==> edges[i].node.stateHash.Some?
    decreases |edges|
  {
    if edges == [] then []
    else (if edges[0].node.stateHash.None? then [edges[0].node.nodeId] else []) + Missing(edges[1..])
  }

  function BreaksR6(edges: seq<Edge>): (b: seq<bool>)
    ensures |b| == |edges|
  {
    seq(|edges|, i requires 0 <= i < |edges| => edges[i].node.stateHash != Some(edges[i].segment.header.endStateHash))
  }

  function Broken(rule: RuleId, first: Option<nat>): Option<SpliceError> {
    match first
    case None => None
    case Some(i) => Some(Rule(rule, SegIdx(i)))
  }

  function StructureVerdict(edges: seq<Edge>): Option<SpliceError>
    requires AllParsed(edges)
  {
    match First(BreaksR4R5(edges), 0)
    case None => None
    case Some(i) => Some(Rule(Verdict(edges[i].segment).value, SegIdx(i)))
  }

  function DigestVerdict(edges: seq<Edge>): Option<SpliceError> {
    if Missing(edges) != [] then Some(VerifyUnsupported(Missing(edges))) else Broken(R6, First(BreaksR6(edges), 0))
  }

  function OrElse<T>(a: Option<T>, b: Option<T>): Option<T> { if a.Some? then a else b }

  /** The first rule a path breaks, at the first segment that breaks it. */
  function PathVerdict(root: PathNode, edges: seq<Edge>): Option<SpliceError>
    requires AllParsed(edges)
  {
    OrElse(Broken(R1, First(BreaksR1(edges), 0)),
    OrElse(Broken(R2, First(BreaksR2(edges), 0)),
    OrElse(Broken(R3, First(BreaksR3(root, edges), 0)),
    OrElse(StructureVerdict(edges), DigestVerdict(edges)))))
  }

  // ---- the validators ----

  method R1Versions(edges: seq<Edge>) returns (v: Option<SpliceError>)
    ensures v == Broken(R1, First(BreaksR1(edges), 0))
  {
    var first: Option<u16> := None;
    var i := 0;
    while i < |edges|
      invariant 0 <= i <= |edges| && First(BreaksR1(edges), 0) == First(BreaksR1(edges), i)
      invariant first.Some? ==> first.value == SUPPORTED_VERSION
    {
      var version := edges[i].segment.header.version;
      if version != SUPPORTED_VERSION {
        return Some(Rule(R1, SegIdx(i)));
      }
      if first.None? {
        first := Some(version);
      } else if first.value != version {
        assert false;
      }
      i := i + 1;
    }
    v := None;
  }

  method R2MachineUniformity(edges: seq<Edge>) returns (v: Option<SpliceError>)
    ensures v == Broken(R2, First(BreaksR2(edges), 0))
  {
    if edges == [] {
      return None;
    }
    var f := edges[0].segment.header;
    var i := 0;
    while i < |edges|
      invariant 0 <= i <= |edges| && First(BreaksR2(edges), 0) == First(BreaksR2(edges), i)
    {
      var h := edges[i].segment.header;
      if h.machineConfig != f.machineConfig {
        return Some(Rule(R2, SegIdx(i)));
      }
      if h.clockNum != f.clockNum || h.clockDen != f.clockDen {
        return Some(Rule(R2, SegIdx(i)));
      }
      i := i + 1;
    }
    v := None;
  }

  method R3Adjacency(root: PathNode, edges: seq<Edge>) returns (v: Option<SpliceError>)
    ensures v == Broken(R3, First(BreaksR3(root, edges), 0))
  {
    var i := 0;
    while i < |edges|
      invariant 0 <= i <= |edges| && First(BreaksR3(root, edges), 0) == First(BreaksR3(root, edges), i)
    {
      var node, base := edges[i].node, edges[i].segment.header.baseSnapshot;
      if i == 0 {
        if base != root.snapshotRef {
          return Some(Rule(R3, 1));
        }
      } else {
        var prev := edges[i - 1];
        if base != prev.node.snapshotRef {
          return Some(Rule(R3, SegIdx(i)));
        }
        if prev.node.snapshotRef != prev.segment.header.endSnapshot {
          return Some(Rule(R3, SegIdx(i)));
        }
      }
      var expectedParent := if i == 0 then root.nodeId else edges[i - 1].node.nodeId;
      if node.parentId != Some(expectedParent) {
        return Some(Rule(R3, SegIdx(i)));
      }
      i := i + 1;
    }
    v := None;
  }

  method R4R5Structure(edges: seq<Edge>) returns (v: Option<SpliceError>)
    requires AllParsed(edges)
    ensures v == StructureVerdict(edges)
  {
    hide Verdict, Segment.Valid;
    var i := 0;
    while i < |edges|
      invariant 0 <= i <= |edges| && First(BreaksR4R5(edges), 0) == First(BreaksR4R5(edges), i)
    {
      var issue := ValidateStructure(edges[i].segment);
      if issue.Some? {
        return Some(Rule(issue.value, SegIdx(i)));
      }
      i := i + 1;
    }
    v := None;
  }

  lemma MissingFrom(edges: seq<Edge>, i: nat)
    requires i <= |edges|
    ensures edges[0..] == edges
    ensures i == |edges| ==> Missing(edges[i..]) == []
    ensures i < |edges| ==>
              var first := edges[i].node;
              Missing(edges[i..]) == (if first.stateHash.None? then [first.nodeId] else []) + Missing(edges[i + 1..])
  {
    assert i < |edges| ==> edges[i..][1..] == edges[i + 1..];
  }

  method MissingDigests(edges: seq<Edge>) returns (missing: seq<u64>)
    ensures missing == Missing(edges)
  {
    hide Missing;
    missing := [];
    var i := 0;
    MissingFrom(edges, 0);
    while i < |edges|
      invariant 0 <= i <= |edges| && Missing(edges) == missing + Missing(edges[i..])
    {
      MissingFrom(edges, i);
      if edges[i].node.stateHash.None? {
        missing := missing + [edges[i].node.nodeId];
      }
      i := i + 1;
    }
    MissingFrom(edges, i);
    assert missing == missing + [];
  }

  method R6DigestTable(edges: seq<Edge>) returns (v: Option<SpliceError>)
    ensures v == DigestVerdict(edges)
  {
    var missing := MissingDigests(edges);
    if missing != [] {
      return Some(VerifyUnsupported(missing));
    }
    var i := 0;
    while i < |edges|
      invariant 0 <= i <= |edges| && First(BreaksR6(edges), 0) == First(BreaksR6(edges), i)
    {
      var attr := edges[i].node.stateHash.value;
      if attr != edges[i].segment.header.endStateHash {
        return Some(Rule(R6, SegIdx(i)));
      }
      i := i + 1;
    }
    v := None;
  }

  /** The rules R1 to R6 in turn; the first violation ends the check. */
  method Validate(root: PathNode, edges: seq<Edge>) returns (v: Option<SpliceError>)
    requires AllParsed(edges)
    ensures v == PathVerdict(root, edges)
  {
    hide Broken, First, BreaksR1, BreaksR2, BreaksR3, StructureVerdict, DigestVerdict, AllParsed;
    v := R1Versions(edges);
    if v.Some? {
      return;
    }
    v := R2MachineUniformity(edges);
    if v.Some? {
      return;
    }
    v := R3Adjacency(root, edges);
    if v.Some? {
      return;
    }
    v := R4R5Structure(edges);
    if v.Some? {
      return;
    }
    v := R6DigestTable(edges);
  }

  // ---- what passing means ----

  /** A path that can be verified: supported, uniform, linked, sealed, with its digests. */
  ghost predicate Lineage(root: PathNode, edges: seq<Edge>)
    requires AllParsed(edges)
  {
    && (forall i :: 0 <= i < |edges| ==> edges[i].segment.header.version == SUPPORTED_VERSION)
    && (forall i, j :: 0 <= i < |edges| && 0 <= j < |edges| ==>
          MachineAs(edges[i].segment.header, edges[j].segment.header))
    && (forall i :: 0 <= i < |edges| ==> Linked(root, edges, i))
    && (forall i :: 0 <= i < |edges| ==> WellFormed(edges[i].segment))
    && (forall i :: 0 <= i < |edges| ==> edges[i].node.stateHash == Some(edges[i].segment.header.endStateHash))
  }

  lemma StructureSound(edges: seq<Edge>)
    requires AllParsed(edges)
    ensures StructureVerdict(edges) == None <==> forall i :: 0 <= i < |edges| ==> WellFormed(edges[i].segment)
  {
    hide Verdict, WellFormed, Segment.Valid;
    var b := BreaksR4R5(edges);
    forall i | 0 <= i < |edges|
      ensures WellFormed(edges[i].segment) <==> !b[i]
    {
      AcceptsExactlyWellFormed(edges[i].segment);
    }
  }

  lemma UniformIff(edges: seq<Edge>)
    ensures First(BreaksR2(edges), 0) == None
            <==> forall i, j :: 0 <= i < |edges| && 0 <= j < |edges| ==>
              MachineAs(edges[i].segment.header, edges[j].segment.header)
  {
    var b := BreaksR2(edges);
    assert forall i :: 0 <= i < |edges| ==> (b[i] <==> !MachineAs(edges[i].segment.header, edges[0].segment.header));
  }

  lemma DigestsIff(edges: seq<Edge>)
    ensures DigestVerdict(edges) == None
            <==> forall i :: 0 <= i < |edges| ==> edges[i].node.stateHash == Some(edges[i].segment.header.endStateHash)
  {
    var b := BreaksR6(edges);
    assert forall i :: 0 <= i < |edges| ==>
             (b[i] <==> edges[i].node.stateHash != Some(edges[i].segment.header.endStateHash));
  }

  lemma VersionsAndLinks(root: PathNode, edges: seq<Edge>)
    ensures First(BreaksR1(edges), 0) == None
            <==> forall i :: 0 <= i < |edges| ==> edges[i].segment.header.version == SUPPORTED_VERSION
    ensures First(BreaksR3(root, edges), 0) == None <==> forall i :: 0 <= i < |edges| ==> Linked(root, edges, i)
  {
    var a, c := BreaksR1(edges), BreaksR3(root, edges);
    assert forall i :: 0 <= i < |edges| ==> (a[i] <==> edges[i].segment.header.version != SUPPORTED_VERSION);
    assert forall i :: 0 <= i < |edges| ==> (c[i] <==> !Linked(root, edges, i));
  }

  /** The rules accept exactly the lineages. */
  lemma AcceptsExactlyLineages(root: PathNode, edges: seq<Edge>)
    requires AllParsed(edges)
    ensures PathVerdict(root, edges) == None <==> Lineage(root, edges)
  {
    hide First, BreaksR1, BreaksR2, BreaksR3, StructureVerdict, DigestVerdict, AllParsed, WellFormed, Linked, MachineAs;
    VersionsAndLinks(root, edges);
    UniformIff(edges);
    StructureSound(edges);
    DigestsIff(edges);
  }

  /** Two paths that differ in the last node's snapshot at most. */
  ghost predicate SameButLast(a: seq<Edge>, b: seq<Edge>) {
    && |a| == |b|
    && (forall i :: 0 <= i < |a| ==>
          a[i].segment == b[i].segment && a[i].node.nodeId == b[i].node.nodeId
          && a[i].node.parentId == b[i].node.parentId && a[i].node.stateHash == b[i].node.stateHash)
    && (forall i :: 0 <= i < |a| - 1 ==> a[i].node.snapshotRef == b[i].node.snapshotRef)
  }

  lemma SameHeaders(a: seq<Edge>, b: seq<Edge>)
    requires SameButLast(a, b)
    ensures BreaksR1(a) == BreaksR1(b) && BreaksR2(a) == BreaksR2(b) && BreaksR6(a) == BreaksR6(b)
  {
    hide MachineAs;
  }

  lemma SameLinks(root: PathNode, a: seq<Edge>, b: seq<Edge>)
    requires SameButLast(a, b)
    ensures BreaksR3(root, a) == BreaksR3(root, b)
  {
    forall i | 0 <= i < |a|
      ensures Linked(root, a, i) == Linked(root, b, i)
    {
    }
    hide Linked;
  }

  lemma SameStructure(a: seq<Edge>, b: seq<Edge>)
    requires SameButLast(a, b) && AllParsed(a)
    ensures AllParsed(b) && BreaksR4R5(a) == BreaksR4R5(b) && StructureVerdict(a) == StructureVerdict(b)
  {
    hide Verdict, Segment.Valid, First;
    assert BreaksR4R5(a) == BreaksR4R5(b);
  }

  lemma {:induction false} MissingIgnoresSnapshots(a: seq<Edge>, b: seq<Edge>)
    requires |a| == |b|
    requires forall i :: 0 <= i < |a| ==>
               a[i].node.stateHash == b[i].node.stateHash && a[i].node.nodeId == b[i].node.nodeId
    ensures Missing(a) == Missing(b)
    decreases |a|
  {
    if a != [] {
      MissingIgnoresSnapshots(a[1..], b[1..]);
    }
  }

  lemma SameVerdict(root: PathNode, a: seq<Edge>, b: seq<Edge>)
    requires SameButLast(a, b) && AllParsed(a)
    ensures AllParsed(b) && PathVerdict(root, a) == PathVerdict(root, b)
  {
    SameIdentities(a, b);
    hide BreaksR1, BreaksR2, BreaksR3, BreaksR4R5, BreaksR6, StructureVerdict, Missing, First, SameButLast, AllParsed;
    SameHeaders(a, b);
    SameLinks(root, a, b);
    SameStructure(a, b);
    MissingIgnoresSnapshots(a, b);
  }

  lemma SameIdentities(a: seq<Edge>, b: seq<Edge>)
    requires SameButLast(a, b)
    ensures |a| == |b| && forall i :: 0 <= i < |a| ==>
              a[i].node.stateHash == b[i].node.stateHash && a[i].node.nodeId == b[i].node.nodeId
  {
  }

  /** The gap in R3: nothing compares the last node's snapshot with where the last segment
      ends, so no verdict depends on it. */
  lemma LastSnapshotUnchecked(root: PathNode, edges: seq<Edge>, anything: Hash32)
    requires AllParsed(edges) && edges != []
    ensures var n := |edges| - 1;
            var other := edges[n := edges[n].(node := edges[n].node.(snapshotRef := anything))];
            AllParsed(other) && PathVerdict(root, other) == PathVerdict(root, edges)
  {
    hide PathVerdict, AllParsed;
    var n := |edges| - 1;
    var other := edges[n := edges[n].(node := edges[n].node.(snapshotRef := anything))];
    SameVerdict(root, edges, other);
  }
}
