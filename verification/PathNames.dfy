/** Which rule a path breaks and which segment is named for it, in the header fields and
    positions themselves. */
module PathNames {
  import opened Wrappers
  import opened Bytes
  import opened Dhilog
  import opened Validator
  import opened Rules

  /** The order in which the rules look at a path. */
  datatype Stage = Versions | Machine | Adjacency | Structure | Digests
  {
    function Rank(): nat {
      match this
      case Versions => 0
      case Machine => 1
      case Adjacency => 2
      case Structure => 3
      case Digests => 4
    }
  }

  /** What the segment at position `i` does wrong at each stage. */
  ghost predicate Offends(stage: Stage, root: PathNode, edges: seq<Edge>, i: nat)
    requires AllParsed(edges) && i < |edges|
  {
    var h, node := edges[i].segment.header, edges[i].node;
    match stage
    case Versions => h.version != 0x0100
    case Machine =>
      var first := edges[0].segment.header;
      h.machineConfig != first.machineConfig || h.clockNum != first.clockNum || h.clockDen != first.clockDen
    case Adjacency =>
      if i == 0 then h.baseSnapshot != root.snapshotRef || node.parentId != Some(root.nodeId)
      else
        var prev := edges[i - 1];
        || h.baseSnapshot != prev.node.snapshotRef
        || prev.node.snapshotRef != prev.segment.header.endSnapshot
        || node.parentId != Some(prev.node.nodeId)
    case Structure => !WellFormed(edges[i].segment)
    case Digests => node.stateHash != Some(h.endStateHash)
  }

  /** No segment offends at an earlier stage. */
  ghost predicate Reaches(stage: Stage, root: PathNode, edges: seq<Edge>)
    requires AllParsed(edges)
  {
    forall earlier: Stage, k: nat :: earlier.Rank() < stage.Rank() && k < |edges| ==>
      !Offends(earlier, root, edges, k)
  }

  /** What a stage makes of the path. */
  ghost function StageVerdict(stage: Stage, root: PathNode, edges: seq<Edge>): Option<SpliceError>
    requires AllParsed(edges)
  {
    match stage
    case Versions => Broken(R1, First(BreaksR1(edges), 0))
    case Machine => Broken(R2, First(BreaksR2(edges), 0))
    case Adjacency => Broken(R3, First(BreaksR3(root, edges), 0))
    case Structure => StructureVerdict(edges)
    case Digests => DigestVerdict(edges)
  }

  ghost function Flags(stage: Stage, root: PathNode, edges: seq<Edge>): (b: seq<bool>)
    requires AllParsed(edges)
    ensures |b| == |edges|
  {
    match stage
    case Versions => BreaksR1(edges)
    case Machine => BreaksR2(edges)
    case Adjacency => BreaksR3(root, edges)
    case Structure => BreaksR4R5(edges)
    case Digests => BreaksR6(edges)
  }

  lemma FlagAt(stage: Stage, root: PathNode, edges: seq<Edge>, i: nat)
    requires AllParsed(edges) && i < |edges|
    ensures Flags(stage, root, edges)[i] <==> Offends(stage, root, edges, i)
  {
    hide WellFormed, Verdict, Segment.Valid;
    AcceptsExactlyWellFormed(edges[i].segment);
  }

  /** The rule a stage reports: the structural one is the validator's. */
  ghost function RuleAt(stage: Stage, s: Segment): RuleId
    requires s.Valid() && (stage.Structure? ==> Verdict(s).Some?)
  {
    match stage
    case Versions => R1
    case Machine => R2
    case Adjacency => R3
    case Structure => Verdict(s).value
    case Digests => R6
  }

  lemma StageIs(stage: Stage, root: PathNode, edges: seq<Edge>)
    requires AllParsed(edges) && (stage.Digests? ==> Missing(edges) == [])
    ensures var first := First(Flags(stage, root, edges), 0);
            match first
            case None => StageVerdict(stage, root, edges) == None
            case Some(i) =>
              edges[i].segment.Valid() && (stage.Structure? ==> Verdict(edges[i].segment).Some?)
              && StageVerdict(stage, root, edges)
                 == Some(Rule(RuleAt(stage, edges[i].segment), (i + 1) % 0x1_0000_0000))
  {
    hide First, Missing, Verdict, Segment.Valid, BreaksR1, BreaksR2, BreaksR3, BreaksR6;
  }

  lemma FirstFlag(stage: Stage, root: PathNode, edges: seq<Edge>, i: nat)
    requires AllParsed(edges) && i <= |edges|
    requires i < |edges| ==> Offends(stage, root, edges, i)
    requires forall k: nat :: k < i ==> !Offends(stage, root, edges, k)
    ensures First(Flags(stage, root, edges), 0) == if i < |edges| then Some(i) else None
  {
    hide Offends, Flags, AllParsed;
    forall k: nat | k <= i && k < |edges|
      ensures Flags(stage, root, edges)[k] <==> k == i
    {
      FlagAt(stage, root, edges, k);
      assert k < i ==> !Offends(stage, root, edges, k);
    }
    if i < |edges| {
      FirstIs(Flags(stage, root, edges), i);
    } else {
      FirstNone(Flags(stage, root, edges));
    }
  }

  lemma NothingMissing(root: PathNode, edges: seq<Edge>)
    requires AllParsed(edges) && forall k: nat :: k < |edges| ==> !Offends(Digests, root, edges, k)
    ensures Missing(edges) == []
  {
    hide Missing, AllParsed;
    forall k | 0 <= k < |edges|
      ensures edges[k].node.stateHash.Some?
    {
      assert !Offends(Digests, root, edges, k);
    }
  }

  lemma StageQuiet(stage: Stage, root: PathNode, edges: seq<Edge>)
    requires AllParsed(edges) && forall k: nat :: k < |edges| ==> !Offends(stage, root, edges, k)
    ensures StageVerdict(stage, root, edges) == None
  {
    hide Offends, StageVerdict, Flags, First, Missing, AllParsed;
    if stage.Digests? {
      NothingMissing(root, edges);
    }
    FirstFlag(stage, root, edges, |edges|);
    StageIs(stage, root, edges);
  }

  lemma StageNames(stage: Stage, root: PathNode, edges: seq<Edge>, i: nat)
    requires AllParsed(edges) && i < |edges| && Offends(stage, root, edges, i)
    requires forall k: nat :: k < i ==> !Offends(stage, root, edges, k)
    requires stage.Digests? ==> Missing(edges) == []
    ensures edges[i].segment.Valid() && (stage.Structure? ==> Verdict(edges[i].segment).Some?)
    ensures StageVerdict(stage, root, edges) == Some(Rule(RuleAt(stage, edges[i].segment), (i + 1) % 0x1_0000_0000))
  {
    hide Offends, StageVerdict, Flags, First, Missing, AllParsed, RuleAt;
    FirstFlag(stage, root, edges, i);
    StageIs(stage, root, edges);
  }

  lemma VerdictByStages(stage: Stage, root: PathNode, edges: seq<Edge>)
    requires AllParsed(edges)
    requires forall earlier: Stage :: earlier.Rank() < stage.Rank() ==> StageVerdict(earlier, root, edges) == None
    ensures StageVerdict(stage, root, edges).Some? ==> PathVerdict(root, edges) == StageVerdict(stage, root, edges)
    ensures stage.Digests? ==> PathVerdict(root, edges) == StageVerdict(stage, root, edges)
  {
    hide First, StructureVerdict, DigestVerdict, Broken, AllParsed;
    assert 0 < stage.Rank() ==> StageVerdict(Versions, root, edges) == None;
    assert 1 < stage.Rank() ==> StageVerdict(Machine, root, edges) == None;
    assert 2 < stage.Rank() ==> StageVerdict(Adjacency, root, edges) == None;
    assert 3 < stage.Rank() ==> StageVerdict(Structure, root, edges) == None;
  }

  lemma EarlierQuiet(stage: Stage, root: PathNode, edges: seq<Edge>)
    requires AllParsed(edges) && Reaches(stage, root, edges)
    ensures forall earlier: Stage :: earlier.Rank() < stage.Rank() ==> StageVerdict(earlier, root, edges) == None
  {
    hide Offends, StageVerdict, AllParsed;
    forall earlier: Stage | earlier.Rank() < stage.Rank()
      ensures StageVerdict(earlier, root, edges) == None
    {
      StageQuiet(earlier, root, edges);
    }
  }

  /** The first segment to offend at the first stage where one does is named, one more than
      its position, with that stage's rule; the structural stage names the rule of the
      segment's own verdict, and the digests are only compared when none is missing. */
  lemma NamesFirst(stage: Stage, root: PathNode, edges: seq<Edge>, i: nat)
    requires AllParsed(edges) && i < |edges| && Reaches(stage, root, edges)
    requires Offends(stage, root, edges, i) && forall k: nat :: k < i ==> !Offends(stage, root, edges, k)
    requires stage.Digests? ==> forall k :: 0 <= k < |edges| ==> edges[k].node.stateHash.Some?
    ensures edges[i].segment.Valid() && (stage.Structure? ==> Verdict(edges[i].segment).Some?)
    ensures PathVerdict(root, edges) == Some(Rule(
                                               match stage
                                               case Versions => R1
                                               case Machine => R2
                                               case Adjacency => R3
                                               case Structure => Verdict(edges[i].segment).value
                                               case Digests => R6,
                                               (i + 1) % 0x1_0000_0000))
  {
    hide Offends, StageVerdict, PathVerdict, AllParsed, Reaches, Verdict, Segment.Valid;
    EarlierQuiet(stage, root, edges);
    StageNames(stage, root, edges, i);
    VerdictByStages(stage, root, edges);
  }

  /** The positions without a state hash, in order. */
  /** `at` are the positions without a state hash, in order, and `nodes` their identities. */
  ghost predicate AreMissing(edges: seq<Edge>, at: seq<nat>, nodes: seq<u64>) {
    && |at| == |nodes|
    && (forall k :: 0 <= k < |at| ==> at[k] < |edges| && edges[at[k]].node.stateHash.None?
                                      && nodes[k] == edges[at[k]].node.nodeId)
    && (forall k, l :: 0 <= k < l < |at| ==> at[k] < at[l])
    && (forall i: nat :: i < |edges| && edges[i].node.stateHash.None? ==> i in at)
  }

  lemma MissingSnoc(edges: seq<Edge>, e: Edge)
    ensures Missing(edges + [e]) == Missing(edges) + (if e.node.stateHash.None? then [e.node.nodeId] else [])
    decreases |edges|
  {
    if edges != [] {
      MissingSnoc(edges[1..], e);
      assert (edges + [e])[1..] == edges[1..] + [e];
    }
  }

  lemma {:induction false} MissingAre(edges: seq<Edge>) returns (at: seq<nat>)
    ensures AreMissing(edges, at, Missing(edges))
    decreases |edges|
  {
    if edges == [] {
      return [];
    }
    var k: nat := |edges| - 1;
    var front, e := edges[..k], edges[k];
    var before := MissingAre(front);
    assert front + [e] == edges;
    hide Missing;
    MissingSnoc(front, e);
    at := before + (if e.node.stateHash.None? then [k] else []);
    AreMissingSnoc(front, e, before, Missing(front));
  }

  lemma AreMissingSnoc(edges: seq<Edge>, e: Edge, at: seq<nat>, nodes: seq<u64>)
    requires AreMissing(edges, at, nodes)
    ensures if e.node.stateHash.None? then AreMissing(edges + [e], at + [|edges|], nodes + [e.node.nodeId])
            else AreMissing(edges + [e], at, nodes)
  {
    var all, at' := edges + [e], at + [|edges|];
    forall i: nat | i < |all| && all[i].node.stateHash.None?
      ensures if e.node.stateHash.None? then i in at' else i in at
    {
      if i < |edges| {
        assert all[i] == edges[i] && i in at;
      } else {
        assert at'[|at|] == i;
      }
    }
  }

  /** A path that fails nothing earlier and lacks state hashes is unsupported, and the
      nodes listed are exactly those without one, in path order. */
  lemma NamesMissing(root: PathNode, edges: seq<Edge>) returns (at: seq<nat>, nodes: seq<u64>)
    requires AllParsed(edges) && Reaches(Digests, root, edges)
    requires exists i :: 0 <= i < |edges| && edges[i].node.stateHash.None?
    ensures AreMissing(edges, at, nodes) && PathVerdict(root, edges) == Some(VerifyUnsupported(nodes))
  {
    hide Offends, PathVerdict, AllParsed, Reaches, Missing, AreMissing;
    EarlierQuiet(Digests, root, edges);
    VerdictByStages(Digests, root, edges);
    at := MissingAre(edges);
    nodes := Missing(edges);
  }
}
