/** Chains of written segments: they assemble, verify, and betray a skew. */
module Chains {
  import opened Wrappers
  import opened Bytes
  import opened Guest
  import opened Dhilog
  import opened Validator
  import opened Writer
  import opened Recording
  import opened Hv
  import opened Replay
  import opened Mock
  import opened WrittenReplay
  import opened Oracle
  import opened Localize
  import opened Rules
  import opened Fnv
  import opened Bisect
  import opened Reports
  import opened VerifyPath
  import opened Paths
  import Assemble

  // ---- a clean replay of a clean recording ----

  ghost predicate ChainsMatch(o: Origin, acts: seq<Act>, es: seq<Epoch>) {
    forall i :: 0 <= i < |es| ==> ChainAt(o, acts, es[i].icount / EPOCH) == es[i].chain
  }

  lemma EpochsOfCons(recs: seq<Record>, j: nat)
    requires j < |recs|
    ensures EpochsOf(recs[j..])
            == (if IsEpochRecord(recs[j]) && |recs[j].payload| == 40 then [EpochOf(recs[j])] else [])
                                   + EpochsOf(recs[j + 1..])
  {
    assert recs[j..][1..] == recs[j + 1..];
  }

  lemma MatchTail(o: Origin, acts: seq<Act>, e: Epoch, es: seq<Epoch>)
    requires ChainsMatch(o, acts, [e] + es)
    ensures ChainAt(o, acts, e.icount / EPOCH) == e.chain && ChainsMatch(o, acts, es)
  {
    assert ([e] + es)[0] == e;
    assert forall i :: 0 <= i < |es| ==> ([e] + es)[i + 1] == es[i];
  }

  /** When every recorded epoch hash is reproduced the replay runs through. */
  lemma {:induction false} MatchingRunsThrough(o: Origin, acts: seq<Act>, recs: seq<Record>, j: nat)
    requires Appliable(recs) && j <= |recs| && ChainsMatch(o, acts, EpochsOf(recs[j..]))
    ensures ReplayFrom(o, acts, recs, false, j) == Through(|recs|)
    decreases |recs| - j
  {
    if j < |recs| {
      hide ChainAt, ChainsMatch, EpochsOf, Appliable, ReplayFrom;
      EpochsOfCons(recs, j);
      AppliableAt(recs, j);
      MockHypervisor.ReplayStep(o, acts, recs, false, j);
      if IsEpochRecord(recs[j]) {
        MockHypervisor.EpochOfIs(recs[j]);
        MatchTail(o, acts, EpochOf(recs[j]), EpochsOf(recs[j + 1..]));
      }
      MatchingRunsThrough(o, acts, recs, j + 1);
    }
  }

  lemma AppliableAt(recs: seq<Record>, j: nat)
    requires Appliable(recs) && j < |recs|
    ensures (!recs[j].IsAux() ==> CanonicalKind(recs[j].kind)) && (IsEpochRecord(recs[j]) ==> |recs[j].payload| == 40)
  {
  }

  lemma WrittenMatch(spec: Spec)
    requires spec.Valid()
    ensures ChainsMatch(spec.Genesis(), RecordedActs(spec), EpochsOf(WrittenRecords(spec)))
  {
    hide *;
    WrittenEpochs(spec);
    var es := EpochsOf(WrittenRecords(spec));
    EpochBoundary(es);
    MatchFrom(spec.Genesis(), RecordedActs(spec), es);
  }

  lemma MatchFrom(o: Origin, acts: seq<Act>, es: seq<Epoch>)
    requires forall i :: 0 <= i < |es| ==> es[i].chain == ChainAt(o, acts, i + 1) && es[i].icount / EPOCH == i + 1
    ensures ChainsMatch(o, acts, es)
  {
  }

  lemma WholeFrom(recs: seq<Record>)
    ensures recs[0..] == recs
  {
  }

  lemma NoFoldTimeline(defect: Defect, spec: Spec, segmentIndex: u32, run: nat)
    requires spec.Valid() && spec.skewAt == None && FoldFor(defect, Replayed(run), segmentIndex) == None
    ensures Written(spec).Valid()
    ensures Timeline(defect, Written(spec), Replayed(run), segmentIndex) == RecordedActs(spec)
  {
    hide *;
    WrittenIsSteppable(spec);
    WrittenActs(spec);
    TimelineIs(defect, Written(spec), Replayed(run), segmentIndex);
    WithoutFold(CanonActs(Records(Written(spec))));
    UnskewedActs(spec);
  }

  lemma UnskewedActs(spec: Spec)
    requires spec.skewAt == None
    ensures RecordedActs(spec) == EventActs(spec.events)
  {
  }

  lemma AgreesWhen(defect: Defect, s: Segment, segmentIndex: u32, run: nat)
    requires s.Valid() && HonestReplay(defect, s, run, segmentIndex).Through?
    requires ReplayedEnd(defect, s, run, segmentIndex) == s.header.endStateHash
    ensures !Disagrees(defect, s, run, segmentIndex)
    ensures Unbisected(defect, s, segmentIndex, run) == Ok(Verified(s.header.endStateHash, |EpochsOf(Records(s))|))
  {
    hide ReplayFrom, Timeline, ReplayedEnd, EpochsOf;
  }

  /** A clean replay of an unskewed recording verifies, with every epoch hash good. */
  lemma CleanVerifies(defect: Defect, spec: Spec, segmentIndex: u32, run: nat)
    requires spec.Valid() && spec.skewAt == None && FoldFor(defect, Replayed(run), segmentIndex) == None
    ensures Written(spec).Valid() && !Disagrees(defect, Written(spec), run, segmentIndex)
    ensures Unbisected(defect, Written(spec), segmentIndex, run) == Ok(Verified(EndHash(spec), spec.Epochs()))
    ensures HonestReplay(defect, Written(spec), run, segmentIndex) == Through(|Records(Written(spec))|)
  {
    hide *;
    WrittenIsSteppable(spec);
    var s := Written(spec);
    NoFoldTimeline(defect, spec, segmentIndex, run);
    ReplayedEndIs(defect, s, segmentIndex, run);
    EndHashIs(spec);
    WrittenMatch(spec);
    WholeFrom(Records(s));
    MatchingRunsThrough(spec.Genesis(), RecordedActs(spec), Records(s), 0);
    AgreesWhen(defect, s, segmentIndex, run);
    WrittenEpochs(spec);
  }

  // ---- chains ----

  /** Segment `i` starts where the node before it stands, which is where the segment
      before it ended. */
  predicate Joined(root: PathNode, specs: seq<Spec>, edges: seq<Edge>, i: nat)
    requires i < |edges| == |specs|
  {
    && specs[i].baseSnapshot == Parent(root, edges, i).snapshotRef
    && (i > 0 ==> edges[i - 1].node.snapshotRef == specs[i - 1].endSnapshot)
    && edges[i].node.parentId == Some(Parent(root, edges, i).nodeId)
  }

  /** Segment `i` is what the writer makes of its spec, joined to the one before it,
      recorded on the machine and clock of the first, with the writer's end hash. */
  ghost predicate RecordedAt(root: PathNode, specs: seq<Spec>, edges: seq<Edge>, i: nat)
    requires i < |edges| == |specs|
  {
    && specs[i].Valid() && edges[i].segment == Written(specs[i])
    && EndHash(specs[i]) != Zeros(32) && edges[i].node.stateHash == Some(EndHash(specs[i]))
    && Joined(root, specs, edges, i)
    && specs[i].machineConfig == specs[0].machineConfig
    && specs[i].clockNum == specs[0].clockNum && specs[i].clockDen == specs[0].clockDen
  }

  /** A path of recordings. */
  ghost predicate RecordedChain(root: PathNode, specs: seq<Spec>, edges: seq<Edge>) {
    |specs| == |edges| && forall i :: 0 <= i < |edges| ==> RecordedAt(root, specs, edges, i)
  }

  lemma HeaderOfWritten(spec: Spec)
    requires spec.Valid()
    ensures var h := Written(spec).header;
            && h.version == SUPPORTED_VERSION && h.baseSnapshot == spec.baseSnapshot
            && h.endSnapshot == spec.endSnapshot
            && h.machineConfig == spec.machineConfig && h.clockNum == spec.clockNum && h.clockDen == spec.clockDen
            && h.endIcount == spec.endIcount && h.endStateHash == EndHash(spec) && h.endIcount + EPOCH < TWO64
  {
    hide EndHash, WrittenBody, Kept, Spec.RecordCount, EncodeHeader;
  }

  lemma ChainAtIndex(root: PathNode, specs: seq<Spec>, edges: seq<Edge>, i: nat)
    requires RecordedChain(root, specs, edges) && i < |edges|
    ensures |specs| == |edges| && specs[i].Valid() && edges[i].segment == Written(specs[i])
    ensures EndHash(specs[i]) != Zeros(32) && edges[i].node.stateHash == Some(EndHash(specs[i]))
    ensures specs[i].baseSnapshot == Parent(root, edges, i).snapshotRef
            && edges[i].node.parentId == Some(Parent(root, edges, i).nodeId)
    ensures i > 0 ==>
              && edges[i - 1].node.snapshotRef == specs[i - 1].endSnapshot
              && specs[i - 1].Valid() && edges[i - 1].segment == Written(specs[i - 1])
    ensures specs[i].machineConfig == specs[0].machineConfig && specs[i].clockNum == specs[0].clockNum
            && specs[i].clockDen == specs[0].clockDen
  {
    hide Spec.Valid, Written, EndHash, Parent;
    assert RecordedAt(root, specs, edges, i) && Joined(root, specs, edges, i);
    if i > 0 {
      assert RecordedAt(root, specs, edges, i - 1);
    }
  }

  /** One segment of a chain passes every rule. */
  lemma ChainLink(root: PathNode, specs: seq<Spec>, edges: seq<Edge>, i: nat)
    requires RecordedChain(root, specs, edges) && i < |edges|
    ensures edges[i].segment.Valid() && Verdict(edges[i].segment) == None && WellFormed(edges[i].segment)
    ensures edges[i].segment.header.version == SUPPORTED_VERSION && Linked(root, edges, i)
    ensures edges[i].node.stateHash == Some(edges[i].segment.header.endStateHash)
    ensures edges[i].segment.header.endIcount + EPOCH < TWO64 && EpochPayloads(edges[i].segment)
    ensures edges[i].segment.header.machineConfig == specs[0].machineConfig
            && edges[i].segment.header.clockNum == specs[0].clockNum
            && edges[i].segment.header.clockDen == specs[0].clockDen
  {
    hide *;
    ChainAtIndex(root, specs, edges, i);
    HeaderOfWritten(specs[i]);
    if i > 0 {
      HeaderOfWritten(specs[i - 1]);
    }
    LinkedFrom(root, edges, i);
    WriterAndParserAgree(specs[i]);
    AcceptsExactlyWellFormed(edges[i].segment);
    WrittenIsSteppable(specs[i]);
    PayloadsOf(edges[i].segment);
  }

  lemma LinkedFrom(root: PathNode, edges: seq<Edge>, i: nat)
    requires i < |edges| && edges[i].segment.header.baseSnapshot == Parent(root, edges, i).snapshotRef
    requires i > 0 ==> edges[i - 1].node.snapshotRef == edges[i - 1].segment.header.endSnapshot
    requires edges[i].node.parentId == Some(Parent(root, edges, i).nodeId)
    ensures Linked(root, edges, i)
  {
  }

  lemma PayloadsOf(s: Segment)
    requires s.Valid() && Appliable(Records(s))
    ensures EpochPayloads(s)
  {
  }

  lemma ChainUniform(specs: seq<Spec>, edges: seq<Edge>, i: nat, j: nat)
    requires i < |edges| && j < |edges| && specs != []
    requires forall k :: 0 <= k < |edges| ==>
               edges[k].segment.header.machineConfig == specs[0].machineConfig
               && edges[k].segment.header.clockNum == specs[0].clockNum
               && edges[k].segment.header.clockDen == specs[0].clockDen
    ensures MachineAs(edges[i].segment.header, edges[j].segment.header)
  {
  }

  /** Every chain of recordings, skewed or not, passes all six rules and cannot fault. */
  lemma ChainIsReady(root: PathNode, specs: seq<Spec>, edges: seq<Edge>)
    requires RecordedChain(root, specs, edges) && edges != []
    ensures Ready(root, edges) && specs != []
  {
    hide Verdict, WellFormed, Linked, MachineAs, PathVerdict, RecordedChain, EpochPayloads, Segment.Valid, Parent;
    ChainAtIndex(root, specs, edges, 0);
    forall i | 0 <= i < |edges|
      ensures edges[i].segment.Valid() && WellFormed(edges[i].segment) && Linked(root, edges, i)
      ensures edges[i].segment.header.version == SUPPORTED_VERSION
      ensures edges[i].node.stateHash == Some(edges[i].segment.header.endStateHash)
      ensures edges[i].segment.header.endIcount + EPOCH < TWO64 && EpochPayloads(edges[i].segment)
      ensures edges[i].segment.header.machineConfig == specs[0].machineConfig
              && edges[i].segment.header.clockNum == specs[0].clockNum
              && edges[i].segment.header.clockDen == specs[0].clockDen
    {
      ChainLink(root, specs, edges, i);
    }
    forall i, j | 0 <= i < |edges| && 0 <= j < |edges|
      ensures MachineAs(edges[i].segment.header, edges[j].segment.header)
    {
      ChainUniform(specs, edges, i, j);
    }
    AcceptsExactlyLineages(root, edges);
  }

  // ---- verifying a chain ----

  /** No segment's replay carries a fold of its own. */
  ghost predicate Steady(defect: Defect) { !defect.ReplayNondet? }

  lemma SteadyNoFold(defect: Defect, segmentIndex: u32, run: nat)
    requires Steady(defect)
    ensures FoldFor(defect, Replayed(run), segmentIndex) == None
  {
  }

  lemma CleanAt(defect: Defect, root: PathNode, specs: seq<Spec>, edges: seq<Edge>, run: nat, i: nat)
    requires Steady(defect) && RecordedChain(root, specs, edges) && i < |edges|
    ensures |specs| == |edges| && AllParsed(edges)
    ensures specs[i].skewAt == None ==> !Disagreeing(defect, edges, run)[i]
  {
    hide *;
    ChainIsReady(root, specs, edges);
    ReadyAll(root, edges);
    ChainAtIndex(root, specs, edges, i);
    DisagreeingAt(defect, edges, run, i);
    SteadyNoFold(defect, SegIdx(i), run + i);
    if specs[i].skewAt == None {
      CleanVerifies(defect, specs[i], SegIdx(i), run + i);
    }
  }

  /** The first `n` specs have no skew. */
  predicate Unskewed(specs: seq<Spec>, n: nat) {
    forall i :: 0 <= i < |specs| && i < n ==> specs[i].skewAt == None
  }

  lemma UnskewedAt(specs: seq<Spec>, n: nat, i: nat)
    requires Unskewed(specs, n) && i < n && i < |specs|
    ensures specs[i].skewAt == None
  {
  }

  /** The unskewed segments of a chain agree with a clean replay. */
  lemma CleanUpTo(defect: Defect, root: PathNode, specs: seq<Spec>, edges: seq<Edge>, run: nat, n: nat)
    requires Steady(defect) && RecordedChain(root, specs, edges) && n <= |edges| && Unskewed(specs, n)
    ensures AllParsed(edges)
    ensures forall i :: 0 <= i < n ==> !Disagreeing(defect, edges, run)[i]
  {
    hide *;
    ChainSize(root, specs, edges);
    ChainParsed(root, specs, edges);
    forall i | 0 <= i < n
      ensures !Disagreeing(defect, edges, run)[i]
    {
      UnskewedAt(specs, n, i);
      CleanAt(defect, root, specs, edges, run, i);
    }
  }

  lemma ChainSize(root: PathNode, specs: seq<Spec>, edges: seq<Edge>)
    requires RecordedChain(root, specs, edges)
    ensures |specs| == |edges|
  {
  }

  lemma ChainParsed(root: PathNode, specs: seq<Spec>, edges: seq<Edge>)
    requires RecordedChain(root, specs, edges)
    ensures AllParsed(edges)
  {
    hide *;
    if edges != [] {
      ChainIsReady(root, specs, edges);
      ReadyAll(root, edges);
    } else {
      NothingToParse();
    }
  }

  lemma NothingToParse()
    ensures AllParsed([])
  {
  }

  /** End to end, the clean path: any chain of unskewed recordings is accepted by the
      rules, and verifying it with runs enough verifies all its segments, in exactly as
      many runs. */
  lemma CleanPath(root: PathNode, specs: seq<Spec>, edges: seq<Edge>, defect: Defect, run: nat, fuel: nat)
    requires RecordedChain(root, specs, edges) && edges != [] && Unskewed(specs, |specs|) && Steady(defect)
             && fuel >= |edges|
    ensures AllParsed(edges) && AllDigests(edges) && |specs| == |edges| && PathVerdict(root, edges) == None
    ensures VerifyFrom(defect, root, edges, run, fuel, 0, Zeros(32))
            == Ok(Clean(EndHash(specs[|specs| - 1]), |edges| % TWO32))
    ensures RunsFrom(defect, root, edges, run, fuel, 0) == |edges|
  {
    hide *;
    ChainSize(root, specs, edges);
    ChainIsReady(root, specs, edges);
    ReadyAll(root, edges);
    ReadyParts(root, edges, 0);
    ChainAtIndex(root, specs, edges, |edges| - 1);
    HeaderOfWritten(specs[|edges| - 1]);
    CleanUpTo(defect, root, specs, edges, run, |edges|);
    FirstNone(Disagreeing(defect, edges, run));
    LocalizesFirst(defect, root, edges, run, fuel);
  }

  /** The events of a clean segment: one start, one epoch event per boundary, one end. */
  lemma CleanEvents(defect: Defect, spec: Spec, segmentIndex: u32, run: nat)
    requires spec.Valid() && spec.skewAt == None && Steady(defect)
    ensures Written(spec).Valid()
    ensures var es := RunEvents(defect, Written(spec), run, segmentIndex);
            && |es| == spec.Epochs() + 2 && es[0] == SegmentStarted(segmentIndex)
            && es[|es| - 1] == RunCompleted(segmentIndex)
            && forall k :: 0 < k < |es| - 1 ==> es[k] == EpochOk(segmentIndex, k, k * 4096)
    ensures spec.Epochs() == if spec.omitEpochHashes then 0 else spec.endIcount / 4096
  {
    hide Spec.Valid, Written, HonestReplay, EpochsOf, WrittenRecords, Records, Segment.Valid, ChainAt;
    SteadyNoFold(defect, segmentIndex, run);
    CleanVerifies(defect, spec, segmentIndex, run);
    WrittenIsSteppable(spec);
    WrittenEpochs(spec);
    var s := Written(spec);
    MockHypervisor.RunIs(defect, s, segmentIndex, run);
    assert Records(s)[..|Records(s)|] == Records(s);
  }

  /** End to end, the skewed path: when segment `j` is the first recorded with a skew, the
      rules still accept the path, and verifying it names that segment after `j + 1`
      runs. */
  lemma SkewedPath(root: PathNode, specs: seq<Spec>, edges: seq<Edge>, defect: Defect, run: nat, fuel: nat, j: nat,
                   at: u64)
    requires RecordedChain(root, specs, edges) && Steady(defect) && j < |specs| && j < fuel
    requires SkewedAt(specs[j], at) && Unskewed(specs, j)
    ensures AllParsed(edges) && AllDigests(edges) && |specs| == |edges| && PathVerdict(root, edges) == None
    ensures VerifyFrom(defect, root, edges, run, fuel, 0, Zeros(32)) ==
            Ok(FirstBad((j + 1) % 0x1_0000_0000, if j == 0 then root.nodeId else edges[j - 1].node.nodeId,
                        edges[j].node.nodeId, EndHash(specs[j]),
                        ChainValue(StateAt(specs[j].Genesis(), EventActs(specs[j].events), specs[j].endIcount))))
    ensures RunsFrom(defect, root, edges, run, fuel, 0) == j + 1
  {
    hide *;
    ChainSize(root, specs, edges);
    ChainIsReady(root, specs, edges);
    ReadyAll(root, edges);
    ReadyParts(root, edges, 0);
    ChainAtIndex(root, specs, edges, j);
    CleanUpTo(defect, root, specs, edges, run, j);
    DisagreeingAt(defect, edges, run, j);
    SkewDisagrees(defect, specs[j], at, SegIdx(j), run + j);
    FirstIs(Disagreeing(defect, edges, run), j);
    LocalizesFirst(defect, root, edges, run, fuel);
    SegIdxIs(j);
    BadIs(root, edges, j, ReplayedEnd(defect, edges[j].segment, run + j, SegIdx(j)));
  }

  /** `verify` names segment `j`, and bisecting it from its own base on the same mock, run
      count and all, reports the exact icount `at`. */
  ghost predicate FoundExactly(d: Defect, root: PathNode, edges: seq<Edge>, run: nat, fuel: nat, j: nat, at: u64,
                               expected: Hash32, opts: BisectOptions)
    requires AllParsed(edges) && AllSteppable(edges) && AllDigests(edges) && j < |edges|
  {
    StepsAt(edges, j);
    var named := VerifyFrom(d, root, edges, run, fuel, 0, Zeros(32));
    var runs := run + RunsFrom(d, root, edges, run, fuel, 0);
    var number := (j + 1) % 0x1_0000_0000;
    var report := Reported(d, edges[j].segment, Parent(root, edges, j).snapshotRef, number, runs, expected, opts);
    && named.Ok? && named.value.FirstBad? && named.value.segment == number
    && report.Ok? && report.value.offset == ExactIcount(at)
  }

  lemma FoundFrom(d: Defect, root: PathNode, edges: seq<Edge>, run: nat, fuel: nat, j: nat, at: u64, expected: Hash32,
                  opts: BisectOptions)
    requires AllParsed(edges) && AllSteppable(edges) && AllDigests(edges) && j < |edges|
    requires edges[j].segment.Valid() && Steppable(edges[j].segment)
    requires var named := VerifyFrom(d, root, edges, run, fuel, 0, Zeros(32));
             named.Ok? && named.value.FirstBad? && named.value.segment == (j + 1) % 0x1_0000_0000
    requires RunsFrom(d, root, edges, run, fuel, 0) == j + 1
    requires var report :=
      Reported(d, edges[j].segment, Parent(root, edges, j).snapshotRef, SegIdx(j), run + (j + 1), expected, opts);
             report.Ok? && report.value.offset == ExactIcount(at)
    ensures FoundExactly(d, root, edges, run, fuel, j, at, expected, opts)
  {
    hide Reported, VerifyFrom, RunsFrom, AllParsed, AllSteppable, AllDigests, Steppable, Segment.Valid;
  }

  /** The two drivers together: on a chain whose first skewed recording is segment `j`,
      with runs enough, path verification names that segment and bisection its icount. */
  lemma SkewFound(root: PathNode, specs: seq<Spec>, edges: seq<Edge>, run: nat, fuel: nat, j: nat, at: u64,
                  expected: Hash32, opts: BisectOptions, k: nat)
    requires RecordedChain(root, specs, edges) && j < |specs| && j < fuel
    requires SkewedAt(specs[j], at) && Unskewed(specs, j)
    requires Pow2(k) <= specs[j].Epochs() < Pow2(k + 1)
             && opts.maxRuns >= (if opts.skipPhase1 then 0 else opts.flakeRetries + 1) + 16 + k
    ensures AllParsed(edges) && AllSteppable(edges) && AllDigests(edges) && j < |edges|
    ensures FoundExactly(RecordedSkew((j + 1) % 0x1_0000_0000, at), root, edges, run, fuel, j, at, expected, opts)
  {
    hide *;
    SegIdxIs(j);
    var d := RecordedSkew(SegIdx(j), at);
    ChainSize(root, specs, edges);
    SkewIsSteadySide(at, SegIdx(j));
    SkewedPath(root, specs, edges, d, run, fuel, j, at);
    ChainAtIndex(root, specs, edges, j);
    ChainIsReady(root, specs, edges);
    ReadyAll(root, edges);
    StepsAt(edges, j);
    SkewedReport(specs[j], at, SegIdx(j), run + (j + 1), expected, opts, k);
    FoundFrom(d, root, edges, run, fuel, j, at, expected, opts);
  }

  lemma SkewDisagrees(defect: Defect, spec: Spec, at: u64, segmentIndex: u32, run: nat)
    requires SkewedAt(spec, at) && Steady(defect)
    ensures Written(spec).Valid() && Disagrees(defect, Written(spec), run, segmentIndex)
    ensures ReplayedEnd(defect, Written(spec), run, segmentIndex)
            == ChainValue(StateAt(spec.Genesis(), EventActs(spec.events), spec.endIcount))
  {
    hide *;
    SkewFacts(spec, at);
    SkewCaught(spec, at, segmentIndex, run);
    WrittenIsSteppable(spec);
    var s, d := Written(spec), RecordedSkew(segmentIndex, at);
    SteadyNoFold(defect, segmentIndex, run);
    SkewIsSteadySide(at, segmentIndex);
    SteadyNoFold(d, segmentIndex, run);
    WrittenActs(spec);
    TimelineIs(defect, s, Replayed(run), segmentIndex);
    TimelineIs(d, s, Replayed(run), segmentIndex);
    ReplayedEndIs(defect, s, segmentIndex, run);
    ReplayedEndIs(d, s, segmentIndex, run);
    WithoutFold(CanonActs(Records(s)));
    DisagreesAlike(defect, d, s, segmentIndex, run);
  }

  lemma SkewIsSteadySide(at: u64, segmentIndex: u32)
    ensures Steady(RecordedSkew(segmentIndex, at))
  {
  }

  lemma DisagreesAlike(a: Defect, b: Defect, s: Segment, segmentIndex: u32, run: nat)
    requires s.Valid() && HonestReplay(a, s, run, segmentIndex) == HonestReplay(b, s, run, segmentIndex)
    requires ReplayedEnd(a, s, run, segmentIndex) == ReplayedEnd(b, s, run, segmentIndex)
    ensures Disagrees(a, s, run, segmentIndex) == Disagrees(b, s, run, segmentIndex)
  {
    hide HonestReplay, ReplayedEnd;
  }

  /** A chain whose rows have logs assembles into a container. */
  lemma ChainAssembles(root: PathNode, specs: seq<Spec>, edges: seq<Edge>, ctx: Assemble.Context)
    requires RecordedChain(root, specs, edges) && edges != []
    requires forall i :: 0 <= i < |edges| ==> edges[i].node.inputLogId.Some?
    ensures AllParsed(edges) && Assemble.Assembled(root, edges, ctx).Ok?
  {
    hide *;
    ChainIsReady(root, specs, edges);
    ReadyParts(root, edges, 0);
    AcceptsExactlyLineages(root, edges);
    Assemble.AssemblesExactlyLineages(root, edges, ctx);
  }
}
