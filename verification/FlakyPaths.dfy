/** Verifying a chain of clean recordings on a mock whose replays of one segment flake. */
module FlakyPaths {
  import opened Wrappers
  import opened Bytes
  import opened Guest
  import opened Divergence
  import opened Writer
  import opened Recording
  import opened Hv
  import opened Replay
  import opened Mock
  import opened WrittenReplay
  import opened Rules
  import opened Reports
  import opened VerifyPath
  import opened Paths
  import opened Chains
  import opened Flakes

  // ---- a flake past the end ----

  lemma LateChain(spec: Spec, at: u64, v: u64, k: nat)
    requires spec.Valid() && spec.skewAt == None && k <= spec.Epochs() && spec.endIcount < at
    ensures ChainAt(spec.Genesis(), FlakyActs(spec, at, v), k) == ChainAt(spec.Genesis(), RecordedActs(spec), k)
  {
    hide Spec.Valid, EventActs, Inject, ChainAt, Sorted, LE64;
    RecordedSorted(spec);
    UnskewedActs(spec);
    ChainBefore(spec.Genesis(), EventActs(spec.events), FlakeAct(at, v), k);
  }

  lemma LateState(spec: Spec, at: u64, v: u64)
    requires spec.Valid() && spec.skewAt == None && spec.endIcount < at
    ensures StateAt(spec.Genesis(), FlakyActs(spec, at, v), spec.endIcount)
            == StateAt(spec.Genesis(), RecordedActs(spec), spec.endIcount)
  {
    hide Spec.Valid, EventActs, Inject, RegAt, ChainAt, Sorted, LE64;
    RecordedSorted(spec);
    UnskewedActs(spec);
    InjectedRegBefore(EventActs(spec.events), FlakeAct(at, v), spec.endIcount);
    ChainBefore(spec.Genesis(), EventActs(spec.events), FlakeAct(at, v), spec.endIcount / EPOCH);
  }

  /** A flake past the end of its segment never lands: the run verifies. */
  lemma LateVerifies(spec: Spec, segmentIndex: u32, at: u64, flakePeriod: u32, run: nat)
    requires spec.Valid() && spec.skewAt == None && spec.endIcount < at
    ensures Written(spec).Valid()
    ensures Unbisected(ReplayNondet(segmentIndex, at, flakePeriod), Written(spec), segmentIndex, run)
            == Ok(Verified(EndHash(spec), spec.Epochs()))
  {
    hide *;
    var v := FlakeValue(run, flakePeriod);
    var d, o, replayed := ReplayNondet(segmentIndex, at, flakePeriod), spec.Genesis(), FlakyActs(spec, at, v);
    FlakeContends(spec, segmentIndex, at, flakePeriod, run);
    WrittenEpochs(spec);
    LateState(spec, at, v);
    forall k: nat | k <= |EpochsOf(WrittenRecords(spec))|
      ensures ChainAt(o, replayed, k) == ChainAt(o, RecordedActs(spec), k)
    {
      LateChain(spec, at, v, k);
    }
    SameHashesVerify(d, spec, segmentIndex, run, replayed);
  }

  // ---- the path ----

  /** The flake lands on this run of segment `i` and changes the register it meets. */
  predicate Strikes(specs: seq<Spec>, segment: u32, at: u64, flakePeriod: u32, run: nat, i: nat)
    requires i < |specs|
  {
    SegIdx(i) == segment && at <= specs[i].endIcount && FlakeBites(specs[i], at, FlakeValue(run + i, flakePeriod))
  }

  function StruckSegments(specs: seq<Spec>, segment: u32, at: u64, flakePeriod: u32, run: nat): (b: seq<bool>)
    ensures |b| == |specs|
  {
    seq(|specs|, i requires 0 <= i < |specs| => Strikes(specs, segment, at, flakePeriod, run, i))
  }

  /** A chain of clean recordings, under a hash that confuses no two states of a flaky
      execution of the segment and its recording. */
  ghost predicate FlakyChain(root: PathNode, specs: seq<Spec>, edges: seq<Edge>, segment: u32, at: u64,
                             flakePeriod: u32, run: nat)
  {
    && RecordedChain(root, specs, edges) && edges != [] && Unskewed(specs, |specs|)
    && forall i :: 0 <= i < |specs| && SegIdx(i) == segment && at <= specs[i].endIcount ==>
         FlakedAt(specs[i], at, FlakeValue(run + i, flakePeriod))
  }

  lemma FlakyChainAt(root: PathNode, specs: seq<Spec>, edges: seq<Edge>, segment: u32, at: u64, flakePeriod: u32,
                     run: nat, i: nat)
    requires FlakyChain(root, specs, edges, segment, at, flakePeriod, run) && i < |specs|
    ensures RecordedChain(root, specs, edges) && edges != [] && Unskewed(specs, |specs|)
    ensures SegIdx(i) == segment && at <= specs[i].endIcount ==>
              FlakedAt(specs[i], at, FlakeValue(run + i, flakePeriod))
    ensures StruckSegments(specs, segment, at, flakePeriod, run)[i] <==>
              SegIdx(i) == segment && at <= specs[i].endIcount
              && FlakeBites(specs[i], at, FlakeValue(run + i, flakePeriod))
  {
    hide RecordedChain, Unskewed, FlakedAt, FlakeBites, FlakeValue, SegIdx;
  }

  lemma OtherSegment(segment: u32, at: u64, flakePeriod: u32, run: nat, segmentIndex: u32)
    requires segmentIndex != segment
    ensures FoldFor(ReplayNondet(segment, at, flakePeriod), Replayed(run), segmentIndex) == None
  {
  }

  /** A segment of the chain disagrees with its replay if and only if the flake strikes it. */
  lemma StruckDisagrees(root: PathNode, specs: seq<Spec>, edges: seq<Edge>, segment: u32, at: u64, flakePeriod: u32,
                        run: nat, i: nat)
    requires FlakyChain(root, specs, edges, segment, at, flakePeriod, run) && i < |specs|
    ensures |specs| == |edges| && AllParsed(edges)
    ensures Disagreeing(ReplayNondet(segment, at, flakePeriod), edges, run)[i]
            <==> StruckSegments(specs, segment, at, flakePeriod, run)[i]
    ensures StruckSegments(specs, segment, at, flakePeriod, run)[i] ==>
              ReplayedEnd(ReplayNondet(segment, at, flakePeriod), edges[i].segment, run + i, SegIdx(i))
              == ChainValue(FlakyEnd(edges[i].segment, at, FlakeValue(run + i, flakePeriod)))
  {
    hide *;
    var d := ReplayNondet(segment, at, flakePeriod);
    FlakyChainAt(root, specs, edges, segment, at, flakePeriod, run, i);
    ChainSize(root, specs, edges);
    ChainParsed(root, specs, edges);
    ChainAtIndex(root, specs, edges, i);
    UnskewedAt(specs, |specs|, i);
    DisagreeingAt(d, edges, run, i);
    var s := Written(specs[i]);
    WrittenRunnable(specs[i]);
    RunTotal(d, s, SegIdx(i), run + i);
    if SegIdx(i) != segment {
      OtherSegment(segment, at, flakePeriod, run + i, SegIdx(i));
      CleanVerifies(d, specs[i], SegIdx(i), run + i);
    } else if at > specs[i].endIcount {
      LateVerifies(specs[i], segment, at, flakePeriod, run + i);
    } else {
      FlakeCaughtIff(specs[i], segment, at, flakePeriod, run + i);
      FlakeTimeline(s, segment, at, flakePeriod, run + i);
    }
  }

  lemma SameFlags(a: seq<bool>, b: seq<bool>)
    requires |a| == |b| && forall i :: 0 <= i < |a| ==> (a[i] <==> b[i])
    ensures a == b
  {
  }

  /** Verifying the chain names the first segment the flake strikes, after as many runs as
      its index, if the budget gets there; else the budget is spent, or the whole chain
      verifies. For every segment number, fold icount, period, budget and run count. */
  lemma FlakyPath(root: PathNode, specs: seq<Spec>, edges: seq<Edge>, segment: u32, at: u64, flakePeriod: u32,
                  run: nat, fuel: nat)
    requires FlakyChain(root, specs, edges, segment, at, flakePeriod, run)
    ensures AllParsed(edges) && AllDigests(edges) && |specs| == |edges| && PathVerdict(root, edges) == None
    ensures var d, j :=
      ReplayNondet(segment, at, flakePeriod), First(StruckSegments(specs, segment, at, flakePeriod, run), 0);
            && VerifyFrom(d, root, edges, run, fuel, 0, Zeros(32)) ==
               (if j.Some? && j.value < fuel then
                  Ok(FirstBad((j.value + 1) % 0x1_0000_0000,
                              if j.value == 0 then root.nodeId else edges[j.value - 1].node.nodeId,
                              edges[j.value].node.nodeId, EndHash(specs[j.value]),
                              ChainValue(FlakyEnd(edges[j.value].segment, at,
                                                  FlakeValue(run + j.value, flakePeriod)))))
                else if fuel < |edges| then Err(NoBudget)
                else Ok(Clean(EndHash(specs[|specs| - 1]), |edges| % TWO32)))
            && RunsFrom(d, root, edges, run, fuel, 0) ==
               (if j.Some? && j.value < fuel then j.value + 1 else if fuel < |edges| then fuel else |edges|)
  {
    hide *;
    var d := ReplayNondet(segment, at, flakePeriod);
    FlakyChainParts(root, specs, edges, segment, at, flakePeriod, run);
    ChainSize(root, specs, edges);
    ChainIsReady(root, specs, edges);
    ReadyAll(root, edges);
    ReadyParts(root, edges, 0);
    ChainAtIndex(root, specs, edges, |edges| - 1);
    HeaderOfWritten(specs[|edges| - 1]);
    forall i | 0 <= i < |specs|
      ensures Disagreeing(d, edges, run)[i] <==> StruckSegments(specs, segment, at, flakePeriod, run)[i]
    {
      StruckDisagrees(root, specs, edges, segment, at, flakePeriod, run, i);
    }
    SameFlags(Disagreeing(d, edges, run), StruckSegments(specs, segment, at, flakePeriod, run));
    var j := First(StruckSegments(specs, segment, at, flakePeriod, run), 0);
    if j.Some? {
      StruckDisagrees(root, specs, edges, segment, at, flakePeriod, run, j.value);
      ChainAtIndex(root, specs, edges, j.value);
      ReadyParts(root, edges, j.value);
      SegIdxIs(j.value);
      BadIs(root, edges, j.value, ReplayedEnd(d, edges[j.value].segment, run + j.value, SegIdx(j.value)));
    }
    LocalizesFirst(d, root, edges, run, fuel);
  }

  lemma FlakyChainParts(root: PathNode, specs: seq<Spec>, edges: seq<Edge>, segment: u32, at: u64, flakePeriod: u32,
                        run: nat)
    requires FlakyChain(root, specs, edges, segment, at, flakePeriod, run)
    ensures RecordedChain(root, specs, edges) && edges != [] && Unskewed(specs, |specs|)
  {
    hide RecordedChain, Unskewed, FlakedAt, FlakeValue, SegIdx;
  }

  lemma OneSegment(i: nat, j: nat, n: nat)
    requires i < n <= TWO32 && j < n && SegIdx(i) == SegIdx(j)
    ensures i == j
  {
  }

  /** With the flake on segment `j` and runs enough: `verify` names that segment after
      `j + 1` runs if and only if the flake of that run changes the register it meets, and
      otherwise verifies the whole chain. */
  lemma FlakeNamed(root: PathNode, specs: seq<Spec>, edges: seq<Edge>, j: nat, at: u64, flakePeriod: u32, run: nat,
                   fuel: nat)
    requires RecordedChain(root, specs, edges) && Unskewed(specs, |specs|) && j < |specs| <= TWO32 && fuel >= |edges|
    requires FlakedAt(specs[j], at, FlakeValue(run + j, flakePeriod))
    ensures AllParsed(edges) && AllDigests(edges) && |specs| == |edges| && PathVerdict(root, edges) == None
    ensures var d, v := ReplayNondet((j + 1) % 0x1_0000_0000, at, flakePeriod), FlakeValue(run + j, flakePeriod);
            var result, runs :=
              VerifyFrom(d, root, edges, run, fuel, 0, Zeros(32)), RunsFrom(d, root, edges, run, fuel, 0);
            if FlakeBites(specs[j], at, v) then
              && runs == j + 1
              && result
              == Ok(FirstBad((j + 1) % 0x1_0000_0000, if j == 0 then root.nodeId else edges[j - 1].node.nodeId,
                                       edges[j].node.nodeId, EndHash(specs[j]),
                                       ChainValue(FlakyEnd(edges[j].segment, at, v))))
            else
              result == Ok(Clean(EndHash(specs[|specs| - 1]), |edges| % TWO32)) && runs == |edges|
  {
    hide *;
    SegIdxIs(j);
    var segment := SegIdx(j);
    ChainSize(root, specs, edges);
    FlakeFacts(specs[j], at, FlakeValue(run + j, flakePeriod));
    forall i | 0 <= i < |specs| && SegIdx(i) == segment
      ensures i == j
    {
      OneSegment(i, j, |specs|);
    }
    FlakyChainFrom(root, specs, edges, j, at, flakePeriod, run);
    FlakyPath(root, specs, edges, segment, at, flakePeriod, run, fuel);
    var b := StruckSegments(specs, segment, at, flakePeriod, run);
    forall i | 0 <= i < |specs|
      ensures b[i] <==> i == j && FlakeBites(specs[j], at, FlakeValue(run + j, flakePeriod))
    {
      FlakyChainAt(root, specs, edges, segment, at, flakePeriod, run, i);
    }
    if FlakeBites(specs[j], at, FlakeValue(run + j, flakePeriod)) {
      FirstIs(b, j);
    } else {
      FirstNone(b);
    }
  }

  lemma FlakyChainFrom(root: PathNode, specs: seq<Spec>, edges: seq<Edge>, j: nat, at: u64, flakePeriod: u32, run: nat)
    requires RecordedChain(root, specs, edges) && |specs| == |edges| && Unskewed(specs, |specs|) && j < |specs|
    requires FlakedAt(specs[j], at, FlakeValue(run + j, flakePeriod))
    requires forall i :: 0 <= i < |specs| && SegIdx(i) == SegIdx(j) ==> i == j
    ensures FlakyChain(root, specs, edges, SegIdx(j), at, flakePeriod, run)
  {
    hide RecordedChain, Unskewed, FlakedAt, FlakeValue, SegIdx;
  }
}
