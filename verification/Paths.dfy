/** What verifying a path finds: the first segment whose replay disagrees, for free. */
module Paths {
  import opened Wrappers
  import opened Bytes
  import opened Guest
  import opened Validator
  import opened Hv
  import opened Replay
  import opened Mock
  import opened WrittenReplay
  import opened Rules
  import opened Reports
  import opened VerifyPath

  // ---- validated paths never fault ----

  ghost predicate EpochPayloads(s: Segment)
    requires s.Valid()
  {
    forall i :: 0 <= i < |Records(s)| && IsEpochRecord(Records(s)[i]) ==> |Records(s)[i].payload| == 40
  }

  /** A path the rules accept, whose epoch records have their 40 bytes and whose icounts
      leave room for one more epoch in a machine word. */
  ghost predicate Ready(root: PathNode, edges: seq<Edge>) {
    && AllParsed(edges) && PathVerdict(root, edges) == None
    && forall i :: 0 <= i < |edges| ==>
      edges[i].segment.header.endIcount + EPOCH < TWO64 && EpochPayloads(edges[i].segment)
  }

  lemma ReadySegment(s: Segment)
    requires s.Valid() && Verdict(s) == None && s.header.endIcount + EPOCH < TWO64 && EpochPayloads(s)
    ensures Runnable(s)
  {
    hide Verdict, Segment.Valid;
    ValidatedIsSteppable(s);
  }

  lemma LineageAt(root: PathNode, edges: seq<Edge>, i: nat)
    requires AllParsed(edges) && Lineage(root, edges) && i < |edges|
    ensures edges[i].segment.Valid() && WellFormed(edges[i].segment) && Linked(root, edges, i)
    ensures edges[i].node.stateHash == Some(edges[i].segment.header.endStateHash)
  {
  }

  lemma ReadyParts(root: PathNode, edges: seq<Edge>, i: nat)
    requires Ready(root, edges) && i < |edges|
    ensures AllParsed(edges) && PathVerdict(root, edges) == None && edges[i].segment.Valid()
    ensures edges[i].segment.header.endIcount + EPOCH < TWO64 && EpochPayloads(edges[i].segment)
  {
    hide PathVerdict, Segment.Valid;
  }

  lemma LinkedBase(root: PathNode, edges: seq<Edge>, i: nat)
    requires i < |edges| && Linked(root, edges, i)
    ensures Parent(root, edges, i).snapshotRef == edges[i].segment.header.baseSnapshot
  {
  }

  /** Every segment of such a path runs from its parent's snapshot to its node's hash. */
  lemma ReadyAt(root: PathNode, edges: seq<Edge>, i: nat)
    requires Ready(root, edges) && i < |edges|
    ensures edges[i].segment.Valid() && Runnable(edges[i].segment)
    ensures Parent(root, edges, i).snapshotRef == edges[i].segment.header.baseSnapshot
    ensures edges[i].node.stateHash == Some(edges[i].segment.header.endStateHash)
  {
    hide *;
    ReadyParts(root, edges, i);
    AcceptsExactlyLineages(root, edges);
    LineageAt(root, edges, i);
    AcceptsExactlyWellFormed(edges[i].segment);
    ReadySegment(edges[i].segment);
    LinkedBase(root, edges, i);
  }

  lemma ReadyAll(root: PathNode, edges: seq<Edge>)
    requires Ready(root, edges)
    ensures AllParsed(edges) && AllSteppable(edges) && AllDigests(edges)
  {
    hide Runnable, PathVerdict, Parent, Segment.Valid, Steppable;
    forall i | 0 <= i < |edges|
      ensures edges[i].segment.Valid() && Steppable(edges[i].segment) && edges[i].node.stateHash.Some?
    {
      ReadyAt(root, edges, i);
      RunnableFacts(edges[i].segment);
    }
  }

  // ---- free localization ----

  /** The post-check of a verified segment cannot fail: the mock verifies only with the
      recorded end hash, which the digest rule made the node's. */
  lemma VerifiedHash(defect: Defect, s: Segment, segmentIndex: u32, run: nat)
    requires s.Valid()
    ensures var u := Unbisected(defect, s, segmentIndex, run);
            u.Ok? && u.value.Verified? ==>
              u.value.endStateHash == s.header.endStateHash && u.value.epochsOk == |EpochsOf(Records(s))|
  {
    hide ReplayFrom, Timeline, Diagnose, FaultFrom, ReplayedEnd, Segment.Valid;
  }

  /** Which segments' replays disagree with their recordings, run by run. */
  function Disagreeing(defect: Defect, edges: seq<Edge>, run: nat): (bad: seq<bool>)
    requires AllParsed(edges)
    ensures |bad| == |edges|
  {
    seq(|edges|, i requires 0 <= i < |edges| && edges[i].segment.Valid() =>
          Disagrees(defect, edges[i].segment, run + i, SegIdx(i)))
  }

  lemma DisagreeingAt(defect: Defect, edges: seq<Edge>, run: nat, i: nat)
    requires AllParsed(edges) && i < |edges|
    ensures edges[i].segment.Valid()
    ensures Disagreeing(defect, edges, run)[i] <==> Disagrees(defect, edges[i].segment, run + i, SegIdx(i))
    ensures First(Disagreeing(defect, edges, run), i)
            == if Disagreeing(defect, edges, run)[i] then Some(i) else First(Disagreeing(defect, edges, run), i + 1)
  {
    hide Disagrees, Segment.Valid;
  }

  /** One turn of the driver on a validated path. */
  lemma TurnOutcome(defect: Defect, root: PathNode, edges: seq<Edge>, run: nat, i: nat)
    requires Ready(root, edges) && i < |edges|
    ensures edges[i].segment.Valid()
    ensures var s := edges[i].segment;
            var u := Unbisected(defect, s, SegIdx(i), run);
            && Parent(root, edges, i).snapshotRef == s.header.baseSnapshot
            && edges[i].node.stateHash == Some(s.header.endStateHash)
            && u.Ok? && (u.value.Diverged? <==> Disagrees(defect, s, run, SegIdx(i)))
            && u.value.endStateHash
               == (if u.value.Diverged? then ReplayedEnd(defect, s, run, SegIdx(i)) else s.header.endStateHash)
  {
    hide *;
    ReadyAt(root, edges, i);
    RunTotal(defect, edges[i].segment, SegIdx(i), run);
    VerifiedHash(defect, edges[i].segment, SegIdx(i), run);
  }

  /** The result when `j` is the first segment to disagree: that segment, if the budget
      gets there; otherwise a spent budget, or a clean path. */
  function PathResult(defect: Defect, root: PathNode, edges: seq<Edge>, run: nat, fuel: nat, j: Option<nat>,
                      last: Hash32)
    : Result<VerifyResult, HvFault>
    requires AllParsed(edges) && AllDigests(edges) && (j.Some? ==> j.value < |edges|)
  {
    if j.Some? && j.value < fuel then
      Ok(BadAt(root, edges, j.value, ReplayedEnd(defect, edges[j.value].segment, run + j.value, SegIdx(j.value))))
    else if fuel < |edges| then Err(NoBudget)
    else Ok(Clean(last, |edges| % TWO32))
  }

  function PathRuns(k: nat, fuel: nat, j: Option<nat>): nat {
    if j.Some? && j.value < fuel then j.value + 1 else if fuel < k then fuel else k
  }

  function LastHash(edges: seq<Edge>, i: nat, last: Hash32): Hash32 {
    if i < |edges| then edges[|edges| - 1].segment.header.endStateHash else last
  }

  lemma PathResultIs(defect: Defect, root: PathNode, edges: seq<Edge>, run: nat, fuel: nat, j: Option<nat>,
                     last: Hash32)
    requires AllParsed(edges) && AllDigests(edges) && (j.Some? ==> j.value < |edges|)
    ensures (j.Some? && edges[j.value].segment.Valid()) || j.None?
    ensures PathResult(defect, root, edges, run, fuel, j, last) ==
            if j.Some? && j.value < fuel then
              Ok(BadAt(root, edges, j.value,
                       ReplayedEnd(defect, edges[j.value].segment, run + j.value, SegIdx(j.value))))
            else if fuel < |edges| then Err(NoBudget)
            else Ok(Clean(last, |edges| % TWO32))
  {
    hide BadAt, ReplayedEnd, SegIdx, Segment.Valid;
  }

  lemma LastHashTurn(edges: seq<Edge>, i: nat, last: Hash32)
    requires i < |edges|
    ensures LastHash(edges, i, last) == LastHash(edges, i + 1, edges[i].segment.header.endStateHash)
  {
  }

  lemma {:induction false} VerifyFromIs(defect: Defect, root: PathNode, edges: seq<Edge>, run: nat, fuel: nat, i: nat,
                                        last: Hash32)
    requires Ready(root, edges) && i <= |edges| && i <= fuel
    ensures AllParsed(edges) && AllDigests(edges)
    ensures var j := First(Disagreeing(defect, edges, run), i);
            && VerifyFrom(defect, root, edges, run + i, fuel - i, i, last)
               == PathResult(defect, root, edges, run, fuel, j, LastHash(edges, i, last))
            && i + RunsFrom(defect, root, edges, run + i, fuel - i, i) == PathRuns(|edges|, fuel, j)
    decreases |edges| - i
  {
    hide *;
    ReadyAll(root, edges);
    var bad := Disagreeing(defect, edges, run);
    var j := First(bad, i);
    PathResultIs(defect, root, edges, run, fuel, j, LastHash(edges, i, last));
    PathRunsIs(|edges|, fuel, j);
    if i < |edges| {
      DisagreeingAt(defect, edges, run, i);
      TurnOutcome(defect, root, edges, run + i, i);
      VerifyTurn(defect, root, edges, run + i, fuel - i, i, last);
      LastHashTurn(edges, i, last);
      if !bad[i] && i < fuel {
        VerifyFromIs(defect, root, edges, run, fuel, i + 1, edges[i].segment.header.endStateHash);
      }
    } else {
      VerifyDone(defect, root, edges, run + i, fuel - i, last);
      LastHashDone(edges, i, last);
    }
  }

  lemma PathRunsIs(k: nat, fuel: nat, j: Option<nat>)
    ensures PathRuns(k, fuel, j) == if j.Some? && j.value < fuel then j.value + 1 else if fuel < k then fuel else k
  {
  }

  lemma LastHashDone(edges: seq<Edge>, i: nat, last: Hash32)
    requires i >= |edges|
    ensures LastHash(edges, i, last) == last
  {
  }

  lemma LocalizesFirst(defect: Defect, root: PathNode, edges: seq<Edge>, run: nat, fuel: nat)
    requires Ready(root, edges) && edges != []
    ensures AllParsed(edges) && AllDigests(edges)
    ensures var j := First(Disagreeing(defect, edges, run), 0);
            && VerifyFrom(defect, root, edges, run, fuel, 0, Zeros(32)) ==
               (if j.Some? && j.value < fuel then
                  Ok(BadAt(root, edges, j.value,
                           ReplayedEnd(defect, edges[j.value].segment, run + j.value, SegIdx(j.value))))
                else if fuel < |edges| then Err(NoBudget)
                else Ok(Clean(edges[|edges| - 1].segment.header.endStateHash, |edges| % TWO32)))
            && RunsFrom(defect, root, edges, run, fuel, 0) ==
               (if j.Some? && j.value < fuel then j.value + 1 else if fuel < |edges| then fuel else |edges|)
  {
    hide *;
    ReadyAll(root, edges);
    VerifyFromIs(defect, root, edges, run, fuel, 0, Zeros(32));
    var j := First(Disagreeing(defect, edges, run), 0);
    LastHashIs(edges);
    PathResultIs(defect, root, edges, run, fuel, j, edges[|edges| - 1].segment.header.endStateHash);
    PathRunsIs(|edges|, fuel, j);
  }

  lemma LastHashIs(edges: seq<Edge>)
    requires edges != []
    ensures LastHash(edges, 0, Zeros(32)) == edges[|edges| - 1].segment.header.endStateHash
  {
  }

  /** No segment before position `j` disagrees with its replay; the one there does, and its
      replay ends in `actual`. Segments are numbered from one, and run in turn. */
  ghost predicate FirstToDisagree(defect: Defect, edges: seq<Edge>, run: nat, j: nat, actual: Hash32)
    requires AllParsed(edges)
  {
    && (forall i: nat :: i < j && i < |edges| ==>
          !Disagrees(defect, edges[i].segment, run + i, (i + 1) % 0x1_0000_0000))
    && (j < |edges| ==>
          && Disagrees(defect, edges[j].segment, run + j, (j + 1) % 0x1_0000_0000)
          && actual == ReplayedEnd(defect, edges[j].segment, run + j, (j + 1) % 0x1_0000_0000))
  }

  lemma FirstToDisagreeIs(defect: Defect, edges: seq<Edge>, run: nat, j: nat, actual: Hash32)
    requires AllParsed(edges) && j <= |edges|
    requires First(Disagreeing(defect, edges, run), 0) == if j < |edges| then Some(j) else None
    requires j < |edges| ==> actual == ReplayedEnd(defect, edges[j].segment, run + j, SegIdx(j))
    ensures FirstToDisagree(defect, edges, run, j, actual)
  {
    hide Disagrees, ReplayedEnd, Segment.Valid, SegIdx, First, Disagreeing;
    forall i: nat | i <= j && i < |edges|
      ensures Disagreeing(defect, edges, run)[i] <==> Disagrees(defect, edges[i].segment, run + i, SegIdx(i))
      ensures SegIdx(i) == (i + 1) % 0x1_0000_0000
    {
      DisagreeingAt(defect, edges, run, i);
      SegIdxIs(i);
    }
  }

  /** What `verify` makes of that: the segment's number, its edge, the recorded end hash and
      the replay's, if the budget gets there. */
  ghost predicate NamesSegment(defect: Defect, root: PathNode, edges: seq<Edge>, run: nat, fuel: nat, j: nat,
                            actual: Hash32)
    requires AllParsed(edges) && AllDigests(edges) && edges != []
  {
    && VerifyFrom(defect, root, edges, run, fuel, 0, Zeros(32)) ==
       (if j < |edges| && j < fuel then
          Ok(FirstBad((j + 1) % 0x1_0000_0000, if j == 0 then root.nodeId else edges[j - 1].node.nodeId,
                      edges[j].node.nodeId, edges[j].segment.header.endStateHash, actual))
        else if fuel < |edges| then Err(NoBudget)
        else Ok(Clean(edges[|edges| - 1].segment.header.endStateHash, |edges| % 0x1_0000_0000)))
    && RunsFrom(defect, root, edges, run, fuel, 0) ==
       (if j < |edges| && j < fuel then j + 1 else if fuel < |edges| then fuel else |edges|)
  }

  lemma NamesSegmentIs(defect: Defect, root: PathNode, edges: seq<Edge>, run: nat, fuel: nat, j: nat, actual: Hash32)
    requires Ready(root, edges) && edges != [] && j <= |edges|
    requires AllParsed(edges) && AllDigests(edges)
    requires First(Disagreeing(defect, edges, run), 0) == if j < |edges| then Some(j) else None
    requires j < |edges| ==>
               edges[j].segment.Valid() && actual == ReplayedEnd(defect, edges[j].segment, run + j, SegIdx(j))
    ensures NamesSegment(defect, root, edges, run, fuel, j, actual)
  {
    hide Ready, AllParsed, AllDigests, VerifyFrom, RunsFrom, First, Disagreeing, ReplayedEnd, SegIdx, BadAt,
         Segment.Valid, PathVerdict;
    LocalizesFirst(defect, root, edges, run, fuel);
    SegIdxIs(j);
    if j < |edges| {
      ReadyAt(root, edges, j);
      BadIs(root, edges, j, actual);
    }
  }

  /** Free localization, for every budget: on a validated path `verify` names segment
      `j + 1`, with its edge, the recorded end hash and the replay's, if and only if that is
      the first segment whose replay disagrees and the budget reaches it, after exactly as
      many runs as its number; a smaller budget is reported as spent, and otherwise all
      segments verify in as many runs. Nothing else can happen. */
  lemma FreeLocalization(defect: Defect, root: PathNode, edges: seq<Edge>, run: nat, fuel: nat)
      returns (j: nat, actual: Hash32)
    requires Ready(root, edges) && edges != []
    ensures AllParsed(edges) && AllDigests(edges) && j <= |edges|
    ensures FirstToDisagree(defect, edges, run, j, actual)
    ensures NamesSegment(defect, root, edges, run, fuel, j, actual)
  {
    hide *;
    ReadyAll(root, edges);
    var first := First(Disagreeing(defect, edges, run), 0);
    j, actual := if first.Some? then first.value else |edges|, Zeros(32);
    if j < |edges| {
      ReadyAt(root, edges, j);
      actual := ReplayedEnd(defect, edges[j].segment, run + j, SegIdx(j));
    }
    FirstToDisagreeIs(defect, edges, run, j, actual);
    NamesSegmentIs(defect, root, edges, run, fuel, j, actual);
  }

  // ---- any path at all ----

  /** The segment at position `i` starts where its parent stands, and its run verifies with
      its node's hash. */
  ghost predicate Passes(defect: Defect, root: PathNode, edges: seq<Edge>, run: nat, i: nat)
    requires AllParsed(edges) && AllDigests(edges) && i < |edges|
  {
    var u := Unbisected(defect, edges[i].segment, (i + 1) % 0x1_0000_0000, run + i);
    && (if i == 0 then root else edges[i - 1].node).snapshotRef == edges[i].segment.header.baseSnapshot
    && u.Ok? && u.value.Verified? && u.value.endStateHash == edges[i].node.stateHash.value
  }

  /** What the first segment that does not pass gives: a refused base, a spent budget, its
      own fault, or its number with the hash its node promises and the one its run ended in,
      whether the run itself disagreed or only the node does. */
  ghost function Stop(defect: Defect, root: PathNode, edges: seq<Edge>, run: nat, fuel: nat, j: nat)
    : Result<VerifyResult, HvFault>
    requires AllParsed(edges) && AllDigests(edges) && j < |edges|
  {
    var s, node, parent := edges[j].segment, edges[j].node, if j == 0 then root else edges[j - 1].node;
    if parent.snapshotRef != s.header.baseSnapshot then Err(BaseMismatch)
    else if fuel <= j then Err(NoBudget)
    else
      match Unbisected(defect, s, (j + 1) % 0x1_0000_0000, run + j)
      case Err(f) => Err(f)
      case Ok(o) =>
        Ok(FirstBad((j + 1) % 0x1_0000_0000, parent.nodeId, node.nodeId, node.stateHash.value, o.endStateHash))
  }

  lemma PassesTurn(defect: Defect, root: PathNode, edges: seq<Edge>, run: nat, fuel: nat, i: nat, last: Hash32)
    requires AllParsed(edges) && AllDigests(edges) && i < |edges|
    requires Passes(defect, root, edges, run, i) && i < fuel
    ensures VerifyFrom(defect, root, edges, run + i, fuel - i, i, last)
            == VerifyFrom(defect, root, edges, run + (i + 1), fuel - (i + 1), i + 1, edges[i].node.stateHash.value)
    ensures RunsFrom(defect, root, edges, run + i, fuel - i, i)
            == 1 + RunsFrom(defect, root, edges, run + (i + 1), fuel - (i + 1), i + 1)
  {
    hide VerifyFrom, RunsFrom, Unbisected, BadAt, AllParsed, AllDigests, SegIdx, Segment.Valid;
    VerifyTurn(defect, root, edges, run + i, fuel - i, i, last);
    SegIdxIs(i);
  }

  lemma StopsTurn(defect: Defect, root: PathNode, edges: seq<Edge>, run: nat, fuel: nat, j: nat, last: Hash32)
    requires AllParsed(edges) && AllDigests(edges) && j < |edges| && j <= fuel
    requires j < fuel ==> !Passes(defect, root, edges, run, j)
    ensures VerifyFrom(defect, root, edges, run + j, fuel - j, j, last) == Stop(defect, root, edges, run, fuel, j)
    ensures RunsFrom(defect, root, edges, run + j, fuel - j, j) <= 1
  {
    hide VerifyFrom, RunsFrom, Unbisected, BadAt, AllParsed, AllDigests, SegIdx, Segment.Valid;
    VerifyTurn(defect, root, edges, run + j, fuel - j, j, last);
    SegIdxIs(j);
    if Unbisected(defect, edges[j].segment, SegIdx(j), run + j).Ok? {
      BadIs(root, edges, j, Unbisected(defect, edges[j].segment, SegIdx(j), run + j).value.endStateHash);
    }
  }

  lemma {:induction false} StopsFrom(defect: Defect, root: PathNode, edges: seq<Edge>, run: nat, fuel: nat, i: nat,
                                     j: nat, last: Hash32)
    requires AllParsed(edges) && AllDigests(edges) && i <= j < |edges| && j <= fuel
    requires forall k: nat :: i <= k < j ==> Passes(defect, root, edges, run, k)
    requires j < fuel ==> !Passes(defect, root, edges, run, j)
    ensures VerifyFrom(defect, root, edges, run + i, fuel - i, i, last) == Stop(defect, root, edges, run, fuel, j)
    ensures RunsFrom(defect, root, edges, run + i, fuel - i, i) <= j - i + 1
    decreases j - i
  {
    hide *;
    if i == j {
      StopsTurn(defect, root, edges, run, fuel, j, last);
    } else {
      PassesTurn(defect, root, edges, run, fuel, i, last);
      DigestAt(edges, i);
      StopsFrom(defect, root, edges, run, fuel, i + 1, j, edges[i].node.stateHash.value);
    }
  }

  lemma DigestAt(edges: seq<Edge>, i: nat)
    requires AllDigests(edges) && i < |edges|
    ensures edges[i].node.stateHash.Some?
  {
  }

  /** On any path, validated or not: `verify` stops at the first segment that does not pass,
      or that the budget does not reach, and nowhere else. */
  lemma StopsAtFirst(defect: Defect, root: PathNode, edges: seq<Edge>, run: nat, fuel: nat, j: nat)
    requires AllParsed(edges) && AllDigests(edges) && j < |edges| && j <= fuel
    requires forall k: nat :: k < j ==> Passes(defect, root, edges, run, k)
    requires j < fuel ==> !Passes(defect, root, edges, run, j)
    ensures VerifyFrom(defect, root, edges, run, fuel, 0, Zeros(32)) == Stop(defect, root, edges, run, fuel, j)
    ensures RunsFrom(defect, root, edges, run, fuel, 0) <= j + 1
  {
    hide *;
    StopsFrom(defect, root, edges, run, fuel, 0, j, Zeros(32));
  }
}
