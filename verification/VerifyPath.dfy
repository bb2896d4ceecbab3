/** Verifying a path segment by segment, each from its own base. */
module VerifyPath {
  import opened Wrappers
  import opened Bytes
  import opened Validator
  import opened Hv
  import opened Replay
  import opened Mock
  import opened MockHypervisor
  import opened Rules

  datatype VerifyResult =
    | Clean(endStateHash: Hash32, segmentsVerified: u32)
    | FirstBad(segment: u32, parent: u64, child: u64, expected: Hash32, actual: Hash32)

  // ---- what the driver returns, as a function ----

  ghost predicate AllSteppable(edges: seq<Edge>)
    requires AllParsed(edges)
  {
    forall i :: 0 <= i < |edges| ==> Steppable(edges[i].segment)
  }

  predicate AllDigests(edges: seq<Edge>) {
    forall i :: 0 <= i < |edges| ==> edges[i].node.stateHash.Some?
  }

  function BadAt(root: PathNode, edges: seq<Edge>, i: nat, actual: Hash32): VerifyResult
    requires i < |edges| && AllDigests(edges)
  {
    FirstBad(SegIdx(i), Parent(root, edges, i).nodeId, edges[i].node.nodeId, edges[i].node.stateHash.value, actual)
  }

  /** The verdict on the segments from `i` on, with `fuel` runs left. */
  function VerifyFrom(defect: Defect, root: PathNode, edges: seq<Edge>, run: nat, fuel: nat, i: nat, last: Hash32)
    : Result<VerifyResult, HvFault>
    requires i <= |edges| && AllParsed(edges) && AllDigests(edges)
    decreases |edges| - i
  {
    if i == |edges| then Ok(Clean(last, |edges| % TWO32))
    else
      var s := edges[i].segment;
      if Parent(root, edges, i).snapshotRef != s.header.baseSnapshot then Err(BaseMismatch)
      else if fuel == 0 then Err(NoBudget)
      else
        match Unbisected(defect, s, SegIdx(i), run)
        case Err(f) => Err(f)
        case Ok(Diverged(_, _, _, actual)) => Ok(BadAt(root, edges, i, actual))
        case Ok(Verified(actual, _)) =>
          if Some(actual) != edges[i].node.stateHash then Ok(BadAt(root, edges, i, actual))
          else VerifyFrom(defect, root, edges, run + 1, fuel - 1, i + 1, actual)
  }

  /** How many runs that takes. */
  function RunsFrom(defect: Defect, root: PathNode, edges: seq<Edge>, run: nat, fuel: nat, i: nat): (n: nat)
    requires i <= |edges| && AllParsed(edges)
    ensures n <= fuel && n <= |edges| - i
    decreases |edges| - i
  {
    if i == |edges| then 0
    else
      var s := edges[i].segment;
      if Parent(root, edges, i).snapshotRef != s.header.baseSnapshot || fuel == 0 then 0
      else
        match Unbisected(defect, s, SegIdx(i), run)
        case Ok(Verified(actual, _)) =>
          if Some(actual) == edges[i].node.stateHash then
            1 + RunsFrom(defect, root, edges, run + 1, fuel - 1, i + 1)
          else 1
        case _ => 1
  }

  /** The events of the first `n` segments, in path order. */
  function PathEvents(defect: Defect, edges: seq<Edge>, run: nat, n: nat): seq<VerifyEvent>
    requires n <= |edges| && AllParsed(edges)
  {
    if n == 0 then []
    else PathEvents(defect, edges, run, n - 1) + RunEvents(defect, edges[n - 1].segment, run + n - 1, SegIdx(n - 1))
  }

  lemma VerifyTurn(defect: Defect, root: PathNode, edges: seq<Edge>, run: nat, fuel: nat, i: nat, last: Hash32)
    requires i < |edges| && AllParsed(edges) && AllDigests(edges)
    ensures edges[i].segment.Valid() && edges[i].node.stateHash.Some?
    ensures VerifyFrom(defect, root, edges, run, fuel, i, last) ==
            if Parent(root, edges, i).snapshotRef != edges[i].segment.header.baseSnapshot then Err(BaseMismatch)
            else if fuel == 0 then Err(NoBudget)
            else
              match Unbisected(defect, edges[i].segment, SegIdx(i), run)
              case Err(f) => Err(f)
              case Ok(Diverged(_, _, _, actual)) => Ok(BadAt(root, edges, i, actual))
              case Ok(Verified(actual, _)) =>
                if actual != edges[i].node.stateHash.value then Ok(BadAt(root, edges, i, actual))
                else VerifyFrom(defect, root, edges, run + 1, fuel - 1, i + 1, actual)
    ensures RunsFrom(defect, root, edges, run, fuel, i) ==
            if Parent(root, edges, i).snapshotRef != edges[i].segment.header.baseSnapshot || fuel == 0 then 0
            else
              match Unbisected(defect, edges[i].segment, SegIdx(i), run)
              case Ok(Verified(actual, _)) =>
                if actual == edges[i].node.stateHash.value then
                  1 + RunsFrom(defect, root, edges, run + 1, fuel - 1, i + 1)
                else 1
              case _ => 1
  {
    hide Unbisected, BadAt, Parent, Segment.Valid;
  }

  lemma VerifyDone(defect: Defect, root: PathNode, edges: seq<Edge>, run: nat, fuel: nat, last: Hash32)
    requires AllParsed(edges) && AllDigests(edges)
    ensures VerifyFrom(defect, root, edges, run, fuel, |edges|, last) == Ok(Clean(last, |edges| % TWO32))
    ensures RunsFrom(defect, root, edges, run, fuel, |edges|) == 0
  {
  }

  lemma EventsTurn(defect: Defect, edges: seq<Edge>, run: nat, n: nat)
    requires n < |edges| && AllParsed(edges)
    ensures edges[n].segment.Valid()
    ensures PathEvents(defect, edges, run, n + 1)
            == PathEvents(defect, edges, run, n) + RunEvents(defect, edges[n].segment, run + n, SegIdx(n))
  {
    hide RunEvents, Segment.Valid;
  }

  lemma StepsAt(edges: seq<Edge>, i: nat)
    requires AllParsed(edges) && AllSteppable(edges) && i < |edges|
    ensures edges[i].segment.Valid() && Steppable(edges[i].segment)
  {
  }

  /** Segments in path order, each replayed from its own base; the first failure returns.
      A node without a state hash panics, which the digest rule excludes. */
  method Verify(hv: Hypervisor, root: PathNode, edges: seq<Edge>, budget: RunBudget)
      returns (r: Result<VerifyResult, HvFault>, events: seq<VerifyEvent>)
    requires AllParsed(edges) && AllSteppable(edges) && AllDigests(edges) && budget.Valid()
    modifies hv`runs, budget`used
    ensures budget.Valid() && hv.runs - old(hv.runs) == budget.used - old(budget.used)
    ensures r == VerifyFrom(hv.defect, root, edges, old(hv.runs), old(budget.Remaining()), 0, Zeros(32))
    ensures hv.runs == old(hv.runs) + RunsFrom(hv.defect, root, edges, old(hv.runs), old(budget.Remaining()), 0)
    ensures events == PathEvents(hv.defect, edges, old(hv.runs), hv.runs - old(hv.runs))
  {
    hide Unbisected, VerifyFrom, RunsFrom, PathEvents, RunEvents, BadAt, Steppable, Segment.Valid, AllParsed,
         AllSteppable, AllDigests, SegIdx;
    ghost var run, fuel := hv.runs, budget.Remaining();
    var lastHash: Hash32 := Zeros(32);
    events := [];
    NoEvents(hv.defect, edges, run);
    var i := 0;
    while i < |edges|
      invariant 0 <= i <= |edges| && budget.Valid()
      invariant hv.runs == run + i && budget.Remaining() == fuel - i
      invariant VerifyFrom(hv.defect, root, edges, run, fuel, 0, Zeros(32))
                == VerifyFrom(hv.defect, root, edges, run + i, fuel - i, i, lastHash)
      invariant RunsFrom(hv.defect, root, edges, run, fuel, 0)
                == i + RunsFrom(hv.defect, root, edges, run + i, fuel - i, i)
      invariant events == PathEvents(hv.defect, edges, run, i)
    {
      var node, segment := edges[i].node, edges[i].segment;
      StepsAt(edges, i);
      VerifyTurn(hv.defect, root, edges, run + i, fuel - i, i, lastHash);
      EventsTurn(hv.defect, edges, run, i);
      var parent := if i == 0 then root else edges[i - 1].node;
      var expected := node.stateHash.value;
      var outcome, seen := hv.VerifySegment(parent.snapshotRef, segment, false, SegIdx(i), budget);
      events := events + seen;
      if outcome.Err? {
        return Err(outcome.error), events;
      }
      BadIs(root, edges, i, outcome.value.endStateHash);
      if outcome.value.Diverged? {
        return Ok(FirstBad(SegIdx(i), parent.nodeId, node.nodeId, expected, outcome.value.endStateHash)), events;
      }
      var actual := outcome.value.endStateHash;
      if actual != expected {
        return Ok(FirstBad(SegIdx(i), parent.nodeId, node.nodeId, expected, actual)), events;
      }
      lastHash := actual;
      i := i + 1;
    }
    VerifyDone(hv.defect, root, edges, run + i, fuel - i, lastHash);
    r := Ok(Clean(lastHash, |edges| % TWO32));
  }

  lemma NoEvents(defect: Defect, edges: seq<Edge>, run: nat)
    requires AllParsed(edges)
    ensures PathEvents(defect, edges, run, 0) == []
  {
  }

  lemma SegIdxIs(i: nat)
    ensures SegIdx(i) == (i + 1) % 0x1_0000_0000
  {
  }

  lemma BadIs(root: PathNode, edges: seq<Edge>, i: nat, actual: Hash32)
    requires i < |edges| && AllDigests(edges)
    ensures edges[i].node.stateHash.Some?
    ensures BadAt(root, edges, i, actual)
            == FirstBad(SegIdx(i), if i == 0 then root.nodeId else edges[i - 1].node.nodeId, edges[i].node.nodeId,
                        edges[i].node.stateHash.value, actual)
  {
    hide SegIdx;
  }
}
