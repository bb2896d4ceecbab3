/** The progress events of a run, and of a path: which segment and which boundaries they name. */
module Events {
  import opened Bytes
  import opened Guest
  import opened Dhilog
  import opened Validator
  import opened Writer
  import opened Recording
  import opened Hv
  import opened Replay
  import opened Mock
  import opened WrittenReplay
  import opened Localize
  import opened Rules
  import opened Search
  import opened VerifyPath
  import opened Chains
  import opened Flakes

  // ---- one run ----

  /** A run's events: one start, then good epochs only, then one end unless it faulted; all
      with the number of the segment. */
  lemma RunEventsAre(defect: Defect, s: Segment, segmentIndex: u32, run: nat)
    requires s.Valid()
    ensures var es, faulted :=
      RunEvents(defect, s, run, segmentIndex), HonestReplay(defect, s, run, segmentIndex).Faulted?;
            && es != [] && es[0] == SegmentStarted(segmentIndex)
            && (forall k :: 0 <= k < |es| ==> es[k].segmentIndex == segmentIndex)
            && (forall k :: 0 < k < |es| - 1 ==> es[k].EpochOk?)
            && (faulted || es[|es| - 1] == RunCompleted(segmentIndex))
            && (faulted && |es| > 1 ==> es[|es| - 1].EpochOk?)
  {
    hide ReplayFrom, Timeline, EpochsOf, Segment.Valid;
  }

  /** A path's events are its runs' events in turn: the segment at position `n` is replayed
      by the `n`-th further run, and its events carry the number `n + 1`. */
  lemma PathEventsAre(defect: Defect, edges: seq<Edge>, run: nat, n: nat)
    requires n < |edges| && AllParsed(edges)
    ensures edges[n].segment.Valid() && PathEvents(defect, edges, run, 0) == []
    ensures PathEvents(defect, edges, run, n + 1)
            == PathEvents(defect, edges, run, n)
               + RunEvents(defect, edges[n].segment, run + n, (n + 1) % 0x1_0000_0000)
  {
    hide *;
    NoEvents(defect, edges, run);
    EventsTurn(defect, edges, run, n);
    SegIdxIs(n);
  }

  // ---- a run that parts from its recording ----

  lemma NoneRead(recs: seq<Record>, j: nat)
    requires j <= |recs|
    ensures EpochsOf(recs[j..j]) == []
  {
  }

  lemma ReadOn(recs: seq<Record>, j: nat, k: nat)
    requires j < k <= |recs|
    ensures EpochsOf(recs[j..k])
            == if IsEpochRecord(recs[j]) && |recs[j].payload| == 40 then [EpochOf(recs[j])] + EpochsOf(recs[j + 1..k])
               else EpochsOf(recs[j + 1..k])
  {
    assert recs[j..k][1..] == recs[j + 1..k];
  }

  lemma MatchNone(o: Origin, acts: seq<Act>)
    ensures ChainsMatch(o, acts, [])
  {
  }

  lemma MatchMore(o: Origin, acts: seq<Act>, e: Epoch, es: seq<Epoch>)
    requires ChainAt(o, acts, e.icount / EPOCH) == e.chain && ChainsMatch(o, acts, es)
    ensures ChainsMatch(o, acts, [e] + es)
  {
  }

  lemma AtEnd(o: Origin, acts: seq<Act>, recs: seq<Record>)
    ensures ReplayFrom(o, acts, recs, false, |recs|) == Through(|recs|)
  {
  }

  /** A replay of records that can all be applied stops at the first epoch record it does
      not reproduce, or goes through. */
  lemma {:induction false} StopsAt(o: Origin, acts: seq<Act>, recs: seq<Record>, j: nat)
    requires Appliable(recs) && j <= |recs|
    ensures var v := ReplayFrom(o, acts, recs, false, j);
            && !v.Faulted? && j <= v.at <= |recs| && ChainsMatch(o, acts, EpochsOf(recs[j..v.at]))
            && (v.Through? ==> v.at == |recs|)
            && (v.Mismatch? ==>
                  && v.at < |recs| && IsEpochRecord(recs[v.at]) && |recs[v.at].payload| == 40
                  && ChainAt(o, acts, recs[v.at].icount / EPOCH) != recs[v.at].payload[8..40])
    decreases |recs| - j
  {
    hide ChainAt, ChainsMatch, EpochsOf, Appliable, ReplayFrom, IsEpochRecord, CanonicalKind, Record.IsAux;
    NoneRead(recs, j);
    MatchNone(o, acts);
    if j == |recs| {
      AtEnd(o, acts, recs);
    } else {
      AppliableAt(recs, j);
      MockHypervisor.ReplayStep(o, acts, recs, false, j);
      StopsAt(o, acts, recs, j + 1);
      var v := ReplayFrom(o, acts, recs, false, j);
      if v.at > j {
        ReadOn(recs, j, v.at);
        if IsEpochRecord(recs[j]) {
          MockHypervisor.EpochOfIs(recs[j]);
          MatchMore(o, acts, EpochOf(recs[j]), EpochsOf(recs[j + 1..v.at]));
        }
      }
    }
  }

  lemma Crossing(good: seq<bool>, m: nat, f: nat)
    requires Threshold(good, f) && m <= |good| && (m < |good| ==> !good[m])
    requires forall i :: 0 <= i < m ==> good[i]
    ensures m == f
  {
    assert f < |good| ==> !good[f];
  }

  /** So it reads exactly as many epoch records as are good before the first bad one. */
  lemma ReadGood(o: Origin, acts: seq<Act>, recs: seq<Record>, f: nat)
    requires Appliable(recs) && Threshold(EpochsGood(o, acts, EpochsOf(recs)), f)
    ensures var v := ReplayFrom(o, acts, recs, false, 0);
            !v.Faulted? && v.at <= |recs| && f <= |EpochsOf(recs)| && EpochsOf(recs[..v.at]) == EpochsOf(recs)[..f]
  {
    hide ChainAt, EpochsOf, Appliable, ReplayFrom, IsEpochRecord;
    StopsAt(o, acts, recs, 0);
    var v := ReplayFrom(o, acts, recs, false, 0);
    var es, read := EpochsOf(recs), EpochsOf(recs[..v.at]);
    assert recs[0..v.at] == recs[..v.at];
    assert recs == recs[..v.at] + recs[v.at..];
    EpochsOfConcat(recs[..v.at], recs[v.at..]);
    var good, m := EpochsGood(o, acts, es), |read|;
    forall i | 0 <= i < m
      ensures good[i]
    {
      assert es[i] == read[i];
    }
    if v.Mismatch? {
      EpochsOfCons(recs, v.at);
      MockHypervisor.EpochOfIs(recs[v.at]);
      assert es[m] == EpochOf(recs[v.at]) && !good[m];
    } else {
      assert recs[v.at..] == recs[v.at..v.at];
      NoneRead(recs, v.at);
    }
    Crossing(good, m, f);
  }

  /** A run whose states and chains part from the recording at `at` reports the boundaries
      up to `at`, each with its icount, and completes. */
  lemma PartedEvents(defect: Defect, spec: Spec, segmentIndex: u32, run: nat, replayed: seq<Act>, at: u64)
    requires Contends(defect, spec, segmentIndex, run, replayed) && Parted(spec, replayed, at)
    ensures Written(spec).Valid()
    ensures var es := RunEvents(defect, Written(spec), run, segmentIndex);
            && |es| == (if spec.omitEpochHashes then 0 else at / 4096) + 2
            && es[0] == SegmentStarted(segmentIndex) && es[|es| - 1] == RunCompleted(segmentIndex)
            && forall k :: 0 < k < |es| - 1 ==> es[k] == EpochOk(segmentIndex, k, k * 4096)
  {
    hide *;
    ContendsParts(defect, spec, segmentIndex, run, replayed);
    WrittenIsSteppable(spec);
    PartedThreshold(spec, replayed, at);
    var s, f := Written(spec), GoodEpochs(spec, at);
    var recs := Records(s);
    ReadGood(spec.Genesis(), replayed, recs, f);
    HonestIs(defect, s, segmentIndex, run);
    WrittenEpochs(spec);
    MockHypervisor.RunIs(defect, s, segmentIndex, run);
    EventsOfBoundaries(segmentIndex, EpochsOf(recs), f);
    GoodIs(spec, at);
  }

  lemma ContendsParts(defect: Defect, spec: Spec, segmentIndex: u32, run: nat, replayed: seq<Act>)
    requires Contends(defect, spec, segmentIndex, run, replayed)
    ensures spec.Valid() && Written(spec).Valid()
    ensures Timeline(defect, Written(spec), Replayed(run), segmentIndex) == replayed
  {
    hide Timeline, Written, Spec.Valid, Segment.Valid;
  }

  lemma HonestIs(defect: Defect, s: Segment, segmentIndex: u32, run: nat)
    requires s.Valid() && !s.Walk().torn
    ensures HonestReplay(defect, s, run, segmentIndex)
            == ReplayFrom(OriginOf(s.header), Timeline(defect, s, Replayed(run), segmentIndex), Records(s), false, 0)
  {
    hide ReplayFrom, Timeline, Segment.Valid;
  }

  lemma GoodIs(spec: Spec, at: u64)
    ensures GoodEpochs(spec, at) == if spec.omitEpochHashes then 0 else at / 4096
  {
  }

  lemma EventsOfBoundaries(segmentIndex: u32, es: seq<Epoch>, f: nat)
    requires f <= |es|
    requires forall i :: 0 <= i < |es| ==> es[i].index == i + 1 && es[i].icount == (i + 1) * EPOCH
    ensures var events := EpochEvents(segmentIndex, es[..f]);
            |events| == f && forall k :: 0 < k <= f ==>
              && events[k - 1].EpochOk? && events[k - 1].segmentIndex == segmentIndex
              && events[k - 1].epochIndex == k && events[k - 1].icount == k * 4096
  {
  }

  /** On a skewed recording: the boundaries up to the skew, and completion. */
  lemma SkewedEvents(spec: Spec, at: u64, segmentIndex: u32, run: nat)
    requires SkewedAt(spec, at)
    ensures spec.Valid() && Written(spec).Valid()
    ensures var es := RunEvents(RecordedSkew(segmentIndex, at), Written(spec), run, segmentIndex);
            && |es| == (if spec.omitEpochHashes then 0 else at / 4096) + 2
            && es[0] == SegmentStarted(segmentIndex) && es[|es| - 1] == RunCompleted(segmentIndex)
            && forall k :: 0 < k < |es| - 1 ==> es[k] == EpochOk(segmentIndex, k, k * 4096)
  {
    hide *;
    SkewParts(spec, at);
    SkewContends(spec, at, segmentIndex, run);
    ContendsParts(RecordedSkew(segmentIndex, at), spec, segmentIndex, run, EventActs(spec.events));
    PartedEvents(RecordedSkew(segmentIndex, at), spec, segmentIndex, run, EventActs(spec.events), at);
  }

  /** On a clean recording whose replay flakes: the boundaries up to the flake, and
      completion. */
  lemma FlakyEvents(spec: Spec, segmentIndex: u32, at: u64, flakePeriod: u32, run: nat)
    requires FlakedAt(spec, at, FlakeValue(run, flakePeriod)) && FlakeBites(spec, at, FlakeValue(run, flakePeriod))
    ensures spec.Valid() && Written(spec).Valid()
    ensures var es := RunEvents(ReplayNondet(segmentIndex, at, flakePeriod), Written(spec), run, segmentIndex);
            && |es| == (if spec.omitEpochHashes then 0 else at / 4096) + 2
            && es[0] == SegmentStarted(segmentIndex) && es[|es| - 1] == RunCompleted(segmentIndex)
            && forall k :: 0 < k < |es| - 1 ==> es[k] == EpochOk(segmentIndex, k, k * 4096)
  {
    hide *;
    var d, v := ReplayNondet(segmentIndex, at, flakePeriod), FlakeValue(run, flakePeriod);
    FlakeFacts(spec, at, v);
    FlakeParts(spec, at, v);
    FlakeContends(spec, segmentIndex, at, flakePeriod, run);
    ContendsParts(d, spec, segmentIndex, run, FlakyActs(spec, at, v));
    PartedEvents(d, spec, segmentIndex, run, FlakyActs(spec, at, v), at);
  }
}
