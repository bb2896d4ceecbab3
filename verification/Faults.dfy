/** Which fault a simulation or a replay of damaged records ends in, and where. */
module Faults {
  import opened Wrappers
  import opened Bytes
  import opened Guest
  import opened Dhilog
  import opened Validator
  import opened Hv
  import opened Replay
  import opened Mock
  import MockHypervisor

  /** An observation, or an input of a known kind. */
  predicate Known(r: Record) {
    r.rflags % 2 == 1 || r.kind == 0x01 || r.kind == 0x02 || r.kind == 0x03
  }

  /** An epoch hash of the right size. */
  predicate Intact(r: Record) { Known(r) && (r.rflags % 2 == 1 && r.kind == 0x42 ==> |r.payload| == 40) }

  lemma KnownIs(r: Record)
    ensures Known(r) <==> r.IsAux() || CanonicalKind(r.kind)
    ensures Intact(r) <==> Known(r) && (IsEpochRecord(r) ==> |r.payload| == 40)
  {
  }

  /** What stops a simulation to `stop`: the first record up to there that is not known, by
      its icount; damage, as icount 0, only when every record is met; and nothing past it. */
  lemma {:induction false} FirstUnknown(recs: seq<Record>, torn: bool, j: nat, i: nat, stop: u64)
    requires j <= i <= |recs| && forall k :: j <= k < i ==> Known(recs[k]) && recs[k].icount <= stop
    requires i < |recs| ==> recs[i].icount > stop || !Known(recs[i])
    ensures FaultFrom(recs, torn, j, stop) ==
            if i == |recs| then (if torn then Some(UnappliableRecord(0)) else None)
            else if recs[i].icount > stop then None
            else Some(UnappliableRecord(recs[i].icount))
    decreases i - j
  {
    hide Known, Record.IsAux, CanonicalKind;
    if j < |recs| {
      KnownIs(recs[j]);
    }
    if j < i {
      FirstUnknown(recs, torn, j + 1, i, stop);
    }
  }

  lemma SimFaults(defect: Defect, s: Segment, stop: u64, side: Side, segmentIndex: u32, i: nat)
    requires s.Valid() && i <= |Records(s)|
    requires forall k :: 0 <= k < i ==> Known(Records(s)[k]) && Records(s)[k].icount <= stop
    requires i < |Records(s)| ==> Records(s)[i].icount > stop || !Known(Records(s)[i])
    ensures var r := SimResult(defect, s, stop, side, segmentIndex);
            if i == |Records(s)| then if s.Walk().torn then r == Err(UnappliableRecord(0)) else r.Ok?
            else if Records(s)[i].icount > stop then r.Ok?
            else r == Err(UnappliableRecord(Records(s)[i].icount))
  {
    hide Known, FaultFrom, Met, CanonActs, StateAt, Segment.Valid;
    FirstUnknown(Records(s), s.Walk().torn, 0, i, stop);
  }

  /** A replay meets every record before a fault intact and reproduced; the fault is that of
      the first record that is not intact, or of the damage after the last. */
  lemma {:induction false} ReplayFault(o: Origin, acts: seq<Act>, recs: seq<Record>, torn: bool, j: nat, i: nat)
    requires j <= i <= |recs|
    requires forall k :: j <= k < i ==>
               Intact(recs[k]) && (IsEpochRecord(recs[k]) ==>
                                     ChainAt(o, acts, recs[k].icount / 4096) == recs[k].payload[8..40])
    requires i < |recs| ==> !Intact(recs[i])
    ensures ReplayFrom(o, acts, recs, torn, j) ==
            if i < |recs| then Faulted(UnappliableRecord(recs[i].icount), i)
            else if torn then Faulted(UnappliableRecord(0), i)
            else Through(i)
    decreases i - j
  {
    hide Intact, Known, ChainAt, Record.IsAux, CanonicalKind, IsEpochRecord, ReplayFrom;
    if j == |recs| {
      ReplayEnds(o, acts, recs, torn);
    } else {
      KnownIs(recs[j]);
      MockHypervisor.ReplayStep(o, acts, recs, torn, j);
      if j < i {
        ReplayFault(o, acts, recs, torn, j + 1, i);
      }
    }
  }

  lemma ReplayEnds(o: Origin, acts: seq<Act>, recs: seq<Record>, torn: bool)
    ensures ReplayFrom(o, acts, recs, torn, |recs|)
            == if torn then Faulted(UnappliableRecord(0), |recs|) else Through(|recs|)
  {
  }

  /** A segment run faults with the replay's fault; and a run that disagrees, with that of
      the diagnosing simulation over the whole segment, even for damage after the record
      where it disagreed. */
  lemma RunFaults(defect: Defect, s: Segment, segmentIndex: u32, run: nat)
    requires s.Valid()
    ensures var u, v := Unbisected(defect, s, segmentIndex, run), HonestReplay(defect, s, run, segmentIndex);
            var diagnosis := SimResult(defect, s, s.header.endIcount, Recorded, segmentIndex);
            && (v.Faulted? ==> u == Err(v.fault))
            && (v.Mismatch? && diagnosis.Err? ==> u == Err(diagnosis.error))
            && (v.Mismatch? && diagnosis.Ok? ==> u.Ok? && u.value.Diverged?)
  {
    hide ReplayFrom, Timeline, ReplayedEnd, FaultFrom, Diagnose, StateAt, Segment.Valid;
  }
}
