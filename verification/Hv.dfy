/** The seam between the drivers and a hypervisor: budget, faults, outcomes, events. */
module Hv {
  import opened Bytes

  /** How many runs a bisection may still make; probes count too. */
  class RunBudget {
    const maxRuns: u32
    var used: u32

    ghost predicate Valid()
      reads this
    {
      used <= maxRuns
    }

    function Remaining(): (n: nat)
      requires Valid()
      reads this
    {
      maxRuns - used
    }

    function Exhausted(): bool
      reads this
    {
      used >= maxRuns
    }

    constructor (maxRuns: u32)
      ensures Valid() && this.maxRuns == maxRuns && used == 0
    {
      this.maxRuns := maxRuns;
      used := 0;
    }

    /** Spend a run, or say that there is none to spend. */
    method TryConsume() returns (ok: bool)
      requires Valid()
      modifies this`used
      ensures Valid()
      ensures ok <==> old(Remaining()) > 0
      ensures used == old(used) + (if ok then 1 else 0)
      ensures Remaining() == old(Remaining()) - (if ok then 1 else 0)
    {
      if used < maxRuns {
        used := used + 1;
        ok := true;
      } else {
        ok := false;
      }
    }
  }

  datatype HvFault =
    | UnappliableRecord(icount: u64)
    | ProbePastEnd(stopIcount: u64, endIcount: u64)
    | BaseMismatch
    | NoBudget

  datatype VerifyEvent =
    | SegmentStarted(segmentIndex: u32)
    | EpochOk(segmentIndex: u32, epochIndex: u64, icount: u64)
    | RunCompleted(segmentIndex: u32)

  /** The diagnostics of a divergence: the icount they are taken at and the two
      registers there. The boundary rips, page indices and the cause text are fixed
      functions of `at`. */
  datatype Diagnostics = Diagnostics(at: u64, expected: u64, actual: u64)

  datatype Outcome =
    | Verified(endStateHash: Hash32, epochsOk: nat)
    | Diverged(lo: u64, hi: u64, diagnostics: Diagnostics, endStateHash: Hash32)

  datatype Defect =
    | NoDefect
    | ReplayNondet(segment: u32, at: u64, flakePeriod: u32)
    | RecordedSkew(segment: u32, at: u64)

  /** The two executions of a segment: one of its replays, or the recording itself. */
  datatype Side = Replayed(runIndex: nat) | Recorded
}
