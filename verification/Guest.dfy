/** The toy guest: an FNV register and a hash chain folded every 4096 icounts.
    `StateAt` says, without stepping anything, what a guest that lives through a
    timeline of folds looks like at any icount; `GuestSim` computes it step by step. */
module Guest {
  import opened Bytes
  import opened Fnv

  const EPOCH: int := 4096

  // "mock-statehash-v1"
  const STATE_TAG: seq<byte> := [109, 111, 99, 107, 45, 115, 116, 97, 116, 101, 104, 97, 115, 104, 45, 118, 49]

  // "mock-recorded-skew-v1"
  const SKEW_FOLD: seq<byte> :=
    [109, 111, 99, 107, 45, 114, 101, 99, 111, 114, 100, 101, 100, 45, 115, 107, 101, 119, 45, 118, 49]

  datatype Guest = Guest(fnv: u64, chain: Hash32, icount: u64)

  /** The two hashes that tell two guests of the same segment apart. */
  datatype Origin = Origin(machineConfig: Hash32, baseSnapshot: Hash32)

  /** An input: the icount it falls at and what it feeds the register. */
  datatype Act = Act(at: u64, bytes: seq<byte>)

  // ---- reference semantics of a timeline ----

  /** Acts in the order they are applied have non-decreasing icounts. */
  ghost predicate Sorted(acts: seq<Act>) {
    forall i, j :: 0 <= i < j < |acts| ==> acts[i].at <= acts[j].at
  }

  function FoldActs(r: u64, acts: seq<Act>): (y: u64)
    decreases |acts|
  {
    if acts == [] then r else FoldActs(FoldBytes(r, acts[0].bytes), acts[1..])
  }

  /** The acts at or before icount `n`. */
  function UpTo(acts: seq<Act>, n: int): (past: seq<Act>)
    ensures |past| <= |acts|
    decreases |acts|
  {
    if acts == [] then []
    else (if acts[0].at <= n then [acts[0]] else []) + UpTo(acts[1..], n)
  }

  /** The register at icount `n`: every act at or before `n` has landed. */
  function RegAt(acts: seq<Act>, n: int): u64 {
    FoldActs(OFFSET_BASIS, UpTo(acts, n))
  }

  /** The register just before epoch boundary `k`: acts at the boundary come later. */
  function RegBefore(acts: seq<Act>, k: nat): (r: u64)
  {
    RegAt(acts, k * EPOCH - 1)
  }

  function Seed(o: Origin): Hash32 {
    BLAKE3(STATE_TAG + o.machineConfig + o.baseSnapshot)
  }

  function ChainInput(chain: Hash32, reg: u64): seq<byte> {
    chain + LE64(reg)
  }

  /** The chain after `k` epoch boundaries, each hashing in the register before it. */
  function ChainAt(o: Origin, acts: seq<Act>, k: nat): Hash32 {
    if k == 0 then Seed(o)
    else BLAKE3(ChainInput(ChainAt(o, acts, k - 1), RegBefore(acts, k)))
  }

  function StateAt(o: Origin, acts: seq<Act>, n: u64): Guest {
    Guest(RegAt(acts, n), ChainAt(o, acts, n / EPOCH), n)
  }

  function StateInput(g: Guest): seq<byte> {
    g.chain + LE64(g.fnv) + LE64(g.icount)
  }

  /** The state hash of a guest: chain, register and icount. */
  function ChainValue(g: Guest): Hash32 {
    BLAKE3(StateInput(g))
  }

  // ---- following a timeline step by step ----

  /** Guest `g` has lived through exactly the first `i` acts of the timeline. */
  ghost predicate Follows(o: Origin, acts: seq<Act>, i: nat, g: Guest) {
    && i <= |acts|
    && Sorted(acts)
    && g.fnv == FoldActs(OFFSET_BASIS, acts[..i])
    && g.chain == ChainAt(o, acts, g.icount / EPOCH)
    && (forall j :: 0 <= j < i ==> acts[j].at <= g.icount)
    && (forall j :: i <= j < |acts| ==> g.icount <= acts[j].at)
  }

  lemma UpToCons(acts: seq<Act>, n: int)
    ensures acts == [] ==> UpTo(acts, n) == []
    ensures acts != [] ==> UpTo(acts, n) == (if acts[0].at <= n then [acts[0]] else []) + UpTo(acts[1..], n)
  {
  }

  lemma {:induction false} UpToConcat(a: seq<Act>, b: seq<Act>, n: int)
    ensures UpTo(a + b, n) == UpTo(a, n) + UpTo(b, n)
    decreases |a|
  {
    hide UpTo;
    UpToCons(a, n);
    UpToCons(a + b, n);
    if a == [] {
      assert a + b == b;
    } else {
      assert (a + b)[1..] == a[1..] + b && (a + b)[0] == a[0];
      UpToConcat(a[1..], b, n);
    }
  }

  lemma {:induction false} UpToAll(acts: seq<Act>, n: int)
    requires forall j :: 0 <= j < |acts| ==> acts[j].at <= n
    ensures UpTo(acts, n) == acts
    decreases |acts|
  {
    if acts != [] {
      UpToAll(acts[1..], n);
    }
  }

  lemma {:induction false} UpToNone(acts: seq<Act>, n: int)
    requires forall j :: 0 <= j < |acts| ==> n < acts[j].at
    ensures UpTo(acts, n) == []
    decreases |acts|
  {
    if acts != [] {
      UpToNone(acts[1..], n);
    }
  }

  /** When the past is the first `i` acts, the register is their fold. */
  lemma RegAtSplit(acts: seq<Act>, i: nat, n: int)
    requires i <= |acts|
    requires forall j :: 0 <= j < i ==> acts[j].at <= n
    requires forall j :: i <= j < |acts| ==> n < acts[j].at
    ensures RegAt(acts, n) == FoldActs(OFFSET_BASIS, acts[..i])
  {
    assert acts == acts[..i] + acts[i..];
    UpToConcat(acts[..i], acts[i..], n);
    UpToAll(acts[..i], n);
    UpToNone(acts[i..], n);
    assert UpTo(acts, n) == acts[..i];
  }

  lemma {:induction false} FoldActsConcat(r: u64, a: seq<Act>, b: seq<Act>)
    ensures FoldActs(r, a + b) == FoldActs(FoldActs(r, a), b)
    decreases |a|
  {
    if a == [] {
      assert a + b == b;
    } else {
      assert (a + b)[1..] == a[1..] + b;
      FoldActsConcat(FoldBytes(r, a[0].bytes), a[1..], b);
    }
  }

  /** A guest that follows a timeline and has nothing left to do at or before its
      icount is in the reference state. */
  lemma FollowsIsStateAt(o: Origin, acts: seq<Act>, i: nat, g: Guest)
    requires Follows(o, acts, i, g)
    requires forall j :: i <= j < |acts| ==> g.icount < acts[j].at
    ensures g == StateAt(o, acts, g.icount)
  {
    RegAtSplit(acts, i, g.icount);
  }

  /** The chain after hashing in an unchanging register `k` times. */
  function CrossEpochs(chain: Hash32, reg: u64, k: nat): Hash32 {
    if k == 0 then chain else BLAKE3(ChainInput(CrossEpochs(chain, reg, k - 1), reg))
  }

  /** The guest moved on to `target`: each boundary past where it stood, up to and
      including `target`, has entered the chain. */
  function Step(g: Guest, target: u64): Guest
    requires g.icount <= target
  {
    Guest(g.fnv, CrossEpochs(g.chain, g.fnv, target / EPOCH - g.icount / EPOCH), target)
  }

  function Land(g: Guest, bytes: seq<byte>): Guest {
    g.(fnv := FoldBytes(g.fnv, bytes))
  }

  /** Crossing boundaries between two acts follows the reference chain. */
  lemma {:induction false} CrossFollows(o: Origin, acts: seq<Act>, reg: u64, e: nat, k: nat)
    requires forall b: nat :: e < b <= e + k ==> RegBefore(acts, b) == reg
    ensures CrossEpochs(ChainAt(o, acts, e), reg, k) == ChainAt(o, acts, e + k)
  {
    if k > 0 {
      CrossFollows(o, acts, reg, e, k - 1);
    }
  }

  lemma StepFollows(o: Origin, acts: seq<Act>, i: nat, g: Guest, target: u64)
    requires Follows(o, acts, i, g) && g.icount <= target
    requires forall j :: i <= j < |acts| ==> target <= acts[j].at
    ensures Follows(o, acts, i, Step(g, target))
  {
    var e := g.icount / EPOCH;
    var k := target / EPOCH - e;
    forall b: nat | e < b <= e + k
      ensures RegBefore(acts, b) == g.fnv
    {
      BoundaryBetween(g.icount, target, b);
      RegAtSplit(acts, i, b * EPOCH - 1);
    }
    CrossFollows(o, acts, g.fnv, e, k);
  }

  lemma BoundaryBetween(n: nat, target: nat, b: nat)
    requires n / EPOCH < b <= target / EPOCH
    ensures n < b * EPOCH <= target
  {
  }

  lemma StartFollows(o: Origin, acts: seq<Act>)
    requires Sorted(acts)
    ensures Follows(o, acts, 0, Guest(OFFSET_BASIS, Seed(o), 0))
  {
    assert acts[..0] == [];
  }

  /** Landing the next act at its own icount. */
  lemma LandAct(o: Origin, acts: seq<Act>, i: nat, g: Guest)
    requires Follows(o, acts, i, g) && i < |acts| && acts[i].at == g.icount
    ensures Follows(o, acts, i + 1, Land(g, acts[i].bytes))
  {
    assert acts[..i + 1] == acts[..i] + [acts[i]];
    FoldActsConcat(OFFSET_BASIS, acts[..i], [acts[i]]);
    assert FoldActs(g.fnv, [acts[i]]) == FoldBytes(g.fnv, acts[i].bytes) by {
      assert [acts[i]][1..] == [];
    }
  }

  // ---- the simulator ----

  class GuestSim {
    var fnv: u64
    var chain: Hash32
    var icount: u64

    function State(): Guest
      reads this
    {
      Guest(fnv, chain, icount)
    }

    constructor (o: Origin)
      ensures State() == Guest(OFFSET_BASIS, Seed(o), 0)
    {
      fnv := OFFSET_BASIS;
      chain := Seed(o);
      icount := 0;
    }

    /** Move on to `target`, one turn of the loop per boundary. The program panics when
        asked to go back; the boundary after the last must still fit a word. */
    method StepTo(target: u64)
      requires icount <= target && target + EPOCH < TWO64
      modifies this
      ensures State() == Step(old(State()), target)
    {
      var next: u64 := (icount / EPOCH + 1) * EPOCH;
      ghost var k: nat := 0;
      while next <= target
        invariant next == (icount / EPOCH + 1 + k) * EPOCH && next <= target + EPOCH
        invariant fnv == old(fnv) && icount == old(icount)
        invariant chain == CrossEpochs(old(chain), fnv, k)
        decreases target - next
      {
        chain := BLAKE3(ChainInput(chain, fnv));
        next := next + EPOCH;
        k := k + 1;
      }
      icount := target;
    }

    /** Mix bytes into the register, one FNV-1a step each. */
    method Fold(bytes: seq<byte>)
      modifies this`fnv
      ensures fnv == FoldBytes(old(fnv), bytes)
    {
      var i := 0;
      while i < |bytes|
        invariant 0 <= i <= |bytes|
        invariant FoldBytes(fnv, bytes[i..]) == FoldBytes(old(fnv), bytes)
      {
        fnv := XorByte(fnv, bytes[i]);
        fnv := Scramble(fnv);
        i := i + 1;
      }
    }

    /** The chain after the most recent boundary: the payload of an epoch record there. */
    method EpochChain() returns (c: Hash32)
      ensures c == State().chain
    {
      c := chain;
    }

    method Hash() returns (h: Hash32)
      ensures h == ChainValue(State())
    {
      h := BLAKE3(chain + LE64(fnv) + LE64(icount));
    }
  }

}
