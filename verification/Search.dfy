/** The two searches of native bisection as functions of their probes, and what
    they find when the probes have a threshold. */
module Search {
  import Fnv

  // ---- how many halvings ----

  /** Halvings until nothing is left: the bit length of `w`. */
  function Bits(w: nat): (n: nat) {
    if w == 0 then 0 else 1 + Bits(w / 2)
  }

  lemma {:induction false} BitsMonotone(v: nat, w: nat)
    requires v <= w
    ensures Bits(v) <= Bits(w)
  {
    if v > 0 {
      BitsMonotone(v / 2, w / 2);
    }
  }

  /** The bit length is one more than the base-two logarithm, rounded down. */
  lemma {:induction false} BitsOfLog(w: nat, k: nat)
    requires Fnv.Pow2(k) <= w < Fnv.Pow2(k + 1)
    ensures Bits(w) == k + 1
    decreases k
  {
    if k > 0 {
      BitsOfLog(w / 2, k - 1);
    }
  }

  function Middle(a: int, b: int): (m: int)
    requires 0 <= a <= b
    ensures a <= m <= b
  {
    (a + b) / 2
  }

  /** Both halves of an open range are at most half as wide. */
  lemma Halves(a: int, b: int)
    requires 0 <= a <= b
    ensures var m, w := Middle(a, b), b + 1 - a;
            Bits(m - a) + 1 <= Bits(w) && Bits(b - m) + 1 <= Bits(w)
  {
    var m, w := Middle(a, b), b + 1 - a;
    assert m - a <= w / 2 && b - m <= w / 2;
    BitsMonotone(m - a, w / 2);
    BitsMonotone(b - m, w / 2);
  }

  // ---- epoch records ----

  datatype Found = Nothing | Found(k: nat)

  /** State of the search over epoch records: `[a..b]` is still open, `bad` is the last
      record probed bad. */
  datatype Probed = Probed(a: nat, b: int, bad: Found, fuel: nat)
  {
    predicate Open() { a <= b && fuel > 0 }
  }

  /** One probe, at the midpoint of the open range. */
  function Probe(good: seq<bool>, p: Probed): (q: Probed)
    requires p.Open() && p.b < |good|
    ensures q.fuel == p.fuel - 1 && -1 <= q.b <= p.b
  {
    var mid := Middle(p.a, p.b);
    if good[mid] then Probed(mid + 1, p.b, p.bad, p.fuel - 1)
    else Probed(p.a, mid - 1, Found(mid), p.fuel - 1)
  }

  /** Probe while the range is open and runs remain. */
  function SearchEpochs(good: seq<bool>, p: Probed): (q: Probed)
    requires p.b < |good|
    ensures q.fuel <= p.fuel
    decreases p.fuel
  {
    if p.Open() then SearchEpochs(good, Probe(good, p)) else p
  }

  /** Exactly the first `f` records are good. */
  ghost predicate Threshold(good: seq<bool>, f: nat) {
    f <= |good| && forall i :: 0 <= i < |good| ==> (good[i] <==> i < f)
  }

  /** What has been probed brackets the first bad record: the one before the open range
      was probed good, the one after it bad. */
  ghost predicate Brackets(good: seq<bool>, p: Probed) {
    && -1 <= p.b < |good| && p.a <= p.b + 1
    && (p.a > 0 ==> good[p.a - 1])
    && (p.bad.Nothing? ==> p.b == |good| - 1)
    && (p.bad.Found? ==> p.bad.k == p.b + 1 < |good| && !good[p.bad.k])
  }

  lemma ProbeBrackets(good: seq<bool>, p: Probed)
    requires Brackets(good, p) && p.Open()
    ensures Brackets(good, Probe(good, p))
  {
  }

  /** The bracket holds before every probe and after the last, for any probes at all. */
  lemma {:induction false} SearchBrackets(good: seq<bool>, p: Probed)
    requires Brackets(good, p)
    ensures Brackets(good, SearchEpochs(good, p))
    decreases p.fuel
  {
    if p.Open() {
      ProbeBrackets(good, p);
      hide Brackets, Probe;
      SearchBrackets(good, Probe(good, p));
    }
  }

  /** A probe keeps the threshold inside the bracket. */
  lemma ProbeAround(good: seq<bool>, p: Probed, f: nat)
    requires Threshold(good, f) && Brackets(good, p) && p.a <= f <= p.b + 1 && p.Open()
    ensures var q := Probe(good, p);
            Brackets(good, q) && q.a <= f <= q.b + 1 && Bits(q.b + 1 - q.a) + 1 <= Bits(p.b + 1 - p.a)
  {
    Halves(p.a, p.b);
    hide Middle, Bits;
  }

  /** With a threshold and enough runs the search finds it, within bit-length probes. */
  lemma {:induction false} SearchFinds(good: seq<bool>, p: Probed, f: nat)
    requires Threshold(good, f) && Brackets(good, p) && p.a <= f <= p.b + 1
    requires p.fuel >= Bits(p.b + 1 - p.a)
    ensures var q := SearchEpochs(good, p);
            && q.a == f && q.fuel + Bits(p.b + 1 - p.a) >= p.fuel
            && q.bad == (if f < |good| then Found(f) else Nothing)
    decreases p.fuel
  {
    if p.a <= p.b {
      assert p.Open();
      ProbeAround(good, p, f);
      hide Probe;
      SearchFinds(good, Probe(good, p), f);
    }
  }

  /** The search stops with nothing open or no runs, the threshold still bracketed. */
  lemma {:induction false} SearchAround(good: seq<bool>, p: Probed, f: nat)
    requires Threshold(good, f) && Brackets(good, p) && p.a <= f <= p.b + 1
    ensures var q := SearchEpochs(good, p);
            Brackets(good, q) && q.a <= f <= q.b + 1 && !q.Open()
    decreases p.fuel
  {
    if p.Open() {
      ProbeAround(good, p, f);
      hide Probe, Brackets, Threshold;
      SearchAround(good, Probe(good, p), f);
    }
  }

  /** Probes until one comes back bad. */
  function ProbesToBad(a: int, b: int, f: int): (n: nat)
    requires 0 <= a <= f <= b
    ensures n >= 1
    decreases b - a
  {
    var mid := Middle(a, b);
    if f <= mid then 1 else 1 + ProbesToBad(mid + 1, b, f)
  }

  /** Probes until the first bad record itself is probed. */
  function ProbesToHit(a: int, b: int, f: int): (n: nat)
    requires 0 <= a <= f <= b
    ensures n >= 1
    decreases b - a
  {
    var mid := Middle(a, b);
    if mid == f then 1
    else if mid < f then 1 + ProbesToHit(mid + 1, b, f)
    else 1 + ProbesToHit(a, mid - 1, f)
  }

  lemma {:induction false} HitBound(a: int, b: int, f: int)
    requires 0 <= a <= f <= b
    ensures ProbesToBad(a, b, f) <= ProbesToHit(a, b, f) <= Bits(b + 1 - a)
    decreases b - a
  {
    var mid := Middle(a, b);
    Halves(a, b);
    hide Middle, Bits;
    if mid < f {
      HitBound(mid + 1, b, f);
    } else if mid > f {
      HitBound(a, mid - 1, f);
    }
  }

  /** Once the first bad record has been probed it stays the answer. */
  lemma {:induction false} HitStays(good: seq<bool>, p: Probed, f: nat)
    requires Threshold(good, f) && Brackets(good, p) && p.a <= f && p.bad == Found(f)
    ensures SearchEpochs(good, p).bad == Found(f)
    decreases p.fuel
  {
    if p.Open() {
      ProbeAround(good, p, f);
      assert Probe(good, p).bad == Found(f);
      hide Probe;
      HitStays(good, Probe(good, p), f);
    }
  }

  lemma CountsTurn(a: int, b: int, f: int)
    requires 0 <= a <= f <= b
    ensures var mid := Middle(a, b);
            && (mid < f ==> ProbesToHit(a, b, f) == 1 + ProbesToHit(mid + 1, b, f)
                            && ProbesToBad(a, b, f) == 1 + ProbesToBad(mid + 1, b, f))
            && (mid == f ==> ProbesToHit(a, b, f) == 1)
            && (mid > f ==> ProbesToHit(a, b, f) == 1 + ProbesToHit(a, mid - 1, f))
            && (mid >= f ==> ProbesToBad(a, b, f) == 1)
  {
  }

  /** Which way a probe goes, seen from the first bad record. */
  lemma ProbeTurns(good: seq<bool>, p: Probed, f: nat)
    requires Threshold(good, f) && Brackets(good, p) && p.a <= f <= p.b && p.fuel > 0
    ensures p.Open() && p.b < |good| && SearchEpochs(good, p) == SearchEpochs(good, Probe(good, p))
    ensures Brackets(good, Probe(good, p))
    ensures var mid := Middle(p.a, p.b);
            Probe(good, p) == if mid < f then Probed(mid + 1, p.b, p.bad, p.fuel - 1)
                              else Probed(p.a, mid - 1, Found(mid), p.fuel - 1)
  {
    assert p.Open();
    ProbeBrackets(good, p);
  }

  /** Without runs nothing more is probed; the first bad record was not. */
  lemma OutOfRuns(good: seq<bool>, p: Probed, f: nat)
    requires Threshold(good, f) && Brackets(good, p) && p.a <= f <= p.b && p.fuel == 0
    ensures SearchEpochs(good, p) == p && p.bad != Found(f)
    ensures ProbesToBad(p.a, p.b, f) > 0 && ProbesToHit(p.a, p.b, f) > 0
  {
  }

  /** Probes come back bad if and only if there are runs enough to meet a bad record. */
  lemma {:induction false} SearchMeetsBad(good: seq<bool>, p: Probed, f: nat)
    requires Threshold(good, f) && Brackets(good, p) && p.a <= f <= p.b
    ensures SearchEpochs(good, p).bad.Found? <==> p.bad.Found? || p.fuel >= ProbesToBad(p.a, p.b, f)
    decreases p.fuel
  {
    hide *;
    if p.fuel == 0 {
      OutOfRuns(good, p, f);
    } else {
      ProbeTurns(good, p, f);
      CountsTurn(p.a, p.b, f);
      if Middle(p.a, p.b) < f {
        SearchMeetsBad(good, Probe(good, p), f);
      } else {
        BadStays(good, Probe(good, p));
      }
    }
  }

  lemma {:induction false} BadStays(good: seq<bool>, p: Probed)
    requires p.b < |good| && p.bad.Found?
    ensures SearchEpochs(good, p).bad.Found?
    decreases p.fuel
  {
    if p.Open() {
      BadStays(good, Probe(good, p));
    }
  }

  /** The first bad record is the answer if and only if there are runs enough to hit it. */
  lemma {:induction false} SearchHits(good: seq<bool>, p: Probed, f: nat)
    requires Threshold(good, f) && Brackets(good, p) && p.a <= f <= p.b
    ensures SearchEpochs(good, p).bad == Found(f) <==> p.fuel >= ProbesToHit(p.a, p.b, f)
    decreases p.fuel
  {
    hide *;
    if p.fuel == 0 {
      OutOfRuns(good, p, f);
    } else {
      ProbeTurns(good, p, f);
      CountsTurn(p.a, p.b, f);
      var mid := Middle(p.a, p.b);
      if mid == f {
        HitStays(good, Probe(good, p), f);
      } else {
        SearchHits(good, Probe(good, p), f);
      }
    }
  }

  // ---- icounts ----

  /** State of the search over icounts: `[a, b]` is still open, `[lo, hi]` is the window. */
  datatype Narrowed = Narrowed(a: nat, b: nat, lo: nat, hi: nat, fuel: nat)

  /** One probe, at the middle of the open range; `agree` says at which icounts the two
      executions have the same state hash. */
  function Halve(agree: nat -> bool, s: Narrowed): (t: Narrowed)
    requires s.a < s.b && s.fuel > 0
    ensures t.fuel == s.fuel - 1
  {
    var mid := s.a + (s.b - s.a) / 2;
    if agree(mid) then Narrowed(mid + 1, s.b, mid, s.hi, s.fuel - 1)
    else Narrowed(s.a, mid, s.lo, mid, s.fuel - 1)
  }

  /** Halve the range while it is wide and runs remain. */
  function Narrow(agree: nat -> bool, s: Narrowed): (t: Narrowed)
    ensures t.fuel <= s.fuel
    decreases s.fuel
  {
    if s.a < s.b && s.fuel > 0 then Narrow(agree, Halve(agree, s)) else s
  }

  /** The final window, and whether its one icount was confirmed to disagree. */
  datatype Window = Window(lo: nat, hi: nat, exact: bool, fuel: nat)

  /** Narrow, then confirm the one icount left if a run remains. */
  function Pinpoint(agree: nat -> bool, lo: nat, hi: nat, fuel: nat): (w: Window) {
    var t := Narrow(agree, Narrowed(lo, hi, lo, hi, fuel));
    if t.a == t.b && t.fuel > 0 then
      if agree(t.a) then Window(t.lo, t.hi, false, t.fuel - 1) else Window(t.a, t.a, true, t.fuel - 1)
    else Window(t.lo, t.hi, false, t.fuel)
  }

  /** The executions agree below `e` and disagree from it to `end`. */
  ghost predicate DivergesAt(agree: nat -> bool, e: nat, end: nat) {
    e <= end && forall n :: 0 <= n <= end ==> (agree(n) <==> n < e)
  }

  /** The open range closes in on the divergence: everything below it agrees, and its
      end disagrees or was never probed. */
  ghost predicate Closing(s: Narrowed, e: nat, lo: nat, hi: nat) {
    && lo <= s.lo <= s.a <= e <= s.b <= s.hi <= hi
    && (s.lo == s.a == lo || s.lo + 1 == s.a)
    && (s.hi == s.b)
  }

  lemma HalveCloses(agree: nat -> bool, s: Narrowed, e: nat, end: nat, lo: nat, hi: nat)
    requires DivergesAt(agree, e, end) && Closing(s, e, lo, hi) && hi <= end && s.a < s.b && s.fuel > 0
    ensures var t := Halve(agree, s);
            Closing(t, e, lo, hi) && Bits(t.b - t.a) + 1 <= Bits(s.b - s.a)
  {
    var w := s.b - s.a;
    var mid := s.a + w / 2;
    assert agree(mid) <==> mid < e;
    BitsMonotone(w - (w / 2 + 1), w / 2);
  }

  lemma {:induction false} NarrowCloses(agree: nat -> bool, s: Narrowed, e: nat, end: nat, lo: nat, hi: nat)
    requires DivergesAt(agree, e, end) && Closing(s, e, lo, hi) && hi <= end
    ensures Closing(Narrow(agree, s), e, lo, hi)
    ensures s.fuel >= Bits(s.b - s.a) ==>
              Narrow(agree, s).a == Narrow(agree, s).b == e && Narrow(agree, s).fuel + Bits(s.b - s.a) >= s.fuel
    decreases s.fuel
  {
    if s.a < s.b && s.fuel > 0 {
      HalveCloses(agree, s, e, end, lo, hi);
      hide Halve, DivergesAt;
      NarrowCloses(agree, Halve(agree, s), e, end, lo, hi);
    }
  }

  /** Whatever the budget, the window keeps the divergence, and a single icount is it. */
  lemma PinpointKeeps(agree: nat -> bool, lo: nat, hi: nat, fuel: nat, e: nat, end: nat)
    requires DivergesAt(agree, e, end) && lo <= e <= hi <= end
    ensures var w := Pinpoint(agree, lo, hi, fuel);
            && lo <= w.lo <= e <= w.hi <= hi && w.fuel <= fuel
            && (w.lo == w.hi ==> w.lo == e)
            && (w.exact ==> w.lo == w.hi)
    ensures fuel >= Bits(hi - lo) + 1 ==>
              var w := Pinpoint(agree, lo, hi, fuel);
              w.exact && w.lo == w.hi == e && w.fuel + Bits(hi - lo) + 1 >= fuel
  {
    NarrowCloses(agree, Narrowed(lo, hi, lo, hi, fuel), e, end, lo, hi);
  }

  /** For any probes at all the window only shrinks. */
  lemma {:induction false} NarrowShrinks(agree: nat -> bool, s: Narrowed)
    requires s.lo <= s.a <= s.b == s.hi
    ensures var t := Narrow(agree, s);
            s.lo <= t.lo <= t.a <= t.b == t.hi <= s.hi
    decreases s.fuel
  {
    if s.a < s.b && s.fuel > 0 {
      NarrowShrinks(agree, Halve(agree, s));
    }
  }
}
