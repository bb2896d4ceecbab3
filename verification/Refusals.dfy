/** What is wrong with a refused segment, record or container, in the order it is noticed. */
module Refusals {
  import opened Wrappers
  import opened Bytes
  import opened Validator
  import Dhilog
  import Layouts
  import Container
  import opened ContainerReader

  type Record = Dhilog.Record
  type Frame = Dhilog.Frame
  type Header = Dhilog.Header

  // ---- a header that does not parse ----

  lemma HeaderRefused(b: seq<byte>)
    ensures |b| < 256 ==> Dhilog.ParseHeader(b) == Err(Dhilog.Truncated)
    ensures |b| >= 256 ==>
              if b[..6] != Ascii("DHILOG") then Dhilog.ParseHeader(b) == Err(Dhilog.BadMagic)
              else if Get32(b[8..12]) != 256 then Dhilog.ParseHeader(b) == Err(Dhilog.BadHeaderLen(Get32(b[8..12])))
              else if b[240..256] != Zeros(16) then Dhilog.ParseHeader(b) == Err(Dhilog.NonzeroReserved)
              else Dhilog.ParseHeader(b).Ok?
  {
    hide Get16, Get32, Get64, Ascii;
    Layouts.SegmentMagic();
    if |b| >= 256 {
      assert b[..6] == b[0..6];
      if AllZero(b[240..256]) {
        AllZeroIsZeros(b[240..256]);
      }
    }
  }

  // ---- a segment that does not validate ----

  /** A terminal END: the auxiliary record of kind 0x7F. */
  predicate Ends(r: Record) { r.kind == 0x7F && r.rflags % 2 == 1 }

  /** Not a record of the frozen format: padding, flags, kind or size. */
  predicate Misshapen(f: Frame) {
    var r, n := f.rec, |f.rec.payload|;
    || !f.paddingZeroed || r.rflags >= 2 || n > 4096
    || (r.rflags % 2 == 0 && r.kind != 0x01 && r.kind != 0x02 && r.kind != 0x03)
    || (r.rflags % 2 == 0 && r.kind == 0x03 && n > 2048)
  }

  /** Out of order at position `j`: its number, or its icount. */
  predicate Misplaced(h: Header, frames: seq<Frame>, j: nat)
    requires j < |frames|
  {
    var r := frames[j].rec;
    || j >= 0x1_0000_0000 || r.seqNo != j || r.icount > h.endIcount
    || (j > 0 && r.icount < frames[j - 1].rec.icount)
  }

  /** An END that does not close this segment. */
  predicate FalseEnd(h: Header, r: Record) {
    Ends(r) && (|r.payload| != 40 || r.icount != h.endIcount || r.payload[8..40] != h.endStateHash)
  }

  predicate AfterEnd(frames: seq<Frame>, j: nat)
    requires j < |frames|
  {
    j > 0 && Ends(frames[j - 1].rec)
  }

  /** Something is wrong with the record at position `j`. */
  predicate Offends(h: Header, frames: seq<Frame>, j: nat)
    requires j < |frames|
  {
    AfterEnd(frames, j) || Misshapen(frames[j]) || Misplaced(h, frames, j) || FalseEnd(h, frames[j].rec)
  }

  /** The rule it breaks: its place in the stream after its shape, the END's own contents last. */
  function Offence(h: Header, frames: seq<Frame>, j: nat): Dhilog.RuleId
    requires j < |frames|
  {
    var r := frames[j].rec;
    if AfterEnd(frames, j) then Dhilog.R5
    else if Misshapen(frames[j]) then Dhilog.R4
    else if Misplaced(h, frames, j) then Dhilog.R5
    else if Ends(r) && |r.payload| == 40 && r.icount != h.endIcount then Dhilog.R5
    else Dhilog.R4
  }

  lemma RecordVerdict(h: Header, w: Dhilog.Walk, j: nat)
    requires j < |w.frames|
    ensures CheckRecord(h, w, j) == if Offends(h, w.frames, j) then Some(Offence(h, w.frames, j)) else None
  {
    var r := w.frames[j].rec;
    assert r.IsEnd() <==> Ends(r);
    assert EndBefore(w, j) <==> AfterEnd(w.frames, j);
    assert CanonicalKind(r.kind) <==> r.kind == 0x01 || r.kind == 0x02 || r.kind == 0x03;
    hide Ends, AfterEnd, EndBefore, CanonicalKind;
  }

  lemma {:induction false} FirstOffence(h: Header, w: Dhilog.Walk, i: nat, j: nat)
    requires i <= j < |w.frames| && Offends(h, w.frames, j)
    requires forall k :: i <= k < j ==> !Offends(h, w.frames, k)
    ensures CheckFrom(h, w, i) == Some(Offence(h, w.frames, j))
    decreases j - i
  {
    hide Offends, Offence, CheckRecord;
    RecordVerdict(h, w, i);
    if i < j {
      FirstOffence(h, w, i + 1, j);
    }
  }

  lemma {:induction false} NoOffence(h: Header, w: Dhilog.Walk, i: nat)
    requires i <= |w.frames| && forall k :: i <= k < |w.frames| ==> !Offends(h, w.frames, k)
    ensures CheckFrom(h, w, i)
            == if w.torn || !EndBefore(w, |w.frames|) || |w.frames| != h.recordCount then Some(Dhilog.R4) else None
    decreases |w.frames| - i
  {
    hide Offends, Offence, CheckRecord;
    if i < |w.frames| {
      RecordVerdict(h, w, i);
      NoOffence(h, w, i + 1);
    }
  }

  /** The header is sealed, has an end hash and hashes this body. */
  predicate GoodSeal(s: Segment) {
    |s.bytes| >= 256 && s.header.flags % 2 == 1 && s.header.endStateHash != Zeros(32)
    && BLAKE3(s.bytes[256..]) == s.header.bodyHash
  }

  lemma SealVerdict(s: Segment)
    requires s.Valid()
    ensures Verdict(s) == if GoodSeal(s) then CheckFrom(s.header, s.Walk(), 0) else Some(Dhilog.R4)
  {
    hide CheckFrom, Dhilog.Frames;
    Dhilog.EncodeOfParse(s.bytes);
  }

  /** A bad seal is R4; under a good one the first record that offends gives the rule. */
  lemma RefusedAt(s: Segment, j: nat)
    requires s.Valid()
    ensures !GoodSeal(s) ==> Verdict(s) == Some(Dhilog.R4)
    ensures var frames := s.Walk().frames;
            GoodSeal(s) && j < |frames| && Offends(s.header, frames, j)
            && (forall k :: 0 <= k < j ==> !Offends(s.header, frames, k)) ==>
              Verdict(s) == Some(Offence(s.header, frames, j))
  {
    hide Offends, Offence, CheckFrom, Verdict, Dhilog.Frames, GoodSeal;
    SealVerdict(s);
    var frames := s.Walk().frames;
    if j < |frames| && Offends(s.header, frames, j) && forall k :: 0 <= k < j ==> !Offends(s.header, frames, k) {
      FirstOffence(s.header, s.Walk(), 0, j);
    }
  }

  /** When no record offends, what is left is the end of the stream: damage after the last
      record, no END last, or a count that is not the header's, all R4. */
  lemma RefusedWhole(s: Segment)
    requires s.Valid() && GoodSeal(s)
    requires forall k :: 0 <= k < |s.Walk().frames| ==> !Offends(s.header, s.Walk().frames, k)
    ensures var w, n := s.Walk(), |s.Walk().frames|;
            Verdict(s) == if !w.torn && n == s.header.recordCount && n > 0 && Ends(w.frames[n - 1].rec) then None
                          else Some(Dhilog.R4)
  {
    hide Offends, CheckFrom, Verdict, Dhilog.Frames, GoodSeal;
    SealVerdict(s);
    NoOffence(s.header, s.Walk(), 0);
  }

  // ---- a container that does not read ----

  lemma ZeroesIff(s: seq<byte>)
    ensures AllZero(s) <==> s == Zeros(|s|)
  {
    if AllZero(s) {
      AllZeroIsZeros(s);
    }
  }

  /** The ends of the file come first: what it starts with, what it ends with, and its hash. */
  lemma EndsRefused(b: seq<byte>)
    ensures var n := |b|;
            if n < 200 then Decode(b) == Err(Container.Truncated)
            else if b[0..8] != Ascii("DILOG\0\r\n") then Decode(b) == Err(Container.BadMagic)
            else if Get32(b[8..12]) != 2 then Decode(b) == Err(Container.UnsupportedVersion(Get32(b[8..12])))
            else if Get32(b[12..16]) > 1 || b[136..160] != Zeros(24) then Decode(b) == Err(Container.NonzeroReserved)
            else if b[n - 8..] != Ascii("DILOGEND") then Decode(b) == Err(Container.BadEndMagic)
            else if BLAKE3(b[..n - 40]) != b[n - 40..n - 8] then Decode(b) == Err(Container.BadFooterHash)
            else CheckEnds(b) == None
  {
    hide Get32, Ascii, AllZero, ReadLayout, ReadFrom;
    Layouts.ContainerMagics();
    if |b| >= 200 {
      ZeroesIff(b[136..160]);
      assert b[..|b| - 40] == b[0..|b| - 40] && b[|b| - 8..] == b[|b| - 8..|b|];
    }
  }

  /** Then the extents and the metadata. */
  lemma FrontRefused(b: seq<byte>)
    requires CheckEnds(b) == None
    ensures |b| >= 200
    ensures var count, m, footer := Get32(b[16..20]), Get32(b[20..24]), |b| - 40;
            var table := 160 + m + (8 - m % 8) % 8;
            if count == 0 then Decode(b) == Err(Container.NonCanonical)
            else if table + 152 * count > footer then Decode(b) == Err(Container.Truncated)
            else if b[160 + m..table] != Zeros(table - 160 - m) then Decode(b) == Err(Container.NonCanonical)
            else
              match Container.PARSE_META(b[160..160 + m])
              case None => Decode(b) == Err(Container.BadMeta)
              case Some(meta) =>
                if meta.version != 1 then Decode(b) == Err(Container.BadMeta)
                else if Container.PRINT_META(meta) != b[160..160 + m] then Decode(b) == Err(Container.NonCanonical)
                else ReadLayout(b) == Ok(Layout(count, meta, table, table + 152 * count, footer))
  {
    hide CheckEnds, Get32, AllZero, ReadFrom;
    EndsLength(b);
    var m: nat := Get32(b[20..24]);
    Pad8Is(m);
    if 160 + Pad8(m) <= |b| {
      ZeroesIff(b[160 + m..160 + Pad8(m)]);
    }
  }

  /** Then each segment in turn: where its blob must start, that it fits and is padded with
      zeroes, that it is a supported sealed segment on its own, and that the table agrees
      with its header, the container and the segment before it. */
  lemma EntryRefused(b: seq<byte>, l: Layout, i: nat, off: nat, base: Hash32, e: seq<byte>)
    requires i < l.count && l.Fits(b) && off <= l.footer && |e| == 152 && Has(b, l.tableOff + 152 * i, e)
    ensures var end := off + Get64(e[144..152]);
            var next := end + (8 - end % 8) % 8;
            if Get64(e[136..144]) != off then ReadEntry(b, l, i, off, base) == Err(Container.NonCanonical)
            else if next > l.footer then ReadEntry(b, l, i, off, base) == Err(Container.Truncated)
            else if b[end..next] != Zeros(next - end) then ReadEntry(b, l, i, off, base) == Err(Container.NonCanonical)
            else
              match Dhilog.ParseHeader(b[off..end])
              case Err(_) => ReadEntry(b, l, i, off, base) == Err(Container.BadSegment(i + 1))
              case Ok(h) =>
                if h.version != 0x0100 || Verdict(Segment(b[off..end], h)).Some? then
                  ReadEntry(b, l, i, off, base) == Err(Container.BadSegment(i + 1))
                else if !Fitting(b, e, h, base) then
                  ReadEntry(b, l, i, off, base) == Err(Container.Disagreement(i + 1))
                else ReadEntry(b, l, i, off, base)
                     == Ok(Container.ContainerSegment(Get64(e[0..8]), e[8..40], e[40..72], e[72..104], e[104..136],
                                                      Segment(b[off..end], h)))
  {
    hide Get32, Get64, AllZero, Dhilog.ParseHeader, Verdict;
    EntryFits(l, i, b);
    assert e == EntryBytes(b, l, i);
    var end := off + Get64(e[144..152]);
    Pad8Is(end);
    if Pad8(end) <= |b| {
      ZeroesIff(b[end..Pad8(end)]);
    }
  }

  /** The table entry, the segment's header, the container's header and the chain agree. */
  predicate Fitting(b: seq<byte>, e: seq<byte>, h: Header, base: Hash32)
    requires |b| >= 160 && |e| == 152
  {
    && e[8..40] == h.baseSnapshot == base && e[40..72] == h.endSnapshot && e[72..104] == h.endStateHash
    && b[88..120] == h.machineConfig && Get32(b[120..124]) == h.clockNum && Get32(b[124..128]) == h.clockDen
  }

  /** Last, nothing may stand between the last blob and the footer, and the flag must say
      whether every segment has epoch hashes; then the container is what was read. */
  lemma TailRefused(b: seq<byte>, l: Layout, off: nat, segs: seq<Container.ContainerSegment>)
    requires l.Fits(b) && off <= l.footer && |segs| <= l.count
    ensures var all := forall i :: 0 <= i < |segs| ==> segs[i].blob.header.flags / 4 % 2 == 1;
            if off != l.footer || (Get32(b[12..16]) % 2 == 1) != all then
              ReadFrom(b, l, l.count, off, segs) == Err(Container.NonCanonical)
            else ReadFrom(b, l, l.count, off, segs)
                 == Ok(Container.DilogContainer(all, b[24..56], b[56..88], b[88..120], Get32(b[120..124]),
                                                Get32(b[124..128]), Get32(b[128..132]), Get32(b[132..136]), l.meta,
                                                segs))
  {
    hide Get32;
  }
}
