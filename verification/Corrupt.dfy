/** The corruption helpers: each edits a written segment in place and trips the rule it
    is meant to trip, and no earlier check. */
module Corrupt {
  import opened Wrappers
  import opened Bytes
  import opened Dhilog
  import opened Validator
  import opened Writer
  import opened Recording

  const OFF_RECORD_COUNT: nat := 152
  const OFF_BODY_HASH: nat := 208

  // ---- editing bytes ----

  /** `x` written over `b` at offset `at`. */
  function Splice(b: seq<byte>, at: nat, x: seq<byte>): (c: seq<byte>)
    requires at + |x| <= |b|
    ensures |c| == |b|
  {
    b[..at] + x + b[at + |x|..]
  }

  lemma SpliceMiddle(p: seq<byte>, q: seq<byte>, r: seq<byte>, x: seq<byte>)
    requires |x| == |q|
    ensures Splice(p + q + r, |p|, x) == p + x + r
  {
  }

  /** `copy_from_slice` on part of a buffer. */
  method CopyInto(a: array<byte>, at: nat, x: seq<byte>)
    requires at + |x| <= a.Length
    modifies a
    ensures a[..] == Splice(old(a[..]), at, x)
  {
    var i := 0;
    while i < |x|
      invariant 0 <= i <= |x|
      invariant forall k :: 0 <= k < a.Length ==> a[k] == if at <= k < at + i then x[k - at] else old(a[k])
    {
      a[at + i] := x[i];
      i := i + 1;
    }
    assert forall k :: 0 <= k < a.Length ==> a[..][k] == Splice(old(a[..]), at, x)[k];
  }

  // ---- walking records ----

  /** Where a record stands in the file, and its fixed fields. */
  datatype RecordMeta = RecordMeta(offset: nat, kind: byte, rflags: byte, payloadLen: u16, seqNo: u32, icount: u64)

  lemma {:induction false} EncodeConcat(a: seq<Record>, b: seq<Record>)
    requires Encodable(a) && Encodable(b)
    ensures Encodable(a + b) && EncodeRecords(a + b) == EncodeRecords(a) + EncodeRecords(b)
    decreases |a|
  {
    hide EncodeRecord;
    if a == [] {
      assert a + b == b;
    } else {
      assert (a + b)[1..] == a[1..] + b;
      EncodeConcat(a[1..], b);
    }
  }

  lemma EncodeSingle(r: Record)
    requires |r.payload| < TWO16
    ensures Encodable([r]) && EncodeRecords([r]) == EncodeRecord(r)
  {
    hide EncodeRecord;
    assert [r][1..] == [];
  }

  lemma EncodableParts(recs: seq<Record>, i: nat)
    requires Encodable(recs) && i <= |recs|
    ensures Encodable(recs[..i]) && Encodable(recs[i..])
  {
  }

  lemma SplitAt(recs: seq<Record>, i: nat)
    requires Encodable(recs) && i < |recs|
    ensures Encodable(recs[..i]) && Encodable(recs[..i + 1]) && Encodable(recs[i + 1..]) && |recs[i].payload| < TWO16
    ensures EncodeRecords(recs[..i + 1]) == EncodeRecords(recs[..i]) + EncodeRecord(recs[i])
    ensures EncodeRecords(recs) == EncodeRecords(recs[..i]) + EncodeRecord(recs[i]) + EncodeRecords(recs[i + 1..])
  {
    hide EncodeRecord, EncodeRecords;
    assert recs[..i + 1] == recs[..i] + [recs[i]] && recs == recs[..i + 1] + recs[i + 1..];
    EncodeSingle(recs[i]);
    EncodeConcat(recs[..i], [recs[i]]);
    EncodeConcat(recs[..i + 1], recs[i + 1..]);
  }

  function OffsetOf(recs: seq<Record>, i: nat): nat
    requires Encodable(recs) && i <= |recs|
  {
    HEADER_LEN + |EncodeRecords(recs[..i])|
  }

  function MetaOf(recs: seq<Record>, i: nat): RecordMeta
    requires Encodable(recs) && i < |recs|
  {
    RecordMeta(OffsetOf(recs, i), recs[i].kind, recs[i].rflags, |recs[i].payload|, recs[i].seqNo, recs[i].icount)
  }

  /** A file holds a header and records. */
  ghost predicate Holds(b: seq<byte>, h: Header, recs: seq<Record>) {
    Encodable(recs) && b == EncodeHeader(h) + EncodeRecords(recs)
  }

  lemma RecordStands(b: seq<byte>, h: Header, recs: seq<Record>, i: nat)
    requires Holds(b, h, recs) && i < |recs|
    ensures Encodable(recs) && |recs[i].payload| < TWO16
    ensures Has(b, OffsetOf(recs, i), EncodeRecord(recs[i]))
    ensures OffsetOf(recs, i + 1) == OffsetOf(recs, i) + RECORD_HEADER_LEN + Pad8(|recs[i].payload|) <= |b|
  {
    hide EncodeRecord, EncodeRecords, EncodeHeader, Has, Pad8;
    SplitAt(recs, i);
    WholeStands(b);
    HasBoth(b, 0, EncodeHeader(h), EncodeRecords(recs));
    var a, r, z := EncodeRecords(recs[..i]), EncodeRecord(recs[i]), EncodeRecords(recs[i + 1..]);
    HasBoth(b, HEADER_LEN, a + r, z);
    HasBoth(b, HEADER_LEN, a, r);
  }

  lemma Offsets(h: Header, recs: seq<Record>, b: seq<byte>)
    requires Holds(b, h, recs)
    ensures OffsetOf(recs, 0) == HEADER_LEN && OffsetOf(recs, |recs|) == |b|
  {
    hide EncodeHeader;
    assert recs[..|recs|] == recs && recs[..0] == [];
  }

  lemma FieldsAt(b: seq<byte>, at: nat, r: Record)
    requires |r.payload| < TWO16 && Has(b, at, EncodeRecord(r))
    ensures at + 16 <= |b| && b[at] == r.kind && b[at + 1] == r.rflags && Get16(b[at + 2..at + 4]) == |r.payload|
    ensures Get32(b[at + 4..at + 8]) == r.seqNo && Get64(b[at + 8..at + 16]) == r.icount
  {
    hide LE16, LE32, LE64, Get16, Get32, Get64;
    HasBoth(b, at, RecordHead(r) + r.payload, Padding(|r.payload|));
    HasBoth(b, at, RecordHead(r), r.payload);
    Cut4(b, at, [r.kind, r.rflags], LE16(|r.payload|), LE32(r.seqNo), LE64(r.icount) + LE64(r.rip));
    Cut2(b, at + 8, LE64(r.icount), LE64(r.rip));
    assert b[at] == b[at..at + 2][0] && b[at + 1] == b[at..at + 2][1];
    Word16(|r.payload|);
    Word32(r.seqNo);
    Word64(r.icount);
  }

  /** Walk the body and note where each record lies and what it says. */
  method Records(bytes: seq<byte>, ghost h: Header, ghost recs: seq<Record>) returns (metas: seq<RecordMeta>)
    requires Holds(bytes, h, recs)
    ensures Encodable(recs) && |metas| == |recs| && forall i :: 0 <= i < |recs| ==> metas[i] == MetaOf(recs, i)
  {
    hide Holds, EncodeRecord, EncodeRecords, OffsetOf, Get16, Get32, Get64, Pad8, Has;
    EncodableHolds(bytes, h, recs);
    Offsets(h, recs, bytes);
    if |recs| > 0 {
      RecordStands(bytes, h, recs, 0);
    }
    metas := [];
    var off := HEADER_LEN;
    while off < |bytes|
      invariant |metas| <= |recs| && off == OffsetOf(recs, |metas|) <= |bytes|
      invariant |metas| < |recs| <==> off < |bytes|
      invariant forall i :: 0 <= i < |metas| ==> metas[i] == MetaOf(recs, i)
      decreases |recs| - |metas|
    {
      ghost var i := |metas|;
      RecordStands(bytes, h, recs, i);
      FieldsAt(bytes, off, recs[i]);
      var payloadLen := Get16(bytes[off + 2..off + 4]);
      metas := metas + [RecordMeta(off, bytes[off], bytes[off + 1], payloadLen,
                                   Get32(bytes[off + 4..off + 8]), Get64(bytes[off + 8..off + 16]))];
      off := off + RECORD_HEADER_LEN + Pad8(payloadLen);
      if i + 1 < |recs| {
        RecordStands(bytes, h, recs, i + 1);
      }
    }
  }

  lemma EncodableHolds(b: seq<byte>, h: Header, recs: seq<Record>)
    requires Holds(b, h, recs)
    ensures Encodable(recs) && |b| >= HEADER_LEN && |b| == HEADER_LEN + |EncodeRecords(recs)|
  {
    hide EncodeHeader, EncodeRecords;
  }

  // ---- the corruptions ----

  lemma Regroup(e: seq<byte>, a: seq<byte>, pre: seq<byte>, mid: seq<byte>, post: seq<byte>, z: seq<byte>)
    ensures e + (a + (pre + mid + post) + z) == (e + a + pre) + mid + (post + z)
  {
  }

  lemma SeqField(r: Record)
    requires |r.payload| < TWO16
    ensures EncodeRecord(r) == ([r.kind, r.rflags] + LE16(|r.payload|)) + LE32(r.seqNo)
                               + (LE64(r.icount) + LE64(r.rip) + r.payload + Padding(|r.payload|))
  {
    hide LE16, LE32, LE64, Padding;
  }

  lemma IcountField(r: Record)
    requires |r.payload| < TWO16
    ensures EncodeRecord(r) == ([r.kind, r.rflags] + LE16(|r.payload|) + LE32(r.seqNo)) + LE64(r.icount)
                               + (LE64(r.rip) + r.payload + Padding(|r.payload|))
  {
    hide LE16, LE32, LE64, Padding;
  }

  lemma UpdateParts(recs: seq<Record>, i: nat, r: Record)
    requires Encodable(recs) && i < |recs| && |r.payload| < TWO16
    ensures var more := recs[i := r];
            Encodable(more) && more[..i] == recs[..i] && more[i + 1..] == recs[i + 1..] && more[i] == r
  {
  }

  /** Overwriting part of a record's bytes by the same part of another's makes it the other. */
  lemma RecordSpliced(h: Header, recs: seq<Record>, i: nat, r: Record, pre: seq<byte>, mid: seq<byte>, mid': seq<byte>,
                      post: seq<byte>)
    requires Encodable(recs) && i < |recs| && |r.payload| < TWO16 && |recs[i].payload| < TWO16 && |mid| == |mid'|
    requires EncodeRecord(recs[i]) == pre + mid + post && EncodeRecord(r) == pre + mid' + post
    ensures Encodable(recs[i := r])
    ensures OffsetOf(recs, i) + |pre| + |mid| <= |EncodeHeader(h) + EncodeRecords(recs)|
    ensures Splice(EncodeHeader(h) + EncodeRecords(recs), OffsetOf(recs, i) + |pre|, mid')
            == EncodeHeader(h) + EncodeRecords(recs[i := r])
  {
    hide EncodeRecord, EncodeRecords, EncodeHeader, Splice;
    var e, a, z := EncodeHeader(h), EncodeRecords(recs[..i]), EncodeRecords(recs[i + 1..]);
    UpdateParts(recs, i, r);
    SplitAt(recs, i);
    SplitAt(recs[i := r], i);
    Regroup(e, a, pre, mid, post, z);
    Regroup(e, a, pre, mid', post, z);
    SpliceMiddle(e + a + pre, mid, post + z, mid');
  }

  lemma BodyHashField(h: Header, body: seq<byte>)
    ensures EncodeHeader(h) + body
            == (Lead(h) + Ids(h) + Clock(h) + Counts(h) + h.endStateHash) + h.bodyHash + (Zeros(16) + body)
  {
    hide Lead, Ids, Clock, Counts;
  }

  lemma BodyHashSpliced(h: Header, body: seq<byte>, x: Hash32)
    ensures Splice(EncodeHeader(h) + body, OFF_BODY_HASH, x) == EncodeHeader(h.(bodyHash := x)) + body
  {
    var g := h.(bodyHash := x);
    BodyHashField(h, body);
    BodyHashField(g, body);
    var pre := Lead(h) + Ids(h) + Clock(h) + Counts(h) + h.endStateHash;
    assert pre == Lead(g) + Ids(g) + Clock(g) + Counts(g) + g.endStateHash;
    SpliceMiddle(pre, h.bodyHash, Zeros(16) + body, x);
  }

  lemma CountField(h: Header, body: seq<byte>)
    ensures EncodeHeader(h) + body
            == (Lead(h) + Ids(h) + Clock(h)) + LE64(h.recordCount)
               + (LE64(h.endIcount) + LE64(h.endVns) + Seals(h) + body)
  {
    hide Lead, Ids, Clock, Seals, LE64;
  }

  lemma CountSpliced(h: Header, body: seq<byte>, n: u64)
    ensures Splice(EncodeHeader(h) + body, OFF_RECORD_COUNT, LE64(n)) == EncodeHeader(h.(recordCount := n)) + body
  {
    hide LE64;
    var g := h.(recordCount := n);
    CountField(h, body);
    CountField(g, body);
    var pre, post := Lead(h) + Ids(h) + Clock(h), LE64(h.endIcount) + LE64(h.endVns) + Seals(h) + body;
    assert pre == Lead(g) + Ids(g) + Clock(g) && post == LE64(g.endIcount) + LE64(g.endVns) + Seals(g) + body;
    SpliceMiddle(pre, LE64(h.recordCount), post, LE64(n));
  }

  /** A header over records it did not seal, its body hash recomputed. */
  function Resealed(h: Header, recs: seq<Record>): Header
    requires Encodable(recs)
  {
    h.(bodyHash := BLAKE3(EncodeRecords(recs)))
  }

  method RecomputeBodyHash(bytes: array<byte>, ghost h: Header, ghost recs: seq<Record>)
    requires Holds(bytes[..], h, recs)
    modifies bytes
    ensures Encodable(recs) && bytes[..] == EncodeHeader(Resealed(h, recs)) + EncodeRecords(recs)
  {
    hide EncodeHeader, EncodeRecords, Splice;
    assert bytes.Length >= HEADER_LEN && bytes[HEADER_LEN..] == EncodeRecords(recs) by {
      assert bytes[..][HEADER_LEN..] == bytes[HEADER_LEN..];
    }
    var hash := BLAKE3(bytes[HEADER_LEN..]);
    BodyHashSpliced(h, EncodeRecords(recs), hash);
    CopyInto(bytes, OFF_BODY_HASH, hash);
  }

  function Gapped(recs: seq<Record>, i: nat): seq<Record>
    requires i < |recs| && recs[i].seqNo + 1 < TWO32
  {
    recs[i := recs[i].(seqNo := recs[i].seqNo + 1)]
  }

  /** Gap the sequence chain at a record. */
  method GapSeq(bytes: array<byte>, index: nat, ghost h: Header, ghost recs: seq<Record>)
    requires Holds(bytes[..], h, recs) && index < |recs| && recs[index].seqNo + 1 < TWO32
    modifies bytes
    ensures Encodable(Gapped(recs, index))
    ensures bytes[..] == EncodeHeader(Resealed(h, Gapped(recs, index))) + EncodeRecords(Gapped(recs, index))
  {
    hide EncodeHeader, EncodeRecords, EncodeRecord, Splice, OffsetOf, Resealed;
    var metas := Records(bytes[..], h, recs);
    var rec := metas[index];
    var bumped: u32 := rec.seqNo + 1;
    ghost var r := recs[index].(seqNo := bumped);
    SeqField(recs[index]);
    SeqField(r);
    RecordSpliced(h, recs, index, r, [r.kind, r.rflags] + LE16(|r.payload|), LE32(recs[index].seqNo), LE32(bumped),
                  LE64(r.icount) + LE64(r.rip) + r.payload + Padding(|r.payload|));
    CopyInto(bytes, rec.offset + 4, LE32(bumped));
    RecomputeBodyHash(bytes, h, Gapped(recs, index));
  }

  function Moved(recs: seq<Record>, i: nat, icount: u64): seq<Record>
    requires i < |recs|
  {
    recs[i := recs[i].(icount := icount)]
  }

  /** Set a record's icount. */
  method SetRecordIcount(bytes: array<byte>, index: nat, icount: u64, ghost h: Header, ghost recs: seq<Record>)
    requires Holds(bytes[..], h, recs) && index < |recs|
    modifies bytes
    ensures Encodable(Moved(recs, index, icount))
    ensures bytes[..]
            == EncodeHeader(Resealed(h, Moved(recs, index, icount))) + EncodeRecords(Moved(recs, index, icount))
  {
    hide EncodeHeader, EncodeRecords, EncodeRecord, Splice, OffsetOf, Resealed;
    var metas := Records(bytes[..], h, recs);
    var rec := metas[index];
    ghost var r := recs[index].(icount := icount);
    IcountField(recs[index]);
    IcountField(r);
    RecordSpliced(h, recs, index, r, [r.kind, r.rflags] + LE16(|r.payload|) + LE32(r.seqNo), LE64(recs[index].icount),
                  LE64(icount), LE64(r.rip) + r.payload + Padding(|r.payload|));
    CopyInto(bytes, rec.offset + 8, LE64(icount));
    RecomputeBodyHash(bytes, h, Moved(recs, index, icount));
  }

  /** All but the last record. */
  function Front(recs: seq<Record>): seq<Record>
    requires recs != []
  {
    recs[..|recs| - 1]
  }

  lemma FrontHolds(b: seq<byte>, h: Header, recs: seq<Record>)
    requires Holds(b, h, recs) && recs != []
    ensures OffsetOf(recs, |recs| - 1) <= |b| && Encodable(Front(recs))
    ensures b[..OffsetOf(recs, |recs| - 1)] == EncodeHeader(h) + EncodeRecords(Front(recs))
  {
    hide EncodeHeader, EncodeRecords, EncodeRecord;
    SplitAt(recs, |recs| - 1);
  }

  /** Drop the last record, which must be an END; the header is rewritten to match. */
  method StripEndRecord(bytes: seq<byte>, ghost h: Header, ghost recs: seq<Record>) returns (out: seq<byte>)
    requires Holds(bytes, h, recs) && recs != [] && |recs| <= TWO64 && recs[|recs| - 1].kind == KIND_END
    ensures Encodable(Front(recs))
    ensures out == EncodeHeader(Resealed(h.(recordCount := |recs| - 1), Front(recs))) + EncodeRecords(Front(recs))
  {
    hide EncodeHeader, EncodeRecords, EncodeRecord, Splice, OffsetOf, Resealed, LE64;
    var metas := Records(bytes, h, recs);
    var last := metas[|metas| - 1];
    assert last.kind == KIND_END;
    FrontHolds(bytes, h, recs);
    out := bytes[..last.offset];
    var count: u64 := |metas| - 1;
    CountSpliced(h, EncodeRecords(Front(recs)), count);
    out := Splice(out, OFF_RECORD_COUNT, LE64(count));
    ghost var g := h.(recordCount := count);
    assert out[HEADER_LEN..] == EncodeRecords(Front(recs));
    var hash := BLAKE3(out[HEADER_LEN..]);
    BodyHashSpliced(g, EncodeRecords(Front(recs)), hash);
    out := Splice(out, OFF_BODY_HASH, hash);
    ResealedIs(g, Front(recs));
  }

  lemma ResealedIs(h: Header, recs: seq<Record>)
    requires Encodable(recs)
    ensures Resealed(h, recs) == h.(bodyHash := BLAKE3(EncodeRecords(recs)))
  {
  }

  // ---- what each one touches ----

  /** A record's metadata is what stands at its offset, and its successor's offset is the
      next multiple of eight after its payload. */
  lemma MetaReads(b: seq<byte>, h: Header, recs: seq<Record>, i: nat)
    requires Holds(b, h, recs) && i < |recs|
    ensures Encodable(recs)
    ensures var m := MetaOf(recs, i);
            && m.offset + 24 + m.payloadLen <= |b| && (i == 0 ==> m.offset == 256)
            && b[m.offset] == m.kind && b[m.offset + 1] == m.rflags
            && Get16(b[m.offset + 2..m.offset + 4]) == m.payloadLen
            && Get32(b[m.offset + 4..m.offset + 8]) == m.seqNo && Get64(b[m.offset + 8..m.offset + 16]) == m.icount
            && (i + 1 < |recs| ==>
                  MetaOf(recs, i + 1).offset == m.offset + 24 + m.payloadLen + (8 - m.payloadLen % 8) % 8)
  {
    hide EncodeRecord, EncodeHeader, EncodeRecords, Has, Get16, Get32, Get64, OffsetOf, Pad8;
    EncodableHolds(b, h, recs);
    RecordStands(b, h, recs, i);
    FieldsAt(b, OffsetOf(recs, i), recs[i]);
    Pad8Is(|recs[i].payload|);
    Offsets(h, recs, b);
  }

  /** Only these bytes differ. */
  ghost predicate Differ(b: seq<byte>, c: seq<byte>, at: nat, len: nat) {
    |b| == |c| && forall k :: 0 <= k < |b| && !(at <= k < at + len) && !(208 <= k < 240) ==> b[k] == c[k]
  }

  lemma SplicedTwice(b: seq<byte>, at: nat, x: seq<byte>, hash: Hash32)
    requires at + |x| <= |b| && 240 <= at <= |b|
    ensures var c := Splice(Splice(b, at, x), 208, hash);
            Differ(b, c, at, |x|) && c[at..at + |x|] == x && c[208..240] == hash
  {
    var m := Splice(b, at, x);
    var c := Splice(m, 208, hash);
    assert m[at..at + |x|] == x;
    assert c[240..] == m[240..];
    assert c[at..at + |x|] == m[at..at + |x|];
  }

  /** A gap changes the record's sequence number, by one, and the body hash; nothing else. */
  lemma GapTouches(h: Header, recs: seq<Record>, i: nat)
    requires Encodable(recs) && i < |recs| && recs[i].seqNo + 1 < TWO32
    ensures Encodable(Gapped(recs, i))
    ensures var b := EncodeHeader(h) + EncodeRecords(recs);
            var c := EncodeHeader(Resealed(h, Gapped(recs, i))) + EncodeRecords(Gapped(recs, i));
            var at := 256 + |EncodeRecords(recs[..i])| + 4;
            && at + 4 <= |b| && Differ(b, c, at, 4) && c[at..at + 4] == LE32(recs[i].seqNo + 1)
            && c[208..240] == BLAKE3(c[256..])
  {
    hide EncodeRecord, EncodeHeader, EncodeRecords, LE16, LE32, LE64, Padding, Splice, Differ;
    var bumped: u32 := recs[i].seqNo + 1;
    var r := recs[i].(seqNo := bumped);
    SeqField(recs[i]);
    SeqField(r);
    RecordSpliced(h, recs, i, r, [r.kind, r.rflags] + LE16(|r.payload|), LE32(recs[i].seqNo), LE32(bumped),
                  LE64(r.icount) + LE64(r.rip) + r.payload + Padding(|r.payload|));
    Resplice(h, recs, recs[i := r], OffsetOf(recs, i) + 4, LE32(bumped));
  }

  /** A move changes the record's icount and the body hash; nothing else. */
  lemma MoveTouches(h: Header, recs: seq<Record>, i: nat, icount: u64)
    requires Encodable(recs) && i < |recs|
    ensures Encodable(Moved(recs, i, icount))
    ensures var b := EncodeHeader(h) + EncodeRecords(recs);
            var c := EncodeHeader(Resealed(h, Moved(recs, i, icount))) + EncodeRecords(Moved(recs, i, icount));
            var at := 256 + |EncodeRecords(recs[..i])| + 8;
            && at + 8 <= |b| && Differ(b, c, at, 8) && c[at..at + 8] == LE64(icount)
            && c[208..240] == BLAKE3(c[256..])
  {
    hide EncodeRecord, EncodeHeader, EncodeRecords, LE16, LE32, LE64, Padding, Splice, Differ;
    var r := recs[i].(icount := icount);
    IcountField(recs[i]);
    IcountField(r);
    RecordSpliced(h, recs, i, r, [r.kind, r.rflags] + LE16(|r.payload|) + LE32(r.seqNo), LE64(recs[i].icount),
                  LE64(icount), LE64(r.rip) + r.payload + Padding(|r.payload|));
    Resplice(h, recs, recs[i := r], OffsetOf(recs, i) + 8, LE64(icount));
  }

  lemma Resplice(h: Header, recs: seq<Record>, more: seq<Record>, at: nat, x: seq<byte>)
    requires Encodable(recs) && Encodable(more) && HEADER_LEN <= at
    requires at + |x| <= |EncodeHeader(h) + EncodeRecords(recs)|
    requires Splice(EncodeHeader(h) + EncodeRecords(recs), at, x) == EncodeHeader(h) + EncodeRecords(more)
    ensures var b, c := EncodeHeader(h) + EncodeRecords(recs), EncodeHeader(Resealed(h, more)) + EncodeRecords(more);
            Differ(b, c, at, |x|) && |c| >= 256 && c[at..at + |x|] == x && c[208..240] == BLAKE3(c[256..])
  {
    hide EncodeHeader, EncodeRecords, Splice, Differ;
    var hash := BLAKE3(EncodeRecords(more));
    BodyHashSpliced(h, EncodeRecords(more), hash);
    ResealedIs(h, more);
    SplicedTwice(EncodeHeader(h) + EncodeRecords(recs), at, x, hash);
    assert (EncodeHeader(Resealed(h, more)) + EncodeRecords(more))[256..] == EncodeRecords(more);
  }

  /** Stripping cuts the last record off, and changes the count, to one less, and the body
      hash; nothing else. */
  lemma StripTouches(h: Header, recs: seq<Record>)
    requires Encodable(recs) && 0 < |recs| <= TWO64
    ensures Encodable(Front(recs))
    ensures var b := EncodeHeader(h) + EncodeRecords(recs);
            var c := EncodeHeader(Resealed(h.(recordCount := |recs| - 1), Front(recs))) + EncodeRecords(Front(recs));
            && 256 <= |c| <= |b| && |c| == 256 + |EncodeRecords(recs[..|recs| - 1])|
            && c[256..] == b[256..|c|] && c[208..240] == BLAKE3(c[256..]) && c[152..160] == LE64(|recs| - 1)
            && forall k :: 0 <= k < 256 && !(152 <= k < 160) && !(208 <= k < 240) ==> b[k] == c[k]
  {
    hide EncodeRecord, EncodeHeader, EncodeRecords, LE64;
    var front, count: u64 := Front(recs), |recs| - 1;
    var g := h.(recordCount := count);
    var cut := EncodeHeader(h) + EncodeRecords(front);
    FrontHolds(EncodeHeader(h) + EncodeRecords(recs), h, recs);
    CountSpliced(h, EncodeRecords(front), count);
    BodyHashSpliced(g, EncodeRecords(front), BLAKE3(EncodeRecords(front)));
    ResealedIs(g, front);
  }

  // ---- the rule each one trips ----

  function ResealedSegment(h: Header, recs: seq<Record>): Segment
    requires Encodable(recs)
  {
    Segment(EncodeHeader(Resealed(h, recs)) + EncodeRecords(recs), Resealed(h, recs))
  }

  /** A resealed file parses, is sealed and integral, and walks to its records: the
      verdict is that of the records alone. */
  lemma VerdictOfResealed(h: Header, recs: seq<Record>)
    requires Encodable(recs) && h.Sealed() && h.endStateHash != Zeros(32)
    ensures ResealedSegment(h, recs).Valid()
    ensures Verdict(ResealedSegment(h, recs)) == CheckFrom(Resealed(h, recs), Walk(CleanFrames(recs), false), 0)
  {
    hide EncodeHeader, EncodeRecords, ParseHeader, Frames, CleanFrames, CheckFrom;
    var s := ResealedSegment(h, recs);
    ParseOfEncode(Resealed(h, recs), EncodeRecords(recs));
    FramesOfEncode(recs);
    assert s.Body() == EncodeRecords(recs);
  }

  lemma {:induction false} SkipTo(h: Header, w: Walk, i: nat)
    requires i <= |w.frames| && forall j :: 0 <= j < i ==> CheckRecord(h, w, j) == None
    ensures CheckFrom(h, w, 0) == CheckFrom(h, w, i)
    decreases i
  {
    if i > 0 {
      SkipTo(h, w, i - 1);
    }
  }

  /** The records of a sealed stream pass one by one, under any header with its bounds. */
  lemma SealedPasses(h: Header, g: Header, recs: seq<Record>, w: Walk, j: nat)
    requires SealedStream(h, recs) && g.endIcount == h.endIcount && g.endStateHash == h.endStateHash
    requires j < |recs| && j < |w.frames| && w.frames[j] == Frame(recs[j], true)
    requires j > 0 ==> w.frames[j - 1] == Frame(recs[j - 1], true)
    ensures CheckRecord(g, w, j) == None
  {
  }

  /** A record that is misnumbered or late breaks R5 where it stands, before anything else. */
  lemma BreaksAt(h: Header, g: Header, recs: seq<Record>, i: nat, r: Record)
    requires SealedStream(h, recs) && g.endIcount == h.endIcount && g.endStateHash == h.endStateHash && i < |recs|
    requires r.kind == recs[i].kind && r.rflags == recs[i].rflags && r.payload == recs[i].payload
    requires r.seqNo != i || r.icount > h.endIcount
    ensures var w := Walk(CleanFrames(recs[i := r]), false);
            CheckFrom(g, w, 0) == CheckFrom(g, w, i) == Some(R5)
            && forall j :: 0 <= j < i ==> CheckRecord(g, w, j) == None
  {
    var w := Walk(CleanFrames(recs[i := r]), false);
    hide SealedStream, CheckRecord, CheckFrame;
    forall j | 0 <= j < i
      ensures CheckRecord(g, w, j) == None
    {
      SealedPasses(h, g, recs, w, j);
    }
    SkipTo(g, w, i);
    BadRecord(h, g, recs, w, i, r);
  }

  lemma BadRecord(h: Header, g: Header, recs: seq<Record>, w: Walk, i: nat, r: Record)
    requires SealedStream(h, recs) && g.endIcount == h.endIcount && i < |recs| == |w.frames|
             && w.frames[i] == Frame(r, true)
    requires i > 0 ==> w.frames[i - 1] == Frame(recs[i - 1], true)
    requires r.kind == recs[i].kind && r.rflags == recs[i].rflags && r.payload == recs[i].payload
    requires r.seqNo != i || r.icount > h.endIcount
    ensures CheckRecord(g, w, i) == Some(R5) && CheckFrom(g, w, i) == Some(R5)
  {
    assert WithinLimits(recs[i]);
    assert i > 0 ==> !recs[i - 1].IsEnd();
  }

  lemma EndOfWalk(h: Header, w: Walk)
    requires !EndBefore(w, |w.frames|)
    ensures CheckFrom(h, w, |w.frames|) == Some(R4)
  {
  }

  lemma NoEndBefore(h: Header, recs: seq<Record>)
    requires SealedStream(h, recs)
    ensures recs != [] && !EndBefore(Walk(CleanFrames(Front(recs)), false), |recs| - 1)
  {
    assert |recs| > 1 ==> !recs[|recs| - 2].IsEnd();
  }

  /** A stream without its END passes record by record and then breaks R4. */
  lemma StrippedBreaks(h: Header, g: Header, recs: seq<Record>)
    requires SealedStream(h, recs) && g.endIcount == h.endIcount && g.endStateHash == h.endStateHash
    ensures recs != []
    ensures var w := Walk(CleanFrames(Front(recs)), false);
            CheckFrom(g, w, 0) == Some(R4) && forall j :: 0 <= j < |recs| - 1 ==> CheckRecord(g, w, j) == None
  {
    hide SealedStream, CheckRecord, CheckFrame, CheckFrom, EndBefore;
    NoEndBefore(h, recs);
    var w := Walk(CleanFrames(Front(recs)), false);
    forall j | 0 <= j < |recs| - 1
      ensures CheckRecord(g, w, j) == None
    {
      SealedPasses(h, g, recs, w, j);
    }
    SkipTo(g, w, |recs| - 1);
    EndOfWalk(g, w);
  }

  /** A file the validator accepts: sealed, a nonzero end hash, a sealed stream. */
  ghost predicate Intact(h: Header, recs: seq<Record>) {
    Encodable(recs) && SealedStream(h, recs) && h.Sealed() && h.endStateHash != Zeros(32)
  }

  lemma IntactParts(h: Header, recs: seq<Record>)
    requires Intact(h, recs)
    ensures Encodable(recs) && SealedStream(h, recs) && h.Sealed() && h.endStateHash != Zeros(32)
    ensures 0 < |recs| <= TWO32
  {
  }

  /** Every writer output is such a file, unless its end hash is zero. */
  lemma WrittenIsIntact(spec: Spec)
    requires spec.Valid() && EndHash(spec) != Zeros(32)
    ensures Holds(WrittenBytes(spec), WrittenHeader(spec), WrittenRecords(spec))
    ensures Intact(WrittenHeader(spec), WrittenRecords(spec)) && |WrittenRecords(spec)| == spec.RecordCount() < TWO32
  {
    hide *;
    WrittenParts(spec);
    WrittenStreamSealed(spec);
    WrittenBodyIs(spec);
    HoldsFrom(WrittenBytes(spec), WrittenHeader(spec), WrittenRecords(spec));
    IntactFrom(WrittenHeader(spec), WrittenRecords(spec));
    KeptShape(spec);
    RecordsCount(spec);
  }

  lemma WrittenParts(spec: Spec)
    requires spec.Valid()
    ensures WrittenHeader(spec).Sealed() && WrittenHeader(spec).endStateHash == EndHash(spec)
            && spec.RecordCount() < TWO32
    ensures WrittenBytes(spec) == EncodeHeader(WrittenHeader(spec)) + WrittenBody(spec)
  {
    hide EndHash, WrittenBody, Kept, EncodeHeader;
  }

  lemma IntactFrom(h: Header, recs: seq<Record>)
    requires Encodable(recs) && SealedStream(h, recs) && h.Sealed() && h.endStateHash != Zeros(32)
    ensures Intact(h, recs)
  {
    hide SealedStream;
  }

  lemma RecordsCount(spec: Spec)
    requires spec.Valid()
    ensures |WrittenRecords(spec)| == |Kept(spec)|
  {
    hide Kept;
  }

  lemma HoldsFrom(b: seq<byte>, h: Header, recs: seq<Record>)
    requires Encodable(recs) && b == EncodeHeader(h) + EncodeRecords(recs)
    ensures Holds(b, h, recs)
  {
    hide EncodeHeader, EncodeRecords;
  }

  lemma NumberedAt(h: Header, recs: seq<Record>, i: nat)
    requires SealedStream(h, recs) && i < |recs|
    ensures recs[i].seqNo == i
  {
  }

  lemma SameBounds(h: Header, recs: seq<Record>)
    requires Encodable(recs)
    ensures Resealed(h, recs).endIcount == h.endIcount && Resealed(h, recs).endStateHash == h.endStateHash
  {
    hide EncodeRecords;
  }

  /** Records up to `n` pass; the verdict on the resealed file is `rule`. */
  ghost predicate Trips(h: Header, recs: seq<Record>, n: nat, rule: RuleId) {
    && Encodable(recs) && n <= |recs| && ResealedSegment(h, recs).Valid()
    && Verdict(ResealedSegment(h, recs)) == Some(rule)
    && forall j :: 0 <= j < n ==> CheckRecord(Resealed(h, recs), Walk(CleanFrames(recs), false), j) == None
  }

  lemma TripsFrom(h: Header, recs: seq<Record>, n: nat, rule: RuleId)
    requires Encodable(recs) && n <= |recs| && h.Sealed() && h.endStateHash != Zeros(32)
    requires CheckFrom(Resealed(h, recs), Walk(CleanFrames(recs), false), 0) == Some(rule)
    requires forall j :: 0 <= j < n ==> CheckRecord(Resealed(h, recs), Walk(CleanFrames(recs), false), j) == None
    ensures Trips(h, recs, n, rule)
  {
    hide ResealedSegment, Verdict, Resealed, CheckFrom, CheckRecord, EncodeRecords, Header.Sealed;
    VerdictOfResealed(h, recs);
  }

  /** A gap in any record's number trips R5 at that record. */
  lemma GapTripsR5(h: Header, recs: seq<Record>, i: nat)
    requires Intact(h, recs) && i < |recs| && i + 1 < TWO32
    ensures recs[i].seqNo == i && Trips(h, Gapped(recs, i), i, R5)
  {
    hide Intact, SealedStream, CheckFrom, CheckRecord, Trips, Resealed, Header.Sealed, Encodable;
    IntactParts(h, recs);
    NumberedAt(h, recs, i);
    var r := recs[i].(seqNo := i + 1);
    assert Gapped(recs, i) == recs[i := r];
    LimitOf(recs, i);
    UpdateParts(recs, i, r);
    SameBounds(h, recs[i := r]);
    BreaksAt(h, Resealed(h, recs[i := r]), recs, i, r);
    TripsFrom(h, recs[i := r], i, R5);
  }

  lemma LimitOf(recs: seq<Record>, i: nat)
    requires Encodable(recs) && i < |recs|
    ensures |recs[i].payload| < TWO16
  {
  }

  /** A record moved past the end icount trips R5 where it stands. */
  lemma LateTripsR5(h: Header, recs: seq<Record>, i: nat, icount: u64)
    requires Intact(h, recs) && i < |recs| && icount > h.endIcount
    ensures Trips(h, Moved(recs, i, icount), i, R5)
  {
    hide Intact, SealedStream, CheckFrom, CheckRecord, Trips, Resealed, Header.Sealed, Encodable;
    IntactParts(h, recs);
    var r := recs[i].(icount := icount);
    assert Moved(recs, i, icount) == recs[i := r];
    LimitOf(recs, i);
    UpdateParts(recs, i, r);
    SameBounds(h, recs[i := r]);
    BreaksAt(h, Resealed(h, recs[i := r]), recs, i, r);
    TripsFrom(h, recs[i := r], i, R5);
  }

  /** A stripped END trips R4 after every other record has passed. */
  lemma StripTripsR4(h: Header, recs: seq<Record>)
    requires Intact(h, recs)
    ensures recs != [] && |recs| - 1 < TWO64
    ensures Trips(h.(recordCount := |recs| - 1), Front(recs), |recs| - 1, R4)
  {
    hide Intact, SealedStream, CheckFrom, CheckRecord, Trips, Resealed, Encodable, Verdict, ResealedSegment;
    IntactParts(h, recs);
    var g := h.(recordCount := |recs| - 1);
    EncodableParts(recs, |recs| - 1);
    SameBounds(g, Front(recs));
    StrippedBreaks(h, Resealed(g, Front(recs)), recs);
    TripsFrom(g, Front(recs), |recs| - 1, R4);
  }
}
