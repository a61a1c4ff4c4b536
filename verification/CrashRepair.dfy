/**
What the deep check makes of a file after a crash or after bit rot: nothing that was completely
appended is lost, nothing that was not completely appended shows up.
*/
module CrashRepair {
  import opened Base
  import opened Positional
  import opened Records
  import opened Repair

  function Covering(s: nat, id: nat, ps: seq<seq<byte>>, m: nat): Header
    requires 1 <= m <= |ps| && 0 < s && id + m <= U64_MAX + 1 && Next(s, ps[..m]) <= U32_MAX
  {
    Header(id, id + m - 1, Some(s), Some(Next(s, ps[..m]) - 1))
  }

  /** Records `ps` from offset `s`, the header knowing the first `m` of them. */
  ghost predicate Image1(b: seq<byte>, s: nat, id: nat, ps: seq<seq<byte>>, m: nat) {
    && MIN_WAL_SIZE <= |b| < U32_MAX
    && 1 <= m <= |ps|
    && OFFSET_LOGS <= s
    && id + |ps| <= U64_MAX + 1
    && Chain(b, s, id, ps)
    && Next(s, ps) <= |b|
    && Next(s, ps[..m]) <= |b|
  }

  lemma FileImage(h: Header, b: seq<byte>)
    requires FileOk(h, b) && h.dataStart.Some?
    ensures var es := Entries(h, b);
      Image1(b, h.dataStart.value, h.idFrom, es, |es|) && Covering(h.dataStart.value, h.idFrom, es, |es|) == h
  {
    hide Chain, Next, Payloads;
    assert Entries(h, b)[..|Entries(h, b)|] == Entries(h, b);
  }

  /** The check accepts the file, ends with exactly the records `ps`, and leaves all record bytes alone. */
  ghost predicate RepairedTo(h: Header, b: seq<byte>, heal: bool, s: nat, id: nat, ps: seq<seq<byte>>)
    requires OFFSET_LOGS <= |b| < U32_MAX && h.dataStart.Some? == h.dataEnd.Some?
  {
    && ComesBack(h, b, heal, s, id, ps)
    && FileOk(RepairFile(h, b, heal).value.h, RepairFile(h, b, heal).value.b)
  }

  /** The same of a file whose last record may reach up to its last byte, which no append lets happen. */
  ghost predicate ComesBack(h: Header, b: seq<byte>, heal: bool, s: nat, id: nat, ps: seq<seq<byte>>)
    requires OFFSET_LOGS <= |b| < U32_MAX && h.dataStart.Some? == h.dataEnd.Some?
  {
    var r := RepairFile(h, b, heal);
    && r.Ok?
    && r.value.h.idFrom == id && r.value.h.idUntil == id + |ps| - 1
    && r.value.h.dataStart == Some(s)
    && r.value.h.dataEnd.Some? && r.value.h.dataEnd.value == Next(s, ps) - 1
    && |r.value.b| == |b| && r.value.b[OFFSET_LOGS..] == b[OFFSET_LOGS..]
    && Entries(r.value.h, r.value.b) == ps
  }

  /** Phase one accepts what the header knows, phase two adds exactly the rest. */
  lemma RepairsTo(b: seq<byte>, s: nat, id: nat, ps: seq<seq<byte>>, m: nat, heal: bool)
    requires Image1(b, s, id, ps, m)
    requires !Recoverable(b, Next(s, ps), Some(id + |ps| - 1))
    ensures RepairedTo(Covering(s, id, ps, m), b, heal, s, id, ps)
  {
    hide FromBe, ReadRecord, RecordIn, HeaderBytes, Chain, Next, RepairFile, Recoverable, Payloads;
    RepairAdds(b, s, id, ps, m, heal);
    var r := RepairFile(Covering(s, id, ps, m), b, heal).value;
    ChainFrame(b, r.b, s, id, ps);
    HoldsEntries(r.h, r.b, ps);
  }

  lemma RepairAdds(b: seq<byte>, s: nat, id: nat, ps: seq<seq<byte>>, m: nat, heal: bool)
    requires MIN_WAL_SIZE <= |b| < U32_MAX && 1 <= m <= |ps| && OFFSET_LOGS <= s && id + |ps| <= U64_MAX + 1
    requires Chain(b, s, id, ps) && Next(s, ps) <= |b| + 1 && Next(s, ps[..m]) <= |b|
    requires !Recoverable(b, Next(s, ps), Some(id + |ps| - 1))
    ensures ComesBack(Covering(s, id, ps, m), b, heal, s, id, ps)
  {
    hide FromBe, ReadRecord, RecordIn, HeaderBytes, Chain, Next, CheckKnown, Recover, Recoverable, Payloads;
    var h := Covering(s, id, ps, m);
    var mid := Next(s, ps[..m]);
    ChainSplit(b, s, id, ps, m);
    KnownChain(b, h, s, id, ps[..m], None);
    NextSplit(s, ps, m);
    RecoverChain(b, h, mid, id + m, ps[m..]);
    var r := RepairFile(h, b, heal).value;
    if m == |ps| {
      assert ps[..m] == ps && ps[m..] == [];
    }
    ChainFrame(b, r.b, s, id, ps);
    ChainPayloads(r.b, s, id, ps);
  }

  /**
  Whatever lies behind the records `ps`, zeros or not: the check ends with `ps` and the records `qs` it
  takes for their continuation, all of them, and there are such records if and only if something that
  reads as the next one follows `ps`.
  */
  lemma RepairExact(b: seq<byte>, s: nat, id: nat, ps: seq<seq<byte>>, m: nat, heal: bool)
    returns (qs: seq<seq<byte>>)
    requires Image1(b, s, id, ps, m)
    ensures ComesBack(Covering(s, id, ps, m), b, heal, s, id, ps + qs)
    ensures Chain(b, Next(s, ps), id + |ps|, qs) && id + |ps + qs| <= U64_MAX + 1
    ensures !Recoverable(b, Next(s, ps + qs), Some(id + |ps + qs| - 1))
    ensures qs == [] <==> !Recoverable(b, Next(s, ps), Some(id + |ps| - 1))
    ensures Next(s, ps + qs) <= |b| ==> RepairedTo(Covering(s, id, ps, m), b, heal, s, id, ps + qs)
  {
    hide FromBe, ReadRecord, RecordIn, HeaderBytes, Chain, Next, ComesBack, RepairFile, Recoverable, Payloads;
    qs := MaximalChain(b, Next(s, ps), id + |ps|);
    assert (ps + qs)[..|ps|] == ps && (ps + qs)[|ps|..] == qs && (ps + qs)[..m] == ps[..m];
    ChainSplit(b, s, id, ps + qs, |ps|);
    NextSplit(s, ps + qs, |ps|);
    RepairAdds(b, s, id, ps + qs, m, heal);
    if Next(s, ps + qs) <= |b| {
      RepairsTo(b, s, id, ps + qs, m, heal);
    }
    if qs != [] {
      FirstRecoverable(b, Next(s, ps), id + |ps|, qs);
    } else {
      assert ps + qs == ps;
    }
  }

  lemma FirstRecoverable(b: seq<byte>, off: nat, id: nat, ps: seq<seq<byte>>)
    requires 0 < id && Chain(b, off, id, ps) && ps != []
    ensures id <= U64_MAX && Recoverable(b, off, Some(id - 1))
  {
    hide FromBe, Be;
    FirstOfChain(b, off, id, ps);
  }

  ghost predicate ZeroFrom(b: seq<byte>, e: nat) {
    forall i :: e <= i < |b| ==> b[i] == 0
  }

  /** Null bytes are never taken for a record. */
  lemma NullNotRecoverable(b: seq<byte>, e: nat, before: Option<u64>)
    requires forall i :: e <= i < e + 8 && i < |b| ==> b[i] == 0
    ensures !Recoverable(b, e, before)
  {
    if e + HEAD <= |b| {
      ValueOfZeros(b[e..e + 8]);
    }
  }

  /** An append-only file: nothing but zeros behind the last record, and a header that covers `m` records. */
  ghost predicate AppendOnly(b: seq<byte>, s: nat, id: nat, ps: seq<seq<byte>>, m: nat) {
    && Image1(b, s, id, ps, m)
    && b[..OFFSET_LOGS] == HeaderBytes(Covering(s, id, ps, m))
    && ZeroFrom(b, Next(s, ps) - 1)
  }

  /**
  `t` is what a crash inside `append_log` of record (`id`, `p`) at offset `e` can leave of `b`: the id
  is written last, so either no byte of it is there (and crc, length and data may be anything), or
  everything else is complete and any subset of the id bytes made it.
  */
  ghost predicate CrashPoint(b: seq<byte>, t: seq<byte>, e: nat, id: u64, p: seq<byte>) {
    && 0 < |p| <= U32_MAX
    && |t| == |b| && e + HEAD + |p| <= |b|
    && t[..e] == b[..e] && t[e + HEAD + |p|..] == b[e + HEAD + |p|..]
    && ((forall i :: e <= i < e + 8 ==> t[i] == 0)
        || (&& t[e + 8..e + HEAD + |p|] == RecordBytes(id, p)[8..]
            && forall i :: 0 <= i < 8 ==> t[e + i] == 0 || t[e + i] == Be(id, 8)[i]))
  }

  /** A torn id is recognised: only the complete record counts as the next one. */
  lemma OnlyCompleteIsRecoverable(b: seq<byte>, t: seq<byte>, e: nat, id: u64, p: seq<byte>)
    requires 0 < id && CrashPoint(b, t, e, id, p) && Recoverable(t, e, Some(id - 1))
    ensures RecordIn(t, e, id, p)
  {
    hide Be, RecordBytes;
    if forall i :: e <= i < e + 8 ==> t[i] == 0 {
      NullNotRecoverable(t, e, Some(id - 1));
    } else {
      FromBeUnique(t[e..e + 8], id);
      RecordBytesFront(id, p);
      assert t[e..e + HEAD + |p|] == t[e..e + 8] + t[e + 8..e + HEAD + |p|];
      assert RecordBytes(id, p) == RecordBytes(id, p)[..8] + RecordBytes(id, p)[8..];
    }
  }

  lemma RecordBytesFront(id: u64, p: seq<byte>)
    requires |p| <= U32_MAX
    ensures RecordBytes(id, p)[..8] == Be(id, 8)
  {
    hide Be;
    assert RecordBytes(id, p) == Be(id, 8) + (Checksum(p) + Be(|p|, 4) + p);
  }

  /**
  Crash repair is exact. Whatever point of the append of `p` the crash hit, the check ends with the
  records appended before, plus `p` if and only if its record is complete on disk.
  */
  lemma CrashRepairExact(b: seq<byte>, s: nat, id: nat, ps: seq<seq<byte>>, m: nat, p: seq<byte>, t: seq<byte>,
                         heal: bool)
    requires AppendOnly(b, s, id, ps, m)
    requires id + |ps| <= U64_MAX && Next(s, ps) + Stride(p) <= |b|
    requires CrashPoint(b, t, Next(s, ps), id + |ps|, p)
    ensures ParseHeader(t) == Ok(Covering(s, id, ps, m))
    ensures RepairedTo(Covering(s, id, ps, m), t, heal, s, id,
                       if RecordIn(t, Next(s, ps), id + |ps|, p) then ps + [p] else ps)
  {
    hide FromBe, ReadRecord, RecordIn, RecordBytes, HeaderBytes, Chain, Next, RepairedTo, Recoverable;
    var e := Next(s, ps);
    assert t[..OFFSET_LOGS] == t[..e][..OFFSET_LOGS] == b[..OFFSET_LOGS];
    HeaderRoundTrip(Covering(s, id, ps, m), t);
    assert forall i :: 0 <= i < e ==> t[i] == t[..e][i] == b[i];
    ChainFrame(b, t, s, id, ps);
    if RecordIn(t, e, id + |ps|, p) {
      var qs := ps + [p];
      ChainSnoc(t, s, id, ps, p);
      NextSnoc(s, ps, p);
      assert qs[..m] == ps[..m];
      var e' := e + Stride(p);
      assert forall i :: e' <= i < |b| ==> t[i] == t[e + HEAD + |p|..][i - e - HEAD - |p|] == b[i];
      NullNotRecoverable(t, e', Some(id + |ps|));
      RepairsTo(t, s, id, qs, m, heal);
    } else {
      if Recoverable(t, e, Some(id + |ps| - 1)) {
        OnlyCompleteIsRecoverable(b, t, e, id + |ps|, p);
      }
      RepairsTo(t, s, id, ps, m, heal);
    }
  }

  /** Some of the bytes that differ between two contents are already the new ones. */
  ghost predicate Torn(old': seq<byte>, new': seq<byte>, t: seq<byte>) {
    |t| == |old'| == |new'| && forall i :: 0 <= i < |t| ==> t[i] == old'[i] || t[i] == new'[i]
  }

  /** Every content a crash can leave between two of the writes of `append_log` is a crash point. */
  lemma WritesAreCrashPoints(b: seq<byte>, start: nat, id: u64, p: seq<byte>, k: nat, t: seq<byte>)
    requires 0 < |p| <= U32_MAX && start + HEAD + |p| <= |b|
    requires ZeroFrom(b, start)
    requires k < 4 && Torn(AppendWrites(b, start, id, p)[k], AppendWrites(b, start, id, p)[k + 1], t)
    ensures CrashPoint(b, t, start, id, p)
  {
    hide Be, RecordBytes;
    var w := AppendWrites(b, start, id, p);
    if k == 3 {
      AppendWritesRecord(b, start, id, p);
      var full := RecordBytes(id, p);
      SpliceSlice(b, start, full);
      Subslice(w[4], start, |full|, 8, |full|);
      assert t[start + 8..start + HEAD + |p|] == w[4][start + 8..start + HEAD + |p|];
    }
  }

  /** Appending keeps a file append-only ... */
  lemma AppendKeepsAppendOnly(b: seq<byte>, s: nat, id: nat, ps: seq<seq<byte>>, m: nat, p: seq<byte>)
    requires AppendOnly(b, s, id, ps, m)
    requires 0 < |p| && id + |ps| <= U64_MAX && Next(s, ps) + Stride(p) <= |b|
    ensures AppendOnly(Splice(b, Next(s, ps), RecordBytes(id + |ps|, p)), s, id, ps + [p], m)
  {
    hide HeaderBytes, RecordBytes, Chain, Next;
    var e := Next(s, ps);
    var r := RecordBytes(id + |ps|, p);
    var b' := Splice(b, e, r);
    SpliceSlice(b, e, r);
    ChainFrame(b, b', s, id, ps);
    ChainSnoc(b', s, id, ps, p);
    NextSnoc(s, ps, p);
    assert (ps + [p])[..m] == ps[..m];
    assert b'[..OFFSET_LOGS] == b[..OFFSET_LOGS];
  }

  /** ... so does writing a header that knows the first `m` records, of any part of the records ... */
  lemma FlushKeepsAppendOnly(b: seq<byte>, s: nat, id: nat, ps: seq<seq<byte>>, m: nat)
    requires Image1(b, s, id, ps, m) && ZeroFrom(b, Next(s, ps) - 1)
    ensures AppendOnly(Splice(b, 0, HeaderBytes(Covering(s, id, ps, m))), s, id, ps, m)
  {
    hide HeaderBytes, Chain, Next;
    ChainFrame(b, Splice(b, 0, HeaderBytes(Covering(s, id, ps, m))), s, id, ps);
    SpliceSlice(b, 0, HeaderBytes(Covering(s, id, ps, m)));
  }

  /** ... and the first record of a fresh file makes it one, with a header that already covers it. */
  lemma FirstAppendIsAppendOnly(h: Header, b: seq<byte>, id: u64, p: seq<byte>)
    requires MIN_WAL_SIZE <= |b| < U32_MAX && h.dataStart.None?
    requires 0 < |p| && HasSpace(h, |b|, |p|) && h.dataEnd.None? && ZeroFrom(b, OFFSET_LOGS)
    ensures Start(h) + HEAD + |p| <= |b| && AppendOnly(Appended(h, b, id, p).b, OFFSET_LOGS, id, [p], 1)
  {
    hide HeaderBytes, RecordBytes, Chain, Next;
    var img := Appended(h, b, id, p);
    var r := RecordBytes(id, p);
    var b' := Splice(b, OFFSET_LOGS, r);
    SpliceSlice(b, OFFSET_LOGS, r);
    assert img.b[OFFSET_LOGS..OFFSET_LOGS + |r|] == b'[OFFSET_LOGS..OFFSET_LOGS + |r|];
    NilChain(img.b, OFFSET_LOGS, id);
    ChainSnoc(img.b, OFFSET_LOGS, id, [], p);
    NextSnoc(OFFSET_LOGS, [], p);
    assert [] + [p] == [p] && [p][..1] == [p];
    SpliceSlice(b', 0, HeaderBytes(img.h));
  }

  /** Without a crash in flight the check restores exactly what was appended. */
  lemma IdleRepairExact(b: seq<byte>, s: nat, id: nat, ps: seq<seq<byte>>, m: nat, heal: bool)
    requires AppendOnly(b, s, id, ps, m)
    ensures ParseHeader(b) == Ok(Covering(s, id, ps, m))
    ensures RepairedTo(Covering(s, id, ps, m), b, heal, s, id, ps)
  {
    hide FromBe, ReadRecord, RecordIn, HeaderBytes, Chain, Next, RepairedTo, Recoverable;
    HeaderRoundTrip(Covering(s, id, ps, m), b);
    NullNotRecoverable(b, Next(s, ps), Some(id + |ps| - 1));
    RepairsTo(b, s, id, ps, m, heal);
  }

  /**
  What the check makes of any file whose header knows no data. It looks for records from offset 33 on,
  one byte behind the place of the first record: `ps` are the records it finds there, and they come back
  if and only if something reads as a record at 33. Nothing at 32 ever does.
  */
  lemma EmptyHeaderExact(b: seq<byte>, h: Header, heal: bool) returns (id: nat, ps: seq<seq<byte>>)
    requires OFFSET_LOGS <= |b| < U32_MAX && h.dataStart.None? && h.dataEnd.None?
    ensures Chain(b, OFFSET_LOGS + 1, id, ps) && Next(OFFSET_LOGS + 1, ps) <= |b| + 1 && id + |ps| <= U64_MAX + 1
    ensures ps != [] <==> Recoverable(b, OFFSET_LOGS + 1, None)
    ensures ps != [] ==> 0 < id
    ensures ps != [] ==> !Recoverable(b, Next(OFFSET_LOGS + 1, ps), Some(id + |ps| - 1))
    ensures ps == [] ==> RepairFile(h, b, heal) == Ok(Image(h, b))
    ensures ps != [] ==>
      var h' := Header(h.idFrom, id + |ps| - 1, Some(OFFSET_LOGS + 1), Some(Next(OFFSET_LOGS + 1, ps) - 1));
      RepairFile(h, b, heal) == Ok(Image(h', Splice(b, 0, HeaderBytes(h'))))
    ensures RepairFile(h, b, heal).value.h.dataStart != Some(OFFSET_LOGS)
  {
    hide FromBe, ReadRecord, RecordIn, HeaderBytes;
    var off := OFFSET_LOGS + 1;
    id, ps := 0, [];
    if Recoverable(b, off, None) {
      var r := ReadRecord(b, off).value;
      id := r.id;
      ReadRecordBounds(b, off);
      RecordRead(b, off);
      var next := off + Stride(r.data);
      var qs := MaximalChain(b, next, id + 1);
      ps := [r.data] + qs;
      assert ps[1..] == qs;
      var h1 := Header(h.idFrom, id, Some(off), Some(next - 1));
      RecoverFirst(b, h, off, r, qs, h1, next);
      ExtendedTwice(b, h1, next, id + 1, qs);
    } else {
      NotRecoverable(b, h, off);
    }
  }

  lemma NotRecoverable(b: seq<byte>, h: Header, off: nat)
    requires OFFSET_LOGS <= |b| < U32_MAX && !Recoverable(b, off, None)
    ensures Recover(b, h, off, None) == Image(h, b)
  {
  }

  lemma RecoverStep(b: seq<byte>, h: Header, off: nat, r: Record)
    requires OFFSET_LOGS <= |b| < U32_MAX && OFFSET_LOGS <= off && h.dataStart.None?
    requires ReadRecord(b, off) == Some(r) && Recoverable(b, off, None)
    ensures 0 < |r.data| && off + HEAD + |r.data| <= |b|
    ensures var h1 := h.(idUntil := r.id, dataStart := Some(off), dataEnd := Some(off + HEAD + |r.data|));
      var b1 := Splice(b, 0, HeaderBytes(h1));
      var next := off + Stride(r.data);
      Recover(b, h, off, None) == if |b| <= next then Image(h1, b1) else Recover(b1, h1, next, Some(r.id))
  {
    hide FromBe, HeaderBytes, ReadRecord, Recoverable;
    ReadRecordBounds(b, off);
  }

  lemma SameRecoverable(b: seq<byte>, c: seq<byte>, off: nat, before: Option<u64>)
    requires |b| == |c| && OFFSET_LOGS <= off && (off <= |b| ==> b[off..] == c[off..])
    ensures Recoverable(b, off, before) == Recoverable(c, off, before)
  {
    SameRecordAt(b, c, off);
  }

  /** Records behind a header that was just rewritten. */
  lemma RecoverRest(b: seq<byte>, h: Header, next: nat, id: nat, qs: seq<seq<byte>>)
    requires OFFSET_LOGS <= |b| < U32_MAX && h.dataStart.Some? && OFFSET_LOGS <= next && 0 < id
    requires Chain(b, next, id, qs) && Next(next, qs) <= |b| + 1 && id + |qs| <= U64_MAX + 1
    requires !Recoverable(b, Next(next, qs), Some(id + |qs| - 1))
    ensures var c := Splice(b, 0, HeaderBytes(h));
      Recover(c, h, next, Some(id - 1)) == Extended(h, c, next, id, qs)
  {
    hide FromBe, ReadRecord, RecordIn, HeaderBytes, Chain, Recover, Recoverable;
    var c := Splice(b, 0, HeaderBytes(h));
    ChainFrame(b, c, next, id, qs);
    SameRecoverable(b, c, Next(next, qs), Some(id + |qs| - 1));
    RecoverChain(c, h, next, id, qs);
  }

  /** The header after the record at `off` was taken over, and the end of the chain behind it. */
  ghost predicate FirstTaken(h: Header, off: nat, r: Record, h1: Header, next: nat) {
    && next == off + HEAD + |r.data| + 1 <= U32_MAX
    && h1 == Header(h.idFrom, r.id, Some(off), Some(next - 1))
  }

  /** The first recovered record of a file without data, and the ones behind it. */
  lemma RecoverFirst(b: seq<byte>, h: Header, off: nat, r: Record, qs: seq<seq<byte>>, h1: Header, next: nat)
    requires OFFSET_LOGS <= |b| < U32_MAX && h.dataStart.None? && OFFSET_LOGS <= off
    requires ReadRecord(b, off) == Some(r) && Recoverable(b, off, None) && FirstTaken(h, off, r, h1, next)
    requires Chain(b, next, r.id + 1, qs) && Next(next, qs) <= |b| + 1 && r.id + 1 + |qs| <= U64_MAX + 1
    requires !Recoverable(b, Next(next, qs), Some(r.id + |qs|))
    ensures Recover(b, h, off, None) == Extended(h1, Splice(b, 0, HeaderBytes(h1)), next, r.id + 1, qs)
  {
    hide FromBe, ReadRecord, RecordIn, HeaderBytes, Chain, Recover, Recoverable, Next, Splice;
    RecoverStep(b, h, off, r);
    assert h1 == h.(idUntil := r.id, dataStart := Some(off), dataEnd := Some(off + HEAD + |r.data|));
    if |b| <= next {
      NoChain(b, next, r.id + 1, qs);
    } else {
      RecoverRest(b, h1, next, r.id + 1, qs);
    }
  }

  lemma ExtendedTwice(b: seq<byte>, h: Header, off: nat, id: nat, qs: seq<seq<byte>>)
    requires OFFSET_LOGS <= |b| && 0 < off && id + |qs| <= U64_MAX + 1 && Next(off, qs) <= U32_MAX && 0 < id
    ensures var h' := h.(idUntil := id + |qs| - 1, dataEnd := Some(Next(off, qs) - 1));
      Extended(h, Splice(b, 0, HeaderBytes(h)), off, id, qs) ==
      if qs == [] then Image(h, Splice(b, 0, HeaderBytes(h))) else Image(h', Splice(b, 0, HeaderBytes(h')))
  {
    hide HeaderBytes;
    var h' := h.(idUntil := id + |qs| - 1, dataEnd := Some(Next(off, qs) - 1));
    assert Splice(Splice(b, 0, HeaderBytes(h)), 0, HeaderBytes(h')) == Splice(b, 0, HeaderBytes(h'));
  }

  lemma NoChain(b: seq<byte>, off: nat, id: nat, qs: seq<seq<byte>>)
    requires |b| <= off && Chain(b, off, id, qs)
    ensures qs == []
  {
  }

  /**
  So a complete first record whose header update was lost is dropped, whatever its size; nothing else
  comes back either, unless the bytes read one off happen to look like a record. They do not when the
  length, read one byte off, no longer fits.
  */
  lemma EmptyHeaderLosesFirstRecord(b: seq<byte>, h: Header, id: u64, p: seq<byte>, heal: bool)
    requires MIN_WAL_SIZE <= |b| < U32_MAX && h.dataStart.None? && h.dataEnd.None?
    requires RecordIn(b, OFFSET_LOGS, id, p)
    ensures Entries(h.(dataStart := Some(OFFSET_LOGS), idFrom := id, idUntil := id), b) == [p]
    ensures RepairFile(h, b, heal).Ok? && RepairFile(h, b, heal).value.h.dataStart != Some(OFFSET_LOGS)
    ensures RepairFile(h, b, heal) == Ok(Image(h, b)) <==> !Recoverable(b, OFFSET_LOGS + 1, None)
    ensures |b| < 256 * |p| && |p| < 0x100_0000 ==> RepairFile(h, b, heal) == Ok(Image(h, b))
  {
    hide Be, RecordBytes, ReadRecord, RepairFile, HeaderBytes;
    ReadRecordIn(b, OFFSET_LOGS, id, p);
    assert Payloads(b, OFFSET_LOGS, 1) == [p] by {
      assert Payloads(b, OFFSET_LOGS + Stride(p), 0) == [];
    }
    var id', ps := EmptyHeaderExact(b, h, heal);
    if |b| < 256 * |p| && |p| < 0x100_0000 {
      ShiftedLength(b, id, p);
    }
  }

  /** The state is reached: a crash between the last write of the first append and its header update. */
  lemma FirstAppendIsLost(h: Header, b: seq<byte>, id: u64, p: seq<byte>, heal: bool)
    requires MIN_WAL_SIZE <= |b| < U32_MAX && h.dataStart.None? && h.dataEnd.None?
    requires b[..OFFSET_LOGS] == HeaderBytes(h) && 0 < |p| && HasSpace(h, |b|, |p|)
    ensures Start(h) + HEAD + |p| <= |b|
    ensures var t := AppendWrites(b, Start(h), id, p)[4];
      && ParseHeader(t) == Ok(h) && RecordIn(t, OFFSET_LOGS, id, p)
      && Appended(h, b, id, p).b[OFFSET_LOGS..] == t[OFFSET_LOGS..]
      && RepairFile(h, t, heal).Ok? && RepairFile(h, t, heal).value.h.dataStart != Some(OFFSET_LOGS)
  {
    hide HeaderBytes, RecordBytes, ParseHeader, RepairFile, Entries;
    AppendWritesRecord(b, Start(h), id, p);
    var t := Splice(b, OFFSET_LOGS, RecordBytes(id, p));
    SpliceSlice(b, OFFSET_LOGS, RecordBytes(id, p));
    assert t[..OFFSET_LOGS] == b[..OFFSET_LOGS];
    HeaderRoundTrip(h, t);
    EmptyHeaderLosesFirstRecord(t, h, id, p, heal);
  }

  lemma ShiftedLength(b: seq<byte>, id: u64, p: seq<byte>)
    requires RecordIn(b, OFFSET_LOGS, id, p) && |b| < 256 * |p| && |p| < 0x100_0000
    ensures ReadRecord(b, OFFSET_LOGS + 1) == None
  {
    var len := b[44..48];
    assert len == Be(|p|, 4) by {
      hide Be;
      Subslice(b, OFFSET_LOGS, HEAD + |p|, 12, 16);
      assert RecordBytes(id, p)[12..16] == Be(|p|, 4);
    }
    U32RoundTrip(|p|);
    var v := FromBe(b[45..49]);
    ValueFront(len[0], len[1..], 256);
    assert len == [len[0]] + len[1..];
    assert Pow(256, 3) == 0x100_0000 by { assert Pow(256, 2) == 65536 by { assert Pow(256, 1) == 256; } }
    assert len[0] == 0;
    assert b[45..49][..3] == len[1..];
    assert v == |p| * 256 + b[48];
  }

  // ---- bit rot

  /** The first record with a bad checksum is not the first one of the file: `ps` are the ones before it. */
  ghost predicate RottenBehind(b: seq<byte>, h: Header, id: nat, ps: seq<seq<byte>>) {
    && MIN_WAL_SIZE <= |b| < U32_MAX
    && h.dataStart.Some? && h.dataEnd.Some? && h.idFrom == id
    && var s := h.dataStart.value;
    && OFFSET_LOGS <= s && ps != [] && Chain(b, s, id, ps)
    && id + |ps| <= h.idUntil && Next(s, ps) <= h.dataEnd.value
    && BadAt(b, Next(s, ps), id + |ps|)
  }

  /**
  Auto-heal keeps the longest valid prefix: exactly the records before the bad one remain, they read
  back, and the healed values pass the check as they are.
  */
  lemma AutoHealKeepsPrefix(b: seq<byte>, h: Header, id: nat, ps: seq<seq<byte>>)
    requires RottenBehind(b, h, id, ps)
    ensures var r := RepairFile(h, b, true);
      && r.Ok?
      && r.value.h == h.(idUntil := id + |ps| - 1, dataEnd := Some(Next(h.dataStart.value, ps) - 1))
      && r.value.b == Splice(b, Next(h.dataStart.value, ps), NULL_ID)
      && FileOk(r.value.h, r.value.b)
      && Entries(r.value.h, r.value.b) == ps
      && RepairFile(r.value.h, r.value.b, true) == r
  {
    hide FileOk, Entries, RepairFile, RottenBehind, Next, Splice;
    HealedIs(b, h, id, ps);
    HealedHolds(b, h, id, ps);
  }

  /** The bad record is where the first phase stops. */
  lemma HealedIs(b: seq<byte>, h: Header, id: nat, ps: seq<seq<byte>>)
    requires RottenBehind(b, h, id, ps)
    ensures Next(h.dataStart.value, ps) + HEAD <= |b|
    ensures RepairFile(h, b, true) ==
            Ok(Image(HealedHeader(h, id, ps), Splice(b, Next(h.dataStart.value, ps), NULL_ID)))
  {
    hide FromBe, ReadRecord, RecordIn, HeaderBytes, Chain, CheckKnown, Splice;
    var s := h.dataStart.value;
    KnownUntilBad(b, h, s, id, ps, None);
    ReadRecordBounds(b, Next(s, ps));
  }

  /** The header that covers the records before the bad one. */
  ghost function HealedHeader(h: Header, id: nat, ps: seq<seq<byte>>): Header
    requires h.dataStart.Some? && h.dataEnd.Some? && ps != []
    requires id + |ps| <= h.idUntil && Next(h.dataStart.value, ps) <= h.dataEnd.value
  {
    h.(idUntil := id + |ps| - 1, dataEnd := Some(Next(h.dataStart.value, ps) - 1))
  }

  /** What is left reads back and passes the check unchanged. */
  lemma HealedHolds(b: seq<byte>, h: Header, id: nat, ps: seq<seq<byte>>)
    requires RottenBehind(b, h, id, ps) && Next(h.dataStart.value, ps) + HEAD <= |b|
    ensures var g, c := HealedHeader(h, id, ps), Splice(b, Next(h.dataStart.value, ps), NULL_ID);
      FileOk(g, c) && Entries(g, c) == ps && RepairFile(g, c, true) == Ok(Image(g, c))
  {
    hide FromBe, ReadRecord, RecordIn, HeaderBytes, Chain, Next, CheckKnown, Recoverable, Entries, BadAt;
    var s, e := h.dataStart.value, Next(h.dataStart.value, ps);
    var g, c := HealedHeader(h, id, ps), Splice(b, e, NULL_ID);
    ChainFrame(b, c, s, id, ps);
    HoldsEntries(g, c, ps);
    KnownChain(c, g, s, id, ps, None);
    NullNotRecoverable(c, e, Some(id + |ps| - 1));
  }

  /** The check a start makes: on the header it reads from the file. */
  function StartCheck(disk: seq<byte>): Result<Image, ()> {
    var h := ParseHeader(disk);
    if OFFSET_LOGS <= |disk| < U32_MAX && h.Ok? && h.value.dataStart.Some? == h.value.dataEnd.Some?
    then RepairFile(h.value, disk, true) else Err(())
  }

  /** The bytes a second start finds: what healing left, with or without a header written since. */
  function AfterHeal(healed: Image, rewritten: bool): seq<byte> {
    if rewritten && OFFSET_LOGS <= |healed.b| then Splice(healed.b, 0, HeaderBytes(healed.h)) else healed.b
  }

  /**
  Healing does not write the header. The next start that checks the file reads the header from disk: it
  succeeds, with the healed records and without a further change, if and only if the header was written
  in between. With the old header, the id that healing erased breaks the order and the start fails.
  */
  lemma SecondStartAfterHeal(b: seq<byte>, h: Header, id: nat, ps: seq<seq<byte>>, healed: Image, rewritten: bool)
    requires RottenBehind(b, h, id, ps) && b[..OFFSET_LOGS] == HeaderBytes(h)
    requires StartCheck(b) == Ok(healed)
    ensures |healed.b| == |b| && Entries(healed.h, healed.b) == ps
    ensures var disk := AfterHeal(healed, rewritten);
      StartCheck(disk) == if rewritten then Ok(Image(healed.h, disk)) else Err(())
  {
    hide FromBe, HeaderBytes, Entries, RepairFile, ParseHeader, RottenBehind, FileOk, Next;
    AutoHealKeepsPrefix(b, h, id, ps);
    RottenFacts(b, h, id, ps);
    HeaderRoundTrip(h, b);
    if rewritten {
      var disk := AfterHeal(healed, true);
      assert disk[..OFFSET_LOGS] == HeaderBytes(healed.h);
      HeaderRoundTrip(healed.h, disk);
      HealedPasses(healed, disk, id, ps);
    } else {
      assert healed.b[..OFFSET_LOGS] == b[..OFFSET_LOGS];
      HeaderRoundTrip(h, healed.b);
      NulledIdBreaks(b, h, id, ps);
    }
  }

  /** The first start always succeeds. */
  lemma FirstStartHeals(b: seq<byte>, h: Header, id: nat, ps: seq<seq<byte>>)
    requires RottenBehind(b, h, id, ps) && b[..OFFSET_LOGS] == HeaderBytes(h)
    ensures StartCheck(b).Ok? && Entries(StartCheck(b).value.h, StartCheck(b).value.b) == ps
  {
    AutoHealKeepsPrefix(b, h, id, ps);
    RottenFacts(b, h, id, ps);
    hide FromBe, HeaderBytes, Entries, RepairFile, ParseHeader, RottenBehind, FileOk, Next;
    HeaderRoundTrip(h, b);
  }

  lemma RottenFacts(b: seq<byte>, h: Header, id: nat, ps: seq<seq<byte>>)
    requires RottenBehind(b, h, id, ps)
    ensures OFFSET_LOGS <= h.dataStart.value < Next(h.dataStart.value, ps) && ps != [] && h.idFrom == id
    ensures h.dataEnd.Some? && h.dataEnd.value != 0 && OFFSET_LOGS <= |b| < U32_MAX
    ensures Next(h.dataStart.value, ps) + HEAD <= |b|
  {
    hide Chain;
    ReadRecordBounds(b, Next(h.dataStart.value, ps));
  }

  /** The healed header on disk: the check passes and changes nothing. */
  lemma HealedPasses(healed: Image, disk: seq<byte>, id: nat, ps: seq<seq<byte>>)
    requires FileOk(healed.h, healed.b) && healed.h.dataStart.Some? && Entries(healed.h, healed.b) == ps && ps != []
    requires disk == AfterHeal(healed, true) && healed.h.idFrom == id
    requires var e := Next(healed.h.dataStart.value, ps);
      e + 8 <= |healed.b| && forall i :: e <= i < e + 8 ==> healed.b[i] == 0
    ensures RepairFile(healed.h, disk, true) == Ok(Image(healed.h, disk)) && Entries(healed.h, disk) == ps
  {
    hide FromBe, ReadRecord, RecordIn, HeaderBytes, Chain, Next, CheckKnown, Recoverable, Entries;
    var s := healed.h.dataStart.value;
    ChainFrame(healed.b, disk, s, id, ps);
    HoldsEntries(healed.h, disk, ps);
    KnownChain(disk, healed.h, s, id, ps, None);
    NullNotRecoverable(disk, Next(s, ps), Some(id + |ps| - 1));
  }

  /** The old header on disk: after the good records comes id 0, which is not the next one. */
  lemma NulledIdBreaks(b: seq<byte>, h: Header, id: nat, ps: seq<seq<byte>>)
    requires RottenBehind(b, h, id, ps) && Next(h.dataStart.value, ps) + HEAD <= |b|
    ensures RepairFile(h, Splice(b, Next(h.dataStart.value, ps), NULL_ID), true) == Err(())
  {
    hide FromBe, ReadRecord, RecordIn, HeaderBytes, Chain, Next, CheckKnown, Recoverable, Entries;
    var s := h.dataStart.value;
    var e := Next(s, ps);
    var c := Splice(b, e, NULL_ID);
    ChainFrame(b, c, s, id, ps);
    NulledRecord(b, e);
    KnownUntilBroken(c, h, s, id, ps, None);
  }

  /** Erasing the id of a readable record leaves it readable, with id 0. */
  lemma NulledRecord(b: seq<byte>, e: nat)
    requires e + HEAD <= |b| && ReadRecord(b, e).Some?
    ensures ReadRecord(Splice(b, e, NULL_ID), e).Some? && ReadRecord(Splice(b, e, NULL_ID), e).value.id == 0
  {
    var c := Splice(b, e, NULL_ID);
    assert c[e + 12..e + 16] == b[e + 12..e + 16];
    ValueOfZeros(c[e..e + 8]);
  }

  /** If already the first record is bad, the file is emptied but keeps its first id; checking again does the same. */
  lemma AutoHealResetsFirst(b: seq<byte>, h: Header)
    requires OFFSET_LOGS <= |b| < U32_MAX && h.dataStart.Some? && h.dataEnd.Some?
    requires BadAt(b, h.dataStart.value, h.idFrom)
    ensures var r := RepairFile(h, b, true);
      && r.Ok?
      && r.value.h == Header(h.idFrom, h.idFrom, None, None)
      && Entries(r.value.h, r.value.b) == []
      && RepairFile(h, r.value.b, true) == r
  {
    var s := h.dataStart.value;
    var c := Splice(b, s, NULL_ID);
    assert c[s + 8..s + 12] == b[s + 8..s + 12] && c[s + 12..s + 16] == b[s + 12..s + 16];
    var r := ReadRecord(b, s).value;
    assert c[s + 16..s + 16 + |r.data|] == b[s + 16..s + 16 + |r.data|];
    assert Splice(c, s, NULL_ID) == c;
  }
}
