/**
The reader's memo over whole histories (`LogReadMemo` in hiqlite-wal/src/reader.rs). A memo remembers a
byte offset of a file; the file is recognised by its number and its first id only. The invariant below
says when that is enough.
*/
module WalMemo {
  import opened Base
  import opened Positional
  import opened Records
  import opened Scan
  import opened WalSet
  import opened WalRemove
  import opened WalRuns

  predicate NoEntries(v: seq<Seg>)
    requires v != []
  {
    |v| == 1 && v[0].h.dataStart.None?
  }

  /** Wherever the memo would be used, it points behind the record it remembers. */
  ghost predicate MemoSafe(memo: Memo, s: Seg) {
    s.h.dataStart.Some? && s.walNo == memo.walNo ==>
      memo.idFrom <= s.h.idFrom && MemoFits(Some(memo), s.walNo, s.h, s.b)
  }

  ghost predicate MemoInv(memo: Memo, v: seq<Seg>)
    requires v != []
  {
    && memo.idFrom <= memo.lastLogId
    && (!NoEntries(v) ==> memo.lastLogId < After(Last(v).h))
    && forall i :: 0 <= i < |v| ==> MemoSafe(memo, v[i])
  }

  /** The steps a memo survives: no truncation reaches its last id, and a restarted log starts above it. */
  ghost predicate Spares(memo: Memo, v: seq<Seg>, op: Op)
    requires v != []
  {
    match op
    case TruncateAt(k) => memo.lastLogId < k
    case Append(id, _) => NoEntries(v) ==> memo.lastLogId < id
    case _ => true
  }

  /** Other entries behind the remembered ones do not matter. */
  lemma SafeWithMore(memo: Memo, s: Seg, t: Seg, walSize: nat)
    requires SegOk(s, walSize) && SegOk(t, walSize) && MemoSafe(memo, s)
    requires s.h.dataStart.Some? && t.h.dataStart == s.h.dataStart
    requires t.walNo == s.walNo && t.h.idFrom == s.h.idFrom
    requires memo.lastLogId <= t.h.idUntil
    requires Entries(s.h, s.b) <= Entries(t.h, t.b) || Entries(t.h, t.b) <= Entries(s.h, s.b)
    ensures MemoSafe(memo, t)
  {
    hide Next, Entries, FileOk;
    EntriesLength(s.h, s.b);
    EntriesLength(t.h, t.b);
    if s.walNo == memo.walNo && s.h.idFrom == memo.idFrom {
      var k := memo.lastLogId - s.h.idFrom + 1;
      SegOrder(s, walSize);
      SegOrder(t, walSize);
      assert Entries(s.h, s.b)[..k] == Entries(t.h, t.b)[..k];
    }
  }

  /** A file that starts above the memo's file is not taken for it. */
  lemma SafeAbove(memo: Memo, s: Seg)
    requires s.h.dataStart.Some? ==> memo.idFrom < s.h.idFrom
    ensures MemoSafe(memo, s)
  {
    hide Next, Entries;
  }

  lemma FlushedSafe(memo: Memo, s: Seg, walSize: nat, mapped: bool)
    requires SegOk(s, walSize) && MemoSafe(memo, s)
    ensures MemoSafe(memo, Flushed(s).(mapped := mapped))
  {
    hide Next, Entries, FileOk, HeaderBytes;
    FlushedOk(s, walSize);
  }

  lemma RollOverMemo(memo: Memo, v: seq<Seg>, walSize: nat)
    requires SetOk(v, walSize) && Last(v).walNo < U64_MAX && Last(v).h.dataStart.Some? && MemoInv(memo, v)
    ensures SegOk(Last(v), walSize) && MemoInv(memo, RollOver(v, walSize))
  {
    hide FileOk, MemoSafe, HeaderBytes, NewBytes;
    assert SegOk(Last(v), walSize);
    var w := RollOver(v, walSize);
    FlushedSafe(memo, Last(v), walSize, false);
    SafeAbove(memo, Last(w));
    forall i | 0 <= i < |w| ensures MemoSafe(memo, w[i]) {
      if i < |v| - 1 {
        assert w[i] == v[i];
      }
    }
  }

  lemma AppendLastMemo(memo: Memo, v: seq<Seg>, id: u64, p: seq<byte>, walSize: nat)
    requires SetOk(v, walSize) && IsNext(v, id) && id <= MAX_ID && MemoInv(memo, v)
    requires 0 < |p| && HasSpace(Last(v).h, |Last(v).b|, |p|)
    requires NoEntries(v) ==> memo.lastLogId < id
    ensures SegOk(Last(v), walSize) && Start(Last(v).h) + HEAD + |p| < |Last(v).b|
    ensures var img := Appended(Last(v).h, Last(v).b, id, p);
      MemoInv(memo, WithLast(v, Last(v).(h := img.h, b := img.b)))
  {
    hide FileOk, MemoSafe, Entries, Appended, Next;
    var a := Last(v);
    AppendToLast(v, id, p, walSize);
    AppendedFields(a.h, a.b, id, p);
    AppendedHolds(a.h, a.b, id, p);
    SegOrder(a, walSize);
    var img := Appended(a.h, a.b, id, p);
    var s := a.(h := img.h, b := img.b);
    var w := WithLast(v, s);
    if a.h.dataStart.Some? {
      AppendedStart(a.h, a.b, id, p);
      SafeWithMore(memo, a, s, walSize);
    } else {
      SafeAbove(memo, s);
    }
    forall i | 0 <= i < |w| ensures MemoSafe(memo, w[i]) {
      if i < |v| - 1 {
        assert w[i] == v[i];
      }
    }
  }

  lemma AppendedStart(h: Header, b: seq<byte>, id: u64, p: seq<byte>)
    requires OFFSET_LOGS <= |b| <= U32_MAX && Start(h) + HEAD + |p| <= |b|
    ensures h.dataStart.Some? ==> Appended(h, b, id, p).h.dataStart == h.dataStart
  {
  }

  lemma AppendMemo(memo: Memo, v: seq<Seg>, id: u64, p: seq<byte>, walSize: nat)
    requires SetOk(v, walSize) && Legal(v, Append(id, p), walSize)
    requires MemoInv(memo, v) && Spares(memo, v, Append(id, p))
    ensures HasSpace(Last(v).h, |Last(v).b|, |p|) || Last(v).h.dataStart.Some?
    ensures MemoInv(memo, AppendTo(v, id, p, walSize))
  {
    hide FileOk, MemoInv, Appended, RollOver, SetOk;
    SetSize(v, walSize);
    AppendExtendsLog(v, id, p, walSize);
    if HasSpace(Last(v).h, |Last(v).b|, |p|) {
      AppendLastMemo(memo, v, id, p, walSize);
    } else {
      RollOverMemo(memo, v, walSize);
      RollOverKeepsLog(v, walSize);
      RolledOverNext(v, walSize);
      AppendLastMemo(memo, RollOver(v, walSize), id, p, walSize);
    }
  }

  lemma SetSize(v: seq<Seg>, walSize: nat)
    requires SetOk(v, walSize)
    ensures v != [] && |Last(v).b| == walSize && OFFSET_LOGS <= walSize && Last(v).h.idUntil < U64_MAX
  {
    assert SegOk(Last(v), walSize);
  }

  lemma PurgeMemo(memo: Memo, v: seq<Seg>, u: u64, walSize: nat)
    requires SetOk(v, walSize) && MemoInv(memo, v)
    ensures DataPaired(v) && Purge(v, u, walSize) != [] && MemoInv(memo, Purge(v, u, walSize))
  {
    hide FileOk, MemoSafe, Entries, CutFront, FrontCount, Purge, NewBytes;
    PurgeShape(v, u, walSize);
    var k := FrontCount(v, u);
    if k == |v| {
      SafeAbove(memo, Fresh(1, walSize));
    } else {
      assert SegOk(v[k], walSize);
      CutFrontSafe(memo, v[k], u, walSize);
      CutMemo(memo, v, k, CutFront(v[k], u).value);
    }
  }

  lemma CutMemo(memo: Memo, v: seq<Seg>, k: nat, s: Seg)
    requires k < |v| && MemoInv(memo, v) && MemoSafe(memo, s)
    requires s.h.dataStart.Some? == v[k].h.dataStart.Some? && s.h.idUntil == v[k].h.idUntil
    ensures MemoInv(memo, Cut(v, k, s))
  {
    hide MemoSafe;
    var w := Cut(v, k, s);
    forall i | 0 <= i < |w| ensures MemoSafe(memo, w[i]) {
      if i > 0 {
        assert w[i] == v[k + i];
      }
    }
  }

  lemma CutFrontSafe(memo: Memo, s: Seg, u: u64, walSize: nat)
    requires SegOk(s, walSize) && ValidWalSize(walSize) && MemoSafe(memo, s)
    requires s.h.dataStart.Some? ==> u <= s.h.idUntil
    ensures s.h.dataStart.Some? == s.h.dataEnd.Some? && CutFront(s, u).Ok?
    ensures var t := CutFront(s, u).value;
      MemoSafe(memo, t) && t.h.idUntil == s.h.idUntil && t.h.dataStart.Some? == s.h.dataStart.Some?
  {
    hide FileOk, Entries, Next, ReadLogs;
    SegOrder(s, walSize);
    CutFrontOk(s, u, walSize);
    if s.h.dataStart.Some? && s.walNo == memo.walNo && s.h.idFrom < u {
      SafeAbove(memo, CutFront(s, u).value);
    }
  }

  lemma TruncateMemo(memo: Memo, v: seq<Seg>, k: u64, walSize: nat)
    requires SetOk(v, walSize) && MemoInv(memo, v) && memo.lastLogId < k
    ensures DataPaired(v) && Truncate(v, k, walSize) != [] && MemoInv(memo, Truncate(v, k, walSize))
  {
    hide FileOk, MemoSafe, Entries, CutBack, BackCount, Truncate, NewBytes;
    TruncateShape(v, k, walSize);
    var w := Truncate(v, k, walSize);
    if k <= v[0].h.idFrom {
      SafeAbove(memo, w[0]);
    } else {
      var n := BackCount(v, k);
      assert SegOk(v[n - 1], walSize);
      assert |w| == n && forall i :: 0 <= i < n - 1 ==> w[i] == v[i];
      assert Last(w) == CutBack(v[n - 1], k).value;
      CutBackSafe(memo, v[n - 1], k, walSize);
      if n < |v| {
        assert JoinedAt(v, n - 1);
      }
    }
  }

  lemma CutBackSafe(memo: Memo, s: Seg, k: u64, walSize: nat)
    requires SegOk(s, walSize) && ValidWalSize(walSize) && MemoSafe(memo, s)
    requires s.h.idFrom <= k && memo.lastLogId < k
    ensures s.h.dataStart.Some? == s.h.dataEnd.Some? && CutBack(s, k).Ok?
    ensures MemoSafe(memo, CutBack(s, k).value)
    ensures After(CutBack(s, k).value.h) == Min(After(s.h), k)
    ensures s.h.dataStart.None? ==> CutBack(s, k).value.h.dataStart.None?
  {
    hide FileOk, Entries, Next, ReadLogs, MemoSafe;
    SegOrder(s, walSize);
    CutBackOk(s, k, walSize);
    var t := CutBack(s, k).value;
    if s.h.idFrom == k {
      SafeAbove(memo, t);
    } else if k <= s.h.idUntil && s.h.dataStart.Some? {
      if s.walNo == memo.walNo && s.h.idFrom == memo.idFrom {
        SafeWithMore(memo, s, t, walSize);
      } else {
        SafeElsewhere(memo, s, t);
      }
    }
  }

  lemma SafeElsewhere(memo: Memo, s: Seg, t: Seg)
    requires MemoSafe(memo, s) && s.h.dataStart.Some?
    requires t.walNo == s.walNo && t.h.idFrom == s.h.idFrom
    requires s.walNo != memo.walNo || s.h.idFrom != memo.idFrom
    ensures MemoSafe(memo, t)
  {
    hide Next, Entries;
  }

  /** Every step keeps a memo usable unless it truncates at or below the memo's last id. */
  lemma StepMemo(memo: Memo, v: seq<Seg>, op: Op, walSize: nat)
    requires SetOk(v, walSize) && Legal(v, op, walSize) && MemoInv(memo, v) && Spares(memo, v, op)
    ensures Step(v, op, walSize) != [] && MemoInv(memo, Step(v, op, walSize))
  {
    hide SetOk, MemoInv, AppendTo, RollOver, Purge, Truncate, IsNext, Flushed;
    SetSize(v, walSize);
    match op
    case Append(id, p) => AppendMemo(memo, v, id, p, walSize);
    case Seal => RollOverMemo(memo, v, walSize);
    case PurgeTo(u) => PurgeMemo(memo, v, u, walSize);
    case TruncateAt(k) => TruncateMemo(memo, v, k, walSize);
    case Flush => FlushMemo(memo, v, walSize);
  }

  lemma FlushMemo(memo: Memo, v: seq<Seg>, walSize: nat)
    requires SetOk(v, walSize) && MemoInv(memo, v)
    ensures SegOk(Last(v), walSize) && MemoInv(memo, WithLast(v, Flushed(Last(v))))
  {
    hide FileOk, MemoSafe, HeaderBytes;
    var a := Last(v);
    assert SegOk(a, walSize);
    FlushedSafe(memo, a, walSize, a.mapped);
    assert Flushed(a).(mapped := a.mapped) == Flushed(a);
    var w := WithLast(v, Flushed(a));
    forall i | 0 <= i < |w| ensures MemoSafe(memo, w[i]) {
      if i < |v| - 1 {
        assert w[i] == v[i];
      }
    }
  }

  ghost predicate SparesRun(memo: Memo, v: seq<Seg>, ops: seq<Op>, walSize: nat)
    requires SetOk(v, walSize) && LegalRun(v, ops, walSize)
    decreases |ops|
  {
    ops == [] || (
      && Spares(memo, v, ops[0])
      && (StepRefines(v, ops[0], walSize); SparesRun(memo, Step(v, ops[0], walSize), ops[1..], walSize)))
  }

  lemma {:induction false} RunMemo(memo: Memo, v: seq<Seg>, ops: seq<Op>, walSize: nat)
    requires SetOk(v, walSize) && LegalRun(v, ops, walSize) && MemoInv(memo, v)
    requires SparesRun(memo, v, ops, walSize)
    ensures Run(v, ops, walSize) != [] && MemoInv(memo, Run(v, ops, walSize))
    decreases |ops|
  {
    hide SetOk, MemoInv, Step, Legal, Spares;
    if ops == [] {
      SetSize(v, walSize);
    } else {
      StepRefines(v, ops[0], walSize);
      SetSize(v, walSize);
      StepMemo(memo, v, ops[0], walSize);
      RunMemo(memo, Step(v, ops[0], walSize), ops[1..], walSize);
    }
  }

  /** A read leaves a memo behind that satisfies the invariant. */
  lemma ReadSetsMemo(v: seq<Seg>, i: nat, from: nat, until: nat, memo: Option<Memo>, walSize: nat)
    requires SetOk(v, walSize) && i < |v| && v[i].h.dataStart.Some?
    requires v[i].h.idFrom <= from <= until <= v[i].h.idUntil
    requires memo.Some? ==> MemoInv(memo.value, v)
    ensures ReadLogs(v[i].walNo, v[i].h, v[i].b, from, until, memo).Ok?
    ensures var out := ReadLogs(v[i].walNo, v[i].h, v[i].b, from, until, memo).value;
      out.memo.Some? && MemoInv(out.memo.value, v)
  {
    hide FileOk, Entries, Next, ReadLogs;
    var s := v[i];
    assert SegOk(s, walSize);
    assert memo.Some? ==> MemoSafe(memo.value, s);
    assert memo.None? ==> MemoFits(memo, s.walNo, s.h, s.b);
    ReadLogsExact(s.walNo, s.h, s.b, from, until, memo);
    var m := ReadLogs(s.walNo, s.h, s.b, from, until, memo).value.memo.value;
    LastFileEnds(v, walSize, i);
    NumbersAscend(v, walSize);
    forall j | 0 <= j < |v| ensures MemoSafe(m, v[j]) {
      if j != i {
        assert v[j].walNo != v[i].walNo;
      }
    }
  }

  /**
  A read set the memo; then any run of the writer that spares it; then reading any file of the set with
  the memo gives the same entries, offset and memo as a scan from the start of its data.
  */
  lemma MemoisedReadIsFullScan(v: seq<Seg>, i: nat, from: nat, until: nat, ops: seq<Op>,
                               j: nat, from': nat, until': nat, walSize: nat)
    requires SetOk(v, walSize) && i < |v| && v[i].h.dataStart.Some?
    requires v[i].h.idFrom <= from <= until <= v[i].h.idUntil
    requires LegalRun(v, ops, walSize)
    requires var r := ReadLogs(v[i].walNo, v[i].h, v[i].b, from, until, None);
      r.Ok? && r.value.memo.Some? && SparesRun(r.value.memo.value, v, ops, walSize)
    requires j < |Run(v, ops, walSize)| && Run(v, ops, walSize)[j].h.dataStart.Some?
    ensures var m := ReadLogs(v[i].walNo, v[i].h, v[i].b, from, until, None).value.memo;
      var s := Run(v, ops, walSize)[j];
      ReadLogs(s.walNo, s.h, s.b, from', until', m) == ReadLogs(s.walNo, s.h, s.b, from', until', None)
  {
    hide FileOk, Entries, Next, ReadLogs, LegalRun, Run, SparesRun;
    ReadSetsMemo(v, i, from, until, None, walSize);
    var m := ReadLogs(v[i].walNo, v[i].h, v[i].b, from, until, None).value.memo;
    RunMemo(m.value, v, ops, walSize);
    RunRefines(v, ops, walSize);
    var s := Run(v, ops, walSize)[j];
    assert SegOk(s, walSize);
    assert MemoSafe(m.value, s);
    MemoIsTransparent(s.walNo, s.h, s.b, from', until', m);
  }

  // ---- a truncation the memo does not survive

  lemma ZeroRecord(b: seq<byte>, off: nat)
    requires off + HEAD <= |b| && forall i :: off <= i < off + HEAD ==> b[i] == 0
    ensures ReadRecord(b, off) == None
  {
    ValueOfZeros(b[off + 12..off + 16]);
  }

  /** Inside the payload of a chained record. */
  lemma PayloadByte(b: seq<byte>, off: nat, id: nat, p: seq<byte>, i: nat)
    requires RecordIn(b, off, id, p) && i < |p|
    ensures b[off + HEAD + i] == p[i]
  {
    hide Be;
    assert b[off..off + HEAD + |p|][HEAD + i] == b[off + HEAD + i];
    assert RecordBytes(id, p)[HEAD + i] == p[i];
  }

  /** A file in which the remembered offset has come to lie inside a payload of zeros. */
  lemma MemoInsideZeros(walNo: nat, h: Header, b: seq<byte>, ps: seq<seq<byte>>, q: seq<byte>, rs: seq<seq<byte>>,
                        memo: Memo)
    requires h.dataStart.Some? && h.dataEnd.Some? && FileOk(h, b) && Entries(h, b) == ps + [q] + rs && rs != []
    requires q == Zeros(|q|) && memo.walNo == walNo && memo.idFrom == h.idFrom && memo.lastLogId + 1 == h.idUntil
    requires var e := Next(h.dataStart.value, ps);
      e + HEAD <= memo.dataEnd + 1 && memo.dataEnd + 1 + HEAD <= e + HEAD + |q|
    ensures ReadLogs(walNo, h, b, h.idUntil, h.idUntil, Some(memo)) == Err(Integrity)
    ensures var full := ReadLogs(walNo, h, b, h.idUntil, h.idUntil, None);
      full.Ok? && full.value.logs == [(h.idUntil as nat, Last(rs))]
  {
    hide Be, FromBe, ReadRecord, RecordIn, Next, Payloads;
    var es := ps + [q] + rs;
    var e := Next(h.dataStart.value, ps);
    assert |es| == Count(h);
    ChainSplit(b, h.dataStart.value, h.idFrom, es, |ps|);
    assert es[..|ps|] == ps && es[|ps|..] == [q] + rs;
    assert RecordIn(b, e, h.idFrom + |ps|, q);
    var off := memo.dataEnd + 1;
    forall i | off <= i < off + HEAD ensures i < |b| && b[i] == 0 {
      RecordFits(b, e, h.idFrom + |ps|, q);
      PayloadByte(b, e, h.idFrom + |ps|, q, i - e - HEAD);
    }
    RecordFits(b, e, h.idFrom + |ps|, q);
    ZeroRecord(b, off);
    ReadLogsExact(walNo, h, b, h.idUntil, h.idUntil, None);
    assert es[h.idUntil - h.idFrom..h.idUntil - h.idFrom + 1] == [Last(rs)];
  }

  /** Appending a list of payloads to one file, as long as it has space. */
  function AppendMany(h: Header, b: seq<byte>, id: nat, ps: seq<seq<byte>>): Option<Image>
    decreases |ps|
  {
    if ps == [] then Some(Image(h, b))
    else if id <= U64_MAX && OFFSET_LOGS <= |b| <= U32_MAX && HasSpace(h, |b|, |ps[0]|)
        && Start(h) + HEAD + |ps[0]| <= |b|
    then
      var img := Appended(h, b, id, ps[0]);
      AppendMany(img.h, img.b, id + 1, ps[1..])
    else None
  }

  lemma {:induction false} AppendManyHolds(h: Header, b: seq<byte>, id: nat, ps: seq<seq<byte>>)
    requires FileOk(h, b) && h.dataStart.Some? && id == h.idUntil + 1 && AppendMany(h, b, id, ps).Some?
    requires forall i :: 0 <= i < |ps| ==> ps[i] != []
    ensures var w := AppendMany(h, b, id, ps).value;
      && FileOk(w.h, w.b) && Entries(w.h, w.b) == Entries(h, b) + ps
      && w.h.dataStart == h.dataStart && w.h.idFrom == h.idFrom && w.h.idUntil == h.idUntil + |ps|
      && w.h.dataEnd.Some?
    decreases |ps|
  {
    hide Holds, Entries, Appended;
    if ps == [] {
      assert Entries(h, b) + ps == Entries(h, b);
    } else {
      AppendedHolds(h, b, id, ps[0]);
      AppendedFields(h, b, id, ps[0]);
      AppendedStart(h, b, id, ps[0]);
      var img := Appended(h, b, id, ps[0]);
      AppendManyHolds(img.h, img.b, id + 1, ps[1..]);
      assert Entries(h, b) + [ps[0]] + ps[1..] == Entries(h, b) + ps;
    }
  }

  /** They fit if their records end before the file does. */
  lemma {:induction false} AppendManyFits(h: Header, b: seq<byte>, id: nat, ps: seq<seq<byte>>)
    requires FileOk(h, b) && h.dataStart.Some? && id == h.idUntil + 1 && id + |ps| <= U64_MAX + 1
    requires (forall i :: 0 <= i < |ps| ==> ps[i] != []) && Next(Start(h), ps) <= |b|
    ensures AppendMany(h, b, id, ps).Some?
    decreases |ps|
  {
    hide Holds, Entries;
    if ps != [] {
      AppendedHolds(h, b, id, ps[0]);
      var img := Appended(h, b, id, ps[0]);
      assert Start(img.h) == Start(h) + Stride(ps[0]);
      AppendManyFits(img.h, img.b, id + 1, ps[1..]);
    }
  }

  /**
  The guard of the memo compares number and first id only. Truncate the memo's file at any `k` up to the
  remembered id, append zeros `q` as far as the remembered offset and then payloads `rs` up to one id
  above it: the full scan finds the last of them, the memoised read fails.
  */
  lemma TruncateDefeatsMemo(s: Seg, k: u64, memo: Memo, q: seq<byte>, rs: seq<seq<byte>>, walSize: nat)
    requires SegOk(s, walSize) && ValidWalSize(walSize) && s.h.dataStart.Some?
    requires memo.walNo == s.walNo && memo.idFrom == s.h.idFrom && MemoFits(Some(memo), s.walNo, s.h, s.b)
    requires s.h.idFrom < k <= memo.lastLogId && memo.lastLogId < MAX_ID
    requires q == Zeros(|q|) && |rs| == memo.lastLogId + 1 - k && forall i :: 0 <= i < |rs| ==> rs[i] != []
    requires Next(s.h.dataStart.value, Entries(s.h, s.b)[..k - s.h.idFrom]) + |q| >= memo.dataEnd + 1
    ensures s.h.dataEnd.Some? && CutBack(s, k).Ok?
    ensures var t := CutBack(s, k).value;
      var w := AppendMany(t.h, t.b, k, [q] + rs);
      && (Next(Start(t.h), [q] + rs) <= walSize ==> w.Some?)
      && (w.Some? ==> OnlyFullScanFinds(s.walNo, w.value, memo.lastLogId + 1, Last(rs), memo))
  {
    hide Be, FromBe, ReadRecord, RecordIn, Next, Payloads, Chain, ReadLogs, CutBack, AppendMany, FileOk;
    var es, n, start := Entries(s.h, s.b), k - s.h.idFrom, s.h.dataStart.value;
    SegOrder(s, walSize);
    EntriesLength(s.h, s.b);
    CutBackOk(s, k, walSize);
    CutBackHeader(s, k, walSize);
    MemoBehind(s, n, memo, walSize);
    var t := CutBack(s, k).value;
    assert forall i :: 0 <= i < |[q] + rs| ==> ([q] + rs)[i] != [];
    if Next(Start(t.h), [q] + rs) <= walSize {
      AppendManyFits(t.h, t.b, k, [q] + rs);
    }
    if AppendMany(t.h, t.b, k, [q] + rs).Some? {
      AppendManyHolds(t.h, t.b, k, [q] + rs);
      assert es[..n] + ([q] + rs) == es[..n] + [q] + rs;
      var w := AppendMany(t.h, t.b, k, [q] + rs).value;
      MemoInsideZeros(s.walNo, w.h, w.b, es[..n], q, rs, memo);
    }
  }

  /**
  It happens in every file size: after entries 1 and 2 of one byte each and a read of entry 2, truncate at
  2, append 18 zeros and one more entry. The memoised read does not find entry 3.
  */
  lemma MemoDefeated(walSize: nat) returns (s: Seg, memo: Memo, w: Image)
    requires ValidWalSize(walSize)
    ensures SegOk(s, walSize) && s.h.idFrom == 1 && s.h.idUntil == 2 && Entries(s.h, s.b) == [[1], [1]]
    ensures s.h.dataStart.Some? && s.h.dataEnd.Some? && CutBack(s, 2).Ok?
    ensures var r := ReadLogs(s.walNo, s.h, s.b, 2, 2, None);
      r.Ok? && r.value.memo == Some(memo)
    ensures var t := CutBack(s, 2).value;
      AppendMany(t.h, t.b, 2, [Zeros(18), [1]]) == Some(w)
    ensures OnlyFullScanFinds(s.walNo, w, 3, [1], memo)
  {
    hide ReadLogs, CutBack, AppendMany, FileOk, Entries, OnlyFullScanFinds, Zeros;
    s := TwoEntries(walSize);
    var es: seq<seq<byte>>, rs: seq<seq<byte>> := [[1], [1]], [[1]];
    NoMemoFits(s.walNo, s.h, s.b);
    ReadLogsExact(s.walNo, s.h, s.b, 2, 2, None);
    memo := ReadLogs(s.walNo, s.h, s.b, 2, 2, None).value.memo.value;
    assert es[..1] == [[1]] && es[..2] == es;
    CutBackOk(s, 2, walSize);
    CutBackHeader(s, 2, walSize);
    var t, q := CutBack(s, 2).value, Zeros(18);
    EndsAtStart(t, walSize);
    TruncateDefeatsMemo(s, 2, memo, q, rs, walSize);
    assert [q] + rs == [q, [1]];
    assert [q, [1]][1..] == rs && rs[1..] == [];
    assert Next(Start(t.h), [q] + rs) == Start(t.h) + Stride(q) + Stride([1]);
    w := AppendMany(t.h, t.b, 2, [q, [1]]).value;
  }

  lemma TwoEntries(walSize: nat) returns (s: Seg)
    requires ValidWalSize(walSize)
    ensures SegOk(s, walSize) && s.h.idFrom == 1 && s.h.idUntil == 2 && Entries(s.h, s.b) == [[1], [1]]
    ensures s.h.dataStart == Some(OFFSET_LOGS) && s.h.dataEnd.Some?
  {
    hide NewBytes, Entries, FileOk;
    NewFileOk(1, 0, walSize);
    var f := Fresh(1, walSize);
    NoEntriesYet(f.h, f.b);
    AppendedHolds(f.h, f.b, 1, [1]);
    var a := Appended(f.h, f.b, 1, [1]);
    AppendedHolds(a.h, a.b, 2, [1]);
    var b := Appended(a.h, a.b, 2, [1]);
    s := f.(h := b.h, b := b.b);
  }

  /** The remembered offset lies behind record number `n` of the file. */
  lemma MemoBehind(s: Seg, n: nat, memo: Memo, walSize: nat)
    requires SegOk(s, walSize) && s.h.dataStart.Some? && n < |Entries(s.h, s.b)|
    requires memo.walNo == s.walNo && memo.idFrom == s.h.idFrom && MemoFits(Some(memo), s.walNo, s.h, s.b)
    requires s.h.idFrom + n <= memo.lastLogId
    ensures Next(s.h.dataStart.value, Entries(s.h, s.b)[..n]) + HEAD <= memo.dataEnd
  {
    hide FileOk, Payloads;
    var es, i := Entries(s.h, s.b), memo.lastLogId - s.h.idFrom + 1;
    var ps := es[..i];
    NextSplit(s.h.dataStart.value, ps, n);
    assert ps[..n] == es[..n];
    NextGrows(Next(s.h.dataStart.value, es[..n]), ps[n..]);
  }

  predicate OnlyFullScanFinds(walNo: nat, img: Image, id: nat, p: seq<byte>, memo: Memo) {
    && img.h.dataStart.Some?
    && ReadLogs(walNo, img.h, img.b, id, id, Some(memo)) == Err(Integrity)
    && ReadLogs(walNo, img.h, img.b, id, id, None).Ok?
    && ReadLogs(walNo, img.h, img.b, id, id, None).value.logs == [(id, p)]
  }

  lemma CutBackHeader(s: Seg, k: u64, walSize: nat)
    requires SegOk(s, walSize) && ValidWalSize(walSize) && s.h.dataStart.Some? && s.h.idFrom < k <= s.h.idUntil
    ensures s.h.dataEnd.Some? && CutBack(s, k).Ok?
    ensures var t := CutBack(s, k).value;
      t.h.dataStart == s.h.dataStart && t.h.idUntil == k - 1
  {
    hide FileOk, ReadLogs;
    SegOrder(s, walSize);
    CutBackOk(s, k, walSize);
  }

  // ---- ids that only move forward

  /** Ids never go back but by a truncation: `end` is the id behind everything appended so far. */
  predicate InOrder(ops: seq<Op>, end: nat)
    decreases |ops|
  {
    ops == [] || match ops[0]
    case Append(id, _) => end <= id && InOrder(ops[1..], id + 1)
    case TruncateAt(k) => InOrder(ops[1..], Min(end, k))
    case _ => InOrder(ops[1..], end)
  }

  /** Such a run spares a memo if it does not truncate at or below its last id, full purges included. */
  lemma {:induction false} InOrderSpares(memo: Memo, v: seq<Seg>, ops: seq<Op>, end: nat, walSize: nat)
    requires SetOk(v, walSize) && LegalRun(v, ops, walSize) && InOrder(ops, end) && memo.lastLogId < end
    requires forall i :: 0 <= i < |ops| && ops[i].TruncateAt? ==> memo.lastLogId < ops[i].k
    ensures SparesRun(memo, v, ops, walSize)
    decreases |ops|
  {
    hide SetOk, Step, Legal;
    if ops != [] {
      SetSize(v, walSize);
      StepRefines(v, ops[0], walSize);
      var end' := match ops[0]
        case Append(id, _) => id + 1
        case TruncateAt(k) => Min(end, k)
        case _ => end;
      InOrderSpares(memo, Step(v, ops[0], walSize), ops[1..], end', walSize);
    }
  }

  /**
  The memoised read is the full scan: after any run whose ids move forward, in which no truncation
  reached the remembered id, on every file and for every range.
  */
  lemma MemoisedReadInOrder(v: seq<Seg>, i: nat, from: nat, until: nat, ops: seq<Op>, end: nat,
                            j: nat, from': nat, until': nat, walSize: nat)
    requires SetOk(v, walSize) && i < |v| && v[i].h.dataStart.Some?
    requires v[i].h.idFrom <= from <= until <= v[i].h.idUntil
    requires LegalRun(v, ops, walSize) && InOrder(ops, end) && until < end
    requires forall i :: 0 <= i < |ops| && ops[i].TruncateAt? ==> until < ops[i].k
    requires j < |Run(v, ops, walSize)| && Run(v, ops, walSize)[j].h.dataStart.Some?
    ensures var r, s := ReadLogs(v[i].walNo, v[i].h, v[i].b, from, until, None), Run(v, ops, walSize)[j];
      && r.Ok?
      && ReadLogs(s.walNo, s.h, s.b, from', until', r.value.memo) == ReadLogs(s.walNo, s.h, s.b, from', until', None)
  {
    hide FileOk, Entries, Next, ReadLogs, LegalRun, Run, SparesRun, InOrder;
    ReadSetsMemo(v, i, from, until, None, walSize);
    var m := ReadLogs(v[i].walNo, v[i].h, v[i].b, from, until, None).value.memo;
    RemembersUntil(v, i, from, until, walSize);
    InOrderSpares(m.value, v, ops, end, walSize);
    MemoisedReadIsFullScan(v, i, from, until, ops, j, from', until', walSize);
  }

  lemma RemembersUntil(v: seq<Seg>, i: nat, from: nat, until: nat, walSize: nat)
    requires SetOk(v, walSize) && i < |v| && v[i].h.dataStart.Some?
    requires v[i].h.idFrom <= from <= until <= v[i].h.idUntil
    ensures var r := ReadLogs(v[i].walNo, v[i].h, v[i].b, from, until, None);
      r.Ok? && r.value.memo.Some? && r.value.memo.value.lastLogId == until
  {
    hide FileOk, Entries, Next, ReadLogs;
    assert SegOk(v[i], walSize);
    NoMemoFits(v[i].walNo, v[i].h, v[i].b);
    ReadLogsExact(v[i].walNo, v[i].h, v[i].b, from, until, None);
  }

}
