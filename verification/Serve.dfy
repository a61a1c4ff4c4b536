/**
Serving a range of entries across files, and the latest entry (`Action::Logs` and `Action::LogState` in
hiqlite-wal/src/reader.rs), as functions of the files.
*/
module Serve {
  import opened Base
  import opened Records
  import opened Scan
  import opened WalSet
  import opened WalRemove
  import opened WalMemo

  /** One message of the answer. */
  datatype Item = Data(p: seq<byte>) | Fail(e: ReadError)

  datatype Served = Served(items: seq<Item>, memo: Option<Memo>, panicked: bool)

  datatype Attempt = Panic | Got(res: Result<ReadOut, ReadError>)

  /** `read_logs` on any file: behind the range checks, a file without data panics. */
  function TryRead(s: Seg, from: nat, until: nat, memo: Option<Memo>): Attempt {
    if s.h.dataStart.Some? then Got(ReadLogs(s.walNo, s.h, s.b, from, until, memo))
    else if from < s.h.idFrom then Got(Err(BelowThreshold))
    else if s.h.idUntil < until then Got(Err(AboveThreshold))
    else if until < from then Got(Err(Reversed))
    else Panic
  }

  function Items(logs: Logs): (r: seq<Item>)
    ensures |r| == |logs| && forall i :: 0 <= i < |r| ==> r[i] == Data(logs[i].1)
  {
    seq(|logs|, i requires 0 <= i < |logs| => Data(logs[i].1))
  }

  function OrElse(a: Option<Memo>, b: Option<Memo>): Option<Memo> {
    if a.Some? then a else b
  }

  /** The loop of `Action::Logs` over the files `v`, with `from` the next id to send. */
  function ServeLogs(v: seq<Seg>, from: nat, until: nat, memo: Option<Memo>): Served
    decreases |v|
  {
    if v == [] then Served([], memo, false)
    else if v[0].h.idUntil < from then ServeLogs(v[1..], from, until, memo)
    else
      match TryRead(v[0], from, Min(v[0].h.idUntil, until), memo)
      case Panic => Served([], memo, true)
      case Got(Err(e)) => Served([Fail(e)], memo, false)
      case Got(Ok(out)) =>
        var memo' := OrElse(out.memo, memo);
        if v[0].h.idUntil < until then
          var rest := ServeLogs(v[1..], v[0].h.idUntil + 1, until, memo');
          rest.(items := Items(out.logs) + rest.items)
        else Served(Items(out.logs), memo', false)
  }

  /** The payloads of ids `from` to below `end`. */
  function Range(log: Log, from: nat, end: nat): (r: seq<Item>)
    requires forall id :: from <= id < end ==> id in log
    ensures |r| == Max(0, end - from) && forall i :: 0 <= i < |r| ==> r[i] == Data(log[from + i])
  {
    seq(Max(0, end - from), i requires 0 <= i < Max(0, end - from) => Data(log[from + i]))
  }

  /** The id behind the last entry of the whole log. */
  function End(v: seq<Seg>): nat
    requires v != []
  {
    After(Last(v).h)
  }

  lemma LogKeys(v: seq<Seg>, walSize: nat)
    requires SetOk(v, walSize)
    ensures forall id :: id in LogOf(v) <==> v[0].h.idFrom <= id < End(v)
  {
    hide Flat, Entries, SegOk;
    FlatLength(v, walSize);
  }

  /** Where an entry of the log lies. */
  lemma LogAt(v: seq<Seg>, walSize: nat, k: nat, id: nat)
    requires SetOk(v, walSize) && k < |v| && v[k].h.idFrom <= id < After(v[k].h)
    ensures id in LogOf(v) && |Entries(v[k].h, v[k].b)| == After(v[k].h) - v[k].h.idFrom
    ensures LogOf(v)[id] == Entries(v[k].h, v[k].b)[id - v[k].h.idFrom]
  {
    hide Flat, Entries, SegOk, FileOk;
    LogKeys(v, walSize);
    LastFileEnds(v, walSize, k);
    PrefixLength(v, walSize, k);
    FlatSplit(v, k);
    FlatCons(v[k], v[k + 1..]);
    assert v[k..] == [v[k]] + v[k + 1..];
    FileAbove(v, walSize, k);
  }

  lemma FileAbove(v: seq<Seg>, walSize: nat, k: nat)
    requires SetOk(v, walSize) && k < |v|
    ensures v[0].h.idFrom <= v[k].h.idFrom
  {
    hide SegOk;
    IdsAscend(v, walSize);
  }

  /** The memo a reader holds is harmless for every file, and stays so. */
  ghost predicate MemoGood(memo: Option<Memo>, v: seq<Seg>)
    requires v != []
  {
    memo.Some? ==> MemoInv(memo.value, v)
  }

  /** Reading the overlap with one file. */
  lemma ReadOverlap(v: seq<Seg>, walSize: nat, k: nat, from: nat, until: nat, memo: Option<Memo>)
    requires SetOk(v, walSize) && k < |v| && MemoGood(memo, v)
    requires v[k].h.dataStart.Some? && v[k].h.idFrom <= from <= until <= v[k].h.idUntil
    ensures TryRead(v[k], from, until, memo).Got? && TryRead(v[k], from, until, memo).res.Ok?
    ensures forall id :: from <= id <= until ==> id in LogOf(v)
    ensures var out := TryRead(v[k], from, until, memo).res.value;
      && Items(out.logs) == Range(LogOf(v), from, until + 1)
      && out.memo.Some? && out.memo.value.lastLogId == until && MemoGood(out.memo, v)
  {
    hide FileOk, Entries, Next, ReadLogs, LogOf;
    var s := v[k];
    assert SegOk(s, walSize);
    ReadSetsMemo(v, k, from, until, memo, walSize);
    assert memo.Some? ==> MemoSafe(memo.value, s);
    ReadLogsExact(s.walNo, s.h, s.b, from, until, memo);
    forall id | from <= id <= until
      ensures id in LogOf(v) && LogOf(v)[id] == Entries(s.h, s.b)[id - s.h.idFrom]
    {
      LogAt(v, walSize, k, id);
    }
  }

  /**
  Cross-file reads. From any stored id on, exactly the entries up to `until` (or the end of the log) are
  sent, in order and once each. A trailing empty file is touched, and then panics, if and only if the
  range reaches behind the last entry.
  */
  lemma {:induction false} ServeExact(v: seq<Seg>, walSize: nat, k: nat, from: nat, until: nat, memo: Option<Memo>)
    requires SetOk(v, walSize) && k < |v| && MemoGood(memo, v)
    requires v[k].h.idFrom <= from <= until
    ensures forall id :: from <= id < Min(until + 1, End(v)) ==> id in LogOf(v)
    ensures var r := ServeLogs(v[k..], from, until, memo);
      && r.items == Range(LogOf(v), from, Min(until + 1, End(v)))
      && (r.panicked <==> Last(v).h.dataStart.None? && from <= End(v) <= until)
      && MemoGood(r.memo, v)
    decreases |v| - k
  {
    hide FileOk, Entries, ReadLogs, LogOf, MemoGood, ServeLogs, TryRead, Linked;
    var s := v[k];
    LogKeys(v, walSize);
    FileAbove(v, walSize, k);
    LastFileEnds(v, walSize, k);
    FileFacts(v, walSize, k);
    ServeUnfold(v, k, from, until, memo);
    assert k == |v| - 1 ==> v[k + 1..] == [];
    if s.h.idUntil < from {
      if k < |v| - 1 {
        ServeExact(v, walSize, k + 1, from, until, memo);
      }
    } else if s.h.dataStart.Some? {
      var end := Min(s.h.idUntil, until);
      ReadOverlap(v, walSize, k, from, end, memo);
      if s.h.idUntil < until {
        var memo' := TryRead(s, from, end, memo).res.value.memo;
        if k < |v| - 1 {
          ServeExact(v, walSize, k + 1, s.h.idUntil + 1, until, memo');
        }
      }
    } else {
      EmptyPanics(s, from, until, memo);
    }
  }

  lemma FileFacts(v: seq<Seg>, walSize: nat, k: nat)
    requires SetOk(v, walSize) && k < |v|
    ensures var h := v[k].h;
      && h.idFrom <= h.idUntil && (h.dataStart.None? ==> h.idFrom == h.idUntil && k == |v| - 1)
      && (k < |v| - 1 ==> v[k + 1].h.idFrom == h.idUntil + 1)
  {
    hide FileOk;
    assert SegOk(v[k], walSize);
    SegOrder(v[k], walSize);
    if k < |v| - 1 {
      assert JoinedAt(v, k);
    }
  }

  /** One file of the loop. */
  lemma ServeUnfold(v: seq<Seg>, k: nat, from: nat, until: nat, memo: Option<Memo>)
    requires k < |v|
    ensures ServeLogs([], from, until, memo) == Served([], memo, false)
    ensures v[k].h.idUntil < from ==> ServeLogs(v[k..], from, until, memo) == ServeLogs(v[k + 1..], from, until, memo)
    ensures from <= v[k].h.idUntil ==>
      var t := TryRead(v[k], from, Min(v[k].h.idUntil, until), memo);
      && (t.Panic? ==> ServeLogs(v[k..], from, until, memo) == Served([], memo, true))
      && (t.Got? && t.res.Ok? ==>
           var items, memo' := Items(t.res.value.logs), OrElse(t.res.value.memo, memo);
           ServeLogs(v[k..], from, until, memo) ==
           if v[k].h.idUntil < until then
             var rest := ServeLogs(v[k + 1..], v[k].h.idUntil + 1, until, memo');
             rest.(items := items + rest.items)
           else Served(items, memo', false))
    ensures forall m: Option<Memo>, a: nat :: ServeLogs([], a, until, m) == Served([], m, false)
  {
    hide TryRead;
    var t := v[k..];
    assert t[0] == v[k] && t[1..] == v[k + 1..];
  }

  lemma EmptyPanics(s: Seg, from: nat, until: nat, memo: Option<Memo>)
    requires s.h.dataStart.None? && s.h.idFrom == s.h.idUntil <= from <= s.h.idUntil && from <= until
    ensures TryRead(s, from, Min(s.h.idUntil, until), memo).Panic?
  {
  }

  /** Below the first id the answer is an error and nothing else. */
  lemma ServeBelow(v: seq<Seg>, walSize: nat, from: nat, until: nat, memo: Option<Memo>)
    requires SetOk(v, walSize) && from < v[0].h.idFrom
    ensures ServeLogs(v, from, until, memo) == Served([Fail(BelowThreshold)], memo, false)
  {
    hide Holds;
    assert SegOk(v[0], walSize);
  }

  // ---- the latest entry

  /** `latest_log_id`: of the last file, or of the one before it while the last one is still empty. */
  function LatestId(v: seq<Seg>): Option<nat>
    requires v != []
  {
    if Last(v).h.dataStart.Some? then Some(Last(v).h.idUntil)
    else if |v| > 1 then Some(v[|v| - 2].h.idUntil)
    else None
  }

  /** The file it is read from. */
  function LatestFile(v: seq<Seg>): nat
    requires v != []
  {
    if Last(v).h.dataStart.Some? || |v| == 1 then |v| - 1 else |v| - 2
  }

  /** `LogState` reports the last entry, and none exactly when the log is empty. */
  lemma LatestIsLast(v: seq<Seg>, walSize: nat, memo: Option<Memo>)
    requires SetOk(v, walSize) && MemoGood(memo, v)
    ensures LatestId(v).None? <==> LogOf(v) == map[]
    ensures LatestId(v).Some? ==>
      var id := LatestId(v).value;
      && id in LogOf(v) && (forall j :: j in LogOf(v) ==> j <= id)
      && var a := TryRead(v[LatestFile(v)], id, id, memo);
         a.Got? && a.res.Ok? && Items(a.res.value.logs) == [Data(LogOf(v)[id])] && MemoGood(a.res.value.memo, v)
  {
    hide FileOk, Entries, ReadLogs, LogOf, MemoGood;
    LogKeys(v, walSize);
    var k := LatestFile(v);
    assert SegOk(v[k], walSize);
    SegOrder(v[k], walSize);
    FileAbove(v, walSize, k);
    assert SegOk(Last(v), walSize);
    SegOrder(Last(v), walSize);
    if |v| > 1 {
      assert JoinedAt(v, |v| - 2);
    }
    if LatestId(v).Some? {
      var id := LatestId(v).value;
      ReadOverlap(v, walSize, k, id, id, memo);
      assert id in LogOf(v);
      assert LogOf(v) != map[];
    } else {
      assert LogOf(v) == map[];
    }
  }
}
