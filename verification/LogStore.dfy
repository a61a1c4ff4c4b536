/**
The storage interface on top of writer and reader (hiqlite-wal/src/log_store_impl.rs): range bounds are
translated into inclusive ids, answers are collected, `truncate` and `purge` become removals.
*/
module LogStore {
  import opened Base
  import opened Scan
  import opened WalSet
  import opened Serve
  import opened Writers
  import opened Readers

  datatype Bound = Included(id: u64) | Excluded(id: u64) | Unbounded

  predicate AboveStart(start: Bound, id: u64) {
    match start
    case Included(i) => i <= id
    case Excluded(i) => i < id
    case Unbounded => true
  }

  predicate BelowEnd(end: Bound, id: u64) {
    match end
    case Included(i) => id <= i
    case Excluded(i) => id < i
    case Unbounded => true
  }

  function FromId(start: Bound): u64 {
    match start
    case Included(i) => i
    case Excluded(i) => if i < U64_MAX then i + 1 else U64_MAX
    case Unbounded => 0
  }

  /** An unbounded end is unreachable in the source. */
  function UntilId(end: Bound): u64
    requires !end.Unbounded?
  {
    if end.Included? then end.id else if end.id == 0 then 0 else end.id - 1
  }

  /** The two ranges that are read as one id although they are empty. */
  predicate Saturates(start: Bound, end: Bound) {
    || (FromId(start) == 0 && end == Excluded(0))
    || (start == Excluded(U64_MAX) && end == Included(U64_MAX))
  }

  /** The translation means the same ids, if and only if neither bound saturates. */
  lemma TranslationExact(start: Bound, end: Bound)
    requires !end.Unbounded?
    ensures (forall id: u64 :: FromId(start) <= id <= UntilId(end) <==> AboveStart(start, id) && BelowEnd(end, id))
       <==> !Saturates(start, end)
  {
    if Saturates(start, end) {
      var id: u64 := FromId(start);
      assert FromId(start) <= id <= UntilId(end) && !(AboveStart(start, id) && BelowEnd(end, id));
    }
  }

  /** All payloads, or the first error. */
  function Collected(items: seq<Item>): Result<seq<seq<byte>>, ReadError> {
    if items == [] then Ok([])
    else match items[0]
      case Fail(e) => Err(e)
      case Data(p) =>
        match Collected(items[1..])
        case Err(e) => Err(e)
        case Ok(ps) => Ok([p] + ps)
  }

  lemma {:induction false} CollectedData(items: seq<Item>, ps: seq<seq<byte>>)
    requires |items| == |ps| && forall i :: 0 <= i < |ps| ==> items[i] == Data(ps[i])
    ensures Collected(items) == Ok(ps)
  {
    if items != [] {
      CollectedData(items[1..], ps[1..]);
      assert ps == [ps[0]] + ps[1..];
    }
  }

  lemma {:induction false} CollectedSnoc(items: seq<Item>, x: Item)
    ensures Collected(items + [x]) ==
      match Collected(items)
      case Err(e) => Err(e)
      case Ok(ps) => if x.Fail? then Err(x.e) else Ok(ps + [x.p])
  {
    if items == [] {
      assert [] + [x] == [x] && [x][1..] == [];
      var none: seq<seq<byte>> := [];
      assert x.Data? ==> [x.p] + none == none + [x.p];
    } else {
      assert (items + [x])[1..] == items[1..] + [x];
      CollectedSnoc(items[1..], x);
      var rest := Collected(items[1..]);
      if items[0].Data? && rest.Ok? && x.Data? {
        assert [items[0].p] + (rest.value + [x.p]) == ([items[0].p] + rest.value) + [x.p];
      }
    }
  }

  /** The payloads of ids `from` to below `end`. */
  function Payloads(log: Log, from: nat, end: nat): (r: seq<seq<byte>>)
    requires forall id :: from <= id < end ==> id in log
    ensures |r| == Max(0, end - from) && forall i :: 0 <= i < |r| ==> r[i] == log[from + i]
  {
    seq(Max(0, end - from), i requires 0 <= i < Max(0, end - from) => log[from + i])
  }

  /**
  What a request for the ids `from` to `until` gets from the log in the files `v`. An empty range gets
  nothing, a start below the log an error, any other range exactly its entries that exist. It panics,
  without an answer, exactly if it reaches into a trailing empty file.
  */
  ghost predicate Fetched(v: seq<Seg>, from: nat, until: nat, res: Result<seq<seq<byte>>, ReadError>, panicked: bool)
    requires v != []
  {
    if until < from then res == Ok([]) && !panicked
    else if from < v[0].h.idFrom then res == Err(BelowThreshold) && !panicked
    else
      && (panicked <==> Last(v).h.dataStart.None? && from <= End(v) <= until)
      && (forall id :: from <= id < Min(until + 1, End(v)) ==> id in LogOf(v))
      && (!panicked ==> res == Ok(Payloads(LogOf(v), from, Min(until + 1, End(v)))))
  }

  /** `try_get_log_entries`, up to the decoding of entries; an empty range does not ask the reader. */
  method TryGetLogEntries(reader: Reader, start: Bound, end: Bound, ghost a: int)
    returns (res: Result<seq<seq<byte>>, ReadError>, panicked: bool)
    requires reader.Linked() && reader.Behind(a) && !end.Unbounded?
    modifies reader`memo, reader.copy
    ensures reader.Linked() && Fetched(reader.wal.view, FromId(start), UntilId(end), res, panicked)
  {
    hide LogOf, ServeLogs, Collected, MemoGood;
    var from, until := FromId(start), UntilId(end);
    if until < from {
      return Ok([]), false;
    }
    hide Fetched;
    ghost var v := reader.wal.view;
    ghost var memo := reader.memo;
    var items;
    items, panicked := reader.HandleLogs(from, until, a);
    FetchedServed(v, reader.wal.walSize, from, until, memo);
    res := Collect(items);
  }

  lemma FetchedServed(v: seq<Seg>, walSize: nat, from: nat, until: nat, memo: Option<Memo>)
    requires SetOk(v, walSize) && MemoGood(memo, v) && from <= until
    ensures var r := ServeLogs(v, from, until, memo);
      Fetched(v, from, until, Collected(r.items), r.panicked)
  {
    hide LogOf, ServeLogs, MemoGood, SetOk;
    SetNonempty(v, walSize);
    if from < v[0].h.idFrom {
      ServeBelow(v, walSize, from, until, memo);
    } else {
      hide Collected;
      ServeExact(v, walSize, 0, from, until, memo);
      assert v[0..] == v;
      CollectedData(ServeLogs(v, from, until, memo).items, Payloads(LogOf(v), from, Min(until + 1, End(v))));
    }
  }

  method Collect(items: seq<Item>) returns (res: Result<seq<seq<byte>>, ReadError>)
    ensures res == Collected(items)
  {
    var ps := [];
    for i := 0 to |items|
      invariant Collected(items[..i]) == Ok(ps)
    {
      assert items[..i + 1] == items[..i] + [items[i]];
      CollectedSnoc(items[..i], items[i]);
      if items[i].Fail? {
        CollectedError(items, i + 1);
        return Err(items[i].e);
      }
      ps := ps + [items[i].p];
    }
    assert items[..|items|] == items;
    res := Ok(ps);
  }

  /** An error in a prefix is the error of the whole. */
  lemma {:induction false} CollectedError(items: seq<Item>, n: nat)
    requires n <= |items| && Collected(items[..n]).Err?
    ensures Collected(items) == Collected(items[..n])
    decreases |items| - n
  {
    if n == |items| {
      assert items[..n] == items;
    } else {
      assert items[..n + 1] == items[..n] + [items[n]];
      CollectedSnoc(items[..n], items[n]);
      CollectedError(items, n + 1);
    }
  }

  /** `truncate(k)`: exactly the ids from `k` on are gone. */
  method Truncate(writer: Writer, k: u64, fail: Option<nat>) returns (ok: bool)
    requires writer.Valid() && (writer.isDirty ==> Last(writer.wal.view).mapped)
    modifies writer, writer.wal.Repr, writer.shared
    ensures fail.None? ==> ok
    ensures writer.meta == old(writer.meta) && writer.metaFile == old(writer.metaFile)
    ensures ok ==> writer.Valid() && LogOf(writer.wal.view) == DropFrom(old(LogOf(writer.wal.view)), k)
  {
    hide LogOf, DropBelow, DropFrom;
    ghost var v := writer.wal.view;
    RemainingTruncate(v, k, writer.wal.walSize);
    ghost var points;
    ok, points := writer.HandleRemove(k, U64_MAX, None, fail);
  }

  /** `purge(u)`: exactly the ids below `u` are gone, and `u` is recorded as purged. */
  method Purge(writer: Writer, u: u64, logId: seq<byte>, fail: Option<nat>) returns (ok: bool)
    requires writer.Valid() && (writer.isDirty ==> Last(writer.wal.view).mapped)
    modifies writer, writer.wal.Repr, writer.shared
    ensures fail.None? ==> ok
    ensures writer.metaFile == writer.meta ==
        if ok then old(writer.meta).(lastPurged := Some(logId)) else old(writer.meta)
    ensures ok ==> writer.Valid() && LogOf(writer.wal.view) == DropBelow(old(LogOf(writer.wal.view)), u)
  {
    hide LogOf, DropBelow, DropFrom;
    ghost var points;
    ok, points := writer.HandleRemove(0, u, Some(logId), fail);
  }

  lemma RemainingTruncate(v: seq<Seg>, k: u64, walSize: nat)
    requires SetOk(v, walSize)
    ensures Remaining(v, k, U64_MAX) == DropFrom(LogOf(v), k)
  {
    hide LogOf, SegOk;
    LogKeys(v, walSize);
    assert SegOk(Last(v), walSize);
    EndBelowMax(v, walSize);
  }

  lemma EndBelowMax(v: seq<Seg>, walSize: nat)
    requires SetOk(v, walSize)
    ensures End(v) < U64_MAX && Last(v).h.idUntil <= U64_MAX
  {
    assert SegOk(Last(v), walSize);
  }
}
