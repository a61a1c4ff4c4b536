/**
Whole runs of the log writer against the abstract log, and what every step keeps: headers on disk that
match or underestimate, durability of sealed files, and read memos.
*/
module WalRuns {
  import opened Base
  import opened Records
  import opened WalSet
  import opened WalRemove

  /** The steps of the writer: append one entry, roll over early, purge, truncate, flush the active file. */
  datatype Op = Append(id: u64, p: seq<byte>) | Seal | PurgeTo(u: u64) | TruncateAt(k: u64) | Flush

  /** What the callers of the log store guarantee: consecutive ids, payloads of 1 to `wal_size - 50` bytes. */
  ghost predicate Legal(v: seq<Seg>, op: Op, walSize: nat)
    requires SetOk(v, walSize)
  {
    match op
    case Append(id, p) =>
      Last(v).mapped && Last(v).walNo < U64_MAX && IsNext(v, id) && id <= MAX_ID && 0 < |p| <= walSize - 50
    case Seal => Last(v).mapped && Last(v).walNo < U64_MAX && Last(v).h.dataStart.Some?
    case PurgeTo(_) => true
    case TruncateAt(_) => true
    case Flush => Last(v).mapped
  }

  ghost function Step(v: seq<Seg>, op: Op, walSize: nat): seq<Seg>
    requires SetOk(v, walSize) && Legal(v, op, walSize)
  {
    match op
    case Append(id, p) => AppendExtendsLog(v, id, p, walSize); AppendTo(v, id, p, walSize)
    case Seal => assert SegOk(Last(v), walSize); RollOver(v, walSize)
    case PurgeTo(u) => SetPaired(v, walSize); Purge(v, u, walSize)
    case TruncateAt(k) => SetPaired(v, walSize); Truncate(v, k, walSize)
    case Flush => assert SegOk(Last(v), walSize); WithLast(v, Flushed(Last(v)))
  }

  function SpecStep(log: Log, op: Op): Log {
    match op
    case Append(id, p) => log[id := p]
    case Seal => log
    case PurgeTo(u) => DropBelow(log, u)
    case TruncateAt(k) => DropFrom(log, k)
    case Flush => log
  }

  lemma FlushKeepsLog(v: seq<Seg>, walSize: nat)
    requires SetOk(v, walSize)
    ensures SegOk(Last(v), walSize)
    ensures SetOk(WithLast(v, Flushed(Last(v))), walSize)
    ensures LogOf(WithLast(v, Flushed(Last(v)))) == LogOf(v)
  {
    hide Flat, Entries, FileOk, HeaderBytes;
    var a := Last(v);
    assert SegOk(a, walSize);
    FlushedOk(a, walSize);
    PrefixLinked(v, |v|, Flushed(a), walSize);
    assert v[..|v|] == v;
    FlatLast(v, Flushed(a));
    FlatLast(v, a);
    assert WithLast(v, a) == v;
  }

  lemma StepRefines(v: seq<Seg>, op: Op, walSize: nat)
    requires SetOk(v, walSize) && Legal(v, op, walSize)
    ensures SetOk(Step(v, op, walSize), walSize)
    ensures LogOf(Step(v, op, walSize)) == SpecStep(LogOf(v), op)
  {
    hide SetOk, LogOf, AppendTo, RollOver, Purge, Truncate, Flushed, WithLast, IsNext;
    match op
    case Append(id, p) => AppendExtendsLog(v, id, p, walSize);
    case Seal => RollOverKeepsLog(v, walSize);
    case PurgeTo(u) => PurgeDropsBelow(v, u, walSize);
    case TruncateAt(k) => TruncateDropsFrom(v, k, walSize);
    case Flush => FlushKeepsLog(v, walSize);
  }

  ghost predicate LegalRun(v: seq<Seg>, ops: seq<Op>, walSize: nat)
    requires SetOk(v, walSize)
    decreases |ops|
  {
    ops == [] || (
      && Legal(v, ops[0], walSize)
      && (StepRefines(v, ops[0], walSize); LegalRun(Step(v, ops[0], walSize), ops[1..], walSize)))
  }

  ghost function Run(v: seq<Seg>, ops: seq<Op>, walSize: nat): seq<Seg>
    requires SetOk(v, walSize) && LegalRun(v, ops, walSize)
    decreases |ops|
  {
    if ops == [] then v
    else
      StepRefines(v, ops[0], walSize);
      Run(Step(v, ops[0], walSize), ops[1..], walSize)
  }

  function SpecRun(log: Log, ops: seq<Op>): Log
    decreases |ops|
  {
    if ops == [] then log else SpecRun(SpecStep(log, ops[0]), ops[1..])
  }

  /** Over every legal run the files represent exactly the abstract log. */
  lemma {:induction false} RunRefines(v: seq<Seg>, ops: seq<Op>, walSize: nat)
    requires SetOk(v, walSize) && LegalRun(v, ops, walSize)
    ensures SetOk(Run(v, ops, walSize), walSize)
    ensures LogOf(Run(v, ops, walSize)) == SpecRun(LogOf(v), ops)
    decreases |ops|
  {
    hide SetOk, LogOf, Step, SpecStep, Legal;
    if ops != [] {
      StepRefines(v, ops[0], walSize);
      RunRefines(Step(v, ops[0], walSize), ops[1..], walSize);
    }
  }

  /** One more step at the end of a run. */
  lemma {:induction false} RunSnoc(v: seq<Seg>, ops: seq<Op>, op: Op, walSize: nat)
    requires SetOk(v, walSize)
    ensures LegalRun(v, ops + [op], walSize) <==>
      LegalRun(v, ops, walSize) && (RunRefines(v, ops, walSize); Legal(Run(v, ops, walSize), op, walSize))
    ensures LegalRun(v, ops + [op], walSize) ==>
      SetOk(Run(v, ops, walSize), walSize) && Run(v, ops + [op], walSize) == Step(Run(v, ops, walSize), op, walSize)
    decreases |ops|
  {
    hide SetOk, Step, Legal;
    if ops == [] {
      assert [] + [op] == [op] && [op][1..] == [];
      if Legal(v, op, walSize) {
        StepRefines(v, op, walSize);
      }
    } else {
      assert (ops + [op])[1..] == ops[1..] + [op];
      if Legal(v, ops[0], walSize) {
        StepRefines(v, ops[0], walSize);
        RunSnoc(Step(v, ops[0], walSize), ops[1..], op, walSize);
        if LegalRun(v, ops, walSize) {
          RunRefines(v, ops, walSize);
        }
      }
    }
  }
}
