/**
Durability: which entries are on disk for certain. `synced` is the content a blocking flush has made
durable; sealing a file flushes it, so only the active file can hold entries that are not.
*/
module WalDurability {
  import opened Base
  import opened Records
  import opened WalSet
  import opened WalRemove
  import opened WalRuns

  /** The durable bytes alone, header included, give back every live entry of the file. */
  ghost predicate Covered(s: Seg) {
    s.h.dataStart.None? || (
      var d := ParseHeader(s.synced);
      && d.Ok?
      && d.value.dataStart.Some?
      && FileOk(d.value, s.synced)
      && d.value.idFrom <= s.h.idFrom <= s.h.idUntil <= d.value.idUntil
      && |Entries(d.value, s.synced)| == Count(d.value)
      && Entries(s.h, s.b)
      == Entries(d.value, s.synced)[s.h.idFrom - d.value.idFrom..s.h.idUntil + 1 - d.value.idFrom])
  }

  lemma FlushedCovered(s: Seg, walSize: nat)
    requires SegOk(s, walSize)
    ensures Covered(Flushed(s))
  {
    hide FileOk, Entries, HeaderBytes, ParseHeader;
    FlushedOk(s, walSize);
    var t := Flushed(s);
    if s.h.dataStart.Some? {
      SegOrder(s, walSize);
      assert t.synced[..OFFSET_LOGS] == HeaderBytes(s.h);
      HeaderRoundTrip(s.h, t.synced);
      EntriesLength(t.h, t.b);
      assert Entries(t.h, t.b)[0..Count(t.h)] == Entries(t.h, t.b);
    }
  }

  /** Entries that are cut away do not have to be durable any more. */
  lemma NarrowedCovered(s: Seg, t: Seg, walSize: nat)
    requires SegOk(s, walSize) && SegOk(t, walSize) && Covered(s)
    requires t.synced == s.synced
    requires t.h.dataStart.Some? ==>
      && s.h.dataStart.Some? && s.h.idFrom <= t.h.idFrom && t.h.idUntil <= s.h.idUntil
      && Entries(t.h, t.b) == Entries(s.h, s.b)[t.h.idFrom - s.h.idFrom..][..t.h.idUntil + 1 - t.h.idFrom]
    ensures Covered(t)
  {
    hide FileOk, Entries, ParseHeader;
    if t.h.dataStart.Some? {
      SegOrder(t, walSize);
      var d := ParseHeader(s.synced).value;
      var es, n, i := Entries(d, s.synced), s.h.idUntil + 1 - s.h.idFrom, t.h.idFrom - s.h.idFrom;
      var e := es[s.h.idFrom - d.idFrom..s.h.idFrom - d.idFrom + n];
      assert e[i..][..t.h.idUntil + 1 - t.h.idFrom] == e[i..t.h.idUntil + 1 - s.h.idFrom];
      Subslice(es, s.h.idFrom - d.idFrom, n, i, t.h.idUntil + 1 - s.h.idFrom);
    }
  }

  lemma CutFrontCovered(s: Seg, u: u64, walSize: nat)
    requires SegOk(s, walSize) && ValidWalSize(walSize) && Covered(s)
    requires s.h.dataStart.Some? ==> u <= s.h.idUntil
    ensures s.h.dataStart.Some? == s.h.dataEnd.Some? && CutFront(s, u).Ok?
    ensures SegOk(CutFront(s, u).value, walSize) && Covered(CutFront(s, u).value)
  {
    hide FileOk, Entries, Covered, CutFront;
    SegOrder(s, walSize);
    CutFrontOk(s, u, walSize);
    var t := CutFront(s, u).value;
    EntriesLength(s.h, s.b);
    EntriesLength(t.h, t.b);
    var e := Entries(s.h, s.b)[t.h.idFrom - s.h.idFrom..];
    assert t.h.dataStart.Some? ==> e[..t.h.idUntil + 1 - t.h.idFrom] == e;
    NarrowedCovered(s, t, walSize);
  }

  lemma CutBackCovered(s: Seg, k: u64, walSize: nat)
    requires SegOk(s, walSize) && ValidWalSize(walSize) && Covered(s) && s.h.idFrom <= k
    ensures s.h.dataStart.Some? == s.h.dataEnd.Some? && CutBack(s, k).Ok?
    ensures SegOk(CutBack(s, k).value, walSize) && Covered(CutBack(s, k).value)
  {
    hide FileOk, Entries, Covered;
    SegOrder(s, walSize);
    CutBackOk(s, k, walSize);
    EntriesLength(s.h, s.b);
    var t := CutBack(s, k).value;
    EntriesLength(t.h, t.b);
    assert Entries(s.h, s.b)[0..] == Entries(s.h, s.b);
    NarrowedCovered(s, t, walSize);
  }

  /** All files but the active one are durable, and without `is_dirty` that one is, too. */
  ghost predicate Durable(v: seq<Seg>, dirty: bool)
    requires v != []
  {
    && (forall i :: 0 <= i < |v| - 1 ==> Covered(v[i]))
    && (dirty || Covered(Last(v)))
  }

  /** `is_dirty` after a step: set by an append, cleared by a blocking flush. */
  function DirtyAfter(op: Op, dirty: bool): bool {
    match op
    case Append(_, _) => true
    case Flush => false
    case _ => dirty
  }

  lemma RollOverDurable(v: seq<Seg>, walSize: nat, dirty: bool)
    requires SetOk(v, walSize) && Last(v).walNo < U64_MAX && Last(v).h.dataStart.Some?
    requires Durable(v, dirty)
    ensures SegOk(Last(v), walSize) && Durable(RollOver(v, walSize), false)
  {
    hide FileOk, Entries, Covered, HeaderBytes, NewBytes;
    var a := Last(v);
    assert SegOk(a, walSize);
    FlushedCovered(a, walSize);
    var w := RollOver(v, walSize);
    UnmappedCovered(Flushed(a));
    EmptyCovered(Last(w));
  }

  lemma UnmappedCovered(s: Seg)
    requires Covered(s)
    ensures Covered(s.(mapped := false))
  {
    hide FileOk, Entries;
  }

  lemma EmptyCovered(s: Seg)
    requires s.h.dataStart.None?
    ensures Covered(s)
  {
  }

  lemma PurgeDurable(v: seq<Seg>, u: u64, walSize: nat, dirty: bool)
    requires SetOk(v, walSize) && Durable(v, dirty)
    ensures DataPaired(v) && Purge(v, u, walSize) != [] && Durable(Purge(v, u, walSize), dirty)
  {
    hide FileOk, Entries, Covered, CutFront, FrontCount, Purge, NewBytes;
    PurgeShape(v, u, walSize);
    var k := FrontCount(v, u);
    if k == |v| {
      EmptyCovered(Fresh(1, walSize));
    } else {
      assert SegOk(v[k], walSize);
      var w := Purge(v, u, walSize);
      assert |w| == |v| - k && forall i :: 1 <= i < |w| ==> w[i] == v[k + i];
      assert w[0] == CutFront(v[k], u).value;
      if Covered(v[k]) {
        CutFrontCovered(v[k], u, walSize);
      }
    }
  }

  lemma TruncateDurable(v: seq<Seg>, k: u64, walSize: nat, dirty: bool)
    requires SetOk(v, walSize) && Durable(v, dirty)
    ensures DataPaired(v) && Truncate(v, k, walSize) != [] && Durable(Truncate(v, k, walSize), dirty)
  {
    hide FileOk, Entries, Covered, CutBack, BackCount, Truncate, NewBytes;
    TruncateShape(v, k, walSize);
    if k <= v[0].h.idFrom {
      EmptyCovered(Fresh(1, walSize));
    } else {
      var n := BackCount(v, k);
      assert SegOk(v[n - 1], walSize);
      var w := Truncate(v, k, walSize);
      assert |w| == n && forall i :: 0 <= i < n - 1 ==> w[i] == v[i];
      assert Last(w) == CutBack(v[n - 1], k).value;
      if Covered(v[n - 1]) {
        CutBackCovered(v[n - 1], k, walSize);
      }
    }
  }

  lemma AppendDurable(v: seq<Seg>, id: u64, p: seq<byte>, walSize: nat, dirty: bool)
    requires SetOk(v, walSize) && Legal(v, Append(id, p), walSize) && Durable(v, dirty)
    ensures HasSpace(Last(v).h, |Last(v).b|, |p|) || Last(v).h.dataStart.Some?
    ensures Durable(AppendTo(v, id, p, walSize), true)
  {
    hide FileOk, Entries, Covered, HeaderBytes, Appended, RollOver;
    AppendExtendsLog(v, id, p, walSize);
    assert SegOk(Last(v), walSize);
    var r := AppendTo(v, id, p, walSize);
    if HasSpace(Last(v).h, |Last(v).b|, |p|) {
      assert forall i :: 0 <= i < |r| - 1 ==> r[i] == v[i];
    } else {
      RollOverDurable(v, walSize, dirty);
      assert forall i :: 0 <= i < |r| - 1 ==> r[i] == RollOver(v, walSize)[i];
    }
  }

  /** Every step keeps the discipline: what is not flagged dirty is durable. */
  lemma StepDurable(v: seq<Seg>, op: Op, walSize: nat, dirty: bool)
    requires SetOk(v, walSize) && Legal(v, op, walSize) && Durable(v, dirty)
    ensures Step(v, op, walSize) != [] && Durable(Step(v, op, walSize), DirtyAfter(op, dirty))
  {
    hide SetOk, Durable, AppendTo, RollOver, Purge, Truncate, IsNext, Flushed;
    SetNonempty(v, walSize);
    match op
    case Append(id, p) => AppendDurable(v, id, p, walSize, dirty);
    case Seal =>
      RollOverDurable(v, walSize, dirty);
      DurableWeaken(RollOver(v, walSize), false);
    case PurgeTo(u) => PurgeDurable(v, u, walSize, dirty);
    case TruncateAt(k) => TruncateDurable(v, k, walSize, dirty);
    case Flush => FlushDurable(v, walSize, dirty);
  }

  lemma DurableWeaken(v: seq<Seg>, dirty: bool)
    requires v != [] && Durable(v, dirty)
    ensures Durable(v, true)
  {
  }

  lemma FlushDurable(v: seq<Seg>, walSize: nat, dirty: bool)
    requires SetOk(v, walSize) && Durable(v, dirty)
    ensures SegOk(Last(v), walSize) && Durable(WithLast(v, Flushed(Last(v))), false)
  {
    hide FileOk, Entries, Covered, HeaderBytes;
    assert SegOk(Last(v), walSize);
    FlushedCovered(Last(v), walSize);
  }

  function DirtyRun(ops: seq<Op>, dirty: bool): bool
    decreases |ops|
  {
    if ops == [] then dirty else DirtyRun(ops[1..], DirtyAfter(ops[0], dirty))
  }

  /** Over every run: when `is_dirty` is false, every live entry can be read back from durable bytes. */
  lemma {:induction false} RunDurable(v: seq<Seg>, ops: seq<Op>, walSize: nat, dirty: bool)
    requires SetOk(v, walSize) && LegalRun(v, ops, walSize) && Durable(v, dirty)
    ensures Run(v, ops, walSize) != [] && Durable(Run(v, ops, walSize), DirtyRun(ops, dirty))
    decreases |ops|
  {
    hide SetOk, Durable, Step, Legal, DirtyAfter;
    if ops == [] {
      SetNonempty(v, walSize);
    } else {
      StepRefines(v, ops[0], walSize);
      StepDurable(v, ops[0], walSize, dirty);
      RunDurable(Step(v, ops[0], walSize), ops[1..], walSize, DirtyAfter(ops[0], dirty));
    }
  }

}
