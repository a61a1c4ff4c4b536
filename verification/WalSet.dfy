/**
A set of WAL files as values (`WalFileSet` in hiqlite-wal/src/wal.rs): what each operation on the set
makes of the files, and that the files represent one contiguous log, a map from log id to payload.
*/
module WalSet {
  import opened Base
  import opened Records

  /** One file: number, header values in memory, current bytes, is it mapped writable, bytes known to be on disk. */
  datatype Seg = Seg(walNo: u64, h: Header, b: seq<byte>, mapped: bool, synced: seq<byte>)

  type Log = map<nat, seq<byte>>

  /** Highest id for which the writer's `id + 1` arithmetic stays inside a u64, also after a roll-over. */
  const MAX_ID := U64_MAX - 2

  const NO_DATA := Header(0, 0, None, None)

  function Zeros(n: nat): (z: seq<byte>)
    ensures |z| == n && forall i :: 0 <= i < n ==> z[i] == 0
  {
    seq(n, _ => 0)
  }

  /** `create_file`: a file of zeros with the header of an unused file. */
  function NewBytes(walSize: nat): (b: seq<byte>)
    requires OFFSET_LOGS <= walSize
    ensures |b| == walSize
  {
    HeaderBytes(NO_DATA) + Zeros(walSize - OFFSET_LOGS)
  }

  // ---- well-formed sets and the log they represent

  ghost predicate SegOk(s: Seg, walSize: nat) {
    && FileOk(s.h, s.b)
    && |s.b| == walSize
    && s.h.idUntil <= if s.h.dataStart.Some? then MAX_ID else MAX_ID + 1
  }

  lemma SegOrder(s: Seg, walSize: nat)
    requires SegOk(s, walSize)
    ensures s.h.dataStart.Some? == s.h.dataEnd.Some? && s.h.idFrom <= s.h.idUntil
    ensures s.h.dataStart.None? ==> s.h.idFrom == s.h.idUntil
    ensures s.h.dataStart != Some(0) && s.h.dataEnd != Some(0)
  {
    hide Chain, Payloads;
  }

  /** Entries of a file with data: their bounds, and where the next record goes. */
  lemma EndsAtStart(s: Seg, walSize: nat)
    requires SegOk(s, walSize) && s.h.dataStart.Some?
    ensures var ps := Entries(s.h, s.b);
      && ps != [] && s.h.idFrom + |ps| == s.h.idUntil + 1
      && s.h.dataEnd.Some? && Next(s.h.dataStart.value, ps) == Start(s.h) == s.h.dataEnd.value + 1
      && OFFSET_LOGS <= Start(s.h) <= |s.b|
  {
    hide Chain, Payloads;
  }

  /** `t` continues `s`: the next number, the next id; only the last file of a set may be empty. */
  predicate Joined(s: Seg, t: Seg) {
    s.h.dataStart.Some? && t.walNo == s.walNo + 1 && t.h.idFrom == s.h.idUntil + 1
  }

  predicate JoinedAt(v: seq<Seg>, i: nat)
    requires i < |v| - 1
  {
    Joined(v[i], v[i + 1])
  }

  ghost predicate ValidWalSize(walSize: nat) {
    MIN_WAL_SIZE <= walSize < U32_MAX
  }

  ghost predicate Linked(v: seq<Seg>, walSize: nat) {
    && (forall i :: 0 <= i < |v| ==> SegOk(v[i], walSize))
    && (forall i :: 0 <= i < |v| - 1 ==> JoinedAt(v, i))
  }

  ghost predicate SetOk(v: seq<Seg>, walSize: nat) {
    v != [] && ValidWalSize(walSize) && Linked(v, walSize)
  }

  lemma SetNonempty(v: seq<Seg>, walSize: nat)
    requires SetOk(v, walSize)
    ensures v != []
  {
  }

  function Flat(v: seq<Seg>): seq<seq<byte>> {
    if v == [] then [] else Entries(v[0].h, v[0].b) + Flat(v[1..])
  }

  function At(first: nat, es: seq<seq<byte>>, id: nat): seq<byte>
    requires first <= id < first + |es|
  {
    es[id - first]
  }

  function MapOf(first: nat, es: seq<seq<byte>>): Log {
    map id | first <= id < first + |es| :: At(first, es, id)
  }

  /** The log: ids count up from the first id of the first file. */
  function LogOf(v: seq<Seg>): Log
    requires v != []
  {
    MapOf(v[0].h.idFrom, Flat(v))
  }

  function Last<T>(v: seq<T>): T
    requires v != []
  {
    v[|v| - 1]
  }

  /** The id behind the last entry of a file. */
  function After(h: Header): nat {
    if h.dataStart.Some? then h.idUntil + 1 else h.idUntil
  }

  lemma EntriesLength(h: Header, b: seq<byte>)
    requires FileOk(h, b)
    ensures |Entries(h, b)| == After(h) - h.idFrom
  {
    hide Chain, Next, Payloads;
  }

  lemma {:induction false} FlatSplit(v: seq<Seg>, k: nat)
    requires k <= |v|
    ensures Flat(v) == Flat(v[..k]) + Flat(v[k..])
    decreases |v|
  {
    hide Entries;
    if k == 0 {
      assert v[..0] == [] && v[0..] == v;
    } else {
      FlatSplit(v[1..], k - 1);
      assert v[..k][1..] == v[1..][..k - 1] && v[1..][k - 1..] == v[k..];
    }
  }

  lemma {:induction false} FlatLength(v: seq<Seg>, walSize: nat)
    requires Linked(v, walSize) && v != []
    ensures |Flat(v)| == After(Last(v).h) - v[0].h.idFrom
    decreases |v|
  {
    hide Entries, FileOk;
    EntriesLength(v[0].h, v[0].b) by { assert SegOk(v[0], walSize); }
    if |v| > 1 {
      assert JoinedAt(v, 0);
      LinkedTail(v, walSize, 1);
      FlatLength(v[1..], walSize);
    }
  }

  lemma LinkedTail(v: seq<Seg>, walSize: nat, k: nat)
    requires Linked(v, walSize) && k <= |v|
    ensures Linked(v[k..], walSize) && Linked(v[..k], walSize)
  {
    hide SegOk;
    var s, t := v[..k], v[k..];
    forall i | 0 <= i < |s| - 1 ensures JoinedAt(s, i) {
      assert JoinedAt(v, i);
    }
    forall i | 0 <= i < |t| - 1 ensures JoinedAt(t, i) {
      assert JoinedAt(v, k + i);
    }
  }

  /** File numbers count up by one. */
  lemma {:induction false} NumbersAscend(v: seq<Seg>, walSize: nat)
    requires Linked(v, walSize)
    ensures forall i, j :: 0 <= i < j < |v| ==> v[j].walNo == v[i].walNo + (j - i)
    decreases |v|
  {
    hide SegOk;
    if |v| > 1 {
      LinkedTail(v, walSize, 1);
      NumbersAscend(v[1..], walSize);
      assert JoinedAt(v, 0);
      forall i, j | 0 <= i < j < |v| ensures v[j].walNo == v[i].walNo + (j - i) {
        assert v[j] == v[1..][j - 1];
        if i > 0 {
          assert v[i] == v[1..][i - 1];
        } else if j > 1 {
          assert v[1] == v[1..][0];
        }
      }
    }
  }

  lemma FlatSingle(s: Seg)
    ensures Flat([s]) == Entries(s.h, s.b)
  {
    hide Entries;
    assert Flat([s][1..]) == [];
  }

  /** Replacing the last file replaces its entries. */
  lemma FlatLast(v: seq<Seg>, s: Seg)
    requires v != []
    ensures Flat(v[..|v| - 1] + [s]) == Flat(v[..|v| - 1]) + Entries(s.h, s.b)
  {
    hide Entries, Flat;
    var w := v[..|v| - 1] + [s];
    FlatSplit(w, |v| - 1);
    assert w[..|v| - 1] == v[..|v| - 1] && w[|v| - 1..] == [s];
    FlatSingle(s);
  }

  // ---- the abstract log

  function DropBelow(log: Log, u: nat): Log {
    map id | id in log && u <= id :: log[id]
  }

  function DropFrom(log: Log, k: nat): Log {
    map id | id in log && id < k :: log[id]
  }

  function Clamp(x: int, n: nat): nat {
    if x < 0 then 0 else if x > n then n else x
  }

  lemma MapDropBelow(first: nat, es: seq<seq<byte>>, u: nat)
    ensures var c := Clamp(u - first, |es|);
      DropBelow(MapOf(first, es), u) == MapOf(first + c, es[c..])
  {
  }

  lemma MapDropFrom(first: nat, es: seq<seq<byte>>, k: nat)
    ensures DropFrom(MapOf(first, es), k) == MapOf(first, es[..Clamp(k - first, |es|)])
  {
  }

  // ---- operations of the writer

  function Fresh(walNo: u64, walSize: nat): Seg
    requires OFFSET_LOGS <= walSize
  {
    Seg(walNo, NO_DATA, NewBytes(walSize), true, Zeros(walSize))
  }

  /** Header bytes up to date and everything on disk. */
  function Flushed(s: Seg): (r: Seg)
    requires OFFSET_LOGS <= |s.b|
    ensures r == s.(b := r.b, synced := r.b) && |r.b| == |s.b|
  {
    var b := Splice(s.b, 0, HeaderBytes(s.h));
    s.(b := b, synced := b)
  }

  /** `roll_over`: seal the active file with a blocking flush and prepare the next one. */
  function RollOver(v: seq<Seg>, walSize: nat): (r: seq<Seg>)
    requires v != [] && OFFSET_LOGS <= walSize && OFFSET_LOGS <= |Last(v).b|
    requires Last(v).walNo < U64_MAX && Last(v).h.idUntil < U64_MAX
    ensures |r| == |v| + 1
  {
    var a := Last(v);
    var id := a.h.idUntil + 1;
    v[..|v| - 1] + [Flushed(a).(mapped := false),
                    Fresh(a.walNo + 1, walSize).(h := Header(id, id, None, None))]
  }

  lemma FlushedOk(s: Seg, walSize: nat)
    requires SegOk(s, walSize)
    ensures SegOk(Flushed(s), walSize)
    ensures Entries(Flushed(s).h, Flushed(s).b) == Entries(s.h, s.b)
  {
    hide HeaderBytes, Chain, Next, Payloads;
    if s.h.dataStart.Some? {
      var ps := Entries(s.h, s.b);
      ChainFrame(s.b, Flushed(s).b, s.h.dataStart.value, s.h.idFrom, ps);
      HoldsEntries(s.h, Flushed(s).b, ps);
    }
  }

  /** Sealing changes nothing about the log. */
  lemma RollOverKeepsLog(v: seq<Seg>, walSize: nat)
    requires SetOk(v, walSize) && Last(v).walNo < U64_MAX && Last(v).h.dataStart.Some?
    ensures SetOk(RollOver(v, walSize), walSize)
    ensures LogOf(RollOver(v, walSize)) == LogOf(v)
    ensures Last(RollOver(v, walSize)).mapped && Last(RollOver(v, walSize)).h.dataStart.None?
  {
    hide FileOk, Entries, Flat, Flushed, NewBytes;
    assert SegOk(Last(v), walSize);
    RollOverLinked(v, walSize);
    RollOverFlat(v, walSize);
  }

  lemma RollOverLinked(v: seq<Seg>, walSize: nat)
    requires SetOk(v, walSize) && Last(v).walNo < U64_MAX && Last(v).h.dataStart.Some?
    ensures SegOk(Last(v), walSize) && Linked(RollOver(v, walSize), walSize)
  {
    hide SegOk, Flushed, NewBytes, Fresh, Entries;
    var n := |v| - 1;
    assert SegOk(Last(v), walSize);
    LastIdBound(Last(v), walSize);
    var w := RollOver(v, walSize);
    FlushedOk(Last(v), walSize);
    UnmappedOk(Flushed(Last(v)), walSize);
    NewFileOk(Last(v).walNo + 1, Last(v).h.idUntil + 1, walSize);
    forall i | 0 <= i < |w| ensures SegOk(w[i], walSize) {
      if i < n {
        assert w[i] == v[i];
      }
    }
    forall i | 0 <= i < |w| - 1 ensures JoinedAt(w, i) {
      if i < n {
        assert JoinedAt(v, i);
      }
    }
  }

  lemma LastIdBound(s: Seg, walSize: nat)
    requires SegOk(s, walSize) && s.h.dataStart.Some?
    ensures s.h.idUntil <= MAX_ID && OFFSET_LOGS <= |s.b|
  {
    hide Holds;
  }

  lemma UnmappedOk(s: Seg, walSize: nat)
    requires SegOk(s, walSize)
    ensures SegOk(s.(mapped := false), walSize)
  {
    hide FileOk;
  }

  lemma NewFileOk(walNo: u64, id: u64, walSize: nat)
    requires ValidWalSize(walSize) && id <= MAX_ID + 1
    ensures var s := Fresh(walNo, walSize).(h := Header(id, id, None, None));
      SegOk(s, walSize) && s.walNo == walNo
  {
    hide NewBytes, Holds;
  }

  lemma RollOverFlat(v: seq<Seg>, walSize: nat)
    requires SetOk(v, walSize) && Last(v).walNo < U64_MAX && Last(v).h.dataStart.Some?
    ensures SegOk(Last(v), walSize) && Flat(RollOver(v, walSize)) == Flat(v)
  {
    hide HeaderBytes, FileOk, Payloads, Flat;
    var n, a := |v| - 1, Last(v);
    assert SegOk(a, walSize);
    var sealed := Flushed(a).(mapped := false);
    var w := RollOver(v, walSize);
    FlushedOk(a, walSize);
    FlatLast(v, sealed);
    FlatLast(v, a);
    assert v[..n] + [a] == v;
    assert w == (v[..n] + [sealed]) + [Last(w)];
    FlatSplit(w, n + 1);
    assert w[..n + 1] == v[..n] + [sealed] && w[n + 1..] == [Last(w)];
    FlatSingle(Last(w));
    assert Entries(Last(w).h, Last(w).b) == [];
  }

  /** May `id` be appended next? A set without any entry may start with a later id (after a snapshot). */
  predicate IsNext(v: seq<Seg>, id: nat)
    requires v != []
  {
    if Last(v).h.dataStart.None? && |v| == 1 then After(Last(v).h) <= id else id == After(Last(v).h)
  }

  /** One entry of an append batch: roll over when the active file is full, then append. */
  function AppendTo(v: seq<Seg>, id: u64, p: seq<byte>, walSize: nat): (r: seq<Seg>)
    requires SetOk(v, walSize) && Last(v).walNo < U64_MAX && |p| <= walSize - 50
    requires HasSpace(Last(v).h, |Last(v).b|, |p|) || Last(v).h.dataStart.Some?
    ensures |v| <= |r|
  {
    var w := if HasSpace(Last(v).h, |Last(v).b|, |p|) then v else RollOver(v, walSize);
    assert SegOk(Last(v), walSize);
    var img := Appended(Last(w).h, Last(w).b, id, p);
    w[..|w| - 1] + [Last(w).(h := img.h, b := img.b)]
  }

  /**
  Of the payloads the writer's guard lets through (up to `wal_size - 34` bytes) a fresh file has space
  for those of up to `wal_size - 50`, and can take those of up to `wal_size - 48`.
  */
  lemma PayloadBounds(h: Header, walSize: nat, len: nat)
    requires h.dataStart.None? && h.dataEnd.None? && 50 <= walSize
    ensures HasSpace(h, walSize, len) <==> len <= walSize - 50
    ensures Start(h) + HEAD + len <= walSize <==> len <= walSize - 48
  {
  }

  /**
  An append rolls over exactly when the record, behind the gap byte, would not end before the last byte
  of the file. Then the active file is sealed and the next number is used; all other files stay.
  */
  lemma RollsOverExact(v: seq<Seg>, id: u64, p: seq<byte>, walSize: nat)
    requires SetOk(v, walSize) && Last(v).walNo < U64_MAX && 0 < |p| <= walSize - 50
    requires HasSpace(Last(v).h, |Last(v).b|, |p|) || Last(v).h.dataStart.Some?
    ensures var w, h := AppendTo(v, id, p, walSize), Last(v).h;
      && (|w| == |v| <==> (if h.dataEnd.Some? then h.dataEnd.value else 32) + 1 + 16 + |p| < walSize)
      && (|w| == |v| || |w| == |v| + 1)
      && w[..|v| - 1] == v[..|v| - 1] && Last(w).walNo == Last(v).walNo + (|w| - |v|)
      && (|w| == |v| + 1 ==> w[|v| - 1] == Flushed(Last(v)).(mapped := false))
  {
    hide HeaderBytes, RecordBytes, FileOk, Flushed, NewBytes;
    assert SegOk(Last(v), walSize);
  }

  /** Appending adds one entry at the end, over a roll-over or not. */
  lemma AppendExtendsLog(v: seq<Seg>, id: u64, p: seq<byte>, walSize: nat)
    requires SetOk(v, walSize) && Last(v).walNo < U64_MAX
    requires IsNext(v, id) && id <= MAX_ID && 0 < |p| <= walSize - 50
    ensures HasSpace(Last(v).h, |Last(v).b|, |p|) || Last(v).h.dataStart.Some?
    ensures SetOk(AppendTo(v, id, p, walSize), walSize)
    ensures LogOf(AppendTo(v, id, p, walSize)) == LogOf(v)[id := p]
    ensures Last(AppendTo(v, id, p, walSize)).h.dataStart.Some?
    ensures Last(AppendTo(v, id, p, walSize)).h.idUntil == id
  {
    hide HeaderBytes, RecordBytes, Chain, Next, Payloads, Flat, FileOk, RollOver, LogOf;
    assert SegOk(Last(v), walSize);
    assert HasSpace(Last(v).h, |Last(v).b|, |p|) || Last(v).h.dataStart.Some? by {
      hide *;
      FreshOrData(Last(v), walSize, |p|);
    }
    if HasSpace(Last(v).h, |Last(v).b|, |p|) {
      AppendToLast(v, id, p, walSize);
    } else {
      RollOverKeepsLog(v, walSize);
      RolledOverNext(v, walSize);
      AppendToLast(RollOver(v, walSize), id, p, walSize);
    }
  }

  lemma FreshOrData(s: Seg, walSize: nat, len: nat)
    requires SegOk(s, walSize) && ValidWalSize(walSize) && len <= walSize - 50
    ensures HasSpace(s.h, |s.b|, len) || s.h.dataStart.Some?
  {
    hide Holds;
  }

  lemma RolledOverNext(v: seq<Seg>, walSize: nat)
    requires v != [] && OFFSET_LOGS <= walSize && OFFSET_LOGS <= |Last(v).b|
    requires Last(v).walNo < U64_MAX && Last(v).h.idUntil < U64_MAX && Last(v).h.dataStart.Some?
    ensures RollOver(v, walSize) != []
    ensures After(Last(RollOver(v, walSize)).h) == After(Last(v).h)
    ensures Last(RollOver(v, walSize)).h.dataEnd.None?
    ensures |Last(RollOver(v, walSize)).b| == walSize
  {
  }

  function WithLast(v: seq<Seg>, s: Seg): seq<Seg>
    requires v != []
  {
    v[..|v| - 1] + [s]
  }

  lemma AppendToLast(v: seq<Seg>, id: u64, p: seq<byte>, walSize: nat)
    requires SetOk(v, walSize) && IsNext(v, id) && id <= MAX_ID
    requires 0 < |p| && HasSpace(Last(v).h, |Last(v).b|, |p|)
    ensures SegOk(Last(v), walSize) && Start(Last(v).h) + HEAD + |p| < |Last(v).b|
    ensures var img := Appended(Last(v).h, Last(v).b, id, p);
      var w := WithLast(v, Last(v).(h := img.h, b := img.b));
      SetOk(w, walSize) && LogOf(w) == LogOf(v)[id := p]
  {
    hide HeaderBytes, RecordBytes, Chain, Next, Payloads, Flat, Appended;
    var a := Last(v);
    assert SegOk(a, walSize);
    AppendedHolds(a.h, a.b, id, p);
    var img := Appended(a.h, a.b, id, p);
    AppendedFields(a.h, a.b, id, p);
    var s := a.(h := img.h, b := img.b);
    var w := WithLast(v, s);
    FlatLast(v, s);
    FlatLast(v, a);
    assert WithLast(v, a) == v;
    assert Flat(w) == Flat(v) + [p];
    FlatLength(v, walSize);
    if |v| > 1 {
      assert JoinedAt(v, |v| - 2);
    }
    assert Linked(w, walSize) by {
      forall i | 0 <= i < |w| - 1 ensures JoinedAt(w, i) {
        assert JoinedAt(v, i);
      }
    }
    MapSnoc(v[0].h.idFrom, w[0].h.idFrom, Flat(v), p, id);
  }

  lemma AppendedFields(h: Header, b: seq<byte>, id: u64, p: seq<byte>)
    requires OFFSET_LOGS <= |b| <= U32_MAX && Start(h) + HEAD + |p| <= |b|
    ensures var img := Appended(h, b, id, p);
      && img.h.dataStart.Some? && img.h.idUntil == id && |img.b| == |b|
      && img.h.idFrom == if h.dataStart.None? then id else h.idFrom
  {
  }

  lemma MapSnoc(f: nat, f': nat, es: seq<seq<byte>>, p: seq<byte>, id: nat)
    requires es != [] ==> f == f' && id == f + |es|
    requires es == [] ==> f' == id
    ensures MapOf(f', es + [p]) == MapOf(f, es)[id := p]
  {
  }
}
