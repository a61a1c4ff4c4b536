/**
Copies of the file set without the writer's maps: the copy shared under a lock (`wal_locked`), and the
local copy each reader keeps and refreshes lazily (`WalFileSet::clone_files_from_no_mmap`).
*/
module Publication {
  import opened Base
  import opened Records
  import opened WalSet
  import opened WalRemove
  import opened WalRuns

  datatype Meta = Meta(walNo: u64, h: Header)

  /** A file of a copy. Only readers map files, and only for reading; `M` is the type of such a map. */
  datatype LocalFile<M> = LocalFile(meta: Meta, mmap: Option<M>)

  function MetasOf(v: seq<Seg>): (r: seq<Meta>)
    ensures |r| == |v| && forall i :: 0 <= i < |v| ==> r[i] == Meta(v[i].walNo, v[i].h)
  {
    seq(|v|, i requires 0 <= i < |v| => Meta(v[i].walNo, v[i].h))
  }

  function LocalMetas<M>(fs: seq<LocalFile<M>>): (r: seq<Meta>)
    ensures |r| == |fs| && forall i :: 0 <= i < |fs| ==> r[i] == fs[i].meta
  {
    seq(|fs|, i requires 0 <= i < |fs| => fs[i].meta)
  }

  predicate HasNumber(other: seq<Meta>, walNo: u64) {
    exists i :: 0 <= i < |other| && other[i].walNo == walNo
  }

  /** The files that still exist elsewhere. */
  function Retained<M>(fs: seq<LocalFile<M>>, other: seq<Meta>): seq<LocalFile<M>> {
    if fs == [] then []
    else if HasNumber(other, fs[0].meta.walNo) then [fs[0]] + Retained(fs[1..], other)
    else Retained(fs[1..], other)
  }

  /** Retained files take over the header values found at the same position; files behind them are added. */
  function Refreshed<M>(fs: seq<LocalFile<M>>, other: seq<Meta>): (r: seq<LocalFile<M>>)
    requires |Retained(fs, other)| <= |other|
    ensures |r| == |other|
  {
    var kept := Retained(fs, other);
    seq(|other|, i requires 0 <= i < |other| =>
      if i < |kept| then kept[i].(meta := kept[i].meta.(h := other[i].h)) else LocalFile(other[i], None))
  }

  /** Numbers `first`, `first + 1`, ... */
  predicate NumberedFrom(ms: seq<Meta>, first: int) {
    forall i :: 0 <= i < |ms| ==> ms[i].walNo == first + i
  }

  lemma HasNumberRange(other: seq<Meta>, c: int, n: u64)
    requires NumberedFrom(other, c)
    ensures HasNumber(other, n) <==> c <= n < c + |other|
  {
    if c <= n < c + |other| {
      assert other[n - c].walNo == n;
    }
  }

  /** On consecutive numbers, retaining is slicing. */
  lemma {:induction false} RetainedIsSlice<M>(fs: seq<LocalFile<M>>, other: seq<Meta>, a: int, c: int)
    requires NumberedFrom(LocalMetas(fs), a) && NumberedFrom(other, c)
    ensures var lo := Clamp(c - a, |fs|);
      Retained(fs, other) == fs[lo..Max(lo, Clamp(c + |other| - a, |fs|))]
    decreases |fs|
  {
    if fs != [] {
      var t := fs[1..];
      assert LocalMetas(fs)[0].walNo == a;
      forall i | 0 <= i < |t| ensures LocalMetas(t)[i].walNo == a + 1 + i {
        assert LocalMetas(fs)[i + 1].walNo == a + (i + 1);
      }
      HasNumberRange(other, c, fs[0].meta.walNo);
      RetainedIsSlice(t, other, a + 1, c);
    }
  }

  /** The refresh goes wrong exactly in this case: the numbering restarted below and ran up to `a` again. */
  predicate Overtaken(fs: int, a: int, c: int, other: int) {
    0 < fs && c < a < c + other
  }

  /** A refresh reproduces the other copy if and only if the local one was not overtaken. */
  lemma {:induction false} RefreshExact<M>(fs: seq<LocalFile<M>>, other: seq<Meta>, a: int, c: int)
    requires NumberedFrom(LocalMetas(fs), a) && NumberedFrom(other, c)
    ensures |Retained(fs, other)| <= |other|
    ensures LocalMetas(Refreshed(fs, other)) == other <==> !Overtaken(|fs|, a, c, |other|)
  {
    RetainedIsSlice(fs, other, a, c);
    var lo, kept := Clamp(c - a, |fs|), Retained(fs, other);
    var got := LocalMetas(Refreshed(fs, other));
    if Overtaken(|fs|, a, c, |other|) {
      assert kept[0].meta == LocalMetas(fs)[0];
      assert got[0].walNo == a && other[0].walNo == c;
    } else {
      forall i | 0 <= i < |other| ensures got[i] == other[i] {
        if i < |kept| {
          assert kept[i].meta == LocalMetas(fs)[lo + i];
        }
      }
    }
  }

  /** A file that is still there keeps its map, a new one has none. */
  lemma {:induction false} RefreshKeepsMaps<M>(fs: seq<LocalFile<M>>, other: seq<Meta>, a: int, c: int, i: nat)
    requires NumberedFrom(LocalMetas(fs), a) && NumberedFrom(other, c) && i < |other|
    requires !Overtaken(|fs|, a, c, |other|)
    ensures |Retained(fs, other)| <= |other|
    ensures Refreshed(fs, other)[i].mmap == if a <= c + i < a + |fs| then fs[c + i - a].mmap else None
  {
    RefreshExact(fs, other, a, c);
    RetainedIsSlice(fs, other, a, c);
  }

  // ---- the shared copy

  class SharedSet<M> {
    var active: Option<nat>
    var files: seq<LocalFile<M>>

    constructor (active: Option<nat>, metas: seq<Meta>)
      ensures this.active == active && LocalMetas(files) == metas
      ensures forall i :: 0 <= i < |files| ==> files[i].mmap == None
    {
      this.active := active;
      files := seq(|metas|, i requires 0 <= i < |metas| => LocalFile(metas[i], None));
    }

    /** `clone_files_from_no_mmap` */
    method CloneFilesFrom(other: seq<Meta>)
      requires |Retained(files, other)| <= |other|
      modifies this`files
      ensures files == Refreshed(old(files), other)
    {
      var kept := RetainFrom(other);
      ghost var want := Refreshed(files, other);
      var n := |kept|;
      for i := 0 to n
        invariant |kept| == n && kept[..i] == want[..i] && kept[i..] == Retained(files, other)[i..]
      {
        kept := kept[i := kept[i].(meta := kept[i].meta.(h := other[i].h))];
      }
      for i := n to |other|
        invariant kept == want[..i]
      {
        kept := kept + [LocalFile(other[i], None)];
      }
      files := kept;
    }

    method RetainFrom(other: seq<Meta>) returns (kept: seq<LocalFile<M>>)
      ensures kept == Retained(files, other)
    {
      kept := [];
      for i := 0 to |files|
        invariant kept + Retained(files[i..], other) == Retained(files, other)
      {
        assert files[i..][1..] == files[i + 1..];
        if exists k :: 0 <= k < |other| && other[k].walNo == files[i].meta.walNo {
          kept := kept + [files[i]];
        }
      }
    }

    /** Publishing one file: the active one. */
    method CloneActiveFrom(meta: Meta)
      requires active.Some? && active.value < |files| && files[active.value].meta.walNo == meta.walNo
      modifies this`files
      ensures files == old(files)[active.value := old(files)[active.value].(meta := meta)]
    {
      var a := active.value;
      files := files[a := files[a].(meta := files[a].meta.(h := meta.h))];
    }
  }

  // ---- publication follows every writer step

  lemma SetNumbered(v: seq<Seg>, walSize: nat)
    requires Linked(v, walSize) && v != []
    ensures NumberedFrom(MetasOf(v), v[0].walNo)
  {
    hide SegOk;
    NumbersAscend(v, walSize);
  }

  lemma PurgeNumber(v: seq<Seg>, u: u64, walSize: nat)
    requires SetOk(v, walSize)
    ensures DataPaired(v)
    ensures var w := Purge(v, u, walSize);
      w != [] && (v[0].walNo <= w[0].walNo || |w| == 1)
  {
    hide FileOk, CutFront, FrontCount, Purge;
    PurgeShape(v, u, walSize);
    var k := FrontCount(v, u);
    if k < |v| {
      SetNumbered(v, walSize);
      assert SegOk(v[k], walSize);
      CutFrontOk(v[k], u, walSize);
      assert MetasOf(v)[k].walNo == v[0].walNo + k;
    }
  }

  lemma TruncateNumber(v: seq<Seg>, k: u64, walSize: nat)
    requires SetOk(v, walSize)
    ensures DataPaired(v)
    ensures var w := Truncate(v, k, walSize);
      w != [] && (v[0].walNo <= w[0].walNo || |w| == 1)
  {
    hide FileOk, CutBack, BackCount, Truncate;
    TruncateShape(v, k, walSize);
    if v[0].h.idFrom < k {
      var n := BackCount(v, k);
      assert SegOk(v[n - 1], walSize);
      CutBackOk(v[n - 1], k, walSize);
    }
  }

  /** No single step restarts the numbering and runs up to an old number at once. */
  lemma FirstNumber(v: seq<Seg>, op: Op, walSize: nat)
    requires SetOk(v, walSize) && Legal(v, op, walSize)
    ensures var w := Step(v, op, walSize);
      w != [] && (v[0].walNo <= w[0].walNo || |w| == 1)
  {
    hide FileOk, Purge, Truncate, Appended, Flushed, Linked;
    StepRefines(v, op, walSize);
    match op
    case PurgeTo(u) => PurgeNumber(v, u, walSize);
    case TruncateAt(k) => TruncateNumber(v, k, walSize);
    case _ =>
  }

  /** Publishing after every step keeps the shared copy equal to the writer's set. */
  lemma StepPublishes<M>(v: seq<Seg>, op: Op, walSize: nat, fs: seq<LocalFile<M>>)
    requires SetOk(v, walSize) && Legal(v, op, walSize) && LocalMetas(fs) == MetasOf(v)
    ensures var w := Step(v, op, walSize);
      && |Retained(fs, MetasOf(w))| <= |w|
      && LocalMetas(Refreshed(fs, MetasOf(w))) == MetasOf(w)
  {
    hide SegOk, Refreshed, Retained, Step, Legal;
    var w := Step(v, op, walSize);
    StepRefines(v, op, walSize);
    SetNumbered(v, walSize);
    SetNumbered(w, walSize);
    FirstNumber(v, op, walSize);
    RefreshExact(fs, MetasOf(w), v[0].walNo, w[0].walNo);
  }
}
