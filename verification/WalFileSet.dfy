/**
The set of WAL files of one log (`WalFileSet` in hiqlite-wal/src/wal.rs). Every method is tied to the
function on values that specifies it (modules `WalSet` and `WalRemove`).
*/
module WalFileSets {
  import opened Base
  import opened Records
  import opened Scan
  import opened WalFiles
  import opened WalSet
  import opened WalRemove

  /** `create_file`: `wal_size` null bytes, then the header of an unused file. */
  method CreateFile(walSize: u32) returns (content: array<byte>)
    requires OFFSET_LOGS <= walSize
    ensures fresh(content) && content.Length == walSize && content[..] == NewBytes(walSize)
  {
    hide HeaderBytes;
    content := new byte[walSize](_ => 0);
    WriteAt(content, 0, HeaderBytes(NO_DATA));
  }

  /** Object `f`, whose path leads to the content `c`, stands for the value `s`. */
  ghost predicate FileIs(f: WalFile, c: array<byte>, s: Seg)
    reads f, c
  {
    && f.walNo == s.walNo && f.H() == s.h
    && c[..] == s.b && f.lenMax == c.Length
    && f.mmapMut == (if s.mapped then c else null) && f.mmap == null
  }

  /** A new file on disk, mapped for writing; `id` is the number its first entry will have. */
  method NewFile(walNo: u64, id: u64, walSize: u32) returns (f: WalFile, content: array<byte>)
    requires OFFSET_LOGS <= walSize
    ensures fresh(f) && fresh(content)
    ensures FileIs(f, content, Fresh(walNo, walSize).(h := Header(id, id, None, None)))
  {
    hide NewBytes;
    content := CreateFile(walSize);
    f := new WalFile(walNo, NO_DATA, walSize);
    f.mmapMut, f.idFrom, f.idUntil := content, id, id;
  }

  function SpaceLeft(s: Seg): nat {
    Max(0, |s.b| - OrZero(if s.h.dataEnd.None? then Some(OFFSET_LOGS) else s.h.dataEnd))
  }

  /** Appending to one file that is mapped and has space. */
  method AppendOne(f: WalFile, content: array<byte>, id: u64, data: seq<byte>, ghost s: Seg)
    requires FileIs(f, content, s) && s.mapped && s.h.dataStart.Some? == s.h.dataEnd.Some?
    requires OFFSET_LOGS <= |s.b| && Start(s.h) + HEAD + |data| <= |s.b| && |s.b| < U32_MAX
    modifies f, content
    ensures var img := Appended(s.h, s.b, id, data);
      FileIs(f, content, s.(h := img.h, b := img.b))
  {
    hide Appended, AppendWrites;
    var ok, _ := f.AppendLog(id, data);
  }

  /** Cutting one file at the back, where necessary mapping it for the read. */
  method CutBackOne(f: WalFile, content: array<byte>, from: u64, ghost s: Seg, ghost t: Seg, ghost walSize: nat)
    requires FileIs(f, content, s) && CutBackTo(s, from, t, walSize) && walSize < U32_MAX
    modifies f
    ensures FileIs(f, content, t)
  {
    hide Scan.ReadLogs;
    if f.idFrom == from {
      f.idUntil := from;
      f.dataStart := None;
      f.dataEnd := None;
    } else if f.idUntil >= from {
      if f.mmapMut == null {
        f.mmapMut := content;
      }
      var res := f.ReadLogs(from, from, None);
      f.idUntil := from - 1;
      f.dataEnd := Some(res.value.offset - 1);
    }
  }

  /** What cutting at the back reads and changes. */
  ghost predicate CutBackTo(s: Seg, from: u64, t: Seg, walSize: nat) {
    && s.h.dataStart.Some? == s.h.dataEnd.Some? && |s.b| == walSize
    && if s.h.idFrom == from then t == s.(h := s.h.(idUntil := from, dataStart := None, dataEnd := None))
       else if from <= s.h.idUntil then
         && s.h.dataStart.Some?
         && var r := Scan.ReadLogs(s.walNo, s.h, s.b, from, from, None);
         && r.Ok? && 0 < from && 0 < r.value.offset <= U32_MAX
         && t == s.(h := s.h.(idUntil := from - 1, dataEnd := Some(r.value.offset - 1)), mapped := true)
       else t == s
  }

  /** The sets that remain while `k` files are deleted from the front, one by one. */
  ghost function Suffixes(v: seq<Seg>, k: nat): (r: seq<seq<Seg>>)
    requires k <= |v|
    ensures |r| == k + 1 && forall j :: 0 <= j <= k ==> r[j] == v[j..]
  {
    seq(k + 1, j requires 0 <= j <= k => v[j..])
  }

  ghost predicate Distinct<T>(s: seq<T>) {
    forall i, j :: 0 <= i < j < |s| ==> s[i] != s[j]
  }

  lemma DistinctEnds<T>(s: seq<T>)
    requires Distinct(s) && s != []
    ensures forall i :: 0 <= i < |s| - 1 ==> s[i] != Last(s)
    ensures forall i :: 1 <= i < |s| ==> s[i] != s[0]
  {
  }

  lemma DistinctSnoc<T>(s: seq<T>, x: T)
    requires Distinct(s) && x !in s
    ensures Distinct(s + [x])
  {
  }

  class WalFileSet {
    const walSize: u32
    var files: seq<WalFile>
    var active: Option<nat>
    /** The directory: what the path of each file leads to. */
    var contents: seq<array<byte>>
    /** The files as values, together with what is known to be on disk. */
    ghost var view: seq<Seg>
    ghost var Repr: set<object>

    ghost predicate Shape()
      reads this
    {
      && |files| == |contents| == |view|
      && Distinct(files) && Distinct(contents)
      && this in Repr
      && (forall i :: 0 <= i < |files| ==> files[i] in Repr && contents[i] in Repr)
    }

    ghost predicate Valid()
      reads this, files, contents
    {
      && Shape()
      && (forall i :: 0 <= i < |files| ==> FileIs(files[i], contents[i], view[i]))
      && ValidWalSize(walSize)
      && Linked(view, walSize)
    }

    /** At least one file, the last one active. */
    ghost predicate Ready()
      reads this, files, contents
    {
      Valid() && files != [] && active == Some(|files| - 1)
    }

    constructor (walSize: u32)
      requires ValidWalSize(walSize)
      ensures Valid() && this.walSize == walSize && view == [] && fresh(Repr)
    {
      this.walSize := walSize;
      files, contents, active, view, Repr := [], [], None, [], {this};
    }

    /** `add_file` on an empty set: number 1, active, mapped for writing. */
    method AddFirst()
      requires Valid() && files == []
      modifies this
      ensures Ready() && fresh(Repr - old(Repr))
      ensures view == [Fresh(1, walSize)] && fresh(contents[0])
    {
      hide NewBytes, FileOk, SegOk, LogOf;
      var f, content := NewFile(1, 0, walSize);
      files, contents, active := [f], [content], Some(0);
      view, Repr := [Fresh(1, walSize)], Repr + {f, content};
      assert Linked(view, walSize) by { FreshSetOk(1, walSize); }
    }

    /** `update_header` and a blocking `flush` of the active file. */
    method FlushActive()
      requires Ready() && Last(view).mapped
      modifies this`view, Last(contents)
      ensures Ready()
      ensures SegOk(old(Last(view)), walSize) && view == WithLast(old(view), Flushed(old(Last(view))))
    {
      hide FileOk, HeaderBytes, Linked, Distinct;
      DistinctEnds(contents);
      var n := |files| - 1;
      ghost var w := FlushedView(view, walSize);
      files[n].UpdateHeader();
      view := w;
    }

    /** Flush the active file and give its writable map up. */
    method SealActive()
      requires Ready() && Last(view).mapped
      modifies this`view, Last(files), Last(contents)
      ensures Ready() && SegOk(old(Last(view)), walSize)
      ensures view == WithLast(old(view), Flushed(old(Last(view))).(mapped := false))
    {
      hide FileOk, HeaderBytes, Linked, Distinct;
      DistinctEnds(files);
      DistinctEnds(contents);
      var n := |files| - 1;
      ghost var w := WithLast(view, FlushedView(view, walSize)[n].(mapped := false));
      UnmappedLinked(FlushedView(view, walSize), walSize);
      files[n].UpdateHeader();
      files[n].mmapMut := null;
      view := w;
    }

    /** `push_back` of a file that is new to the set. */
    method Push(f: WalFile, content: array<byte>, ghost s: Seg)
      requires Valid() && f !in files && content !in contents
      requires FileIs(f, content, s) && Linked(view + [s], walSize)
      modifies this
      ensures Ready() && view == old(view) + [s]
      ensures contents == old(contents) + [content] && Repr == old(Repr) + {f, content}
    {
      hide Distinct, Linked, FileIs;
      DistinctSnoc(files, f);
      DistinctSnoc(contents, content);
      files, contents, active := files + [f], contents + [content], Some(|files|);
      view, Repr := view + [s], Repr + {f, content};
    }

    /** `roll_over`: sealing flushes synchronously, and the next file starts behind the last id. */
    method RollOver()
      requires Ready() && Last(view).mapped && Last(view).walNo < U64_MAX && Last(view).h.dataStart.Some?
      modifies this, Last(files), Last(contents)
      ensures Ready() && fresh(Repr - old(Repr))
      ensures SegOk(old(Last(view)), walSize) && view == WalSet.RollOver(old(view), walSize)
      ensures old(contents) <= contents
    {
      hide FileOk, Fresh, Linked, RolledView, Flushed, Distinct, WalSet.RollOver;
      ghost var w := RolledView(view, walSize);
      SealActive();
      var a := files[|files| - 1];
      var f, content := NewFile(a.walNo + 1, a.idUntil + 1, walSize);
      assert view + [w[|view|]] == w;
      Push(f, content, w[|view|]);
    }

    /** `has_space` of the active file. */
    method ActiveHasSpace(len: u32) returns (r: bool)
      requires Ready()
      ensures r == HasSpace(Last(view).h, walSize, len)
    {
      hide FileOk;
      var a := files[active.value];
      assert SegOk(Last(view), walSize);
      r := HasSpace(a.H(), a.lenMax, len);
    }

    /** `space_left` of the active file. */
    method ActiveSpaceLeft() returns (n: nat)
      requires Ready()
      ensures n == SpaceLeft(Last(view))
    {
      hide SegOk;
      n := files[active.value].SpaceLeft();
    }

    /** `append_log` on the active file. */
    method AppendActive(id: u64, data: seq<byte>)
      requires Ready() && Last(view).mapped && IsNext(view, id) && id <= MAX_ID
      requires 0 < |data| && HasSpace(Last(view).h, walSize, |data|)
      modifies this`view, Last(files), Last(contents)
      ensures Ready() && SegOk(old(Last(view)), walSize)
      ensures view == AppendedView(old(view), id, data, walSize)
    {
      hide FileOk, Linked, Appended, Distinct, FileIs;
      DistinctEnds(files);
      DistinctEnds(contents);
      var n := |files| - 1;
      ghost var w := AppendedView(view, id, data, walSize);
      AppendOne(files[n], contents[n], id, data, Last(view));
      view := w;
    }

    method PopFrontFile()
      requires Valid() && files != []
      modifies this
      ensures Valid() && view == old(view)[1..] && contents == old(contents)[1..]
      ensures Repr == old(Repr) && active == old(active)
    {
      hide SegOk;
      LinkedTail(view, walSize, 1);
      files, contents, view := files[1..], contents[1..], view[1..];
    }

    method PopBackFile()
      requires Valid() && files != []
      modifies this
      ensures Valid() && view == old(view)[..|old(view)| - 1] && contents == old(contents)[..|old(view)| - 1]
      ensures Repr == old(Repr) && active == old(active)
    {
      hide SegOk;
      var n := |files| - 1;
      LinkedTail(view, walSize, n);
      files, contents, view := files[..n], contents[..n], view[..n];
    }

    /** Make `until` the first entry of the front file, mapping it first where necessary. */
    method CutFrontFile(until: u64)
      requires Valid() && files != [] && until <= view[0].h.idUntil
      modifies this`view, files[0]
      ensures Valid() && view == CutFrontView(old(view), until, walSize)
    {
      hide FileOk, Linked, CutFront, CutFrontView, Scan.ReadLogs, Distinct;
      DistinctEnds(files);
      var front := files[0];
      ghost var s := view[0];
      ghost var w := CutFrontView(view, until, walSize);
      CutFrontFacts(view, until, walSize);
      if front.idFrom < until && front.dataEnd.Some? {
        if front.mmapMut == null {
          front.mmapMut := contents[0];
        }
        var res := front.ReadLogs(until, until, None);
        front.idFrom := until;
        front.dataStart := Some(res.value.offset);
      }
      view := w;
      assert forall i :: 1 <= i < |files| ==> view[i] == old(view)[i];
    }

    /** Make `from - 1` the last entry of the back file. A file cut down to nothing is not mapped again. */
    method CutBackFile(from: u64)
      requires Valid() && files != [] && Last(view).h.idFrom <= from
      modifies this`view, Last(files)
      ensures Valid() && view == CutBackView(old(view), from, walSize)
    {
      hide FileOk, Linked, CutBackView, Distinct, CutBackTo, FileIs;
      DistinctEnds(files);
      ghost var w := CutBackView(view, from, walSize);
      CutBackFacts(view, from, walSize);
      var n := |files| - 1;
      CutBackOne(files[n], contents[n], from, Last(view), Last(w), walSize);
      view := w;
    }

    /**
    Deletes files from the front while they end below `until`; `trace` is what was left each time. If
    deletion number `fail` fails, its file is gone from the list but not from the directory.
    */
    method PopFrontFiles(until: u64, fail: Option<nat>) returns (ok: bool, ghost trace: seq<seq<Seg>>)
      requires Valid()
      modifies this
      ensures Valid() && Repr == old(Repr) && active == old(active)
      ensures ok <==> (fail.Some? ==> FrontCount(old(view), until) <= fail.value)
      ensures var n := FrontCount(old(view), until);
        && view == old(view)[if ok then n else fail.value + 1..]
        && contents == old(contents)[if ok then n else fail.value + 1..]
        && trace == Suffixes(old(view), if ok then n else fail.value)
    {
      hide Linked, PopFront, Distinct, FrontCount, Suffixes, FileIs;
      ghost var v, cs := view, contents;
      var k := 0;
      PopFrontIsSuffix(v, until);
      while files != [] && files[0].idUntil < until
        invariant Valid() && Repr == old(Repr) && active == old(active)
        invariant k <= FrontCount(v, until) && (fail.Some? ==> k <= fail.value)
        invariant view == v[k..] && contents == cs[k..] && |v| == |cs|
        decreases |files|
      {
        FrontLeft(v, cs, k);
        FrontFile();
        PopFrontFile();
        if fail == Some(k) {
          return false, Suffixes(v, k);
        }
        k := k + 1;
      }
      if files != [] {
        FrontFile();
      }
      return true, Suffixes(v, k);
    }

    /** The first file and its value. */
    lemma FrontFile()
      requires Valid() && files != []
      ensures view != [] && files[0].idUntil == view[0].h.idUntil && files[0].idFrom == view[0].h.idFrom
    {
      hide Linked, Distinct;
    }

    lemma BackFile()
      requires Valid() && files != []
      ensures view != [] && files[|files| - 1].idUntil == Last(view).h.idUntil
      ensures files[|files| - 1].idFrom == Last(view).h.idFrom
    {
      hide Linked, Distinct;
    }

    /** Deletes whole files from the front, then cuts the first remaining one. */
    method PurgeFront(until: u64, fail: Option<nat>) returns (ok: bool, ghost trace: seq<seq<Seg>>)
      requires Valid() && files != []
      modifies Repr
      ensures Valid() && fresh(Repr - old(Repr))
      ensures ok <==> (fail.Some? ==> FrontCount(old(view), until) <= fail.value)
      ensures trace == Suffixes(old(view), if ok then FrontCount(old(view), until) else fail.value)
      ensures DataPaired(old(view))
      ensures ok ==> files != [] && ShiftDelete(old(view), 0, until, walSize) == Ok(view)
      ensures var n := FrontCount(old(view), until);
        && |old(contents)| == |old(view)|
        && (ok && n < |old(view)| ==> contents == old(contents)[n..])
        && (ok && n == |old(view)| ==> |contents| == 1 && fresh(contents[0]))
      ensures !ok ==> view == old(view)[fail.value + 1..] && active == old(active)
    {
      hide FileOk, Linked, PopFront, CutFront, CutFrontView, Distinct, Fresh, FrontCount, Suffixes;
      ghost var v := view;
      SetPaired(v, walSize);
      PopFrontIsSuffix(v, until);
      ok, trace := PopFrontFiles(until, fail);
      if ok {
        if files == [] {
          AddFirst();
        } else {
          CutFrontShape(v, until, walSize);
          CutFrontFile(until);
        }
      }
    }

    /** Deletes files from the back while they start above `from`; deletion number `fail` fails. */
    method PopBackFiles(from: u64, fail: Option<nat>) returns (ok: bool)
      requires Valid()
      modifies this
      ensures Valid() && Repr == old(Repr) && active == old(active)
      ensures ok <==> (fail.Some? ==> |old(view)| - BackCount(old(view), from) <= fail.value)
      ensures var n := if ok then BackCount(old(view), from) else |old(view)| - fail.value - 1;
        0 <= n <= |old(view)| && view == old(view)[..n] && contents == old(contents)[..n]
    {
      hide Linked, PopBack, Distinct, BackCount, FileIs;
      ghost var v, cs := view, contents;
      var k := 0;
      PopBackIsPrefix(v, from);
      while files != [] && files[|files| - 1].idFrom > from
        invariant Valid() && Repr == old(Repr) && active == old(active) && |v| == |cs|
        invariant k <= |v| - BackCount(v, from) && (fail.Some? ==> k <= fail.value)
        invariant view == v[..|v| - k] && contents == cs[..|v| - k]
        decreases |files|
      {
        BackFile();
        BackLeft(v, cs, |v| - k);
        PopBackFile();
        if fail == Some(k) {
          return false;
        }
        k := k + 1;
      }
      if files != [] {
        BackFile();
      }
      ok := true;
    }

    /** Deletes whole files from the back, then cuts the last remaining one. */
    method TruncateBack(from: u64, fail: Option<nat>) returns (ok: bool)
      requires Valid() && files != [] && view[0].h.idFrom < from
      modifies Repr
      ensures Valid() && Repr == old(Repr) && |old(contents)| == |old(view)|
      ensures ok ==> 0 < BackCount(old(view), from) && contents == old(contents)[..BackCount(old(view), from)]
      ensures ok <==> (fail.Some? ==> |old(view)| - BackCount(old(view), from) <= fail.value)
      ensures DataPaired(old(view))
      ensures ok ==> files != [] && ShiftDelete(old(view), from, U64_MAX, walSize) == Ok(view)
      ensures !ok ==> view == old(view)[..|old(view)| - fail.value - 1] && active == old(active)
    {
      hide FileOk, Linked, PopBack, CutBack, CutBackView, Distinct, BackCount, FileIs, ShiftDelete;
      ghost var v := view;
      SetPaired(v, walSize);
      PopBackIsPrefix(v, from);
      CutBackShape(v, from, walSize);
      ok := PopBackFiles(from, fail);
      if ok {
        CutBackFile(from);
      }
    }

    /**
    `shift_delete_logs`; `trace` lists the files left after each deletion at the front. After a deletion
    that failed the list is one file shorter than the directory, and the active index is out of range.
    */
    method ShiftDeleteLogs(from: u64, until: u64, fail: Option<nat>) returns (ok: bool, ghost trace: seq<seq<Seg>>)
      requires Ready()
      modifies Repr
      ensures Valid() && fresh(Repr - old(Repr))
      ensures ok <==> !DeletionFails(old(view), from, until, fail)
      ensures DataPaired(old(view))
      ensures ok ==> Ready() && ShiftDelete(old(view), from, until, walSize) == Ok(view)
      ensures |old(contents)| == |old(view)|
      ensures ok && Kept(old(view), from, until, old(contents)) != [] ==>
        contents == Kept(old(view), from, until, old(contents))
      ensures ok && Kept(old(view), from, until, old(contents)) == [] ==> |contents| == 1 && fresh(contents[0])
      ensures from <= old(view)[0].h.idFrom ==>
        trace == Suffixes(old(view), if ok then FrontCount(old(view), until) else fail.value)
      ensures !ok ==> view == AfterFailure(old(view), from, fail.value)
      ensures !ok ==> active == Some(|old(view)| - 1) && |files| < |old(view)|
    {
      hide FileOk, Linked, Distinct, FileIs, ShiftDelete, FrontCount, BackCount, Suffixes, Kept;
      hide DeletionFails, AfterFailure;
      SetPaired(view, walSize);
      FrontFile();
      BackFile();
      ok, trace := true, [];
      if from <= files[0].idFrom {
        FrontCase(view, from, until, fail, contents, walSize);
        ok, trace := PurgeFront(until, fail);
      } else if files[|files| - 1].idUntil <= until {
        BackCase(view, from, until, fail, contents, walSize);
        ok := TruncateBack(from, fail);
      } else {
        NoCase(view, from, until, fail, contents, walSize);
      }
      if ok {
        active := Some(|files| - 1);
      }
    }
  }

  /** Which end is cut, and that the other bound does not matter then. */
  lemma DeleteCases(v: seq<Seg>, from: u64, until: u64, walSize: nat)
    requires SetOk(v, walSize) && DataPaired(v)
    ensures from <= v[0].h.idFrom ==> ShiftDelete(v, from, until, walSize) == ShiftDelete(v, 0, until, walSize)
    ensures v[0].h.idFrom < from && Last(v).h.idUntil <= until ==>
      ShiftDelete(v, from, until, walSize) == ShiftDelete(v, from, U64_MAX, walSize)
    ensures v[0].h.idFrom < from && until < Last(v).h.idUntil ==> ShiftDelete(v, from, until, walSize) == Ok(v)
  {
    hide FileOk, PopFront, PopBack, CutFront, CutBack, FrontCount, BackCount, Linked;
  }

  lemma FrontCase<T>(v: seq<Seg>, from: u64, until: u64, fail: Option<nat>, cs: seq<T>, walSize: nat)
    requires SetOk(v, walSize) && DataPaired(v) && |cs| == |v| && from <= v[0].h.idFrom
    ensures ShiftDelete(v, from, until, walSize) == ShiftDelete(v, 0, until, walSize)
    ensures DeletionFails(v, from, until, fail) <==> fail.Some? && fail.value < FrontCount(v, until)
    ensures DeletionFails(v, from, until, fail) ==> AfterFailure(v, from, fail.value) == v[fail.value + 1..]
    ensures Kept(v, from, until, cs) == cs[FrontCount(v, until)..]
    ensures Kept(v, from, until, cs) == [] <==> FrontCount(v, until) == |v|
  {
    hide ShiftDelete, Linked, FrontCount, BackCount;
    DeleteCases(v, from, until, walSize);
  }

  lemma BackCase<T>(v: seq<Seg>, from: u64, until: u64, fail: Option<nat>, cs: seq<T>, walSize: nat)
    requires SetOk(v, walSize) && DataPaired(v) && |cs| == |v|
    requires v[0].h.idFrom < from && Last(v).h.idUntil <= until
    ensures ShiftDelete(v, from, until, walSize) == ShiftDelete(v, from, U64_MAX, walSize)
    ensures DeletionFails(v, from, until, fail) <==> fail.Some? && fail.value < |v| - BackCount(v, from)
    ensures DeletionFails(v, from, until, fail) ==>
      AfterFailure(v, from, fail.value) == v[..|v| - fail.value - 1]
    ensures Kept(v, from, until, cs) == cs[..BackCount(v, from)]
  {
    hide ShiftDelete, Linked, FrontCount, BackCount;
    DeleteCases(v, from, until, walSize);
  }

  lemma NoCase<T>(v: seq<Seg>, from: u64, until: u64, fail: Option<nat>, cs: seq<T>, walSize: nat)
    requires SetOk(v, walSize) && DataPaired(v) && |cs| == |v|
    requires v[0].h.idFrom < from && until < Last(v).h.idUntil
    ensures ShiftDelete(v, from, until, walSize) == Ok(v) && !DeletionFails(v, from, until, fail)
    ensures Kept(v, from, until, cs) == cs
  {
    hide ShiftDelete, Linked, FrontCount, BackCount;
    DeleteCases(v, from, until, walSize);
  }

  lemma FrontLeft<S, T>(v: seq<S>, cs: seq<T>, k: nat)
    requires k < |v| == |cs|
    ensures v[k..][1..] == v[k + 1..] && cs[k..][1..] == cs[k + 1..]
  {
  }

  lemma BackLeft<S, T>(v: seq<S>, cs: seq<T>, n: nat)
    requires 0 < n <= |v| == |cs|
    ensures v[..n][..n - 1] == v[..n - 1] && cs[..n][..n - 1] == cs[..n - 1] && Last(v[..n]) == v[n - 1]
  {
  }

  /** Deletion number `fail` is one that takes place. */
  predicate DeletionFails(v: seq<Seg>, from: u64, until: u64, fail: Option<nat>)
    requires v != []
  {
    fail.Some? && fail.value < (
      if from <= v[0].h.idFrom then FrontCount(v, until)
      else if Last(v).h.idUntil <= until then |v| - BackCount(v, from)
      else 0)
  }

  /** The files the writer still has in its list after deletion number `j` failed. */
  function AfterFailure(v: seq<Seg>, from: u64, j: nat): seq<Seg> {
    if |v| <= j then [] else if from <= v[0].h.idFrom then v[j + 1..] else v[..|v| - j - 1]
  }

  lemma CutFrontShape(v: seq<Seg>, until: u64, walSize: nat)
    requires SetOk(v, walSize) && DataPaired(v) && PopFront(v, until) != []
    ensures var w := PopFront(v, until);
      SetOk(w, walSize) && until <= w[0].h.idUntil
      && ShiftDelete(v, 0, until, walSize) == Ok(CutFrontView(w, until, walSize))
  {
    hide FileOk, CutFront, FrontCount;
    PurgeShape(v, until, walSize);
    PopFrontIsSuffix(v, until);
    LinkedTail(v, walSize, FrontCount(v, until));
  }

  lemma CutBackShape(v: seq<Seg>, from: u64, walSize: nat)
    requires SetOk(v, walSize) && DataPaired(v) && v[0].h.idFrom < from
    ensures var w := PopBack(v, from);
      && SetOk(w, walSize) && Last(w).h.idFrom <= from
      && ShiftDelete(v, from, U64_MAX, walSize) == Ok(CutBackView(w, from, walSize))
  {
    hide FileOk, CutBack, BackCount;
    TruncateShape(v, from, walSize);
    PopBackIsPrefix(v, from);
    LinkedTail(v, walSize, BackCount(v, from));
  }

  ghost function CutBackView(v: seq<Seg>, from: u64, walSize: nat): (w: seq<Seg>)
    requires SetOk(v, walSize) && Last(v).h.idFrom <= from
    ensures Linked(w, walSize) && |w| == |v|
  {
    assert SegOk(Last(v), walSize);
    CutBackOk(Last(v), from, walSize);
    PrefixLinked(v, |v|, CutBack(Last(v), from).value, walSize);
    assert v[..|v|] == v;
    WithLast(v, CutBack(Last(v), from).value)
  }

  lemma CutBackFacts(v: seq<Seg>, from: u64, walSize: nat)
    requires SetOk(v, walSize) && Last(v).h.idFrom <= from
    ensures CutBackTo(Last(v), from, Last(CutBackView(v, from, walSize)), walSize)
    ensures forall i :: 0 <= i < |v| - 1 ==> CutBackView(v, from, walSize)[i] == v[i]
  {
    hide Holds, Scan.ReadLogs;
    assert SegOk(Last(v), walSize);
    CutBackOk(Last(v), from, walSize);
  }

  ghost function CutFrontView(v: seq<Seg>, until: u64, walSize: nat): (w: seq<Seg>)
    requires SetOk(v, walSize) && until <= v[0].h.idUntil
    ensures Linked(w, walSize) && |w| == |v|
  {
    assert SegOk(v[0], walSize);
    CutFrontOk(v[0], until, walSize);
    CutLinked(v, 0, CutFront(v[0], until).value, walSize);
    Cut(v, 0, CutFront(v[0], until).value)
  }

  /** What cutting the front file reads and changes. */
  lemma CutFrontFacts(v: seq<Seg>, until: u64, walSize: nat)
    requires SetOk(v, walSize) && until <= v[0].h.idUntil
    ensures v[0].h.dataStart.Some? == v[0].h.dataEnd.Some? && |v[0].b| == walSize
    ensures var w := CutFrontView(v, until, walSize);
      && (forall i :: 1 <= i < |v| ==> w[i] == v[i])
      && if v[0].h.idFrom < until && v[0].h.dataEnd.Some? then
           var r := Scan.ReadLogs(v[0].walNo, v[0].h, v[0].b, until, until, None);
           && r.Ok? && r.value.offset <= U32_MAX
           && w[0] == v[0].(h := v[0].h.(idFrom := until, dataStart := Some(r.value.offset)), mapped := true)
         else w[0] == v[0]
  {
    hide FileOk, Entries, Scan.ReadLogs;
    assert SegOk(v[0], walSize);
    SegOrder(v[0], walSize);
    CutFrontOk(v[0], until, walSize);
  }

  ghost function AppendedView(v: seq<Seg>, id: u64, p: seq<byte>, walSize: nat): (w: seq<Seg>)
    requires SetOk(v, walSize) && IsNext(v, id) && id <= MAX_ID
    requires 0 < |p| && HasSpace(Last(v).h, walSize, |p|)
    ensures SegOk(Last(v), walSize) && Linked(w, walSize) && Start(Last(v).h) + HEAD + |p| < |Last(v).b|
    ensures Last(v).h.dataStart.Some? == Last(v).h.dataEnd.Some?
    ensures var img := Appended(Last(v).h, Last(v).b, id, p);
      w == WithLast(v, Last(v).(h := img.h, b := img.b))
  {
    assert SegOk(Last(v), walSize);
    AppendToLast(v, id, p, walSize);
    var img := Appended(Last(v).h, Last(v).b, id, p);
    WithLast(v, Last(v).(h := img.h, b := img.b))
  }

  ghost function FlushedView(v: seq<Seg>, walSize: nat): (w: seq<Seg>)
    requires SetOk(v, walSize)
    ensures SegOk(Last(v), walSize) && Linked(w, walSize)
    ensures w == WithLast(v, Flushed(Last(v)))
  {
    assert SegOk(Last(v), walSize);
    FlushedOk(Last(v), walSize);
    PrefixLinked(v, |v|, Flushed(Last(v)), walSize);
    assert v[..|v|] == v;
    WithLast(v, Flushed(Last(v)))
  }

  lemma UnmappedLinked(v: seq<Seg>, walSize: nat)
    requires Linked(v, walSize) && v != []
    ensures Linked(WithLast(v, Last(v).(mapped := false)), walSize)
  {
    hide FileOk;
    var w := WithLast(v, Last(v).(mapped := false));
    assert SegOk(Last(v), walSize);
    forall i | 0 <= i < |w| - 1 ensures JoinedAt(w, i) {
      assert JoinedAt(v, i);
    }
  }

  ghost function RolledView(v: seq<Seg>, walSize: nat): (w: seq<Seg>)
    requires SetOk(v, walSize) && Last(v).walNo < U64_MAX && Last(v).h.dataStart.Some?
    ensures SegOk(Last(v), walSize) && Linked(w, walSize)
    ensures w == WalSet.RollOver(v, walSize) && |w| == |v| + 1
    ensures Last(v).h.idUntil < U64_MAX
    ensures forall i :: 0 <= i < |v| - 1 ==> w[i] == v[i]
    ensures w[|v| - 1] == Flushed(Last(v)).(mapped := false)
    ensures var id := Last(v).h.idUntil + 1;
      w[|v|] == Fresh(Last(v).walNo + 1, walSize).(h := Header(id, id, None, None))
  {
    assert SegOk(Last(v), walSize);
    RollOverKeepsLog(v, walSize);
    WalSet.RollOver(v, walSize)
  }
}
