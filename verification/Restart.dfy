/**
A clean restart: the headers of mapped files are written when the files are dropped, and the next start
lists the directory, sorts the names, decodes the headers and checks them (`Drop for WalFile`,
`WalFileSet::read`, `WalFile::read_from_file`, `WalFileSet::check_integrity`).
*/
module Restart {
  import opened Base
  import opened Positional
  import opened Records
  import opened Decimal
  import opened WalSet
  import opened WalRemove
  import opened WalRuns
  import opened WalMemo
  import opened Publication

  // ---- file names

  const NAME_WIDTH := 16
  const SUFFIX := ".wal"

  /** The last part of `build_full_path`; longer numbers make it panic. */
  function FileName(walNo: nat): string
    requires walNo < Pow(10, NAME_WIDTH)
  {
    Padded(walNo, NAME_WIDTH) + SUFFIX
  }

  /** The number in a file name: `split_once('.')`, the ending, `parse::<u64>`. */
  function ParseName(name: string): Option<nat> {
    var i := IndexOf(name, '.');
    if i == |name| || name[i + 1..] != "wal" then None else ParseNat(name[..i], U64_MAX)
  }

  lemma ParseFileName(walNo: u64)
    requires walNo < Pow(10, NAME_WIDTH)
    ensures ParseName(FileName(walNo)) == Some(walNo)
  {
    var name, digits := FileName(walNo), Padded(walNo, NAME_WIDTH);
    var i := IndexOf(name, '.');
    assert name[NAME_WIDTH] == '.';
    assert forall j :: 0 <= j < NAME_WIDTH ==> name[j] == digits[j] && IsDigit(digits[j]);
    assert i == NAME_WIDTH;
    assert name[i + 1..] == "wal" && name[..i] == digits;
    PaddedValue(walNo, NAME_WIDTH);
  }

  /** Exactly these names are taken for WAL files: a number as it is printed or padded, and `.wal`. */
  lemma ParseNameExact(name: string, n: nat)
    ensures ParseName(name) == Some(n) <==> n <= U64_MAX && exists s :: Numeral(s, n) && name == s + ".wal"
  {
    hide Numeral, ParseNat;
    if ParseName(name) == Some(n) {
      var i := IndexOf(name, '.');
      ParseExact(name[..i], U64_MAX, n);
      assert name == name[..i] + ".wal";
    }
    if n <= U64_MAX {
      forall s | Numeral(s, n) && name == s + ".wal" ensures ParseName(name) == Some(n) {
        NumeralChars(s, n, '.');
        assert name[|s|] == '.' && forall j :: 0 <= j < |s| ==> name[j] == s[j] && s[j] in s;
        assert IndexOf(name, '.') == |s|;
        assert name[|s| + 1..] == "wal" && name[..|s|] == s;
        ParseExact(s, U64_MAX, n);
      }
    }
  }

  // ---- the directory after a shutdown

  type Listing = map<string, seq<byte>>

  /** What dropping a file leaves on disk: a file mapped for writing gets its header written. */
  function Dropped(s: Seg): seq<byte>
    requires OFFSET_LOGS <= |s.b|
  {
    if s.mapped then Splice(s.b, 0, HeaderBytes(s.h)) else s.b
  }

  ghost predicate Nameable(v: seq<Seg>) {
    forall i :: 0 <= i < |v| ==> v[i].walNo < Pow(10, NAME_WIDTH) && OFFSET_LOGS <= |v[i].b|
  }

  function Names(v: seq<Seg>): (r: seq<string>)
    requires Nameable(v)
    ensures |r| == |v| && forall i :: 0 <= i < |v| ==> r[i] == FileName(v[i].walNo)
  {
    seq(|v|, i requires 0 <= i < |v| => FileName(v[i].walNo))
  }

  /** `dir` holds exactly the files of the set `v` under their names. */
  ghost predicate Holds(dir: Listing, v: seq<Seg>)
    requires Nameable(v)
  {
    && (forall i :: 0 <= i < |v| ==> FileName(v[i].walNo) in dir && dir[FileName(v[i].walNo)] == Dropped(v[i]))
    && (forall n :: n in dir ==> n in Names(v))
  }

  // ---- sorting

  ghost predicate Sorted(names: seq<string>) {
    forall i, j :: 0 <= i < j < |names| ==> TextLess(names[i], names[j])
  }

  /** Sorted, without repetition, and complete. */
  ghost predicate IsListing(names: seq<string>, dir: Listing) {
    Sorted(names) && forall n :: n in names <==> n in dir
  }

  lemma {:induction false} TextLessAsym(a: string, b: string)
    requires TextLess(a, b)
    ensures !TextLess(b, a)
  {
    if a != [] && a[0] == b[0] {
      TextLessAsym(a[1..], b[1..]);
    }
  }

  lemma SameFirst(a: seq<string>, b: seq<string>)
    requires Sorted(a) && Sorted(b) && (forall n :: n in a <==> n in b) && a != [] && b != []
    ensures a[0] == b[0]
  {
    assert a[0] in b && b[0] in a;
    var i :| 0 <= i < |b| && b[i] == a[0];
    var j :| 0 <= j < |a| && a[j] == b[0];
    if 0 < i && 0 < j {
      TextLessAsym(b[0], b[i]);
      assert false;
    }
  }

  /** There is only one sorted listing. */
  lemma {:induction false} SortedUnique(a: seq<string>, b: seq<string>)
    requires Sorted(a) && Sorted(b) && forall n :: n in a <==> n in b
    ensures a == b
    decreases |a|
  {
    assert a != [] ==> a[0] in b;
    assert b != [] ==> b[0] in a;
    if a != [] && b != [] {
      SameFirst(a, b);
      TailMembers(a, b);
      SortedUnique(a[1..], b[1..]);
    }
  }

  lemma TailMembers(a: seq<string>, b: seq<string>)
    requires Sorted(a) && Sorted(b) && (forall n :: n in a <==> n in b) && a != [] && b != [] && a[0] == b[0]
    ensures Sorted(a[1..]) && Sorted(b[1..]) && forall n :: n in a[1..] <==> n in b[1..]
  {
    NotLessThanItself(a[0]);
    forall n ensures n in a[1..] <==> n in b[1..] {
      if n in a[1..] {
        var i :| 0 <= i < |a| - 1 && a[1..][i] == n;
        assert TextLess(a[0], a[i + 1]) && a[i + 1] in b;
      }
      if n in b[1..] {
        var i :| 0 <= i < |b| - 1 && b[1..][i] == n;
        assert TextLess(b[0], b[i + 1]) && b[i + 1] in a;
      }
    }
  }

  lemma NamesSorted(v: seq<Seg>, walSize: nat)
    requires Linked(v, walSize) && Nameable(v)
    ensures Sorted(Names(v))
  {
    hide SegOk, TextLess, FileName;
    NumbersAscend(v, walSize);
    forall i, j | 0 <= i < j < |v| ensures TextLess(Names(v)[i], Names(v)[j]) {
      NameOrder(v[i].walNo, v[j].walNo);
    }
  }

  lemma NameOrder(m: nat, n: nat)
    requires m < n < Pow(10, NAME_WIDTH)
    ensures TextLess(FileName(m), FileName(n))
  {
    PaddedOrder(m, n, NAME_WIDTH, SUFFIX);
  }

  // ---- reading the files back

  /** `read_from_file`; an unreadable file is skipped. */
  function ReadFile(name: string, b: seq<byte>): Option<Seg> {
    var no, h := ParseName(name), ParseHeader(b);
    if no.Some? && no.value <= U64_MAX && h.Ok? then Some(Seg(no.value, h.value, b, false, b)) else None
  }

  /** The loop of `WalFileSet::read` over the sorted names. */
  function ReadFiles(names: seq<string>, dir: Listing): seq<Seg>
    requires forall i :: 0 <= i < |names| ==> names[i] in dir
  {
    if names == [] then []
    else
      var s := ReadFile(names[0], dir[names[0]]);
      (if s.Some? then [s.value] else []) + ReadFiles(names[1..], dir)
  }

  lemma {:induction false} ReadFilesJoin(a: seq<string>, b: seq<string>, dir: Listing)
    requires forall i :: 0 <= i < |a| ==> a[i] in dir
    requires forall i :: 0 <= i < |b| ==> b[i] in dir
    ensures ReadFiles(a + b, dir) == ReadFiles(a, dir) + ReadFiles(b, dir)
    decreases |a|
  {
    hide ReadFile;
    if a == [] {
      assert a + b == b && ReadFiles(a, dir) == [];
    } else {
      var t := a[1..];
      assert (a + b)[1..] == t + b && (a + b)[0] == a[0];
      ReadFilesJoin(t, b, dir);
      var s := ReadFile(a[0], dir[a[0]]);
      var first := if s.Some? then [s.value] else [];
      assert ReadFiles(a, dir) == first + ReadFiles(t, dir);
      assert ReadFiles(a + b, dir) == first + ReadFiles(t + b, dir);
    }
  }

  /** A file that cannot be read is left out; the ones before and behind it are read all the same. */
  lemma UnreadableIsSkipped(a: seq<string>, name: string, b: seq<string>, dir: Listing)
    requires name in dir && ReadFile(name, dir[name]).None?
    requires forall i :: 0 <= i < |a| ==> a[i] in dir
    requires forall i :: 0 <= i < |b| ==> b[i] in dir
    ensures ReadFiles(a + [name] + b, dir) == ReadFiles(a + b, dir)
  {
    NothingRead(name, dir);
    hide ReadFile, ReadFiles;
    ReadFilesJoin(a, b, dir);
    ReadFilesJoin(a + [name], b, dir);
    ReadFilesJoin(a, [name], dir);
    assert ReadFiles(a, dir) + [] == ReadFiles(a, dir);
  }

  lemma NothingRead(name: string, dir: Listing)
    requires name in dir && ReadFile(name, dir[name]).None?
    ensures ReadFiles([name], dir) == []
  {
    hide ReadFile;
    var names := [name];
    assert names[1..] == [];
  }

  /** A file whose header bytes, once it is dropped, are those of the header in memory. */
  predicate HeaderKept(s: Seg) {
    OFFSET_LOGS <= |s.b| && (s.mapped || s.b[..OFFSET_LOGS] == HeaderBytes(s.h))
  }

  function Reopened(s: Seg): Seg
    requires OFFSET_LOGS <= |s.b|
  {
    Seg(s.walNo, s.h, Dropped(s), false, Dropped(s))
  }

  lemma ReadsBack(s: Seg, walSize: nat)
    requires SegOk(s, walSize) && HeaderKept(s) && s.walNo < Pow(10, NAME_WIDTH)
    ensures ReadFile(FileName(s.walNo), Dropped(s)) == Some(Reopened(s))
    ensures SegOk(Reopened(s), walSize) && Entries(s.h, Dropped(s)) == Entries(s.h, s.b)
  {
    hide FileOk, Entries, HeaderBytes, ParseHeader, FileName, ParseName;
    ParseFileName(s.walNo);
    SegOrder(s, walSize);
    FlushedOk(s, walSize);
    assert Dropped(s)[..OFFSET_LOGS] == HeaderBytes(s.h);
    HeaderRoundTrip(s.h, Dropped(s));
  }

  function ReopenedSet(v: seq<Seg>): (r: seq<Seg>)
    requires forall i :: 0 <= i < |v| ==> OFFSET_LOGS <= |v[i].b|
    ensures |r| == |v| && forall i :: 0 <= i < |v| ==> r[i] == Reopened(v[i])
  {
    seq(|v|, i requires 0 <= i < |v| => Reopened(v[i]))
  }

  lemma {:induction false} ReadFilesBack(v: seq<Seg>, dir: Listing, walSize: nat)
    requires Linked(v, walSize) && Nameable(v)
    requires forall i :: 0 <= i < |v| ==> HeaderKept(v[i])
    requires forall i :: 0 <= i < |v| ==> FileName(v[i].walNo) in dir && dir[FileName(v[i].walNo)] == Dropped(v[i])
    ensures ReadFiles(Names(v), dir) == ReopenedSet(v)
    decreases |v|
  {
    hide FileOk, FileName, ReadFile, Dropped, HeaderKept;
    if v != [] {
      var t := v[1..];
      assert SegOk(v[0], walSize);
      ReadsBack(v[0], walSize);
      LinkedTail(v, walSize, 1);
      assert Names(v)[1..] == Names(t);
      ReadFilesBack(t, dir, walSize);
      assert ReopenedSet(v) == [Reopened(v[0])] + ReopenedSet(t);
    }
  }

  lemma ReopenedOk(v: seq<Seg>, walSize: nat)
    requires SetOk(v, walSize) && forall i :: 0 <= i < |v| ==> HeaderKept(v[i])
    requires Nameable(v)
    ensures SetOk(ReopenedSet(v), walSize) && Flat(ReopenedSet(v)) == Flat(v) && LogOf(ReopenedSet(v)) == LogOf(v)
  {
    hide SegOk, Entries, Flat, Dropped, HeaderKept, FileName;
    ReopenedSegs(v, walSize);
    FlatSame(v, ReopenedSet(v));
    SameLinks(v, ReopenedSet(v), walSize);
  }

  lemma ReopenedSegs(v: seq<Seg>, walSize: nat)
    requires Linked(v, walSize) && (forall i :: 0 <= i < |v| ==> HeaderKept(v[i])) && Nameable(v)
    ensures var w := ReopenedSet(v);
      forall i :: 0 <= i < |v| ==> SegOk(w[i], walSize) && Entries(w[i].h, w[i].b) == Entries(v[i].h, v[i].b)
  {
    hide SegOk, Entries, HeaderKept, Dropped, ReadFile, FileName;
    forall i | 0 <= i < |v|
      ensures SegOk(Reopened(v[i]), walSize) && Entries(v[i].h, Dropped(v[i])) == Entries(v[i].h, v[i].b)
    {
      ReadsBack(v[i], walSize);
    }
  }

  lemma SameLinks(v: seq<Seg>, w: seq<Seg>, walSize: nat)
    requires Linked(v, walSize) && |w| == |v|
    requires forall i :: 0 <= i < |v| ==> w[i].walNo == v[i].walNo && w[i].h == v[i].h
    requires forall i :: 0 <= i < |v| ==> SegOk(w[i], walSize)
    ensures Linked(w, walSize)
  {
    hide SegOk;
    forall i | 0 <= i < |w| - 1 ensures JoinedAt(w, i) {
      assert JoinedAt(v, i);
    }
  }

  lemma {:induction false} FlatSame(v: seq<Seg>, w: seq<Seg>)
    requires |v| == |w| && forall i :: 0 <= i < |v| ==> Entries(w[i].h, w[i].b) == Entries(v[i].h, v[i].b)
    ensures Flat(v) == Flat(w)
    decreases |v|
  {
    hide Entries;
    if v != [] {
      FlatSame(v[1..], w[1..]);
    }
  }

  // ---- the header checks at start-up

  predicate Unused(h: Header) {
    h.idFrom == 0 && h.idUntil == 0
  }

  predicate FirstOk(s: Seg) {
    OrZero(s.h.dataEnd) <= |s.b| && s.h.idFrom <= s.h.idUntil
  }

  /** `s` may follow `p`; of a prepared, unused file only number and size are checked. */
  predicate FollowOk(p: Seg, s: Seg) {
    && OrZero(s.h.dataEnd) <= |s.b|
    && p.walNo + 1 == s.walNo
    && (Unused(s.h) || (
          && s.h.dataStart.Some? == s.h.dataEnd.Some?
          && (s.h.dataStart.Some? ==>
               OFFSET_LOGS <= s.h.dataStart.value && s.h.dataStart.value + HEAD <= s.h.dataEnd.value)
          && p.h.idUntil + 1 == s.h.idFrom))
  }

  predicate FollowOkAt(v: seq<Seg>, i: nat)
    requires 0 < i < |v|
  {
    FollowOk(v[i - 1], v[i])
  }

  /** Everything up to the first unused file is in order. */
  ghost predicate IntegrityOk(v: seq<Seg>) {
    v != [] ==>
      && FirstOk(v[0])
      && forall i :: 0 < i < |v| && (forall j :: 0 < j < i ==> !Unused(v[j].h)) ==> FollowOkAt(v, i)
  }

  /** `check_integrity` without the deep check. */
  method CheckIntegrity(v: seq<Seg>) returns (ok: bool)
    ensures ok <==> IntegrityOk(v)
  {
    hide FirstOk, FollowOkAt, Unused;
    if v == [] {
      return true;
    }
    if !FirstOk(v[0]) {
      return false;
    }
    var i := 1;
    while i < |v|
      invariant 1 <= i <= |v|
      invariant forall j :: 0 < j < i ==> FollowOkAt(v, j) && !Unused(v[j].h)
    {
      if !FollowOkAt(v, i) {
        return false;
      }
      if Unused(v[i].h) {
        return true;
      }
      i := i + 1;
    }
    ok := true;
  }

  lemma SetPassesChecks(v: seq<Seg>, walSize: nat)
    requires SetOk(v, walSize)
    ensures IntegrityOk(v)
  {
    hide Chain, Payloads;
    forall i | 0 <= i < |v| ensures FirstOk(v[i]) && (0 < i ==> FollowOkAt(v, i)) {
      assert SegOk(v[i], walSize);
      if v[i].h.dataStart.Some? {
        DataRange(v[i], walSize);
      }
      if 0 < i {
        assert JoinedAt(v, i - 1);
      }
    }
  }

  /** What the check accepts, up to the first prepared file: no file is missing, and no id between files. */
  lemma {:induction false} IntegrityMeansNoGap(v: seq<Seg>, n: nat)
    requires IntegrityOk(v) && n < |v| && forall j :: 0 < j < n ==> !Unused(v[j].h)
    ensures v[n].walNo == v[0].walNo + n && OrZero(v[n].h.dataEnd) <= |v[n].b|
    ensures 0 < n && !Unused(v[n].h) ==> v[n].h.idFrom == v[n - 1].h.idUntil + 1
    ensures n == 0 ==> v[0].h.idFrom <= v[0].h.idUntil
    ensures 0 < n && !Unused(v[n].h) ==>
      && v[n].h.dataStart.Some? == v[n].h.dataEnd.Some?
      && (v[n].h.dataStart.Some? ==>
           32 <= v[n].h.dataStart.value && v[n].h.dataStart.value + 16 <= v[n].h.dataEnd.value <= |v[n].b|)
    decreases n
  {
    if 0 < n {
      IntegrityMeansNoGap(v, n - 1);
      assert FollowOkAt(v, n);
    }
  }

  lemma DataRange(s: Seg, walSize: nat)
    requires SegOk(s, walSize) && s.h.dataStart.Some?
    ensures s.h.dataEnd.Some? && OFFSET_LOGS <= s.h.dataStart.value
    ensures s.h.dataStart.value + HEAD <= s.h.dataEnd.value <= |s.b|
  {
    hide Chain, Payloads, Next;
    NextGrows(s.h.dataStart.value, Entries(s.h, s.b));
  }

  // ---- restart is the identity

  ghost predicate Clean(v: seq<Seg>)
    requires v != []
  {
    Last(v).mapped && forall i :: 0 <= i < |v| ==> HeaderKept(v[i])
  }

  /** Shutting down and starting again gives back the same files, and hence the same log. */
  lemma CleanRestart(v: seq<Seg>, walSize: nat, dir: Listing, names: seq<string>)
    requires SetOk(v, walSize) && Clean(v)
    requires Nameable(v) && Holds(dir, v) && IsListing(names, dir)
    ensures ReadFiles(names, dir) == ReopenedSet(v)
    ensures IntegrityOk(ReopenedSet(v)) && SetOk(ReopenedSet(v), walSize)
    ensures MetasOf(ReopenedSet(v)) == MetasOf(v) && LogOf(ReopenedSet(v)) == LogOf(v)
  {
    hide FileOk, FileName, HeaderKept, Dropped, ReadFile, LogOf, IntegrityOk, ReadFiles, Sorted;
    NamesSorted(v, walSize);
    forall n ensures n in names <==> n in Names(v) {
      if n in Names(v) {
        var i :| 0 <= i < |v| && Names(v)[i] == n;
      }
    }
    SortedUnique(names, Names(v));
    ReadFilesBack(v, dir, walSize);
    ReopenedOk(v, walSize);
    SetPassesChecks(ReopenedSet(v), walSize);
  }

  // ---- every step keeps a set clean, with one exception

  lemma MappedKept(s: Seg)
    requires s.mapped && OFFSET_LOGS <= |s.b|
    ensures HeaderKept(s)
  {
  }

  lemma FlushedKept(s: Seg, mapped: bool)
    requires OFFSET_LOGS <= |s.b|
    ensures HeaderKept(Flushed(s).(mapped := mapped))
  {
    hide HeaderBytes;
    SpliceSlice(s.b, 0, HeaderBytes(s.h));
  }

  lemma RollOverClean(v: seq<Seg>, walSize: nat)
    requires SetOk(v, walSize) && Last(v).walNo < U64_MAX && Last(v).h.dataStart.Some? && Clean(v)
    ensures SegOk(Last(v), walSize) && Clean(RollOver(v, walSize))
  {
    hide HeaderKept, FileOk, Flushed, NewBytes;
    assert SegOk(Last(v), walSize);
    var w := RollOver(v, walSize);
    FlushedKept(Last(v), false);
    MappedKept(Last(w));
    forall i | 0 <= i < |w| ensures HeaderKept(w[i]) {
      if i < |v| - 1 {
        assert w[i] == v[i];
      }
    }
  }

  lemma ReplacedLastClean(v: seq<Seg>, s: Seg)
    requires v != [] && Clean(v) && s.mapped && OFFSET_LOGS <= |s.b|
    ensures Clean(WithLast(v, s))
  {
    hide HeaderKept;
    MappedKept(s);
    var w := WithLast(v, s);
    forall i | 0 <= i < |w| ensures HeaderKept(w[i]) {
      if i < |v| - 1 {
        assert w[i] == v[i];
      }
    }
  }

  lemma AppendClean(v: seq<Seg>, id: u64, p: seq<byte>, walSize: nat)
    requires SetOk(v, walSize) && Legal(v, Append(id, p), walSize) && Clean(v)
    ensures HasSpace(Last(v).h, |Last(v).b|, |p|) || Last(v).h.dataStart.Some?
    ensures Clean(AppendTo(v, id, p, walSize))
  {
    hide FileOk, Clean, Appended, RollOver, SetOk;
    SetSize(v, walSize);
    AppendExtendsLog(v, id, p, walSize);
    var r := AppendTo(v, id, p, walSize);
    SetSize(r, walSize);
    if HasSpace(Last(v).h, |Last(v).b|, |p|) {
      CleanMapped(v);
      ReplacedLastClean(v, Last(r));
    } else {
      RollOverClean(v, walSize);
      CleanMapped(RollOver(v, walSize));
      ReplacedLastClean(RollOver(v, walSize), Last(r));
    }
  }

  lemma CleanMapped(v: seq<Seg>)
    requires v != [] && Clean(v)
    ensures Last(v).mapped
  {
  }

  lemma PurgeClean(v: seq<Seg>, u: u64, walSize: nat)
    requires SetOk(v, walSize) && Clean(v)
    ensures DataPaired(v) && Purge(v, u, walSize) != [] && Clean(Purge(v, u, walSize))
  {
    hide FileOk, Entries, FrontCount, Purge, HeaderKept, NewBytes, LogOf, DropBelow;
    PurgeDropsBelow(v, u, walSize);
    PurgeShape(v, u, walSize);
    var k := FrontCount(v, u);
    var w := Purge(v, u, walSize);
    if k == |v| {
      MappedKept(Fresh(1, walSize));
    } else {
      assert SegOk(v[k], walSize);
      CutFrontKept(v[k], u, walSize);
      forall i | 0 <= i < |w| ensures HeaderKept(w[i]) {
        if i > 0 {
          assert w[i] == v[k + i];
        }
      }
    }
  }

  lemma CutFrontKept(s: Seg, u: u64, walSize: nat)
    requires SegOk(s, walSize) && ValidWalSize(walSize) && HeaderKept(s)
    requires s.h.dataStart.Some? ==> u <= s.h.idUntil
    ensures s.h.dataStart.Some? == s.h.dataEnd.Some? && CutFront(s, u).Ok? && HeaderKept(CutFront(s, u).value)
  {
    hide FileOk, Entries, HeaderBytes;
    SegOrder(s, walSize);
    CutFrontOk(s, u, walSize);
  }

  lemma TruncateClean(v: seq<Seg>, k: u64, walSize: nat)
    requires SetOk(v, walSize) && Clean(v)
    ensures DataPaired(v) && Truncate(v, k, walSize) != []
    ensures Clean(Truncate(v, k, walSize)) <==> !SealedStart(v, k)
  {
    hide FileOk, Entries, CutBack, BackCount, Truncate, HeaderKept, NewBytes, LogOf, DropFrom;
    TruncateDropsFrom(v, k, walSize);
    TruncateShape(v, k, walSize);
    var w := Truncate(v, k, walSize);
    assert SegOk(Last(w), walSize);
    if Last(w).mapped {
      MappedKept(Last(w));
      if v[0].h.idFrom < k {
        var n := BackCount(v, k);
        forall i | 0 <= i < |w| ensures HeaderKept(w[i]) {
          if i < n - 1 {
            assert w[i] == v[i];
          }
        }
      }
    }
  }

  ghost predicate Reopens(v: seq<Seg>, op: Op)
    requires v != []
  {
    op.TruncateAt? ==> !SealedStart(v, op.k)
  }

  lemma StepClean(v: seq<Seg>, op: Op, walSize: nat)
    requires SetOk(v, walSize) && Legal(v, op, walSize) && Clean(v)
    ensures Step(v, op, walSize) != [] && (Clean(Step(v, op, walSize)) <==> Reopens(v, op))
  {
    hide SetOk, Clean, AppendTo, RollOver, Purge, Truncate, IsNext, Flushed, SealedStart;
    SetSize(v, walSize);
    match op
    case Append(id, p) => AppendClean(v, id, p, walSize);
    case Seal => RollOverClean(v, walSize);
    case PurgeTo(u) => PurgeClean(v, u, walSize);
    case TruncateAt(k) => TruncateClean(v, k, walSize);
    case Flush => CleanMapped(v); ReplacedLastClean(v, Flushed(Last(v)));
  }

  ghost predicate ReopensRun(v: seq<Seg>, ops: seq<Op>, walSize: nat)
    requires SetOk(v, walSize) && LegalRun(v, ops, walSize)
    decreases |ops|
  {
    ops == [] || (
      && Reopens(v, ops[0])
      && (StepRefines(v, ops[0], walSize); ReopensRun(Step(v, ops[0], walSize), ops[1..], walSize)))
  }

  lemma {:induction false} RunClean(v: seq<Seg>, ops: seq<Op>, walSize: nat)
    requires SetOk(v, walSize) && LegalRun(v, ops, walSize) && Clean(v) && ReopensRun(v, ops, walSize)
    ensures Run(v, ops, walSize) != [] && Clean(Run(v, ops, walSize))
    decreases |ops|
  {
    hide SetOk, Clean, Step, Legal, Reopens;
    SetSize(v, walSize);
    if ops != [] {
      StepRefines(v, ops[0], walSize);
      StepClean(v, ops[0], walSize);
      RunClean(Step(v, ops[0], walSize), ops[1..], walSize);
    }
  }

  /** After any run that never truncates at the start of a sealed file, a restart finds the abstract log. */
  lemma RestartAfterRun(v: seq<Seg>, ops: seq<Op>, walSize: nat, dir: Listing, names: seq<string>)
    requires SetOk(v, walSize) && LegalRun(v, ops, walSize) && Clean(v) && ReopensRun(v, ops, walSize)
    requires Nameable(Run(v, ops, walSize)) && Holds(dir, Run(v, ops, walSize)) && IsListing(names, dir)
    ensures SetOk(ReadFiles(names, dir), walSize) && IntegrityOk(ReadFiles(names, dir))
    ensures LogOf(ReadFiles(names, dir)) == SpecRun(LogOf(v), ops)
  {
    hide SetOk, Clean, LegalRun, Run, ReopensRun, LogOf, IntegrityOk, SpecRun, IsListing, Holds;
    RunRefines(v, ops, walSize);
    RunClean(v, ops, walSize);
    CleanRestart(Run(v, ops, walSize), walSize, dir, names);
  }

  /**
  The exception is real: truncating at the first id of a sealed file leaves its old header on disk, and a
  restart brings every entry of that file back.
  */
  lemma TruncateResurrects(v: seq<Seg>, k: u64, walSize: nat, i: nat)
    requires SetOk(v, walSize) && Clean(v)
    requires 0 < i < |v| - 1 && v[i].h.idFrom == k && !v[i].mapped
    ensures DataPaired(v) && Truncate(v, k, walSize) != []
    ensures var s := Last(Truncate(v, k, walSize));
      && s.walNo == v[i].walNo && Entries(s.h, s.b) == []
      && OFFSET_LOGS <= |s.b| && ParseHeader(Dropped(s)) == Ok(v[i].h)
      && Entries(v[i].h, Dropped(s)) == Entries(v[i].h, v[i].b) != []
  {
    hide FileOk, Entries, BackCount, Truncate, HeaderBytes, ParseHeader, ReadFile;
    TruncateShape(v, k, walSize);
    FileBelow(v, walSize, i);
    IdsAscend(v, walSize);
    var n := BackCount(v, k);
    assert n == i + 1;
    assert SegOk(v[i], walSize);
    CutBackOk(v[i], k, walSize);
    SegOrder(v[i], walSize);
    HeaderRoundTrip(v[i].h, v[i].b);
    assert JoinedAt(v, i);
    EntriesLength(v[i].h, v[i].b);
    NoEntriesYet(Last(Truncate(v, k, walSize)).h, Last(Truncate(v, k, walSize)).b);
  }

  lemma FileBelow(v: seq<Seg>, walSize: nat, i: nat)
    requires SetOk(v, walSize) && 0 < i < |v|
    ensures v[0].h.idFrom < v[i].h.idFrom
  {
    hide SegOk;
    IdsAscend(v, walSize);
  }
}
