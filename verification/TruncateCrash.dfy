/**
Truncation and the deep check. A truncation only moves the end in the header; the records behind it
stay in the file, and the check of an unclean start (hiqlite-wal/src/log_store.rs) looks for records
behind the end. So entries that were truncated, and maybe replaced, come back.
*/
module TruncateCrash {
  import opened Base
  import opened Records
  import opened Repair
  import opened CrashRepair
  import opened WalSet
  import opened WalRemove
  import opened WalRuns
  import opened WalMemo

  /** A truncation at `k` takes some of the file's entries and leaves some. */
  ghost predicate Inside(s: Seg, k: u64, walSize: nat) {
    SegOk(s, walSize) && ValidWalSize(walSize) && s.h.dataStart.Some? && s.h.idFrom < k <= s.h.idUntil
  }

  predicate SameLength(s: Seg, k: u64, p: seq<byte>) {
    0 <= k - s.h.idFrom < |Entries(s.h, s.b)| && |p| == |Entries(s.h, s.b)[k - s.h.idFrom]|
  }

  /** The file, truncated at `k`, as it is on disk once its header is written. */
  ghost function Truncated(s: Seg, k: u64, walSize: nat): Seg
    requires Inside(s, k, walSize)
  {
    CutBackHeader(s, k, walSize);
    Flushed(CutBack(s, k).value)
  }

  /** The check finds a header that it accepts in the bytes and ends with the records `ps`. */
  ghost predicate StartsTo(s: Seg, heal: bool, off: nat, id: nat, ps: seq<seq<byte>>) {
    && ParseHeader(s.b) == Ok(s.h)
    && OFFSET_LOGS <= |s.b| < U32_MAX && s.h.dataStart.Some? == s.h.dataEnd.Some?
    && ComesBack(s.h, s.b, heal, off, id, ps)
  }

  lemma TruncatedIs(s: Seg, k: u64, walSize: nat)
    requires Inside(s, k, walSize)
    ensures var es, n, start := Entries(s.h, s.b), k - s.h.idFrom, s.h.dataStart.value;
      && 1 <= n < |es| && s.h.idFrom + |es| == s.h.idUntil + 1
      && Image1(s.b, start, s.h.idFrom, es, n) && Image1(s.b, start, s.h.idFrom, es, |es|)
      && CutBack(s, k).Ok? && CutBack(s, k).value.b == s.b
      && CutBack(s, k).value.h == Covering(start, s.h.idFrom, es, n)
  {
    hide Chain, Next, Payloads, CutBack;
    CutBackOk(s, k, walSize);
    CutBackHeader(s, k, walSize);
    var t := CutBack(s, k).value;
    var es, n, start := Entries(s.h, s.b), k - s.h.idFrom, s.h.dataStart.value;
    NextSplit(start, es, n);
    assert es[..|es|] == es;
    assert t.h.dataEnd.value == Next(start, es[..n]) - 1;
  }

  /** Writing the header leaves the records and what follows them alone. */
  lemma WrittenHeader(b: seq<byte>, s: nat, id: nat, ps: seq<seq<byte>>, m: nat)
    requires Image1(b, s, id, ps, m)
    ensures var h := Covering(s, id, ps, m);
      var c := Splice(b, 0, HeaderBytes(h));
      && Image1(c, s, id, ps, m) && ParseHeader(c) == Ok(h)
      && Recoverable(c, Next(s, ps), Some(id + |ps| - 1)) == Recoverable(b, Next(s, ps), Some(id + |ps| - 1))
  {
    hide ReadRecord, RecordIn, HeaderBytes, Chain, Next, ParseHeader, Recoverable;
    var h := Covering(s, id, ps, m);
    var c := Splice(b, 0, HeaderBytes(h));
    ChainFrame(b, c, s, id, ps);
    SpliceSlice(b, 0, HeaderBytes(h));
    HeaderRoundTrip(h, c);
    SameRecoverable(b, c, Next(s, ps), Some(id + |ps| - 1));
  }

  /**
  What an unclean start makes of any file after any run, once its header is written: it ends with the
  entries of the file and with the records `qs`, and adds none if and only if nothing behind the end of
  the file reads as its next entry.
  */
  lemma UncleanStartExact(v: seq<Seg>, ops: seq<Op>, i: nat, walSize: nat, heal: bool)
    returns (s: Seg, qs: seq<seq<byte>>)
    requires SetOk(v, walSize) && LegalRun(v, ops, walSize)
    requires i < |Run(v, ops, walSize)| && Run(v, ops, walSize)[i].h.dataStart.Some?
    ensures s == Run(v, ops, walSize)[i] && SegOk(s, walSize)
    ensures StartsTo(Flushed(s), heal, s.h.dataStart.value, s.h.idFrom, Entries(s.h, s.b) + qs)
    ensures qs == [] <==> !Recoverable(s.b, Start(s.h), Some(s.h.idUntil))
  {
    hide FileOk, HeaderBytes, Chain, Next, ParseHeader, Recoverable, ComesBack, RepairedTo, Entries, Run, LegalRun;
    RunRefines(v, ops, walSize);
    s := Run(v, ops, walSize)[i];
    assert SegOk(s, walSize);
    FileImage(s.h, s.b);
    var es, start := Entries(s.h, s.b), s.h.dataStart.value;
    EndsAtStart(s, walSize);
    WrittenHeader(s.b, start, s.h.idFrom, es, |es|);
    qs := RepairExact(Flushed(s).b, start, s.h.idFrom, es, |es|, heal);
  }

  /**
  A truncation inside a file does not survive an unclean start: the check ends with every entry the file
  had before it, and with more if records of an earlier truncation follow those.
  */
  lemma TruncatedComesBack(s: Seg, k: u64, walSize: nat, heal: bool) returns (qs: seq<seq<byte>>)
    requires Inside(s, k, walSize)
    ensures var es := Entries(s.h, s.b);
      && StartsTo(Truncated(s, k, walSize), heal, s.h.dataStart.value, s.h.idFrom, es + qs)
      && (qs == [] <==> !Recoverable(s.b, Next(s.h.dataStart.value, es), Some(s.h.idUntil)))
  {
    hide FileOk, HeaderBytes, Chain, Next, ParseHeader, Recoverable, ComesBack, RepairedTo, CutBack, Entries;
    TruncatedIs(s, k, walSize);
    var es, n, start := Entries(s.h, s.b), k - s.h.idFrom, s.h.dataStart.value;
    WrittenHeader(s.b, start, s.h.idFrom, es, n);
    qs := RepairExact(Truncated(s, k, walSize).b, start, s.h.idFrom, es, n, heal);
  }

  /** Entry `k` of the truncated file appended anew, and the header written. */
  ghost function Replaced(s: Seg, k: u64, p: seq<byte>, walSize: nat): Seg
    requires Inside(s, k, walSize) && SameLength(s, k, p)
  {
    ReplacedFits(s, k, p, walSize);
    var t := CutBack(s, k).value;
    var img := Appended(t.h, t.b, k, p);
    Flushed(t.(h := img.h, b := img.b))
  }

  lemma ReplacedFits(s: Seg, k: u64, p: seq<byte>, walSize: nat)
    requires Inside(s, k, walSize) && SameLength(s, k, p)
    ensures CutBack(s, k).Ok?
    ensures var t := CutBack(s, k).value;
      && t.h.dataStart.Some? && |t.b| == walSize && OFFSET_LOGS <= walSize <= U32_MAX
      && Start(t.h) == Next(s.h.dataStart.value, Entries(s.h, s.b)[..k - s.h.idFrom])
      && HasSpace(t.h, |t.b|, |p|) && Start(t.h) + Stride(p) <= |t.b|
  {
    hide FileOk, Chain, CutBack, Entries;
    TruncatedIs(s, k, walSize);
    var es, n, start := Entries(s.h, s.b), k - s.h.idFrom, s.h.dataStart.value;
    NextSplit(start, es, n);
    assert es[n..][0] == es[n];
    var off := Next(start, es[..n]) + Stride(es[n]);
    assert off <= Next(off, es[n + 1..]);
    assert es[n..][1..] == es[n + 1..];
  }

  /** A record of the same length in place of record `n`: the records behind it stay where they are. */
  lemma ReplacedChain(b: seq<byte>, c: seq<byte>, s: nat, id: nat, es: seq<seq<byte>>, n: nat, p: seq<byte>)
    requires Chain(b, s, id, es) && n < |es| && |p| == |es[n]| && Next(s, es) <= |b| + 1 && |c| == |b|
    requires RecordIn(c, Next(s, es[..n]), id + n, p)
    requires forall i :: s <= i < Next(s, es[..n]) && i < |b| ==> c[i] == b[i]
    requires forall i :: Next(s, es[..n]) + Stride(p) <= i < |b| ==> c[i] == b[i]
    ensures Chain(c, s, id, es[n := p]) && Next(s, es[n := p]) == Next(s, es)
  {
    hide RecordIn;
    var qs := es[n := p];
    var off := Next(s, es[..n]);
    assert qs[..n] == es[..n] && qs[n..] == [p] + es[n + 1..] && es[n..] == [es[n]] + es[n + 1..];
    ChainSplit(b, s, id, es, n);
    NextSplit(s, es, n);
    NextSplit(s, qs, n);
    ChainFrame(b, c, s, id, es[..n]);
    assert es[n..][1..] == es[n + 1..] == qs[n..][1..];
    ChainFrame(b, c, off + Stride(p), id + n + 1, es[n + 1..]);
    ChainSplit(c, s, id, qs, n);
  }

  /** The bytes after the replacement, before the header is written. */
  lemma ReplacedImage(s: Seg, k: u64, p: seq<byte>, walSize: nat)
    requires Inside(s, k, walSize) && SameLength(s, k, p)
    ensures var es, n := Entries(s.h, s.b), k - s.h.idFrom;
      var e := Next(s.h.dataStart.value, es[..n]);
      && e + HEAD + |p| <= |s.b| && 0 < |p| <= U32_MAX
      && Image1(Splice(s.b, e, RecordBytes(k, p)), s.h.dataStart.value, s.h.idFrom, es[n := p], n + 1)
      && Next(s.h.dataStart.value, es[n := p]) == Next(s.h.dataStart.value, es)
  {
    hide FileOk, Chain, Next, RecordBytes, CutBack, Entries;
    TruncatedIs(s, k, walSize);
    ReplacedFits(s, k, p, walSize);
    var es, n, start := Entries(s.h, s.b), k - s.h.idFrom, s.h.dataStart.value;
    var e := Next(start, es[..n]);
    PayloadNonempty(s.b, start, s.h.idFrom, es, n);
    var c := Splice(s.b, e, RecordBytes(k, p));
    SpliceSlice(s.b, e, RecordBytes(k, p));
    ReplacedChain(s.b, c, start, s.h.idFrom, es, n, p);
    NextSplit(start, es[n := p], n + 1);
  }

  lemma PayloadNonempty(b: seq<byte>, s: nat, id: nat, ps: seq<seq<byte>>, n: nat)
    requires Chain(b, s, id, ps) && n < |ps|
    ensures 0 < |ps[n]| <= U32_MAX
  {
    hide RecordBytes;
    ChainSplit(b, s, id, ps, n);
    assert ps[n..][0] == ps[n];
  }

  /**
  Nor does a truncation that was followed by new entries: if the payload appended in place of entry `k`
  has the length of the old one, the check ends with the new entry and all the old ones behind it.
  */
  lemma ReplacedComesBack(s: Seg, k: u64, p: seq<byte>, walSize: nat, heal: bool) returns (qs: seq<seq<byte>>)
    requires Inside(s, k, walSize) && SameLength(s, k, p)
    ensures Entries(Replaced(s, k, p, walSize).h, Replaced(s, k, p, walSize).b)
      == Entries(s.h, s.b)[..k - s.h.idFrom] + [p]
    ensures StartsTo(Replaced(s, k, p, walSize), heal, s.h.dataStart.value, s.h.idFrom,
                     Entries(s.h, s.b)[k - s.h.idFrom := p] + qs)
    ensures qs == [] <==> !Recoverable(s.b, Next(s.h.dataStart.value, Entries(s.h, s.b)), Some(s.h.idUntil))
  {
    hide FileOk, HeaderBytes, RecordBytes, Chain, Next, ParseHeader, Recoverable, ComesBack, RepairedTo, CutBack;
    hide Entries;
    ReplacedEntries(s, k, p, walSize);
    ReplacedHeader(s, k, p, walSize);
    ReplacedImage(s, k, p, walSize);
    var es, n, start := Entries(s.h, s.b), k - s.h.idFrom, s.h.dataStart.value;
    var ps, e := es[n := p], Next(start, es[..n]);
    var c := Splice(s.b, e, RecordBytes(k, p));
    WrittenHeader(c, start, s.h.idFrom, ps, n + 1);
    qs := RepairExact(Replaced(s, k, p, walSize).b, start, s.h.idFrom, ps, n + 1, heal);
    SameRecoverable(s.b, c, Next(start, es), Some(s.h.idUntil));
  }

  lemma ReplacedHeader(s: Seg, k: u64, p: seq<byte>, walSize: nat)
    requires Inside(s, k, walSize) && SameLength(s, k, p)
    ensures var es, n, start := Entries(s.h, s.b), k - s.h.idFrom, s.h.dataStart.value;
      var r, e := Replaced(s, k, p, walSize), Next(start, es[..n]);
      && s.h.idFrom + |es| == s.h.idUntil + 1
      && |p| <= U32_MAX && e + HEAD + |p| < Next(start, es) <= |s.b|
      && Image1(Splice(s.b, e, RecordBytes(k, p)), start, s.h.idFrom, es[n := p], n + 1)
      && r.h == Covering(start, s.h.idFrom, es[n := p], n + 1)
      && r.b == Splice(Splice(s.b, e, RecordBytes(k, p)), 0, HeaderBytes(r.h))
  {
    hide FileOk, HeaderBytes, RecordBytes, Chain, Next, CutBack, Entries;
    TruncatedIs(s, k, walSize);
    ReplacedFits(s, k, p, walSize);
    ReplacedImage(s, k, p, walSize);
    var es, n, start := Entries(s.h, s.b), k - s.h.idFrom, s.h.dataStart.value;
    assert es[n := p][..n + 1] == es[..n] + [p];
    NextSnoc(start, es[..n], p);
    NextSplit(start, es[n := p], n + 1);
  }

  lemma ReplacedEntries(s: Seg, k: u64, p: seq<byte>, walSize: nat)
    requires Inside(s, k, walSize) && SameLength(s, k, p)
    ensures var r := Replaced(s, k, p, walSize);
      Entries(r.h, r.b) == Entries(s.h, s.b)[..k - s.h.idFrom] + [p]
  {
    hide FileOk, HeaderBytes, RecordBytes, Chain, Next, CutBack, Entries, Appended;
    TruncatedIs(s, k, walSize);
    ReplacedFits(s, k, p, walSize);
    ReplacedImage(s, k, p, walSize);
    CutBackOk(s, k, walSize);
    CutBackHeader(s, k, walSize);
    var t := CutBack(s, k).value;
    AppendedHolds(t.h, t.b, k, p);
    AppendedFields(t.h, t.b, k, p);
    var img := Appended(t.h, t.b, k, p);
    FlushedOk(t.(h := img.h, b := img.b), walSize);
  }
}
