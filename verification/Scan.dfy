/**
Reading a range of log entries out of one file (`WalFile::read_logs`), with the memoised start
position of a reader (`LogReadMemo`). The functions here specify the loops of `WalFile`; the lemmas
say what those loops deliver on a well-formed file.
*/
module Scan {
  import opened Base
  import opened Positional
  import opened Records

  datatype Memo = Memo(walNo: nat, idFrom: nat, lastLogId: nat, dataEnd: nat)

  datatype ReadError = BelowThreshold | AboveThreshold | Reversed | Integrity

  type Logs = seq<(nat, seq<byte>)>

  /** `memo` is None when the loop left without reaching `until`. */
  datatype ReadOut = ReadOut(offset: nat, logs: Logs, memo: Option<Memo>)

  /** The loop of `read_logs` at position `idx`, with the offset and the logs collected so far. */
  function ScanFrom(walNo: nat, first: nat, b: seq<byte>, idx: nat, from: nat, until: nat, offset: nat, logs: Logs)
    : Result<ReadOut, ReadError>
    decreases |b| - idx
  {
    match ReadRecord(b, idx)
    case None => Err(Integrity)
    case Some(r) =>
      var offset' := if r.id == from then idx else offset;
      if from <= r.id && until < r.id then Ok(ReadOut(offset', logs, None))
      else if from <= r.id && r.crc != Checksum(r.data) then Err(Integrity)
      else
        var logs' := if from <= r.id then logs + [(r.id, r.data)] else logs;
        if until <= r.id then Ok(ReadOut(offset', logs', Some(Memo(walNo, first, r.id, idx + HEAD + |r.data|))))
        else ScanFrom(walNo, first, b, idx + Stride(r.data), from, until, offset', logs')
  }

  predicate MemoMatches(memo: Option<Memo>, walNo: nat, h: Header, from: nat) {
    && memo.Some?
    && memo.value.walNo == walNo
    && memo.value.idFrom == h.idFrom
    && memo.value.lastLogId < from
  }

  function ReadLogs(walNo: nat, h: Header, b: seq<byte>, from: nat, until: nat, memo: Option<Memo>)
    : Result<ReadOut, ReadError>
    requires h.dataStart.Some?
  {
    if from < h.idFrom then Err(BelowThreshold)
    else if h.idUntil < until then Err(AboveThreshold)
    else if until < from then Err(Reversed)
    else
      var start := if MemoMatches(memo, walNo, h, from) then memo.value.dataEnd + 1 else h.dataStart.value;
      ScanFrom(walNo, h.idFrom, b, start, from, until, 0, [])
  }

  function Numbered(id: nat, ps: seq<seq<byte>>): (r: Logs)
    ensures |r| == |ps| && forall i :: 0 <= i < |r| ==> r[i] == (id + i, ps[i])
  {
    seq(|ps|, i requires 0 <= i < |ps| => (id + i, ps[i]))
  }

  /** From a record with `from <= id` on, everything up to `until` is collected. */
  lemma {:induction false} ScanCollects(walNo: nat, first: nat, b: seq<byte>, off: nat, id: nat,
                                        ps: seq<seq<byte>>, from: nat, until: nat, o: nat, logs: Logs)
    requires Chain(b, off, id, ps)
    requires from <= id <= until < id + |ps|
    ensures ScanFrom(walNo, first, b, off, from, until, o, logs) ==
            Ok(ReadOut(if id == from then off else o,
                       logs + Numbered(id, ps[..until - id + 1]),
                       Some(Memo(walNo, first, until, Next(off, ps[..until - id + 1]) - 1))))
    decreases |ps|
  {
    hide FromBe, ReadRecord, RecordIn, Next;
    var p, n := ps[0], until - id + 1;
    assert ReadRecord(b, off) == Some(Record(id, Checksum(p), p)) by { ReadRecordIn(b, off, id, p); }
    NextCons(off, ps, n);
    var logs' := logs + [(id, p)];
    if id < until {
      var qs := ps[1..];
      ScanCollects(walNo, first, b, off + Stride(p), id + 1, qs, from, until, if id == from then off else o, logs');
      assert logs' + Numbered(id + 1, qs[..n - 1]) == logs + Numbered(id, ps[..n]);
    } else {
      assert logs' == logs + Numbered(id, ps[..n]);
      assert Next(off + Stride(p), ps[1..][..0]) == off + Stride(p) by { NextNil(off + Stride(p)); }
    }
  }

  lemma NextNil(off: nat)
    ensures Next(off, []) == off
  {
  }

  /** Scanning a chain: ids below `from` are skipped, `from..=until` collected, and the end remembered. */
  lemma {:induction false} ScanChain(walNo: nat, first: nat, b: seq<byte>, off: nat, id: nat,
                                     ps: seq<seq<byte>>, from: nat, until: nat)
    requires Chain(b, off, id, ps)
    requires id <= from <= until < id + |ps|
    ensures ScanFrom(walNo, first, b, off, from, until, 0, []) ==
            Ok(ReadOut(Next(off, ps[..from - id]),
                       Numbered(from, ps[from - id..until - id + 1]),
                       Some(Memo(walNo, first, until, Next(off, ps[..until - id + 1]) - 1))))
    decreases |ps|
  {
    hide FromBe, ReadRecord, RecordIn, Next;
    var p := ps[0];
    assert ReadRecord(b, off) == Some(Record(id, Checksum(p), p)) by { ReadRecordIn(b, off, id, p); }
    NextCons(off, ps, from - id);
    if id < from {
      ScanChain(walNo, first, b, off + Stride(p), id + 1, ps[1..], from, until);
      NextCons(off, ps, until - id + 1);
      assert ps[1..] == ps[1..1 + (|ps| - 1)];
      Subslice(ps, 1, |ps| - 1, from - id - 1, until - id);
    } else {
      ScanCollects(walNo, first, b, off, id, ps, from, until, 0, []);
      assert [] + Numbered(id, ps[..until - id + 1]) == Numbered(id, ps[0..until - id + 1]);
    }
  }

  lemma {:induction false} NextCons(off: nat, ps: seq<seq<byte>>, k: nat)
    requires k <= |ps| && ps != []
    ensures Next(off, ps[..k]) == if k == 0 then off else Next(off + Stride(ps[0]), ps[1..][..k - 1])
  {
    if k > 0 {
      assert ps[..k][1..] == ps[1..][..k - 1];
    }
  }

  // ---- reading any bytes

  /** Every entry is stored as a complete record, and asked for. */
  ghost predicate Stored(b: seq<byte>, from: nat, until: nat, logs: Logs) {
    forall i :: 0 <= i < |logs| ==>
      from <= logs[i].0 <= until && exists off :: RecordIn(b, off, logs[i].0, logs[i].1)
  }

  lemma {:induction false} ScanSound(walNo: nat, first: nat, b: seq<byte>, idx: nat, from: nat, until: nat,
                                     offset: nat, logs: Logs)
    requires |b| <= U32_MAX && Stored(b, from, until, logs)
    requires ScanFrom(walNo, first, b, idx, from, until, offset, logs).Ok?
    ensures Stored(b, from, until, ScanFrom(walNo, first, b, idx, from, until, offset, logs).value.logs)
    decreases |b| - idx
  {
    hide FromBe, ReadRecord, RecordIn;
    ReadRecordBounds(b, idx);
    var r := ReadRecord(b, idx).value;
    if r.id <= until {
      var logs' := if from <= r.id then logs + [(r.id as nat, r.data)] else logs;
      if from <= r.id {
        RecordRead(b, idx);
        assert Stored(b, from, until, logs');
      }
      if r.id < until {
        ScanSound(walNo, first, b, idx + Stride(r.data), from, until, if r.id == from then idx else offset, logs');
      }
    }
  }

  /** Whatever the bytes, the range and the memo are: what a read returns is stored, complete and unharmed. */
  lemma ReadSound(walNo: nat, h: Header, b: seq<byte>, from: nat, until: nat, memo: Option<Memo>)
    requires |b| <= U32_MAX && h.dataStart.Some? && ReadLogs(walNo, h, b, from, until, memo).Ok?
    ensures h.idFrom <= from <= until <= h.idUntil
    ensures Stored(b, from, until, ReadLogs(walNo, h, b, from, until, memo).value.logs)
  {
    hide ScanFrom;
    var start := if MemoMatches(memo, walNo, h, from) then memo.value.dataEnd + 1 else h.dataStart.value;
    ScanSound(walNo, h.idFrom, b, start, from, until, 0, []);
  }

  /** Readable records with consecutive ids, whatever their checksums say. */
  ghost predicate Readable(b: seq<byte>, off: nat, id: nat, rs: seq<Record>)
    decreases |rs|
  {
    rs == [] || (ReadRecord(b, off) == Some(rs[0]) && rs[0].id == id
                 && Readable(b, off + Stride(rs[0].data), id + 1, rs[1..]))
  }

  ghost predicate IntactAt(rs: seq<Record>, i: nat)
    requires i < |rs|
  {
    rs[i].crc == Checksum(rs[i].data)
  }

  ghost predicate Intact(rs: seq<Record>, id: nat, from: nat, until: nat) {
    forall i :: 0 <= i < |rs| && from <= id + i <= until ==> IntactAt(rs, i)
  }

  /** The ids asked for, with their data. */
  function Picked(rs: seq<Record>, id: nat, from: nat, until: nat): Logs
    decreases |rs|
  {
    if rs == [] then []
    else (if from <= id <= until then [(id, rs[0].data)] else []) + Picked(rs[1..], id + 1, from, until)
  }

  lemma IntactCons(rs: seq<Record>, id: nat, from: nat, until: nat)
    requires rs != []
    ensures Intact(rs, id, from, until) <==>
      (from <= id <= until ==> IntactAt(rs, 0)) && Intact(rs[1..], id + 1, from, until)
  {
    if Intact(rs, id, from, until) {
      forall i | 0 <= i < |rs| - 1 && from <= id + 1 + i <= until ensures IntactAt(rs[1..], i) {
        assert IntactAt(rs, i + 1);
      }
    }
    if (from <= id <= until ==> IntactAt(rs, 0)) && Intact(rs[1..], id + 1, from, until) {
      forall i | 0 <= i < |rs| && from <= id + i <= until ensures IntactAt(rs, i) {
        if i > 0 {
          assert IntactAt(rs[1..], i - 1);
        }
      }
    }
  }

  lemma {:induction false} NothingBehind(rs: seq<Record>, id: nat, from: nat, until: nat)
    requires until < id
    ensures Picked(rs, id, from, until) == [] && Intact(rs, id, from, until)
    decreases |rs|
  {
    if rs != [] {
      NothingBehind(rs[1..], id + 1, from, until);
    }
  }

  /** One record of the scan, before the range ends. */
  lemma ScanStep(walNo: nat, first: nat, b: seq<byte>, off: nat, r: Record, from: nat, until: nat, o: nat, logs: Logs)
    requires ReadRecord(b, off) == Some(r) && from <= until && r.id <= until
    ensures var scan := ScanFrom(walNo, first, b, off, from, until, o, logs);
      var bad := from <= r.id && r.crc != Checksum(r.data);
      var o' := if r.id == from then off else o;
      var logs' := if from <= r.id then logs + [(r.id as nat, r.data)] else logs;
      && (bad ==> scan == Err(Integrity))
      && (!bad && r.id == until ==> scan.Ok? && scan.value.logs == logs')
      && (!bad && r.id < until ==>
           scan == ScanFrom(walNo, first, b, off + Stride(r.data), from, until, o', logs'))
  {
    hide FromBe, ReadRecord;
    ReadRecordBounds(b, off);
  }

  /** A scan returns everything asked for, or fails at the first record asked for whose checksum is wrong. */
  lemma {:induction false} ScanReadable(walNo: nat, first: nat, b: seq<byte>, off: nat, id: nat, rs: seq<Record>,
                                        from: nat, until: nat, o: nat, logs: Logs)
    requires Readable(b, off, id, rs) && from <= until && id <= until < id + |rs|
    ensures var r := ScanFrom(walNo, first, b, off, from, until, o, logs);
      && (r.Ok? <==> Intact(rs, id, from, until))
      && (r.Err? ==> r.error == Integrity)
      && (r.Ok? ==> r.value.logs == logs + Picked(rs, id, from, until))
    decreases |rs|
  {
    hide FromBe, ReadRecord, Intact, ScanFrom;
    var r, rest := rs[0], Picked(rs[1..], id + 1, from, until);
    IntactCons(rs, id, from, until);
    ScanStep(walNo, first, b, off, r, from, until, o, logs);
    var o', logs' := if id == from then off else o, if from <= id then logs + [(id, r.data)] else logs;
    assert Picked(rs, id, from, until) == (if from <= id then [(id, r.data)] else []) + rest;
    assert logs' + rest == logs + Picked(rs, id, from, until);
    if id < until {
      if from <= id ==> IntactAt(rs, 0) {
        ScanReadable(walNo, first, b, off + Stride(r.data), id + 1, rs[1..], from, until, o', logs');
      }
    } else {
      NothingBehind(rs[1..], id + 1, from, until);
    }
  }

  /** Where the record behind `rs` starts. */
  function Behind(off: nat, rs: seq<Record>): nat
    decreases |rs|
  {
    if rs == [] then off else Behind(off + Stride(rs[0].data), rs[1..])
  }

  /** An unreadable record before the end of the range fails the scan, whatever was collected. */
  lemma {:induction false} ScanUnreadable(walNo: nat, first: nat, b: seq<byte>, off: nat, id: nat, rs: seq<Record>,
                                          from: nat, until: nat, o: nat, logs: Logs)
    requires Readable(b, off, id, rs) && from <= until && id + |rs| <= until
    requires ReadRecord(b, Behind(off, rs)).None?
    ensures ScanFrom(walNo, first, b, off, from, until, o, logs) == Err(Integrity)
    decreases |rs|
  {
    hide FromBe, ReadRecord;
    if rs != [] {
      var r := rs[0];
      ScanStep(walNo, first, b, off, r, from, until, o, logs);
      var o', logs' := if id == from then off else o, if from <= id then logs + [(id, r.data)] else logs;
      ScanUnreadable(walNo, first, b, off + Stride(r.data), id + 1, rs[1..], from, until, o', logs');
    }
  }

  lemma ReadUnreadable(walNo: nat, h: Header, b: seq<byte>, rs: seq<Record>, from: nat, until: nat)
    requires h.dataStart.Some? && Readable(b, h.dataStart.value, h.idFrom, rs)
    requires h.idFrom <= from <= until <= h.idUntil && h.idFrom + |rs| <= until
    requires ReadRecord(b, Behind(h.dataStart.value, rs)).None?
    ensures ReadLogs(walNo, h, b, from, until, None) == Err(Integrity)
  {
    hide ScanFrom, Readable, ReadRecord;
    ScanUnreadable(walNo, h.idFrom, b, h.dataStart.value, h.idFrom, rs, from, until, 0, []);
  }

  /**
  A file whose records are readable but may be corrupt: a read succeeds if and only if the range is the
  file's and every record in it has the checksum of its data, and then returns all of it.
  */
  lemma ReadReadable(walNo: nat, h: Header, b: seq<byte>, rs: seq<Record>, from: nat, until: nat)
    requires h.dataStart.Some? && Readable(b, h.dataStart.value, h.idFrom, rs) && h.idFrom + |rs| == h.idUntil + 1
    ensures var r := ReadLogs(walNo, h, b, from, until, None);
      && (r.Ok? <==> h.idFrom <= from <= until <= h.idUntil && Intact(rs, h.idFrom, from, until))
      && (h.idFrom <= from <= until <= h.idUntil && r.Err? ==> r.error == Integrity)
      && (r.Ok? ==> r.value.logs == Picked(rs, h.idFrom, from, until))
  {
    hide ScanFrom, Readable, Intact, Picked;
    if h.idFrom <= from <= until <= h.idUntil {
      ScanReadable(walNo, h.idFrom, b, h.dataStart.value, h.idFrom, rs, from, until, 0, []);
      assert [] + Picked(rs, h.idFrom, from, until) == Picked(rs, h.idFrom, from, until);
    }
  }

  // ---- reading a well-formed file

  /** If the memo applies to this file, it points behind the record of `lastLogId`. */
  ghost predicate MemoFits(memo: Option<Memo>, walNo: nat, h: Header, b: seq<byte>) {
    memo.Some? && memo.value.walNo == walNo && memo.value.idFrom == h.idFrom && h.dataStart.Some? ==>
      && h.idFrom <= memo.value.lastLogId <= h.idUntil
      && Count(h) == |Entries(h, b)|
      && memo.value.dataEnd + 1 == Next(h.dataStart.value, Entries(h, b)[..memo.value.lastLogId - h.idFrom + 1])
  }

  /** Exactly the requested entries, the offset of the first of them, and a memo that fits again. */
  lemma ReadLogsExact(walNo: nat, h: Header, b: seq<byte>, from: nat, until: nat, memo: Option<Memo>)
    requires FileOk(h, b) && h.dataStart.Some?
    requires h.idFrom <= from <= until <= h.idUntil
    requires MemoFits(memo, walNo, h, b)
    ensures |Entries(h, b)| == Count(h)
    ensures ReadLogs(walNo, h, b, from, until, memo) ==
            Ok(ReadOut(Next(h.dataStart.value, Entries(h, b)[..from - h.idFrom]),
                       Numbered(from, Entries(h, b)[from - h.idFrom..until - h.idFrom + 1]),
                       Some(Memo(walNo, h.idFrom, until,
                                 Next(h.dataStart.value, Entries(h, b)[..until - h.idFrom + 1]) - 1))))
    ensures MemoFits(ReadLogs(walNo, h, b, from, until, memo).value.memo, walNo, h, b)
  {
    hide ScanFrom, Chain, Next, Payloads, RecordIn, ReadRecord, FromBe;
    var ps, start := Entries(h, b), h.dataStart.value;
    if MemoMatches(memo, walNo, h, from) {
      var k := memo.value.lastLogId - h.idFrom + 1;
      var mid := Next(start, ps[..k]);
      ChainSplit(b, start, h.idFrom, ps, k);
      ScanChain(walNo, h.idFrom, b, mid, h.idFrom + k, ps[k..], from, until);
      NextThrough(start, ps, k, from - h.idFrom);
      NextThrough(start, ps, k, until - h.idFrom + 1);
      assert ps[k..] == ps[k..k + (|ps| - k)];
      Subslice(ps, k, |ps| - k, from - h.idFrom - k, until - h.idFrom + 1 - k);
    } else {
      ScanChain(walNo, h.idFrom, b, start, h.idFrom, ps, from, until);
    }
  }

  lemma NextThrough(off: nat, ps: seq<seq<byte>>, k: nat, n: nat)
    requires k <= n <= |ps|
    ensures Next(Next(off, ps[..k]), ps[k..][..n - k]) == Next(off, ps[..n])
  {
    NextSplit(off, ps[..n], k);
    assert ps[..n][..k] == ps[..k] && ps[..n][k..] == ps[k..][..n - k];
  }

  /** The memoised read is the full scan. */
  lemma MemoIsTransparent(walNo: nat, h: Header, b: seq<byte>, from: nat, until: nat, memo: Option<Memo>)
    requires FileOk(h, b) && h.dataStart.Some?
    requires MemoFits(memo, walNo, h, b)
    ensures ReadLogs(walNo, h, b, from, until, memo) == ReadLogs(walNo, h, b, from, until, None)
  {
    hide ScanFrom, Chain, Next, Payloads, RecordIn, ReadRecord, FromBe;
    if h.idFrom <= from <= until <= h.idUntil {
      ReadLogsExact(walNo, h, b, from, until, memo);
      ReadLogsExact(walNo, h, b, from, until, None);
    }
  }
}
