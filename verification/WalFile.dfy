/**
One memory-mapped WAL file (`WalFile` in hiqlite-wal/src/wal.rs). The header values live in fields,
the bytes in the mapped array. A mapping is a reference to the array that is the file's content, so
that a reader's read-only map and the writer's map of the same file share their bytes.
*/
module WalFiles {
  import opened Base
  import opened Positional
  import opened Records
  import opened Scan
  import opened Repair

  /** `write_all` into a slice of the map. */
  method WriteAt(a: array<byte>, off: nat, w: seq<byte>)
    requires off + |w| <= a.Length
    modifies a
    ensures a[..] == Splice(old(a[..]), off, w)
  {
    forall i | 0 <= i < |w| {
      a[off + i] := w[i];
    }
    assert forall i :: 0 <= i < a.Length ==>
      a[i] == if off <= i < off + |w| then w[i - off] else old(a[..])[i];
  }

  /** Crc, length, data and, last, the id of one record. */
  method WriteRecord(a: array<byte>, start: nat, id: u64, data: seq<byte>) returns (ghost writes: seq<seq<byte>>)
    requires |data| <= U32_MAX && start + HEAD + |data| <= a.Length
    modifies a
    ensures writes == AppendWrites(old(a[..]), start, id, data)
    ensures a[..] == Splice(old(a[..]), start, RecordBytes(id, data))
  {
    hide Be, Splice, RecordBytes;
    writes := AppendWrites(a[..], start, id, data);
    AppendWritesRecord(a[..], start, id, data);
    WriteAt(a, start + 8, Checksum(data));
    assert a[..] == writes[1];
    WriteAt(a, start + 8 + 4, Be(|data|, 4));
    assert a[..] == writes[2];
    WriteAt(a, start + 8 + 4 + 4, data);
    assert a[..] == writes[3];
    WriteAt(a, start, Be(id, 8));
  }

  /** `read_logs` on a mapped file with the header values `h`. */
  method ReadMapped(walNo: u64, h: Header, mmap: array<byte>, from: u64, until: u64, memo: Option<Memo>)
    returns (res: Result<ReadOut, ReadError>)
    requires mmap.Length < U32_MAX && h.dataStart.Some?
    requires MemoMatches(memo, walNo, h, from) ==> memo.value.dataEnd < U32_MAX
    ensures res == Scan.ReadLogs(walNo, h, mmap[..], from, until, memo)
    ensures res.Ok? ==> h.idFrom <= from <= until <= h.idUntil && Stored(mmap[..], from, until, res.value.logs)
  {
    hide ReadRecord, Stored;
    if Scan.ReadLogs(walNo, h, mmap[..], from, until, memo).Ok? {
      ReadSound(walNo, h, mmap[..], from, until, memo);
    }
    if h.idFrom > from {
      return Err(BelowThreshold);
    }
    if h.idUntil < until {
      return Err(AboveThreshold);
    }
    if until < from {
      return Err(Reversed);
    }
    var b := mmap[..];
    var idx: u32 := h.dataStart.value;
    var offset: u32, logs: Logs := 0, [];
    if MemoMatches(memo, walNo, h, from) {
      idx := memo.value.dataEnd + 1;
    }
    while true
      invariant Scan.ReadLogs(walNo, h, b, from, until, memo)
             == ScanFrom(walNo, h.idFrom, b, idx, from, until, offset, logs)
      decreases |b| - idx
    {
      var record := ReadRecord(b, idx);
      if record.None? {
        return Err(Integrity);
      }
      var r := record.value;
      ReadRecordBounds(b, idx);
      if r.id == from {
        offset := idx;
      }
      if from <= r.id {
        if r.id <= until {
          if r.crc != Checksum(r.data) {
            return Err(Integrity);
          }
          logs := logs + [(r.id, r.data)];
        } else {
          return Ok(ReadOut(offset, logs, None));
        }
      }
      if until <= r.id {
        return Ok(ReadOut(offset, logs, Some(Memo(walNo, h.idFrom, r.id, idx + HEAD + |r.data|))));
      }
      idx := idx + Stride(r.data);
    }
  }

  class WalFile {
    const walNo: u64
    const lenMax: u32
    var idFrom: u64
    var idUntil: u64
    var dataStart: Option<u32>
    var dataEnd: Option<u32>
    var mmap: array?<byte>
    var mmapMut: array?<byte>

    constructor (walNo: u64, h: Header, lenMax: u32)
      ensures this.walNo == walNo && this.lenMax == lenMax
      ensures H() == h && mmap == null && mmapMut == null
    {
      this.walNo, this.lenMax := walNo, lenMax;
      idFrom, idUntil, dataStart, dataEnd := h.idFrom, h.idUntil, h.dataStart, h.dataEnd;
      mmap, mmapMut := null, null;
    }

    function H(): Header
      reads this
    {
      Header(idFrom, idUntil, dataStart, dataEnd)
    }

    /** `read_bytes` prefers the read-only map. */
    function Mapped(): array?<byte>
      reads this
    {
      if mmap != null then mmap else mmapMut
    }

    function SpaceLeft(): nat
      reads this
    {
      Max(0, lenMax - OrZero(if dataEnd.None? then Some(OFFSET_LOGS) else dataEnd))
    }

    method UpdateHeader()
      requires mmapMut != null && OFFSET_LOGS <= mmapMut.Length
      modifies mmapMut
      ensures mmapMut[..] == Splice(old(mmapMut[..]), 0, HeaderBytes(H()))
    {
      WriteAt(mmapMut, 0, HeaderBytes(H()));
    }

    /**
    Appends one record; the id bytes are written after everything else. A payload that does not fit
    fails after crc and length were written, and leaves a first record half entered in the fields.
    */
    method AppendLog(id: u64, data: seq<byte>) returns (ok: bool, ghost writes: seq<seq<byte>>)
      requires mmapMut != null && mmapMut.Length == lenMax && OFFSET_LOGS <= lenMax
      requires dataStart.Some? == dataEnd.Some?
      requires |data| <= U32_MAX && Start(H()) + HEAD <= lenMax
      modifies this`idFrom, this`idUntil, this`dataStart, this`dataEnd, mmapMut
      ensures ok <==> old(Start(H())) + HEAD + |data| <= lenMax
      ensures ok ==> Image(H(), mmapMut[..]) == Appended(old(H()), old(mmapMut[..]), id, data)
      ensures ok ==> writes == AppendWrites(old(mmapMut[..]), old(Start(H())), id, data)
      ensures !ok ==> H() == if old(dataStart).None?
                             then old(H()).(idFrom := id, dataStart := Some(OFFSET_LOGS))
                             else old(H())
    {
      hide Be, HeaderBytes, RecordBytes, Splice, AppendWrites;
      var start: u32;
      var updateHeader := dataStart.None?;
      if updateHeader {
        idFrom := id;
        start := OFFSET_LOGS;
        dataStart := Some(start);
      } else {
        start := dataEnd.value + 1;
      }
      if lenMax < start + 8 + 4 + 4 + |data| {
        WriteAt(mmapMut, start + 8, Checksum(data));
        WriteAt(mmapMut, start + 8 + 4, Be(|data|, 4));
        WriteAt(mmapMut, start + 8 + 4 + 4, data[..lenMax - start - HEAD]);
        return false, [];
      }
      writes := WriteRecord(mmapMut, start, id, data);

      idUntil := id;
      dataEnd := Some(start + 8 + 4 + 4 + |data|);
      if updateHeader {
        UpdateHeader();
      }
      ok := true;
    }

    method ReadLogs(from: u64, until: u64, memo: Option<Memo>) returns (res: Result<ReadOut, ReadError>)
      requires Mapped() != null && Mapped().Length == lenMax < U32_MAX
      requires dataStart.Some? && dataEnd.Some?
      requires MemoMatches(memo, walNo, H(), from) ==> memo.value.dataEnd < U32_MAX
      ensures res == Scan.ReadLogs(walNo, H(), Mapped()[..], from, until, memo)
      ensures res.Ok? ==> Stored(Mapped()[..], from, until, res.value.logs)
    {
      res := ReadMapped(walNo, H(), Mapped(), from, until, memo);
    }

    /** Phase one of the deep check: reads only. */
    method CheckKnownRecords() returns (known: Known)
      requires Mapped() != null && Mapped().Length == lenMax < U32_MAX
      requires dataStart.Some? && dataEnd.Some?
      ensures known == CheckKnown(Mapped()[..], H(), dataStart.value, None)
    {
      hide ReadRecord;
      var b := Mapped()[..];
      var offset: u32 := dataStart.value;
      var before: Option<u64> := None;
      while true
        invariant CheckKnown(b, H(), dataStart.value, None) == CheckKnown(b, H(), offset, before)
        decreases |b| - offset
      {
        var record := ReadRecord(b, offset);
        if record.None? || (before.Some? && record.value.id != before.value + 1) {
          return Broken;
        }
        var r := record.value;
        ReadRecordBounds(b, offset);
        if r.crc != Checksum(r.data) {
          return Bad(offset, before);
        }
        before := Some(r.id);
        offset := offset + Stride(r.data);
        if offset > dataEnd.value || r.id == idUntil {
          return Done(offset, before);
        }
      }
    }

    /** Phase two: complete records behind the known ones enter the header one by one. */
    method RecoverRecords(start: u32, known: Option<u64>)
      requires mmapMut != null && mmapMut.Length == lenMax && OFFSET_LOGS <= lenMax < U32_MAX
      modifies this`idUntil, this`dataStart, this`dataEnd, mmapMut
      ensures Image(H(), mmapMut[..]) == Recover(old(mmapMut[..]), old(H()), start, known)
    {
      hide ReadRecord, HeaderBytes, Splice;
      var offset: u32 := start;
      var before: Option<u64> := known;
      while offset + HEAD <= lenMax
        invariant Recover(old(mmapMut[..]), old(H()), start, known) == Recover(mmapMut[..], H(), offset, before)
        decreases lenMax - offset
      {
        var record := ReadRecord(mmapMut[..], offset);
        if record.None? || record.value.id == 0 {
          break;
        }
        var r := record.value;
        ReadRecordBounds(mmapMut[..], offset);
        if before.Some? && r.id != before.value + 1 {
          break;
        }
        before := Some(r.id);
        if r.crc != Checksum(r.data) {
          break;
        }
        idUntil := r.id;
        if dataStart.None? {
          dataStart := Some(offset);
        }
        dataEnd := Some(offset + HEAD + |r.data|);
        UpdateHeader();
        offset := offset + Stride(r.data);
      }
    }

    /** The deep check; on success fields and bytes are those of `RepairFile`. */
    method CheckRepair(heal: bool) returns (ok: bool)
      requires mmapMut != null && mmap == null && mmapMut.Length == lenMax
      requires OFFSET_LOGS <= lenMax < U32_MAX && dataStart.Some? == dataEnd.Some?
      modifies this`idUntil, this`dataStart, this`dataEnd, mmapMut
      ensures ok <==> RepairFile(old(H()), old(mmapMut[..]), heal).Ok?
      ensures ok ==> Image(H(), mmapMut[..]) == RepairFile(old(H()), old(mmapMut[..]), heal).value
    {
      hide Recover, CheckKnown, Splice;
      if dataStart.None? {
        RecoverRecords(OFFSET_LOGS + 1, None);
        return true;
      }
      var known := CheckKnownRecords();
      match known
      case Broken =>
        return false;
      case Bad(offset, before) =>
        if !heal {
          return false;
        }
        BadOffset(mmapMut[..], H(), dataStart.value, None);
        if before.Some? {
          idUntil := before.value;
          dataEnd := Some(offset - 1);
        } else {
          dataStart := None;
          dataEnd := None;
          idUntil := idFrom;
        }
        WriteAt(mmapMut, offset, NULL_ID);
        return true;
      case Done(offset, before) =>
        KnownOffset(mmapMut[..], H(), dataStart.value, None);
        RecoverRecords(offset, before);
        return true;
    }
  }

  /**
  What a longer payload does to the fresh file it is rolled over to: the append fails, and leaves a start
  of the data without an end. The next append takes that file for one with data and unwraps the end.
  */
  method AppendTooLong(f: WalFile, id: u64, data: seq<byte>) returns (ok: bool)
    requires f.mmapMut != null && f.mmapMut.Length == f.lenMax && MIN_WAL_SIZE <= f.lenMax
    requires f.dataStart.None? && f.dataEnd.None? && f.lenMax - 48 < |data| <= f.lenMax - 34
    modifies f`idFrom, f`idUntil, f`dataStart, f`dataEnd, f.mmapMut
    ensures !ok && f.H() == old(f.H()).(idFrom := id, dataStart := Some(OFFSET_LOGS))
    ensures f.dataStart.Some? && f.dataEnd.None?
  {
    ghost var writes;
    ok, writes := f.AppendLog(id, data);
  }
}
