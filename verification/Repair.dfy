/**
The deep integrity check of the last WAL file (`WalFile::check_repair_data_integrity`): phase one
walks the records the header knows about, phase two picks up complete records the header missed.
*/
module Repair {
  import opened Base
  import opened Positional
  import opened Records

  datatype Known = Broken | Bad(off: nat, before: Option<u64>) | Done(off: nat, before: Option<u64>)

  /** Phase one. `Bad` is a checksum mismatch, `Broken` an unreadable record or a gap in the ids. */
  function CheckKnown(b: seq<byte>, h: Header, off: nat, before: Option<u64>): Known
    requires h.dataEnd.Some?
    decreases |b| - off
  {
    match ReadRecord(b, off)
    case None => Broken
    case Some(r) =>
      if before.Some? && r.id != before.value + 1 then Broken
      else if r.crc != Checksum(r.data) then Bad(off, before)
      else
        var next := off + Stride(r.data);
        if h.dataEnd.value < next || r.id == h.idUntil then Done(next, Some(r.id))
        else CheckKnown(b, h, next, Some(r.id))
  }

  /** Does phase two take the record at `off` over? */
  predicate Recoverable(b: seq<byte>, off: nat, before: Option<u64>) {
    var r := ReadRecord(b, off);
    && r.Some?
    && 0 < r.value.id
    && (before.Some? ==> r.value.id == before.value + 1)
    && r.value.crc == Checksum(r.value.data)
  }

  /** Phase two: every recovered record is entered into the header at once. */
  function Recover(b: seq<byte>, h: Header, off: nat, before: Option<u64>): Image
    requires OFFSET_LOGS <= |b| < U32_MAX
    decreases |b| - off
  {
    if off + HEAD > |b| || !Recoverable(b, off, before) then Image(h, b)
    else
      var r := ReadRecord(b, off).value;
      var h' := h.(idUntil := r.id,
                   dataStart := if h.dataStart.None? then Some(off) else h.dataStart,
                   dataEnd := Some(off + HEAD + |r.data|));
      var b' := Splice(b, 0, HeaderBytes(h'));
      var next := off + Stride(r.data);
      if |b| <= next then Image(h', b') else Recover(b', h', next, Some(r.id))
  }

  const NULL_ID: seq<byte> := [0, 0, 0, 0, 0, 0, 0, 0]

  /** `heal` is the `auto-heal` feature; without it a bad checksum is an error. */
  function RepairFile(h: Header, b: seq<byte>, heal: bool): Result<Image, ()>
    requires OFFSET_LOGS <= |b| < U32_MAX && h.dataStart.Some? == h.dataEnd.Some?
  {
    if h.dataStart.None? then Ok(Recover(b, h, OFFSET_LOGS + 1, None))
    else match CheckKnown(b, h, h.dataStart.value, None)
      case Broken => Err(())
      case Bad(off, before) =>
        if !heal then Err(())
        else if before.None? then
          BadOffset(b, h, h.dataStart.value, None);
          Ok(Image(h.(idUntil := h.idFrom, dataStart := None, dataEnd := None), Splice(b, off, NULL_ID)))
        else
          BadOffset(b, h, h.dataStart.value, None);
          Ok(Image(h.(idUntil := before.value, dataEnd := Some(off - 1)), Splice(b, off, NULL_ID)))
      case Done(off, before) => Ok(Recover(b, h, off, before))
  }

  /** A bad record is a readable one, hence inside the file; behind another one it is not at offset 0. */
  lemma {:induction false} BadOffset(b: seq<byte>, h: Header, off: nat, before: Option<u64>)
    requires h.dataEnd.Some? && CheckKnown(b, h, off, before).Bad?
    requires before.Some? ==> 0 < off
    ensures CheckKnown(b, h, off, before).off + HEAD <= |b|
    ensures CheckKnown(b, h, off, before).before.Some? ==> 0 < CheckKnown(b, h, off, before).off
    decreases |b| - off
  {
    hide FromBe;
    var r := ReadRecord(b, off).value;
    if r.crc == Checksum(r.data) {
      BadOffset(b, h, off + Stride(r.data), Some(r.id));
    }
  }

  lemma {:induction false} KnownOffset(b: seq<byte>, h: Header, off: nat, before: Option<u64>)
    requires h.dataEnd.Some? && CheckKnown(b, h, off, before).Done?
    ensures CheckKnown(b, h, off, before).off <= |b| + 1
    decreases |b| - off
  {
    hide ReadRecord;
    var r := ReadRecord(b, off).value;
    ReadRecordBounds(b, off);
    var next := off + Stride(r.data);
    if next <= h.dataEnd.value && r.id != h.idUntil {
      KnownOffset(b, h, next, Some(r.id));
    }
  }

  // ---- phase one on any bytes

  /** Phase one goes on behind the records `ps`: the header claims more of them. */
  ghost predicate Claims(h: Header, off: nat, id: nat, ps: seq<seq<byte>>)
    requires h.dataEnd.Some?
  {
    ps == [] || (Next(off, ps) <= h.dataEnd.value && id + |ps| - 1 != h.idUntil)
  }

  /** How phase one ends, at offset `o` behind the records `ps` with the first id `id`. */
  ghost predicate KnownEnds(b: seq<byte>, h: Header, off: nat, before: Option<u64>, id: nat, ps: seq<seq<byte>>)
    requires h.dataEnd.Some?
  {
    var o, last := Next(off, ps), if ps == [] then before else Some(id + |ps| - 1);
    match CheckKnown(b, h, off, before)
    case Done(o', before') =>
      ps != [] && o' == o && before' == last && (h.dataEnd.value < o || id + |ps| - 1 == h.idUntil)
    case Bad(o', before') =>
      Claims(h, off, id, ps) && o' == o && before' == last
      && (if last.Some? then BadAt(b, o, id + |ps|) else exists i :: BadAt(b, o, i))
    case Broken =>
      Claims(h, off, id, ps)
      && (ReadRecord(b, o).None? || (last.Some? && ReadRecord(b, o).value.id != id + |ps|))
  }

  /**
  Phase one, whatever the bytes are: it walks over the complete records `ps`, ids consecutive. It is
  done only where the records reach what the header claims; a record with a wrong checksum, an
  unreadable one and one with another id stop it before that.
  */
  lemma {:induction false} KnownExact(b: seq<byte>, h: Header, off: nat, before: Option<u64>)
    returns (id: nat, ps: seq<seq<byte>>)
    requires |b| <= U32_MAX && h.dataEnd.Some?
    ensures Chain(b, off, id, ps) && (before.Some? ==> id == before.value + 1)
    ensures KnownEnds(b, h, off, before, id, ps)
    decreases |b| - off
  {
    hide FromBe, ReadRecord, RecordIn;
    id, ps := if before.Some? then before.value + 1 else 0, [];
    assert Next(off, ps) == off;
    var record := ReadRecord(b, off);
    if record.Some? && (before.Some? ==> record.value.id == before.value + 1) {
      var r := record.value;
      if r.crc == Checksum(r.data) {
        id := r.id;
        RecordRead(b, off);
        ReadRecordBounds(b, off);
        var next := off + Stride(r.data);
        ps := [r.data];
        OneRecord(b, off, id, r.data);
        if next <= h.dataEnd.value && r.id != h.idUntil {
          var id', qs := KnownExact(b, h, next, Some(r.id));
          assert id' == r.id + 1;
          ps := [r.data] + qs;
          assert ps[1..] == qs && ps[0] == r.data;
          KnownEndsCons(b, h, off, before, r, qs);
        }
      } else {
        assert BadAt(b, off, r.id);
      }
    }
  }

  lemma OneRecord(b: seq<byte>, off: nat, id: nat, p: seq<byte>)
    requires RecordIn(b, off, id, p)
    ensures Chain(b, off, id, [p]) && Next(off, [p]) == off + Stride(p)
  {
    hide RecordIn;
    NextOne(off, p);
    assert Chain(b, off + Stride(p), id + 1, []);
  }

  lemma KnownEndsCons(b: seq<byte>, h: Header, off: nat, before: Option<u64>, r: Record, qs: seq<seq<byte>>)
    requires h.dataEnd.Some? && ReadRecord(b, off) == Some(r) && r.crc == Checksum(r.data)
    requires before.Some? ==> r.id == before.value + 1
    requires off + Stride(r.data) <= h.dataEnd.value && r.id != h.idUntil
    requires KnownEnds(b, h, off + Stride(r.data), Some(r.id), r.id + 1, qs)
    ensures KnownEnds(b, h, off, before, r.id, [r.data] + qs)
  {
    hide FromBe, ReadRecord;
    ReadRecordBoundsOf(b, off, r);
    var ps := [r.data] + qs;
    assert ps[1..] == qs && ps[0] == r.data;
    assert Next(off, ps) == Next(off + Stride(r.data), qs);
    assert CheckKnown(b, h, off, before) == CheckKnown(b, h, off + Stride(r.data), Some(r.id));
  }

  lemma ReadRecordBoundsOf(b: seq<byte>, off: nat, r: Record)
    requires ReadRecord(b, off) == Some(r)
    ensures off + Stride(r.data) <= |b| + 1
  {
    ReadRecordBounds(b, off);
  }

  /**
  A start succeeds on a file with data only if the records it claims are there, or if auto-heal cut it
  at a record with a wrong checksum. An unreadable record the header claims makes it fail.
  */
  lemma RepairNeedsRecords(h: Header, b: seq<byte>, heal: bool) returns (id: nat, ps: seq<seq<byte>>)
    requires OFFSET_LOGS <= |b| < U32_MAX && h.dataStart.Some? && h.dataEnd.Some?
    ensures Chain(b, h.dataStart.value, id, ps)
    ensures var o := Next(h.dataStart.value, ps);
      RepairFile(h, b, heal).Ok? <==>
        || (ps != [] && (h.dataEnd.value < o || id + |ps| - 1 == h.idUntil))
        || (heal && Claims(h, h.dataStart.value, id, ps)
            && if ps == [] then exists i :: BadAt(b, o, i) else BadAt(b, o, id + |ps|))
    ensures Claims(h, h.dataStart.value, id, ps) && ReadRecord(b, Next(h.dataStart.value, ps)).None? ==>
      RepairFile(h, b, heal).Err?
  {
    hide FromBe, ReadRecord, RecordIn, CheckKnown, Recover, Chain, Next;
    id, ps := KnownExact(b, h, h.dataStart.value, None);
  }

  /** Complete records, then an unreadable one that the header claims: no start succeeds, healing or not. */
  lemma UnreadableKnownFails(h: Header, b: seq<byte>, heal: bool, id: u64, ps: seq<seq<byte>>)
    requires OFFSET_LOGS <= |b| < U32_MAX && h.dataStart.Some? && h.dataEnd.Some?
    requires Chain(b, h.dataStart.value, id, ps) && id + |ps| <= h.idUntil
    requires Next(h.dataStart.value, ps) <= h.dataEnd.value && ReadRecord(b, Next(h.dataStart.value, ps)).None?
    ensures RepairFile(h, b, heal).Err?
  {
    hide FromBe, ReadRecord, RecordIn, CheckKnown, Recover, Chain, Next;
    KnownUntilUnreadable(b, h, h.dataStart.value, id, ps, None);
  }

  lemma {:induction false} KnownUntilUnreadable(b: seq<byte>, h: Header, off: nat, id: u64, ps: seq<seq<byte>>,
                                                before: Option<u64>)
    requires Chain(b, off, id, ps) && id + |ps| <= h.idUntil && (before.None? || before.value + 1 == id)
    requires h.dataEnd.Some? && Next(off, ps) <= h.dataEnd.value && ReadRecord(b, Next(off, ps)).None?
    ensures CheckKnown(b, h, off, before) == Broken
    decreases |ps|
  {
    hide FromBe, ReadRecord, RecordIn;
    if ps != [] {
      var p := ps[0];
      assert ReadRecord(b, off) == Some(Record(id, Checksum(p), p)) by { ReadRecordIn(b, off, id, p); }
      KnownUntilUnreadable(b, h, off + Stride(p), id + 1, ps[1..], Some(id));
    }
  }

  /** Phase two takes exactly complete records over, those of the next id if one is known, and never id 0. */
  lemma RecoverableExact(b: seq<byte>, off: nat, before: Option<u64>)
    requires |b| <= U32_MAX
    ensures Recoverable(b, off, before) <==>
      exists id: u64, p: seq<byte> :: RecordIn(b, off, id, p) && 0 < id && (before.Some? ==> id == before.value + 1)
  {
    hide FromBe, ReadRecord, RecordIn;
    if Recoverable(b, off, before) {
      RecordRead(b, off);
    }
    forall id: u64, p: seq<byte> | RecordIn(b, off, id, p)
      ensures ReadRecord(b, off) == Some(Record(id, Checksum(p), p))
    {
      ReadRecordIn(b, off, id, p);
    }
  }

  // ---- both phases on chains

  lemma {:induction false} KnownChain(b: seq<byte>, h: Header, off: nat, id: u64, ps: seq<seq<byte>>,
                                      before: Option<u64>)
    requires ps != [] && Chain(b, off, id, ps)
    requires before.None? || before.value + 1 == id
    requires h.idUntil == id + |ps| - 1 && h.dataEnd.Some? && h.dataEnd.value == Next(off, ps) - 1
    ensures CheckKnown(b, h, off, before) == Done(Next(off, ps), Some(h.idUntil))
    decreases |ps|
  {
    hide FromBe, ReadRecord, RecordIn;
    var p := ps[0];
    assert ReadRecord(b, off) == Some(Record(id, Checksum(p), p)) by { ReadRecordIn(b, off, id, p); }
    if |ps| > 1 {
      KnownChain(b, h, off + Stride(p), id + 1, ps[1..], Some(id));
    }
  }

  /** Good records behind which a record with a bad checksum follows. */
  lemma {:induction false} KnownUntilBad(b: seq<byte>, h: Header, off: nat, id: u64, ps: seq<seq<byte>>,
                                         before: Option<u64>)
    requires Chain(b, off, id, ps) && id + |ps| <= h.idUntil
    requires before.None? || before.value + 1 == id
    requires h.dataEnd.Some? && Next(off, ps) <= h.dataEnd.value
    requires BadAt(b, Next(off, ps), id + |ps|)
    ensures CheckKnown(b, h, off, before) ==
            Bad(Next(off, ps), if ps == [] then before else Some(id + |ps| - 1))
    decreases |ps|
  {
    hide FromBe, ReadRecord, RecordIn;
    if ps != [] {
      var p := ps[0];
      assert ReadRecord(b, off) == Some(Record(id, Checksum(p), p)) by { ReadRecordIn(b, off, id, p); }
      KnownUntilBad(b, h, off + Stride(p), id + 1, ps[1..], Some(id));
    }
  }

  /** Good records behind which a readable record with another id follows. */
  lemma {:induction false} KnownUntilBroken(b: seq<byte>, h: Header, off: nat, id: u64, ps: seq<seq<byte>>,
                                            before: Option<u64>)
    requires Chain(b, off, id, ps) && id + |ps| <= h.idUntil && (ps != [] || before.Some?)
    requires before.None? || before.value + 1 == id
    requires h.dataEnd.Some? && Next(off, ps) <= h.dataEnd.value
    requires ReadRecord(b, Next(off, ps)).Some? && ReadRecord(b, Next(off, ps)).value.id != id + |ps|
    ensures CheckKnown(b, h, off, before) == Broken
    decreases |ps|
  {
    hide FromBe, ReadRecord, RecordIn;
    if ps != [] {
      var p := ps[0];
      assert ReadRecord(b, off) == Some(Record(id, Checksum(p), p)) by { ReadRecordIn(b, off, id, p); }
      KnownUntilBroken(b, h, off + Stride(p), id + 1, ps[1..], Some(id));
    }
  }

  /** A readable record with the right id whose checksum does not match. */
  ghost predicate BadAt(b: seq<byte>, off: nat, id: nat) {
    var r := ReadRecord(b, off);
    r.Some? && r.value.id == id && r.value.crc != Checksum(r.value.data)
  }

  /** The header and bytes after phase two has taken `ps` over. */
  function Extended(h: Header, b: seq<byte>, off: nat, id: nat, ps: seq<seq<byte>>): Image
    requires OFFSET_LOGS <= |b| && 0 < off && id + |ps| <= U64_MAX + 1 && Next(off, ps) <= U32_MAX
  {
    if ps == [] then Image(h, b)
    else
      var h' := h.(idUntil := id + |ps| - 1, dataEnd := Some(Next(off, ps) - 1));
      Image(h', Splice(b, 0, HeaderBytes(h')))
  }

  lemma {:induction false} RecoverChain(b: seq<byte>, h: Header, off: nat, id: nat, ps: seq<seq<byte>>)
    requires OFFSET_LOGS <= |b| < U32_MAX && h.dataStart.Some?
    requires OFFSET_LOGS <= off && 0 < id && id + |ps| <= U64_MAX + 1 && Next(off, ps) <= |b| + 1
    requires Chain(b, off, id, ps)
    requires !Recoverable(b, Next(off, ps), Some(id + |ps| - 1))
    ensures Recover(b, h, off, Some(id - 1)) == Extended(h, b, off, id, ps)
    decreases |ps|
  {
    hide FromBe, ReadRecord, RecordIn, HeaderBytes;
    if ps != [] {
      var p, qs := ps[0], ps[1..];
      assert ReadRecord(b, off) == Some(Record(id, Checksum(p), p)) by { ReadRecordIn(b, off, id, p); }
      var h' := h.(idUntil := id, dataEnd := Some(off + HEAD + |p|));
      var b' := Splice(b, 0, HeaderBytes(h'));
      var next := off + Stride(p);
      RecordFits(b, off, id, p);
      if |b| <= next {
        assert qs == [];
      } else {
        ChainFrame(b, b', next, id + 1, qs);
        SameRecordAt(b, b', Next(off, ps));
        RecoverChain(b', h', next, id + 1, qs);
        if qs != [] {
          var h'' := h.(idUntil := id + |ps| - 1, dataEnd := Some(Next(off, ps) - 1));
          assert Splice(b', 0, HeaderBytes(h'')) == Splice(b, 0, HeaderBytes(h''));
        }
      }
    }
  }

  /** A rewritten header changes no record. */
  lemma SameRecordAt(b: seq<byte>, c: seq<byte>, off: nat)
    requires |b| == |c| && OFFSET_LOGS <= off && (off <= |b| ==> b[off..] == c[off..])
    ensures ReadRecord(b, off) == ReadRecord(c, off)
  {
    if off <= |b| {
      ReadRecordFrame(b, c, off);
    }
  }

  /** All the records phase two would take over from `off` on. */
  lemma {:induction false} MaximalChain(b: seq<byte>, off: nat, id: nat) returns (ps: seq<seq<byte>>)
    requires |b| < U32_MAX && off <= |b| + 1 && 0 < id <= U64_MAX + 1
    ensures Chain(b, off, id, ps) && Next(off, ps) <= |b| + 1 && id + |ps| <= U64_MAX + 1
    ensures !Recoverable(b, Next(off, ps), Some(id + |ps| - 1))
    decreases |b| + 1 - off
  {
    hide FromBe, ReadRecord, RecordIn;
    ps := [];
    if Recoverable(b, off, Some(id - 1)) {
      var p := ReadRecord(b, off).value.data;
      ReadRecordBounds(b, off);
      RecordRead(b, off);
      var qs := MaximalChain(b, off + Stride(p), id + 1);
      ps := [p] + qs;
      assert ps[1..] == qs;
    }
  }
}
