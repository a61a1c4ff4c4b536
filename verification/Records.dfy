/**
The byte layout of one WAL file (hiqlite-wal/src/wal.rs): a 32 byte header followed by records

    8 byte id | 4 byte CRC | 4 byte length | data | 1 gap byte

All integers are big-endian. `data_end` points one past the last payload byte, so the next record
starts at `data_end + 1`.
*/
module Records {
  import opened Base
  import opened Positional

  const OFFSET_LOGS := 32
  const HEAD := 16
  const MIN_WAL_SIZE := 8 * 1024

  type Crc = s: seq<byte> | |s| == 4 witness [0, 0, 0, 0]

  /** CRC-32/CKSUM in little-endian bytes. Left uninterpreted: every statement holds for any checksum. */
  const Checksum: seq<byte> -> Crc

  // ---- records

  datatype Record = Record(id: u64, crc: seq<byte>, data: seq<byte>)

  /** `read_record_unchecked`: None stands for each of its integrity errors. */
  function ReadRecord(b: seq<byte>, off: nat): Option<Record> {
    if off + HEAD > |b| then None
    else
      var len := FromBe(b[off + 12..off + 16]);
      if len == 0 || off + HEAD + len > |b| then None
      else Some(Record(FromBe(b[off..off + 8]), b[off + 8..off + 12], b[off + 16..off + 16 + len]))
  }

  lemma ReadRecordBounds(b: seq<byte>, off: nat)
    requires ReadRecord(b, off).Some?
    ensures 0 < |ReadRecord(b, off).value.data| && off + HEAD + |ReadRecord(b, off).value.data| <= |b|
  {
  }

  function RecordBytes(id: u64, p: seq<byte>): (r: seq<byte>)
    requires |p| <= U32_MAX
    ensures |r| == HEAD + |p|
  {
    Be(id, 8) + Checksum(p) + Be(|p|, 4) + p
  }

  ghost predicate RecordIn(b: seq<byte>, off: nat, id: nat, p: seq<byte>) {
    && 0 < |p| <= U32_MAX
    && id <= U64_MAX
    && off + HEAD + |p| <= |b|
    && b[off..off + HEAD + |p|] == RecordBytes(id, p)
  }

  /** What was written as a record is read back as that record. */
  lemma ReadRecordIn(b: seq<byte>, off: nat, id: nat, p: seq<byte>)
    requires RecordIn(b, off, id, p)
    ensures ReadRecord(b, off) == Some(Record(id, Checksum(p), p))
  {
    hide Be, FromBe;
    var n := HEAD + |p|;
    var r := RecordBytes(id, p);
    Subslice(b, off, n, 0, 8);
    Subslice(b, off, n, 8, 12);
    Subslice(b, off, n, 12, 16);
    Subslice(b, off, n, 16, n);
    assert r[0..8] == Be(id, 8) && r[8..12] == Checksum(p);
    assert r[12..16] == Be(|p|, 4) && r[16..n] == p;
    U64RoundTrip(id);
    U32RoundTrip(|p|);
  }

  lemma RecordFits(b: seq<byte>, off: nat, id: nat, p: seq<byte>)
    requires RecordIn(b, off, id, p)
    ensures off + HEAD + |p| <= |b|
  {
  }

  /** And the other way round: what reads as a record with a good checksum is the encoding of that record. */
  lemma RecordRead(b: seq<byte>, off: nat)
    requires |b| <= U32_MAX && ReadRecord(b, off).Some?
    requires ReadRecord(b, off).value.crc == Checksum(ReadRecord(b, off).value.data)
    ensures RecordIn(b, off, ReadRecord(b, off).value.id, ReadRecord(b, off).value.data)
  {
    hide Be, FromBe;
    var r := ReadRecord(b, off).value;
    var n := HEAD + |r.data|;
    BeOfFrom(b[off..off + 8]);
    BeOfFrom(b[off + 12..off + 16]);
    assert b[off..off + n] == b[off..off + 8] + b[off + 8..off + 12] + b[off + 12..off + 16] + b[off + 16..off + n];
  }

  /** Exactly the bytes of id, checksum field, length and data read as a record, whatever the checksum says. */
  lemma ReadRecordExact(b: seq<byte>, off: nat, r: Record)
    requires |b| <= U32_MAX
    ensures ReadRecord(b, off) == Some(r) <==>
      && 0 < |r.data| && |r.crc| == 4 && off + HEAD + |r.data| <= |b|
      && b[off..off + HEAD + |r.data|] == Be(r.id, 8) + r.crc + Be(|r.data|, 4) + r.data
  {
    hide Be, FromBe;
    var n := HEAD + |r.data|;
    if ReadRecord(b, off) == Some(r) {
      BeOfFrom(b[off..off + 8]);
      BeOfFrom(b[off + 12..off + 16]);
      assert b[off..off + n] == b[off..off + 8] + b[off + 8..off + 12] + b[off + 12..off + 16] + b[off + 16..off + n];
    } else if 0 < |r.data| && |r.crc| == 4 && off + n <= |b| {
      var w := Be(r.id, 8) + r.crc + Be(|r.data|, 4) + r.data;
      if b[off..off + n] == w {
        RawRecordReads(b, off, r, w);
      }
    }
  }

  lemma RawRecordReads(b: seq<byte>, off: nat, r: Record, w: seq<byte>)
    requires 0 < |r.data| <= U32_MAX && |r.crc| == 4 && off + HEAD + |r.data| <= |b|
    requires w == Be(r.id, 8) + r.crc + Be(|r.data|, 4) + r.data && b[off..off + HEAD + |r.data|] == w
    ensures ReadRecord(b, off) == Some(r)
  {
    hide Be, FromBe;
    var n := HEAD + |r.data|;
    Subslice(b, off, n, 0, 8);
    Subslice(b, off, n, 8, 12);
    Subslice(b, off, n, 12, 16);
    Subslice(b, off, n, 16, n);
    assert w[0..8] == Be(r.id, 8) && w[8..12] == r.crc;
    assert w[12..16] == Be(|r.data|, 4) && w[16..n] == r.data;
    U64RoundTrip(r.id);
    U32RoundTrip(|r.data|);
  }

  // ---- chains of records with consecutive ids

  function Stride(p: seq<byte>): nat {
    HEAD + |p| + 1
  }

  /** Offset at which the record after `ps` starts, when the first of them starts at `off`. */
  function Next(off: nat, ps: seq<seq<byte>>): (r: nat)
    ensures off + |ps| <= r
    decreases |ps|
  {
    if ps == [] then off else Next(off + Stride(ps[0]), ps[1..])
  }

  ghost predicate Chain(b: seq<byte>, off: nat, id: nat, ps: seq<seq<byte>>)
    decreases |ps|
  {
    ps == [] || (RecordIn(b, off, id, ps[0]) && Chain(b, off + Stride(ps[0]), id + 1, ps[1..]))
  }

  /** The payloads of the `n` records found from `off`. */
  function Payloads(b: seq<byte>, off: nat, n: nat): seq<seq<byte>>
    decreases n
  {
    if n == 0 then []
    else match ReadRecord(b, off)
      case None => []
      case Some(r) => [r.data] + Payloads(b, off + Stride(r.data), n - 1)
  }

  lemma NextOne(off: nat, p: seq<byte>)
    ensures Next(off, [p]) == off + Stride(p)
  {
    assert Next(off + Stride(p), []) == off + Stride(p);
  }

  lemma {:induction false} NextGrows(off: nat, ps: seq<seq<byte>>)
    ensures Next(off, ps) >= off + |ps| * (HEAD + 1)
    decreases |ps|
  {
    if ps != [] {
      NextGrows(off + Stride(ps[0]), ps[1..]);
    }
  }

  lemma {:induction false} NextSplit(off: nat, ps: seq<seq<byte>>, k: nat)
    requires k <= |ps|
    ensures Next(off, ps) == Next(Next(off, ps[..k]), ps[k..])
    decreases |ps|
  {
    if k == 0 {
      assert ps[..0] == [] && ps[0..] == ps;
    } else {
      assert ps[..k][1..] == ps[1..][..k - 1] && ps[k..] == ps[1..][k - 1..];
      NextSplit(off + Stride(ps[0]), ps[1..], k - 1);
    }
  }

  lemma {:induction false} ChainSplit(b: seq<byte>, off: nat, id: nat, ps: seq<seq<byte>>, k: nat)
    requires k <= |ps|
    ensures Chain(b, off, id, ps)
       <==> Chain(b, off, id, ps[..k]) && Chain(b, Next(off, ps[..k]), id + k, ps[k..])
    decreases |ps|
  {
    hide Be, FromBe;
    if k == 0 {
      assert ps[..0] == [] && ps[0..] == ps;
    } else {
      assert ps[..k][1..] == ps[1..][..k - 1] && ps[k..] == ps[1..][k - 1..];
      ChainSplit(b, off + Stride(ps[0]), id + 1, ps[1..], k - 1);
    }
  }

  /** A chain depends on nothing but the bytes it occupies. */
  lemma {:induction false} ChainFrame(b: seq<byte>, c: seq<byte>, off: nat, id: nat, ps: seq<seq<byte>>)
    requires Chain(b, off, id, ps)
    requires |b| == |c|
    requires forall i :: off <= i < Next(off, ps) - 1 && i < |b| ==> b[i] == c[i]
    ensures Chain(c, off, id, ps)
    decreases |ps|
  {
    hide Be, FromBe;
    if ps != [] {
      var p := ps[0];
      NextGrows(off + Stride(p), ps[1..]);
      assert c[off..off + HEAD + |p|] == b[off..off + HEAD + |p|];
      ChainFrame(b, c, off + Stride(p), id + 1, ps[1..]);
    }
  }

  lemma FirstOfChain(b: seq<byte>, off: nat, id: nat, ps: seq<seq<byte>>)
    requires Chain(b, off, id, ps) && ps != []
    ensures ReadRecord(b, off) == Some(Record(id, Checksum(ps[0]), ps[0]))
  {
    ReadRecordIn(b, off, id, ps[0]);
  }

  lemma {:induction false} ChainPayloads(b: seq<byte>, off: nat, id: nat, ps: seq<seq<byte>>)
    requires Chain(b, off, id, ps)
    ensures Payloads(b, off, |ps|) == ps
    decreases |ps|
  {
    hide Be, FromBe;
    if ps != [] {
      ReadRecordIn(b, off, id, ps[0]);
      ChainPayloads(b, off + Stride(ps[0]), id + 1, ps[1..]);
    }
  }

  lemma {:induction false} NextSnoc(off: nat, ps: seq<seq<byte>>, p: seq<byte>)
    ensures Next(off, ps + [p]) == Next(off, ps) + Stride(p)
  {
    var qs := ps + [p];
    NextSplit(off, qs, |ps|);
    assert qs[..|ps|] == ps && qs[|ps|..] == [p];
    assert Next(Next(off, ps) + Stride(p), []) == Next(off, ps) + Stride(p);
  }

  lemma {:induction false} ChainSnoc(b: seq<byte>, off: nat, id: nat, ps: seq<seq<byte>>, p: seq<byte>)
    requires Chain(b, off, id, ps) && RecordIn(b, Next(off, ps), id + |ps|, p)
    ensures Chain(b, off, id, ps + [p])
  {
    var qs := ps + [p];
    ChainSplit(b, off, id, qs, |ps|);
    assert qs[..|ps|] == ps && qs[|ps|..] == [p];
  }

  // ---- the file header

  datatype Header = Header(idFrom: u64, idUntil: u64, dataStart: Option<u32>, dataEnd: Option<u32>)

  const MAGIC: seq<byte> := [0x48, 0x51, 0x4C, 0x5F, 0x57, 0x41, 0x4C]

  function OrZero(o: Option<u32>): u32 {
    match o case None => 0 case Some(v) => v
  }

  function NonZero(v: u32): Option<u32> {
    if v == 0 then None else Some(v)
  }

  /** `build_header` */
  function HeaderBytes(h: Header): (r: seq<byte>)
    ensures |r| == OFFSET_LOGS
  {
    MAGIC + [1] + Be(h.idFrom, 8) + Be(h.idUntil, 8) + Be(OrZero(h.dataStart), 4) + Be(OrZero(h.dataEnd), 4)
  }

  datatype HeaderError = TooShort | BadMagic | BadVersion

  /** The header part of `read_from_file`. */
  function ParseHeader(b: seq<byte>): Result<Header, HeaderError> {
    if |b| < OFFSET_LOGS then Err(TooShort)
    else if b[..7] != MAGIC then Err(BadMagic)
    else if b[7] != 1 then Err(BadVersion)
    else
      Ok(Header(FromBe(b[8..16]), FromBe(b[16..24]),
                NonZero(FromBe(b[24..28])), NonZero(FromBe(b[28..32]))))
  }

  /** A header whose offsets are not zero survives the way to disk and back. */
  lemma HeaderRoundTrip(h: Header, b: seq<byte>)
    requires h.dataStart != Some(0) && h.dataEnd != Some(0)
    requires OFFSET_LOGS <= |b| && b[..OFFSET_LOGS] == HeaderBytes(h)
    ensures ParseHeader(b) == Ok(h)
  {
    hide Be, FromBe;
    var r := HeaderBytes(h);
    assert b[..7] == r[..7] == MAGIC;
    assert b[7] == r[7] == 1;
    assert b[8..16] == r[8..16] == Be(h.idFrom, 8);
    assert b[16..24] == r[16..24] == Be(h.idUntil, 8);
    assert b[24..28] == r[24..28] == Be(OrZero(h.dataStart), 4);
    assert b[28..32] == r[28..32] == Be(OrZero(h.dataEnd), 4);
    U64RoundTrip(h.idFrom);
    U64RoundTrip(h.idUntil);
    U32RoundTrip(OrZero(h.dataStart));
    U32RoundTrip(OrZero(h.dataEnd));
  }

  /** Nothing else is accepted: a header is decoded if and only if the bytes are its encoding. */
  lemma ParseHeaderExact(h: Header, b: seq<byte>)
    requires h.dataStart != Some(0) && h.dataEnd != Some(0)
    ensures ParseHeader(b) == Ok(h) <==> OFFSET_LOGS <= |b| && b[..OFFSET_LOGS] == HeaderBytes(h)
    ensures ParseHeader(b).Ok? ==> ParseHeader(b).value.dataStart != Some(0) && ParseHeader(b).value.dataEnd != Some(0)
  {
    hide Be, FromBe;
    if OFFSET_LOGS <= |b| && b[..OFFSET_LOGS] == HeaderBytes(h) {
      HeaderRoundTrip(h, b);
    }
    if ParseHeader(b) == Ok(h) {
      BeOfFrom(b[8..16]);
      BeOfFrom(b[16..24]);
      BeOfFrom(b[24..28]);
      BeOfFrom(b[28..32]);
      assert b[..OFFSET_LOGS] == b[..7] + [b[7]] + b[8..16] + b[16..24] + b[24..28] + b[28..32];
    }
  }

  /** Writing `w` into the mapped bytes at `off`. */
  function Splice(b: seq<byte>, off: nat, w: seq<byte>): (r: seq<byte>)
    requires off + |w| <= |b|
    ensures |r| == |b|
    ensures forall i :: 0 <= i < |b| ==> r[i] == if off <= i < off + |w| then w[i - off] else b[i]
  {
    b[..off] + w + b[off + |w|..]
  }

  lemma ReadRecordFrame(b: seq<byte>, c: seq<byte>, off: nat)
    requires |b| == |c| && off <= |b| && b[off..] == c[off..]
    ensures ReadRecord(b, off) == ReadRecord(c, off)
  {
    hide FromBe;
    if off + HEAD <= |b| {
      var n := |b| - off;
      assert b[off..off + n] == b[off..] == c[off..] == c[off..off + n];
      Subslice(b, off, n, 0, 8);
      Subslice(c, off, n, 0, 8);
      Subslice(b, off, n, 8, 12);
      Subslice(c, off, n, 8, 12);
      Subslice(b, off, n, 12, 16);
      Subslice(c, off, n, 12, 16);
      var len := FromBe(b[off + 12..off + 16]);
      if off + HEAD + len <= |b| {
        Subslice(b, off, n, 16, 16 + len);
        Subslice(c, off, n, 16, 16 + len);
      }
    }
  }

  // ---- a whole file: header values plus bytes

  function Count(h: Header): nat {
    if h.dataStart.None? || h.idUntil < h.idFrom then 0 else h.idUntil - h.idFrom + 1
  }

  /** The log entries a file stands for: payloads of ids `idFrom..=idUntil`, none without data. */
  function Entries(h: Header, b: seq<byte>): seq<seq<byte>> {
    if h.dataStart.None? then [] else Payloads(b, h.dataStart.value, Count(h))
  }

  lemma NoEntriesYet(h: Header, b: seq<byte>)
    requires h.dataStart.None?
    ensures Entries(h, b) == []
  {
  }

  ghost predicate FileOk(h: Header, b: seq<byte>) {
    && MIN_WAL_SIZE <= |b| < U32_MAX
    && (h.dataStart.None? <==> h.dataEnd.None?)
    && h.idFrom <= h.idUntil
    && (h.dataStart.None? ==> h.idFrom == h.idUntil)
    && (h.dataStart.Some? ==> Holds(h, b, Entries(h, b)))
  }

  /** The file holds exactly the records of `ps`, laid out from `dataStart` to `dataEnd`. */
  ghost predicate Holds(h: Header, b: seq<byte>, ps: seq<seq<byte>>)
    requires h.dataStart.Some? && h.dataEnd.Some?
  {
    && OFFSET_LOGS <= h.dataStart.value
    && |ps| == Count(h)
    && Chain(b, h.dataStart.value, h.idFrom, ps)
    && h.dataEnd.value == Next(h.dataStart.value, ps) - 1 < |b|
  }

  lemma HoldsEntries(h: Header, b: seq<byte>, ps: seq<seq<byte>>)
    requires h.dataStart.Some? && h.dataEnd.Some? && Holds(h, b, ps)
    ensures Entries(h, b) == ps
  {
    ChainPayloads(b, h.dataStart.value, h.idFrom, ps);
  }

  // ---- appending

  /** Header values together with the bytes they describe. */
  datatype Image = Image(h: Header, b: seq<byte>)

  /** Where `append_log` puts the next record. */
  function Start(h: Header): nat {
    if h.dataStart.None? then OFFSET_LOGS else OrZero(h.dataEnd) + 1
  }

  /** `has_space`: strict, and with one byte too many for the first record of a file. */
  predicate HasSpace(h: Header, lenMax: nat, dataLen: nat) {
    OrZero(if h.dataEnd.None? then Some(OFFSET_LOGS) else h.dataEnd) + 1 + HEAD + dataLen < lenMax
  }

  function AppendedHeader(h: Header, id: u64, dataLen: nat): Header
    requires Start(h) + HEAD + dataLen <= U32_MAX
  {
    if h.dataStart.None? then Header(id, id, Some(OFFSET_LOGS), Some(OFFSET_LOGS + HEAD + dataLen))
    else h.(idUntil := id, dataEnd := Some(Start(h) + HEAD + dataLen))
  }

  /** The file after `append_log`: only the first record of a file rewrites the header bytes. */
  function Appended(h: Header, b: seq<byte>, id: u64, p: seq<byte>): Image
    requires OFFSET_LOGS <= |b| <= U32_MAX && Start(h) + HEAD + |p| <= |b|
  {
    var h' := AppendedHeader(h, id, |p|);
    var b' := Splice(b, Start(h), RecordBytes(id, p));
    Image(h', if h.dataStart.None? then Splice(b', 0, HeaderBytes(h')) else b')
  }

  lemma SpliceSlice(b: seq<byte>, off: nat, w: seq<byte>)
    requires off + |w| <= |b|
    ensures Splice(b, off, w)[off..off + |w|] == w
  {
  }

  /**
  The capacity bound: with `has_space` the record lies inside the file, every earlier record keeps its
  bytes, `data_end` stays below the file length, and the file stands for one entry more.
  */
  lemma AppendedHolds(h: Header, b: seq<byte>, id: u64, p: seq<byte>)
    requires FileOk(h, b) && 0 < |p| && HasSpace(h, |b|, |p|)
    requires h.dataStart.Some? ==> id == h.idUntil + 1
    ensures Start(h) + HEAD + |p| < |b|
    ensures FileOk(Appended(h, b, id, p).h, Appended(h, b, id, p).b)
    ensures Entries(Appended(h, b, id, p).h, Appended(h, b, id, p).b) == Entries(h, b) + [p]
    ensures forall i :: OFFSET_LOGS <= i < Start(h) ==> Appended(h, b, id, p).b[i] == b[i]
  {
    hide HeaderBytes, RecordBytes, FromBe, Payloads, Next, Chain;
    var img := Appended(h, b, id, p);
    var s := img.h.dataStart.value;
    var ps := Entries(h, b);
    assert RecordIn(img.b, Start(h), id, p) by {
      SpliceSlice(b, Start(h), RecordBytes(id, p));
      assert img.b[Start(h)..Start(h) + HEAD + |p|]
          == Splice(b, Start(h), RecordBytes(id, p))[Start(h)..Start(h) + HEAD + |p|];
    }
    if h.dataStart.None? {
      NilChain(img.b, s, id);
    } else {
      ChainFrame(b, img.b, s, h.idFrom, ps);
    }
    ChainSnoc(img.b, s, img.h.idFrom, ps, p);
    NextSnoc(s, ps, p);
    HoldsEntries(img.h, img.b, ps + [p]);
  }

  lemma NilChain(b: seq<byte>, off: nat, id: nat)
    ensures Chain(b, off, id, []) && Next(off, []) == off
  {
  }

  /** The four writes of `append_log`, in order: the contents after none, one, two, three and all of them. */
  function AppendWrites(b: seq<byte>, start: nat, id: u64, p: seq<byte>): (r: seq<seq<byte>>)
    requires |p| <= U32_MAX && start + HEAD + |p| <= |b|
    ensures |r| == 5
  {
    var w1 := Splice(b, start + 8, Checksum(p));
    var w2 := Splice(w1, start + 12, Be(|p|, 4));
    var w3 := Splice(w2, start + HEAD, p);
    [b, w1, w2, w3, Splice(w3, start, Be(id, 8))]
  }

  lemma AppendWritesRecord(b: seq<byte>, start: nat, id: u64, p: seq<byte>)
    requires |p| <= U32_MAX && start + HEAD + |p| <= |b|
    ensures AppendWrites(b, start, id, p)[4] == Splice(b, start, RecordBytes(id, p))
  {
    hide Be;
  }
}
