/**
The database of the external state machine (hiqlite/src/external_state_machine.rs): application state,
one metadata row and the receipt table, and the functions that read them. SQLite is a transactional
store of values; operations, codecs and SHA-256 are parameters.
*/
module ExternalDb {
  import opened Base
  import opened Positional

  /** The native coordinate of a commit: compared for equality only. */
  type Coordinate(==, !new)
  /** Everything the operations of the application can see and change. */
  type App(==, !new)
  type Operation(!new)
  type Output(==, !new)
  type OpError(!new)
  type Digest(==, !new)

  /**
  What the engine is parameterised by: the deterministic operation run inside a transaction, SHA-256,
  `serialize` and `deserialize_exact` of coordinates, and the receipt codec of the operation type.
  */
  datatype Env = Env(
    run: (Operation, App) -> Result<(App, Output), OpError>,
    sha256: seq<byte> -> Digest,
    encodeC: Coordinate -> seq<byte>, decodeC: seq<byte> -> Option<Coordinate>,
    encode: Output -> Option<seq<byte>>, decode: seq<byte> -> Option<Output>)
  {
    ghost predicate Lawful() {
      && (forall c :: decodeC(encodeC(c)) == Some(c))
      && (forall o :: encode(o).Some? ==> decode(encode(o).value) == Some(o))
    }
  }

  datatype Commit = Commit(sequence: u64, coordinate: Coordinate, digest: Digest, stateSchema: u64, receiptSchema: u64)

  datatype Kind = OperationKind | AdvanceKind

  datatype Applied = Applied(commit: Commit, kind: Kind, receiptDigest: Digest)

  datatype Config = Config(
    applicationId: string, initialSequence: u64, initialStateSchema: u64, receiptCodec: string,
    retention: u64, maxReceiptBytes: u64)

  const MAX_RECEIPT_RETENTION := 1_000_000
  const MAX_RECEIPT_BYTES := 16 * 1024 * 1024
  const FORMAT_VERSION := 1
  const ADVANCE_CODEC := "hiqlite/advance-v1"
  /** The encoding of the unit value. */
  const UNIT_RECEIPT: seq<byte> := []

  predicate ValidConfig(c: Config) {
    1 <= c.retention <= MAX_RECEIPT_RETENTION && 1 <= c.maxReceiptBytes <= MAX_RECEIPT_BYTES
  }

  /** The state the writer keeps in memory. */
  datatype Stored = Stored(
    config: Config, lastApplied: Option<Applied>, receiptFloor: Option<u64>, snapshotId: Option<string>)

  datatype Receipt = Receipt(commit: Commit, kind: Kind, codec: string, receipt: seq<byte>, receiptDigest: Digest)

  // ---- rows as they are stored

  datatype ReceiptRow = ReceiptRow(
    coordinate: seq<byte>, commandDigest: Digest, kind: int, stateSchema: seq<byte>, receiptSchema: seq<byte>,
    codec: string, receipt: seq<byte>, receiptDigest: Digest)

  datatype MetaRow = MetaRow(
    formatVersion: int, applicationId: string, initialSequence: seq<byte>, initialStateSchema: seq<byte>,
    receiptCodec: string, retention: seq<byte>, maxReceiptBytes: seq<byte>,
    lastSequence: Option<seq<byte>>, lastCoordinate: Option<seq<byte>>, lastDigest: Option<Digest>,
    lastKind: Option<int>, lastStateSchema: Option<seq<byte>>, lastReceiptSchema: Option<seq<byte>>,
    lastReceiptDigest: Option<Digest>, receiptFloor: Option<seq<byte>>, snapshotId: Option<string>)

  type Key = seq<byte>

  datatype Db = Db(app: App, meta: MetaRow, receipts: map<Key, ReceiptRow>)

  datatype Error =
    | SequenceGap(expected: u64, received: u64)
    | SequenceBeforeInitial(initial: u64, received: u64)
    | SequenceOverflow
    | CommitConflict(sequence: u64)
    | ReceiptUnavailable(sequence: u64)
    | ReceiptTooLarge
    | InvalidMetadata
    | UnsupportedFormat
    | Serialization
    | Sqlite
    | SnapshotMismatch
    | StaleSnapshot
    | WriterPoisoned

  function EncodeU64(v: u64): seq<byte> {
    Be(v, 8)
  }

  function DecodeU64(b: seq<byte>): Option<u64> {
    if |b| == 8 then Some(FromBe(b)) else None
  }

  lemma U64Blob(v: u64)
    ensures DecodeU64(EncodeU64(v)) == Some(v)
  {
    U64RoundTrip(v);
  }

  function KindCode(k: Kind): int {
    if k.OperationKind? then 1 else 2
  }

  function KindOf(v: int): Option<Kind> {
    if v == 1 then Some(OperationKind) else if v == 2 then Some(AdvanceKind) else None
  }

  function CodecName(c: Config, k: Kind): string {
    if k.OperationKind? then c.receiptCodec else ADVANCE_CODEC
  }

  /** The lowest sequence whose receipt is kept once `sequence` is applied. */
  function Floor(c: Config, sequence: u64): u64
  {
    var span := if c.retention == 0 then 0 else c.retention - 1;
    Max(c.initialSequence, Max(0, sequence - span))
  }

  // ---- reading the database

  /** All of the eight columns of the last applied entry, or none of them. */
  predicate LastPresent(m: MetaRow) {
    && m.lastSequence.Some? && m.lastCoordinate.Some? && m.lastDigest.Some? && m.lastKind.Some?
    && m.lastStateSchema.Some? && m.lastReceiptSchema.Some? && m.lastReceiptDigest.Some? && m.receiptFloor.Some?
  }

  predicate LastAbsent(m: MetaRow) {
    && m.lastSequence.None? && m.lastCoordinate.None? && m.lastDigest.None? && m.lastKind.None?
    && m.lastStateSchema.None? && m.lastReceiptSchema.None? && m.lastReceiptDigest.None? && m.receiptFloor.None?
  }

  function LoadApplied(env: Env, m: MetaRow): Result<(Applied, u64), Error>
    requires LastPresent(m)
  {
    var seq' := DecodeU64(m.lastSequence.value);
    var coordinate := env.decodeC(m.lastCoordinate.value);
    var kind := KindOf(m.lastKind.value);
    var stateSchema := DecodeU64(m.lastStateSchema.value);
    var receiptSchema := DecodeU64(m.lastReceiptSchema.value);
    var floor := DecodeU64(m.receiptFloor.value);
    if seq'.None? then Err(InvalidMetadata)
    else if coordinate.None? then Err(Serialization)
    else if kind.None? || stateSchema.None? || receiptSchema.None? || floor.None? then Err(InvalidMetadata)
    else
      var commit := Commit(seq'.value, coordinate.value, m.lastDigest.value, stateSchema.value, receiptSchema.value);
      Ok((Applied(commit, kind.value, m.lastReceiptDigest.value), floor.value))
  }

  /** `load_state` */
  function LoadState(env: Env, db: Db): Result<Stored, Error> {
    var m := db.meta;
    if m.formatVersion != FORMAT_VERSION then
      if 0 <= m.formatVersion < 0x1_0000 then Err(UnsupportedFormat) else Err(InvalidMetadata)
    else
      var initial, schema := DecodeU64(m.initialSequence), DecodeU64(m.initialStateSchema);
      var retention, maxBytes := DecodeU64(m.retention), DecodeU64(m.maxReceiptBytes);
      if initial.None? || schema.None? || retention.None? || maxBytes.None? then Err(InvalidMetadata)
      else
        var config := Config(m.applicationId, initial.value, schema.value, m.receiptCodec,
                             retention.value, maxBytes.value);
        if !ValidConfig(config) || (!LastPresent(m) && !LastAbsent(m)) then Err(InvalidMetadata)
        else if LastAbsent(m) then Ok(Stored(config, None, None, m.snapshotId))
        else match LoadApplied(env, m)
          case Err(e) => Err(e)
          case Ok((applied, floor)) => Ok(Stored(config, Some(applied), Some(floor), m.snapshotId))
  }

  function DecodeRow(env: Env, sequence: u64, row: ReceiptRow): Result<Receipt, Error> {
    var coordinate, kind := env.decodeC(row.coordinate), KindOf(row.kind);
    var stateSchema, receiptSchema := DecodeU64(row.stateSchema), DecodeU64(row.receiptSchema);
    if coordinate.None? then Err(Serialization)
    else if env.sha256(row.receipt) != row.receiptDigest then Err(InvalidMetadata)
    else if stateSchema.None? || receiptSchema.None? || kind.None? then Err(InvalidMetadata)
    else
      var commit := Commit(sequence, coordinate.value, row.commandDigest, stateSchema.value, receiptSchema.value);
      Ok(Receipt(commit, kind.value, row.codec, row.receipt, row.receiptDigest))
  }

  /** `load_receipt` */
  function LoadReceipt(env: Env, db: Db, sequence: u64, maxBytes: nat): Result<Option<Receipt>, Error> {
    var key := EncodeU64(sequence);
    if key !in db.receipts then Ok(None)
    else if maxBytes < |db.receipts[key].receipt| then Err(InvalidMetadata)
    else match DecodeRow(env, sequence, db.receipts[key])
      case Err(e) => Err(e)
      case Ok(r) => Ok(Some(r))
  }

  /** What `ORDER BY sequence` may return: all keys, ascending byte by byte. */
  ghost predicate Ordered(keys: seq<Key>, receipts: map<Key, ReceiptRow>) {
    && (forall i, j :: 0 <= i < j < |keys| ==> LexLess(keys[i], keys[j]))
    && (forall k :: k in keys <==> k in receipts)
  }

  /** One retained receipt is readable, has the codec of its kind and a decodable body. */
  predicate ReceiptOk(env: Env, db: Db, s: Stored, sequence: u64) {
    match LoadReceipt(env, db, sequence, s.config.maxReceiptBytes)
    case Ok(Some(r)) =>
      && r.codec == CodecName(s.config, r.kind)
      && |r.receipt| <= s.config.maxReceiptBytes
      && (if r.kind.OperationKind? then env.decode(r.receipt).Some? else r.receipt == UNIT_RECEIPT)
    case _ => false
  }

  /** The key at offset `i` is `i` above the floor, and its receipt is good. */
  predicate SuffixAt(env: Env, db: Db, s: Stored, floor: u64, keys: seq<Key>, i: nat)
    requires i < |keys|
  {
    DecodeU64(keys[i]) == Some(floor + i) && ReceiptOk(env, db, s, floor + i)
  }

  predicate SuffixOk(env: Env, db: Db, s: Stored, floor: u64, keys: seq<Key>) {
    forall i :: 0 <= i < |keys| ==> SuffixAt(env, db, s, floor, keys, i)
  }

  /** The newest receipt is the one of the checkpoint. */
  predicate NewestOk(env: Env, db: Db, s: Stored, last: Applied) {
    match LoadReceipt(env, db, last.commit.sequence, s.config.maxReceiptBytes)
    case Ok(Some(r)) => r.commit == last.commit && r.kind == last.kind && r.receiptDigest == last.receiptDigest
    case _ => false
  }

  /** `validate_receipts` for one result of the ordered query. */
  predicate ReceiptsOk(env: Env, db: Db, s: Stored, keys: seq<Key>) {
    if s.lastApplied.None? && s.receiptFloor.None? then |db.receipts| == 0
    else if s.lastApplied.Some? && s.receiptFloor.Some? then
      var last, floor := s.lastApplied.value, s.receiptFloor.value;
      && floor <= last.commit.sequence
      && last.commit.sequence - floor + 1 <= s.config.retention
      && floor == Floor(s.config, last.commit.sequence)
      && |keys| == last.commit.sequence - floor + 1
      && SuffixOk(env, db, s, floor, keys)
      && NewestOk(env, db, s, last)
    else false
  }

  datatype Class = New | Retry(receipt: Receipt)

  /** `classify_commit` */
  function Classify(env: Env, db: Db, s: Stored, c: Commit, kind: Kind, codec: string): Result<Class, Error> {
    if s.lastApplied.None? then
      if c.sequence == s.config.initialSequence then Ok(New)
      else if s.config.initialSequence < c.sequence then Err(SequenceGap(s.config.initialSequence, c.sequence))
      else Err(SequenceBeforeInitial(s.config.initialSequence, c.sequence))
    else
      var current := s.lastApplied.value.commit.sequence;
      if c.sequence <= current then
        match LoadReceipt(env, db, c.sequence, s.config.maxReceiptBytes)
        case Err(e) => Err(e)
        case Ok(None) => Err(ReceiptUnavailable(c.sequence))
        case Ok(Some(r)) =>
          if r.commit != c || r.kind != kind || r.codec != codec then Err(CommitConflict(c.sequence)) else Ok(Retry(r))
      else if current == U64_MAX then Err(SequenceOverflow)
      else if c.sequence == current + 1 then Ok(New)
      else Err(SequenceGap(current + 1, c.sequence))
  }

  // ---- writing the database

  function RowOf(env: Env, c: Commit, kind: Kind, codec: string, receipt: seq<byte>): ReceiptRow {
    ReceiptRow(env.encodeC(c.coordinate), c.digest, KindCode(kind), EncodeU64(c.stateSchema),
               EncodeU64(c.receiptSchema),
               codec, receipt, env.sha256(receipt))
  }

  /** `persist_new_commit`: insert the receipt, update the row, delete what fell out of the window. */
  function Persist(env: Env, db: Db, s: Stored, c: Commit, kind: Kind, codec: string, receipt: seq<byte>): Db {
    var floor := Floor(s.config, c.sequence);
    var inserted := db.receipts[EncodeU64(c.sequence) := RowOf(env, c, kind, codec, receipt)];
    var meta := db.meta.(
      lastSequence := Some(EncodeU64(c.sequence)), lastCoordinate := Some(env.encodeC(c.coordinate)),
      lastDigest := Some(c.digest), lastKind := Some(KindCode(kind)),
      lastStateSchema := Some(EncodeU64(c.stateSchema)), lastReceiptSchema := Some(EncodeU64(c.receiptSchema)),
      lastReceiptDigest := Some(env.sha256(receipt)), receiptFloor := Some(EncodeU64(floor)));
    db.(meta := meta, receipts := map key | key in inserted && !LexLess(key, EncodeU64(floor)) :: inserted[key])
  }

  /** `update_state_after_commit` */
  function Advanced(env: Env, s: Stored, c: Commit, kind: Kind, receipt: seq<byte>): Stored {
    s.(lastApplied := Some(Applied(c, kind, env.sha256(receipt))), receiptFloor := Some(Floor(s.config, c.sequence)))
  }

  /** `create_metadata_tables` */
  function Created(app: App, c: Config): Db {
    Db(app,
       MetaRow(FORMAT_VERSION, c.applicationId, EncodeU64(c.initialSequence), EncodeU64(c.initialStateSchema),
               c.receiptCodec, EncodeU64(c.retention), EncodeU64(c.maxReceiptBytes),
               None, None, None, None, None, None, None, None, None),
       map[])
  }
}
