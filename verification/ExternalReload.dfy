/**
Reading back what was written: for every history, `load_state` returns the memory state,
`load_receipt` returns the first receipt of every retained sequence and nothing else,
`validate_receipts` accepts, and `persist_new_commit` writes the database of the longer history.
*/
module ExternalReload {
  import opened Base
  import opened Positional
  import opened ExternalDb
  import opened ExternalHistory

  ghost predicate Good(env: Env, cfg: Config, app: App, h: History) {
    env.Lawful() && ValidConfig(cfg) && ValidHistory(env, cfg, app, h)
  }

  lemma BlobsDecode(c: Commit, cfg: Config)
    ensures DecodeU64(EncodeU64(c.sequence)) == Some(c.sequence)
    ensures DecodeU64(EncodeU64(c.stateSchema)) == Some(c.stateSchema)
    ensures DecodeU64(EncodeU64(c.receiptSchema)) == Some(c.receiptSchema)
    ensures DecodeU64(EncodeU64(Floor(cfg, c.sequence))) == Some(Floor(cfg, c.sequence))
  {
    hide Be, FromBe, DecodeU64, EncodeU64, Floor;
    U64Blob(c.sequence);
    U64Blob(c.stateSchema);
    U64Blob(c.receiptSchema);
    U64Blob(Floor(cfg, c.sequence));
  }

  lemma ConfigDecodes(cfg: Config)
    ensures DecodeU64(EncodeU64(cfg.initialSequence)) == Some(cfg.initialSequence)
    ensures DecodeU64(EncodeU64(cfg.initialStateSchema)) == Some(cfg.initialStateSchema)
    ensures DecodeU64(EncodeU64(cfg.retention)) == Some(cfg.retention)
    ensures DecodeU64(EncodeU64(cfg.maxReceiptBytes)) == Some(cfg.maxReceiptBytes)
  {
    hide Be, FromBe, DecodeU64, EncodeU64;
    U64Blob(cfg.initialSequence);
    U64Blob(cfg.initialStateSchema);
    U64Blob(cfg.retention);
    U64Blob(cfg.maxReceiptBytes);
  }

  /** A restart, or the reload after a failed call, finds in the database what the memory held. */
  lemma LoadsMemory(env: Env, cfg: Config, app: App, h: History, id: Option<string>)
    requires Good(env, cfg, app, h)
    ensures LoadState(env, DbOf(env, cfg, app, h, id)) == Ok(StateOf(env, cfg, app, h, id))
  {
    hide Be, FromBe, DecodeU64, EncodeU64, Floor, ValidHistory, Window, RowAt, Replay, EffectAt;
    ConfigDecodes(cfg);
    if h != [] {
      BlobsDecode(h[|h| - 1].commit, cfg);
    }
  }

  /** Eight bytes decode to `v` exactly if they are the encoding of `v`. */
  lemma BlobExact(b: seq<byte>, v: u64)
    ensures DecodeU64(b) == Some(v) <==> b == EncodeU64(v)
  {
    U64Blob(v);
    if DecodeU64(b) == Some(v) {
      FromBeUnique(b, v);
    }
  }

  ghost predicate EncodesConfig(m: MetaRow, c: Config) {
    && m.formatVersion == FORMAT_VERSION && m.applicationId == c.applicationId && m.receiptCodec == c.receiptCodec
    && m.initialSequence == EncodeU64(c.initialSequence) && m.initialStateSchema == EncodeU64(c.initialStateSchema)
    && m.retention == EncodeU64(c.retention) && m.maxReceiptBytes == EncodeU64(c.maxReceiptBytes)
  }

  ghost predicate EncodesLast(env: Env, m: MetaRow, a: Applied, floor: u64) {
    && LastPresent(m)
    && m.lastSequence.value == EncodeU64(a.commit.sequence)
    && env.decodeC(m.lastCoordinate.value) == Some(a.commit.coordinate)
    && m.lastDigest.value == a.commit.digest && m.lastKind.value == KindCode(a.kind)
    && m.lastStateSchema.value == EncodeU64(a.commit.stateSchema)
    && m.lastReceiptSchema.value == EncodeU64(a.commit.receiptSchema)
    && m.lastReceiptDigest.value == a.receiptDigest && m.receiptFloor.value == EncodeU64(floor)
  }

  /** The row is an encoding of the state: all of the last applied entry or nothing of it. */
  ghost predicate Encodes(env: Env, m: MetaRow, s: Stored) {
    && EncodesConfig(m, s.config) && m.snapshotId == s.snapshotId
    && s.lastApplied.Some? == s.receiptFloor.Some?
    && if s.lastApplied.None? then LastAbsent(m) else EncodesLast(env, m, s.lastApplied.value, s.receiptFloor.value)
  }

  lemma LoadAppliedExact(env: Env, m: MetaRow, a: Applied, floor: u64)
    requires LastPresent(m)
    ensures LoadApplied(env, m) == Ok((a, floor)) <==> EncodesLast(env, m, a, floor)
  {
    hide Be, FromBe, DecodeU64, EncodeU64;
    BlobExact(m.lastSequence.value, a.commit.sequence);
    BlobExact(m.lastStateSchema.value, a.commit.stateSchema);
    BlobExact(m.lastReceiptSchema.value, a.commit.receiptSchema);
    BlobExact(m.receiptFloor.value, floor);
  }

  /** A state is loaded if and only if its configuration is valid and the row encodes it. */
  lemma LoadStateExact(env: Env, db: Db, s: Stored)
    ensures LoadState(env, db) == Ok(s) <==> ValidConfig(s.config) && Encodes(env, db.meta, s)
    ensures LoadState(env, db) == Ok(s) ==>
      1 <= s.config.retention <= 1_000_000 && 1 <= s.config.maxReceiptBytes <= 0x100_0000
  {
    hide Be, FromBe, DecodeU64, EncodeU64, LoadApplied, EncodesLast;
    var m := db.meta;
    BlobExact(m.initialSequence, s.config.initialSequence);
    BlobExact(m.initialStateSchema, s.config.initialStateSchema);
    BlobExact(m.retention, s.config.retention);
    BlobExact(m.maxReceiptBytes, s.config.maxReceiptBytes);
    if LastPresent(m) && s.lastApplied.Some? && s.receiptFloor.Some? {
      LoadAppliedExact(env, m, s.lastApplied.value, s.receiptFloor.value);
    } else {
      NotBoth(env, m, s);
    }
  }

  lemma NotBoth(env: Env, m: MetaRow, s: Stored)
    requires !(LastPresent(m) && s.lastApplied.Some? && s.receiptFloor.Some?)
    ensures s.lastApplied.Some? && s.receiptFloor.Some? ==>
        !EncodesLast(env, m, s.lastApplied.value, s.receiptFloor.value)
  {
  }

  /** The row stores the receipt `r`, and the digest in it is the digest of its body. */
  ghost predicate EncodesReceipt(env: Env, row: ReceiptRow, r: Receipt) {
    && env.decodeC(row.coordinate) == Some(r.commit.coordinate) && row.commandDigest == r.commit.digest
    && row.kind == KindCode(r.kind) && row.codec == r.codec
    && row.stateSchema == EncodeU64(r.commit.stateSchema) && row.receiptSchema == EncodeU64(r.commit.receiptSchema)
    && row.receipt == r.receipt && row.receiptDigest == r.receiptDigest && env.sha256(r.receipt) == r.receiptDigest
  }

  lemma DecodeRowExact(env: Env, sequence: u64, row: ReceiptRow, r: Receipt)
    ensures DecodeRow(env, sequence, row) == Ok(r) <==> r.commit.sequence == sequence && EncodesReceipt(env, row, r)
  {
    hide Be, FromBe, DecodeU64, EncodeU64;
    BlobExact(row.stateSchema, r.commit.stateSchema);
    BlobExact(row.receiptSchema, r.commit.receiptSchema);
  }

  /** In any database: a receipt is found if and only if its row stores it, unharmed and within the limit. */
  lemma FoundReceiptExact(env: Env, db: Db, sequence: u64, maxBytes: nat, r: Receipt)
    ensures LoadReceipt(env, db, sequence, maxBytes) == Ok(Some(r)) <==>
      && EncodeU64(sequence) in db.receipts && |r.receipt| <= maxBytes && r.commit.sequence == sequence
      && EncodesReceipt(env, db.receipts[EncodeU64(sequence)], r)
    ensures LoadReceipt(env, db, sequence, maxBytes) == Ok(None) <==> EncodeU64(sequence) !in db.receipts
  {
    hide EncodeU64, DecodeRow, EncodesReceipt;
    if EncodeU64(sequence) in db.receipts {
      DecodeRowExact(env, sequence, db.receipts[EncodeU64(sequence)], r);
      StoresBody(env, db.receipts[EncodeU64(sequence)], r);
    }
  }

  lemma StoresBody(env: Env, row: ReceiptRow, r: Receipt)
    ensures EncodesReceipt(env, row, r) ==> row.receipt == r.receipt
  {
  }

  /** What validation asks of one row: a body that decodes under the codec of its kind. */
  ghost predicate GoodReceipt(env: Env, s: Stored, r: Receipt) {
    && |r.receipt| <= s.config.maxReceiptBytes
    && (r.kind.OperationKind? ==> r.codec == s.config.receiptCodec && env.decode(r.receipt).Some?)
    && (r.kind.AdvanceKind? ==> r.codec == "hiqlite/advance-v1" && r.receipt == [])
  }

  lemma ReceiptOkExact(env: Env, db: Db, s: Stored, sequence: u64)
    ensures ReceiptOk(env, db, s, sequence) <==>
      exists r: Receipt ::
        LoadReceipt(env, db, sequence, s.config.maxReceiptBytes) == Ok(Some(r)) && GoodReceipt(env, s, r)
  {
    hide LoadReceipt;
  }

  lemma NewestOkExact(env: Env, db: Db, s: Stored, last: Applied)
    ensures NewestOk(env, db, s, last) <==>
      exists r: Receipt :: LoadReceipt(env, db, last.commit.sequence, s.config.maxReceiptBytes) == Ok(Some(r))
                  && Applied(r.commit, r.kind, r.receiptDigest) == last
  {
    hide LoadReceipt;
  }

  ghost function ReceiptAt(env: Env, cfg: Config, app: App, h: History, i: nat): Receipt
    requires i < |h|
  {
    var row := RowAt(env, cfg, app, h, i);
    Receipt(h[i].commit, KindOfEntry(h[i]), CodecName(cfg, KindOfEntry(h[i])), row.receipt, row.receiptDigest)
  }

  lemma RowDecodes(env: Env, cfg: Config, app: App, h: History, i: nat)
    requires Good(env, cfg, app, h) && i < |h|
    ensures DecodeRow(env, h[i].commit.sequence, RowAt(env, cfg, app, h, i)) == Ok(ReceiptAt(env, cfg, app, h, i))
    ensures |ReceiptAt(env, cfg, app, h, i).receipt| <= cfg.maxReceiptBytes
  {
    hide Be, FromBe, DecodeU64, EncodeU64, Floor, Replay;
    assert EffectAt(env, cfg, app, h, i).Ok?;
    BlobsDecode(h[i].commit, cfg);
  }

  /** Which sequences still have a receipt. */
  predicate Retained(cfg: Config, h: History, sequence: u64) {
    cfg.initialSequence + WindowStart(cfg, h) <= sequence < cfg.initialSequence + |h|
  }

  /** A sequence outside the window has no row: no other key encodes it. */
  lemma NotRetained(env: Env, cfg: Config, app: App, h: History, sequence: u64)
    requires ValidHistory(env, cfg, app, h) && !Retained(cfg, h, sequence)
    ensures EncodeU64(sequence) !in Window(env, cfg, app, h)
  {
    hide Be, FromBe, DecodeU64, EncodeU64, EffectAt, Window, RowAt;
    if EncodeU64(sequence) in Window(env, cfg, app, h) {
      var i := WindowKey(env, cfg, app, h, EncodeU64(sequence));
      U64Blob(sequence);
      U64Blob(h[i].commit.sequence);
      assert false;
    }
  }

  lemma LoadReceiptExact(env: Env, cfg: Config, app: App, h: History, id: Option<string>, sequence: u64)
    requires Good(env, cfg, app, h)
    ensures LoadReceipt(env, DbOf(env, cfg, app, h, id), sequence, cfg.maxReceiptBytes) ==
            if Retained(cfg, h, sequence) then Ok(Some(ReceiptAt(env, cfg, app, h, sequence - cfg.initialSequence)))
            else Ok(None)
  {
    hide Be, FromBe, DecodeU64, EncodeU64, EffectAt, Window, RowAt, Replay, DecodeRow, MetaOf, Floor;
    if Retained(cfg, h, sequence) {
      var i := sequence - cfg.initialSequence;
      assert h[i].commit.sequence == sequence;
      InWindow(env, cfg, app, h, i);
      RowDecodes(env, cfg, app, h, i);
    } else {
      NotRetained(env, cfg, app, h, sequence);
    }
  }

  // ---- the ordered query

  /** A strictly ascending list of exactly the numbers in [lo, hi) counts them off. */
  lemma {:induction false} CountsOff(s: seq<int>, lo: int, hi: int)
    requires forall i, j :: 0 <= i < j < |s| ==> s[i] < s[j]
    requires forall x :: x in s <==> lo <= x < hi
    ensures |s| == Max(0, hi - lo) && forall i :: 0 <= i < |s| ==> s[i] == lo + i
    decreases |s|
  {
    if |s| == 0 {
      assert lo < hi ==> lo in s;
    } else {
      var last := |s| - 1;
      assert s[last] in s;
      assert lo <= s[last] < hi && hi - 1 in s;
      assert s[last] == hi - 1;
      var t := s[..last];
      forall x | x in t
        ensures lo <= x < hi - 1
      {
        var i :| 0 <= i < last && s[i] == x;
        assert s[i] in s && s[i] < s[last];
      }
      forall x | lo <= x < hi - 1
        ensures x in t
      {
        assert x in s;
        var i :| 0 <= i < |s| && s[i] == x;
        assert t[i] == x;
      }
      CountsOff(t, lo, hi - 1);
    }
  }

  ghost function Decoded(keys: seq<Key>): seq<int> {
    seq(|keys|, i requires 0 <= i < |keys| => FromBe(keys[i]))
  }

  lemma KeyOfWindow(env: Env, cfg: Config, app: App, h: History, key: Key) returns (sequence: u64)
    requires ValidHistory(env, cfg, app, h) && key in Window(env, cfg, app, h)
    ensures Retained(cfg, h, sequence) && key == EncodeU64(sequence)
    ensures FromBe(key) == sequence && DecodeU64(key) == Some(sequence)
  {
    hide Be, FromBe, EffectAt, Window, RowAt;
    var i := WindowKey(env, cfg, app, h, key);
    sequence := h[i].commit.sequence;
    U64Blob(sequence);
  }

  /** The ordered query returns the sequences of the window, one by one. */
  lemma OrderedWindow(env: Env, cfg: Config, app: App, h: History, keys: seq<Key>)
    requires ValidConfig(cfg) && ValidHistory(env, cfg, app, h) && Ordered(keys, Window(env, cfg, app, h))
    ensures |keys| == |h| - WindowStart(cfg, h)
    ensures forall i :: 0 <= i < |keys| ==> DecodeU64(keys[i]) == Some(cfg.initialSequence + WindowStart(cfg, h) + i)
  {
    var lo, hi := cfg.initialSequence + WindowStart(cfg, h), cfg.initialSequence + |h|;
    var s := Decoded(keys);
    hide Be, FromBe, EffectAt, Window, RowAt, DecodeU64, EncodeU64, LexLess;
    forall i | 0 <= i < |keys|
      ensures lo <= s[i] < hi && DecodeU64(keys[i]) == Some(s[i])
    {
      assert keys[i] in keys;
      var sequence := KeyOfWindow(env, cfg, app, h, keys[i]);
    }
    forall i, j | 0 <= i < j < |keys|
      ensures s[i] < s[j]
    {
      assert keys[i] in keys && keys[j] in keys;
      var a := KeyOfWindow(env, cfg, app, h, keys[i]);
      var b := KeyOfWindow(env, cfg, app, h, keys[j]);
      KeyOrder(a, b);
    }
    forall x | lo <= x < hi
      ensures x in s
    {
      var i := x - cfg.initialSequence;
      InWindow(env, cfg, app, h, i);
      assert KeyAt(h, i) in keys;
      var j :| 0 <= j < |keys| && keys[j] == KeyAt(h, i);
      U64Blob(h[i].commit.sequence);
      assert s[j] == x;
    }
    CountsOff(s, lo, hi);
  }

  lemma ReceiptOkAt(env: Env, cfg: Config, app: App, h: History, id: Option<string>, sequence: u64)
    requires Good(env, cfg, app, h) && Retained(cfg, h, sequence)
    ensures ReceiptOk(env, DbOf(env, cfg, app, h, id), StateOf(env, cfg, app, h, id), sequence)
  {
    hide Be, FromBe, DecodeU64, EncodeU64, Window, Replay, DecodeRow, MetaOf, Floor, LoadReceipt, ValidHistory;
    var i := sequence - cfg.initialSequence;
    LoadReceiptExact(env, cfg, app, h, id, sequence);
    RowDecodes(env, cfg, app, h, i);
    assert EffectAt(env, cfg, app, h, i).Ok? by {
      EffectIsOk(env, cfg, app, h, i);
    }
  }

  lemma EffectIsOk(env: Env, cfg: Config, app: App, h: History, i: nat)
    requires ValidHistory(env, cfg, app, h) && i < |h|
    ensures EffectAt(env, cfg, app, h, i).Ok? && h[i].commit.sequence == cfg.initialSequence + i
  {
    hide EffectAt;
  }

  lemma SuffixAccepted(env: Env, cfg: Config, app: App, h: History, id: Option<string>, keys: seq<Key>)
    requires Good(env, cfg, app, h) && Ordered(keys, Window(env, cfg, app, h)) && h != []
    ensures SuffixOk(env, DbOf(env, cfg, app, h, id), StateOf(env, cfg, app, h, id),
                     Floor(cfg, h[|h| - 1].commit.sequence), keys)
  {
    hide Be, FromBe, DecodeU64, EncodeU64, Window, Replay, MetaOf, Floor, ReceiptOk, ValidHistory, Ordered, DbOf;
    hide StateOf;
    OrderedWindow(env, cfg, app, h, keys);
    FloorIsWindowStart(env, cfg, app, h);
    EffectIsOk(env, cfg, app, h, |h| - 1);
    var floor := Floor(cfg, h[|h| - 1].commit.sequence);
    var db, s := DbOf(env, cfg, app, h, id), StateOf(env, cfg, app, h, id);
    forall i | 0 <= i < |keys|
      ensures SuffixAt(env, db, s, floor, keys, i)
    {
      ReceiptOkAt(env, cfg, app, h, id, floor + i);
    }
  }

  lemma NewestAccepted(env: Env, cfg: Config, app: App, h: History, id: Option<string>)
    requires Good(env, cfg, app, h) && h != []
    ensures NewestOk(env, DbOf(env, cfg, app, h, id), StateOf(env, cfg, app, h, id),
                     AppliedAt(env, cfg, app, h, |h| - 1))
  {
    hide DbOf, LoadReceipt, RowAt, ValidHistory, Floor;
    EffectIsOk(env, cfg, app, h, |h| - 1);
    FloorIsWindowStart(env, cfg, app, h);
    LoadReceiptExact(env, cfg, app, h, id, h[|h| - 1].commit.sequence);
  }

  lemma NoEntriesNoReceipts(env: Env, cfg: Config, app: App)
    requires ValidHistory(env, cfg, app, [])
    ensures |Window(env, cfg, app, [])| == 0
  {
    hide Be, FromBe;
    assert forall key :: key !in Window(env, cfg, app, []);
  }

  /** Whatever the ordered query returns, validation accepts, on every history. */
  lemma ReceiptsAccepted(env: Env, cfg: Config, app: App, h: History, id: Option<string>, keys: seq<Key>)
    requires Good(env, cfg, app, h) && Ordered(keys, Window(env, cfg, app, h))
    ensures ReceiptsOk(env, DbOf(env, cfg, app, h, id), StateOf(env, cfg, app, h, id), keys)
  {
    hide Window, Replay, MetaOf, Floor, SuffixOk, NewestOk, ValidHistory, Ordered, RowAt;
    if h == [] {
      NoEntriesNoReceipts(env, cfg, app);
    } else {
      OrderedWindow(env, cfg, app, h, keys);
      FloorIsWindowStart(env, cfg, app, h);
      EffectIsOk(env, cfg, app, h, |h| - 1);
      SuffixAccepted(env, cfg, app, h, id, keys);
      NewestAccepted(env, cfg, app, h, id);
    }
  }

  /**
  The other direction, for any database at all: what validation accepts has a row for exactly the
  sequences from the floor to the checkpoint, `retention` of them at most, each one readable.
  */
  lemma AcceptedIsWindow(env: Env, db: Db, s: Stored, keys: seq<Key>)
    requires Ordered(keys, db.receipts) && ReceiptsOk(env, db, s, keys) && s.lastApplied.Some?
    ensures s.receiptFloor == Some(Floor(s.config, s.lastApplied.value.commit.sequence))
    ensures forall key :: key in db.receipts ==> |key| == 8
    ensures forall q: u64 :: EncodeU64(q) in db.receipts <==>
                             s.receiptFloor.value <= q <= s.lastApplied.value.commit.sequence
    ensures s.lastApplied.value.commit.sequence - s.receiptFloor.value < s.config.retention
    ensures forall q: u64 :: s.receiptFloor.value <= q <= s.lastApplied.value.commit.sequence ==>
        exists r: Receipt :: LoadReceipt(env, db, q, s.config.maxReceiptBytes) == Ok(Some(r)) && GoodReceipt(env, s, r)
    ensures var last := s.lastApplied.value;
      exists r: Receipt :: LoadReceipt(env, db, last.commit.sequence, s.config.maxReceiptBytes) == Ok(Some(r))
                  && Applied(r.commit, r.kind, r.receiptDigest) == last
  {
    hide Be, FromBe, EncodeU64, ReceiptOk, NewestOk, LexLess, Floor, LoadReceipt, GoodReceipt;
    NewestOkExact(env, db, s, s.lastApplied.value);
    var floor, last := s.receiptFloor.value, s.lastApplied.value.commit.sequence;
    forall i | 0 <= i < |keys|
      ensures keys[i] == EncodeU64(floor + i) && |keys[i]| == 8 && ReceiptOk(env, db, s, floor + i)
    {
      assert SuffixAt(env, db, s, floor, keys, i);
      BlobExact(keys[i], floor + i);
    }
    forall q: u64
      ensures EncodeU64(q) in db.receipts <==> floor <= q <= last
      ensures floor <= q <= last ==>
        exists r: Receipt :: LoadReceipt(env, db, q, s.config.maxReceiptBytes) == Ok(Some(r)) && GoodReceipt(env, s, r)
    {
      ReceiptOkExact(env, db, s, q);
      if floor <= q <= last {
        assert keys[q - floor] == EncodeU64(q) && keys[q - floor] in keys;
      } else if EncodeU64(q) in db.receipts {
        var i :| 0 <= i < |keys| && keys[i] == EncodeU64(q);
        U64Blob(q);
        U64Blob(floor + i);
        assert false;
      }
    }
  }

  // ---- writing

  lemma PersistMeta(env: Env, cfg: Config, app: App, h: History, e: Entry, id: Option<string>, receipt: seq<byte>)
    requires EffectAt(env, cfg, app, h + [e], |h|).Ok? && receipt == EffectAt(env, cfg, app, h + [e], |h|).value.receipt
    requires cfg.retention >= 1
    ensures var kind := KindOfEntry(e);
            MetaOf(env, cfg, app, h + [e], id) == MetaOf(env, cfg, app, h, id).(
              lastSequence := Some(EncodeU64(e.commit.sequence)),
              lastCoordinate := Some(env.encodeC(e.commit.coordinate)),
              lastDigest := Some(e.commit.digest), lastKind := Some(KindCode(kind)),
              lastStateSchema := Some(EncodeU64(e.commit.stateSchema)),
              lastReceiptSchema := Some(EncodeU64(e.commit.receiptSchema)),
              lastReceiptDigest := Some(env.sha256(receipt)),
              receiptFloor := Some(EncodeU64(Floor(cfg, e.commit.sequence))))
  {
    hide Be, FromBe, DecodeU64, EncodeU64, Floor, EffectAt;
    assert (h + [e])[|h|] == e;
  }

  lemma StateMoves(env: Env, cfg: Config, app: App, h: History, e: Entry, id: Option<string>, receipt: seq<byte>)
    requires EffectAt(env, cfg, app, h + [e], |h|).Ok? && receipt == EffectAt(env, cfg, app, h + [e], |h|).value.receipt
    ensures Advanced(env, StateOf(env, cfg, app, h, id), e.commit, KindOfEntry(e), receipt) ==
            StateOf(env, cfg, app, h + [e], id)
  {
    hide Floor, EffectAt;
    assert (h + [e])[|h|] == e;
  }

  /** One transaction takes the database of a history to the database of the longer history. */
  lemma PersistExtends(env: Env, cfg: Config, app: App, h: History, e: Entry, id: Option<string>, s: Stored)
    requires Good(env, cfg, app, h) && Extends(env, cfg, app, h, e) && s.config == cfg
    ensures Good(env, cfg, app, h + [e])
    ensures var effect := EffectOf(env, cfg, Replay(env, cfg, app, h), e).value;
            var ran := DbOf(env, cfg, app, h, id).(app := effect.app);
            Persist(env, ran, s, e.commit, KindOfEntry(e), CodecName(cfg, KindOfEntry(e)), effect.receipt) ==
            DbOf(env, cfg, app, h + [e], id)
  {
    Grow(env, cfg, app, h, e);
    WindowMoves(env, cfg, app, h, e);
    hide Be, FromBe, DecodeU64, EncodeU64, Window, Replay, Floor, EffectOf, EffectAt, ValidHistory, LexLess, MetaOf;
    hide RowOf;
    PersistMeta(env, cfg, app, h, e, id, EffectAt(env, cfg, app, h + [e], |h|).value.receipt);
  }
}
