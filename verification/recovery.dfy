/** What a fresh process recovers from the files, and which files keep later writes safe. */
module Recovery {
  import opened BinaryIo
  import opened WalFormat
  import opened Replay
  import opened SnapshotFormat
  import opened FileSystem

  /** The map replay starts from and the WAL offset it starts at; None when loading throws. */
  function Checkpoint(file: Option<Bytes>): Option<(Map, nat)> {
    match LoadFile(file)
    case NotLoaded => Some((map[], 0))
    case Loaded(m, _, walOffset) => Some((m, walOffset))
    case Failed(_) => None
  }

  /** Startup: load the snapshot into an empty map, then replay the WAL from its offset. The
      result is the map and the number of operations replayed. */
  function Recover(d: Disk): Result<(Map, nat)> {
    match LoadFile(d.snapshot)
    case NotLoaded => Ok(ReplayBytes(d.wal, map[]))
    case Loaded(m, _, walOffset) =>
      if walOffset > MAX_POSITION then Err(OffsetTooLarge) else Ok(ReplayBytes(Tail(d.wal, walOffset), m))
    case Failed(error) => Err(error)
  }

  /** The log past `offset` is whole frames, and replaying them over `base` gives `m` after `tail`
      operations. */
  ghost predicate TailHolds(w: Bytes, offset: nat, base: Map, m: Map, tail: nat) {
    offset <= |w| && Framed(w[offset..]) && ReplayBytes(w[offset..], base) == (m, tail)
  }

  /** The files hold exactly `m`, with `tail` operations after the checkpoint, and the WAL past
      the checkpoint ends at a record boundary. Nothing is said of the bytes before it. */
  ghost predicate Durable(d: Disk, m: Map, tail: nat) {
    && |d.wal| <= MAX_POSITION
    && Checkpoint(d.snapshot).Some?
    && var (base, offset) := Checkpoint(d.snapshot).value; TailHolds(d.wal, offset, base, m, tail)
  }

  lemma RecoverFromCheckpoint(d: Disk)
    requires Checkpoint(d.snapshot).Some?
    ensures var (base, offset) := Checkpoint(d.snapshot).value;
      Recover(d) == if offset > MAX_POSITION then Err(OffsetTooLarge)
                    else Ok(ReplayBytes(Tail(d.wal, offset), base))
  {
    assert d.wal[0..] == d.wal;
  }

  /** Startup throws what loading the snapshot throws; it never falls back to the log alone. */
  lemma RefusedSnapshotStopsStartup(d: Disk, error: Error)
    requires LoadFile(d.snapshot) == Failed(error)
    ensures Recover(d) == Err(error) && Checkpoint(d.snapshot).None?
  {
  }

  /** A snapshot cut short counts as absent below four bytes, and stops startup otherwise. */
  lemma TornSnapshotRecovery(d: Disk, image: Bytes, m: Map, position: nat, k: nat)
    requires IsImage(image, m, position) && FieldsWithin(m, U32_MAX) && position <= U64_MAX && k < |image|
    requires d.snapshot == Some(image[..k])
    ensures if k < 4 then Recover(d) == Ok(ReplayBytes(d.wal, map[]))
            else if k < 20 then Recover(d) == Err(BadMetadata)
            else Recover(d).Err? && (Loadable(m) ==> Recover(d) == Err(BadEntry))
  {
    NoStrictPrefixLoads(image, m, position, k);
    hide DecodeSnapshot, IsImage, Loadable, FieldsWithin;
  }

  lemma DurableRecovers(d: Disk, m: Map, tail: nat)
    requires Durable(d, m, tail)
    ensures Recover(d) == Ok((m, tail))
  {
    RecoverFromCheckpoint(d);
  }

  lemma ApplyLoadable(m: Map, op: Op)
    requires Loadable(m) && Fits(op)
    ensures Loadable(ApplyOp(m, op))
  {
    hide EncodePayload;
    forall k | k in ApplyOp(m, op)
      ensures |k| <= MAX_FIELD && |ApplyOp(m, op)[k]| <= MAX_FIELD
    {
      assert k != op.key ==> k in m;
    }
  }

  /** An abandoned temp file has no say in recovery. */
  lemma TempIgnored(d: Disk, d': Disk, m: Map, tail: nat)
    requires Durable(d, m, tail) && d'.wal == d.wal && d'.snapshot == d.snapshot
    ensures Durable(d', m, tail)
  {
  }

  lemma {:induction false} ReplayLoadable(m: Map, ops: seq<Op>)
    requires Loadable(m) && forall op :: op in ops ==> Fits(op)
    ensures Loadable(ApplyOps(m, ops))
    decreases |ops|
  {
    if ops == [] {
    } else {
      assert ops[0] in ops;
      ApplyLoadable(m, ops[0]);
      ReplayLoadable(ApplyOp(m, ops[0]), ops[1..]);
    }
  }

  /** Whatever the bytes, a recovered map is one the loader would take back. */
  lemma RecoveredLoadable(d: Disk)
    ensures Recover(d).Ok? ==> Loadable(Recover(d).value.0)
  {
    LoadedIsLoadable(d.snapshot);
    if Recover(d).Ok? {
      var (base, offset) := Checkpoint(d.snapshot).value;
      RecoverFromCheckpoint(d);
      DecodedOpsFitBytes(Tail(d.wal, offset));
      ReplayLoadable(base, DecodeOps(Tail(d.wal, offset)));
    }
  }

  // ---------- What each change of the files does ----------

  /** A committed snapshot restores durability over any WAL bytes at all, torn or corrupt. */
  lemma SaveMakesDurable(d: Disk, m: Map)
    requires |d.wal| <= MAX_POSITION && Loadable(m)
    requires d.snapshot.Some? && IsImage(d.snapshot.value, m, |d.wal|)
    ensures Durable(d, m, 0)
  {
    ImageLoads(d.snapshot.value, m, |d.wal|);
    assert d.wal[|d.wal|..] == [];
  }

  lemma EmptyFilesDurable(temp: Option<Bytes>)
    ensures Durable(Disk([], None, temp), map[], 0)
  {
  }

  /** Replay past a fixed checkpoint, with the prefix `r` of a record at the end of the log. */
  lemma TailAppendReplays(w: Bytes, base: Map, op: Op, k: nat)
    requires Framed(w) && Fits(op) && k <= RecordLength(op)
    ensures var (m, n) := ReplayBytes(w, base);
      ReplayBytes(w + EncodeRecord(op)[..k], base) ==
        if k < RecordLength(op) then (m, n) else (ApplyOp(m, op), n + 1)
  {
    hide DecodeOps, ApplyOps, ApplyOp, Framed, EncodeRecord, Fits;
    AppendAtBoundary(w, op, k);
    ApplySnoc(base, DecodeOps(w), op);
  }

  lemma TailOfAppend(w: Bytes, r: Bytes, offset: nat)
    requires offset <= |w|
    ensures Tail(w + r, offset) == (w + r)[offset..] == w[offset..] + r
  {
  }

  /** The files after the first `k` bytes of a record have reached the log. */
  function Appended(d: Disk, op: Op, k: nat): Disk
    requires k <= RecordLength(op)
  {
    d.(wal := d.wal + EncodeRecord(op)[..k])
  }

  /** Bytes added to the log are replayed after what the files already hold. */
  lemma RecoverExtended(d: Disk, m: Map, tail: nat, r: Bytes)
    requires Durable(d, m, tail)
    ensures var (base, offset) := Checkpoint(d.snapshot).value;
      Recover(d.(wal := d.wal + r)) == Ok(ReplayBytes(d.wal[offset..] + r, base))
  {
    var (base, offset) := Checkpoint(d.snapshot).value;
    hide Checkpoint, LoadFile, Recover, Framed, ReplayBytes, Tail;
    RecoverFromCheckpoint(d.(wal := d.wal + r));
    TailOfAppend(d.wal, r, offset);
  }

  lemma AppendedRecovers(d: Disk, m: Map, tail: nat, op: Op, k: nat)
    requires Durable(d, m, tail) && Fits(op) && k <= RecordLength(op)
    ensures Recover(Appended(d, op, k)) ==
            if k < RecordLength(op) then Ok((m, tail)) else Ok((ApplyOp(m, op), tail + 1))
  {
    var (base, offset) := Checkpoint(d.snapshot).value;
    var r := EncodeRecord(op)[..k];
    var w := d.wal[offset..];
    RecoverExtended(d, m, tail, r);
    assert Framed(w) && ReplayBytes(w, base) == (m, tail);
    hide Checkpoint, LoadFile, Recover, EncodeRecord, Fits, Framed, ReplayBytes, ApplyOp, Durable;
    TailAppendReplays(w, base, op, k);
  }

  lemma WholeAppendReplays(w: Bytes, base: Map, op: Op)
    requires Framed(w) && Fits(op)
    ensures Framed(w + EncodeRecord(op))
    ensures var (m, n) := ReplayBytes(w, base);
      ReplayBytes(w + EncodeRecord(op), base) == (ApplyOp(m, op), n + 1)
  {
    var r := EncodeRecord(op);
    assert r[..|r|] == r;
    hide DecodeOps, ApplyOps, ApplyOp, Framed, EncodeRecord, Fits, ReplayBytes;
    TailAppendReplays(w, base, op, |r|);
    AppendAtBoundary(w, op, |r|);
  }

  lemma TailHoldsAppended(w: Bytes, offset: nat, base: Map, m: Map, tail: nat, op: Op)
    requires TailHolds(w, offset, base, m, tail) && Fits(op)
    ensures TailHolds(w + EncodeRecord(op), offset, base, ApplyOp(m, op), tail + 1)
  {
    hide EncodeRecord, Fits, Framed, ReplayBytes, ApplyOp;
    WholeAppendReplays(w[offset..], base, op);
    TailOfAppend(w, EncodeRecord(op), offset);
  }

  lemma AppendedDurable(d: Disk, m: Map, tail: nat, op: Op)
    requires Durable(d, m, tail) && Fits(op) && |d.wal| + RecordLength(op) <= MAX_POSITION
    ensures Durable(d.(wal := d.wal + EncodeRecord(op)), ApplyOp(m, op), tail + 1)
  {
    var (base, offset) := Checkpoint(d.snapshot).value;
    hide Checkpoint, EncodeRecord, Fits, TailHolds, ApplyOp;
    TailHoldsAppended(d.wal, offset, base, m, tail, op);
  }

  lemma PartOfRecordFramed(op: Op, k: nat)
    requires Fits(op) && k <= RecordLength(op)
    ensures Framed(EncodeRecord(op)[..k]) <==> k == 0 || k == RecordLength(op)
  {
    var r := EncodeRecord(op);
    if k < |r| {
      TornFrame(EncodePayload(op), k);
    } else {
      assert r[..k] == r;
      RecordDecodes(op);
    }
  }

  /** Past an interrupted append, the files still end at a record boundary exactly when none or all
      of the record was written. */
  lemma PartialAppendDurable(d: Disk, m: Map, tail: nat, op: Op, k: nat)
    requires Durable(d, m, tail) && Fits(op) && k <= RecordLength(op)
    requires |d.wal| + k <= MAX_POSITION
    ensures var d' := Appended(d, op, k);
      Recover(d').Ok? && (Durable(d', Recover(d').value.0, Recover(d').value.1) <==>
        k == 0 || k == RecordLength(op))
  {
    var (base, offset) := Checkpoint(d.snapshot).value;
    var r := EncodeRecord(op)[..k];
    var d' := Appended(d, op, k);
    assert d'.wal == d.wal + r && d'.snapshot == d.snapshot;
    PartOfRecordFramed(op, k);
    FramedConcat(d.wal[offset..], r);
    TailOfAppend(d.wal, r, offset);
    hide Checkpoint, LoadFile, Framed, EncodeRecord, Fits, ReplayBytes, Appended;
    RecoverFromCheckpoint(d');
  }

  /** An interrupted append recovers the map before it; a complete one the map after it. */
  lemma AppendRecovers(d: Disk, m: Map, tail: nat, op: Op, d': Disk)
    requires Durable(d, m, tail) && Fits(op) && TornAppend(d, EncodeRecord(op), d')
    ensures Recover(d') == if |d'.wal| < |d.wal| + RecordLength(op) then Ok((m, tail))
                           else Ok((ApplyOp(m, op), tail + 1))
  {
    var r := EncodeRecord(op);
    var k: nat :| k <= |r| && d' == d.(wal := d.wal + r[..k]);
    assert d' == Appended(d, op, k);
    AppendedRecovers(d, m, tail, op, k);
  }

  // ---------- Exactly when later writes are safe ----------

  /** Whatever single write is logged next, the following startup recovers it. */
  ghost predicate AppendsSurvive(d: Disk)
    requires Recover(d).Ok?
  {
    forall op | Fits(op) :: Survives(d, op)
  }

  ghost predicate Survives(d: Disk, op: Op)
    requires Recover(d).Ok?
  {
    var after := Recover(d.(wal := d.wal + EncodeRecord(op)));
    after.Ok? && after.value.0 == ApplyOp(Recover(d).value.0, op)
  }

  /** A checkpoint beyond the end of the WAL hides at least the start of the next record. */
  lemma BeyondEndSwallowsProbe(w: Bytes, offset: nat, base: Map, x: byte)
    requires |w| < offset && Lookup(base, []) != Some([x])
    ensures Lookup(ReplayBytes(Tail(w + EncodeRecord(Probe(x)), offset), base).0, []) != Some([x])
  {
    var seen := Tail(w + EncodeRecord(Probe(x)), offset);
    assert |seen| < |EncodeRecord(Probe(x))|;
    DecodedOpsFitBytes(seen);
    NoSetNoValue(base, DecodeOps(seen), [], [x]);
  }

  /** Startup never repairs the WAL, so on some files later writes are lost. Over all files
      that recover at all, every next write survives exactly when the checkpoint lies within the
      WAL and the bytes after it are whole frames. */
  lemma AppendsSurviveIffDurable(d: Disk)
    requires Recover(d).Ok? && |d.wal| <= MAX_POSITION
    ensures AppendsSurvive(d) <==> Durable(d, Recover(d).value.0, Recover(d).value.1)
  {
    var (base, offset) := Checkpoint(d.snapshot).value;
    var w := Tail(d.wal, offset);
    RecoverFromCheckpoint(d);
    forall op: Op
      ensures Recover(d.(wal := d.wal + EncodeRecord(op))).Ok?
      ensures Recover(d.(wal := d.wal + EncodeRecord(op))).value ==
              ReplayBytes(Tail(d.wal + EncodeRecord(op), offset), base)
    {
      RecoverFromCheckpoint(d.(wal := d.wal + EncodeRecord(op)));
    }
    hide Recover, Checkpoint, EncodeRecord, Tail;
    if offset <= |d.wal| {
      forall op: Op ensures Tail(d.wal + EncodeRecord(op), offset) == w + EncodeRecord(op) {
        TailOfAppend(d.wal, EncodeRecord(op), offset);
      }
      AppendsSurviveIffFramed(w, base);
    } else {
      var x: byte := if Lookup(base, []) == Some([0]) then 1 else 0;
      BeyondEndSwallowsProbe(d.wal, offset, base, x);
      ProbeBytes(x);
      assert Lookup(ApplyOp(base, Probe(x)), []) == Some([x]);
      assert Fits(Probe(x)) && !Survives(d, Probe(x));
    }
  }

  /** Clearing persistence is not one atomic step: the WAL is emptied first. A crash before the
      snapshot is removed brings back the snapshot's own map, and from there every write survives
      only if that snapshot covered no WAL bytes. */
  lemma ClearInterrupted(d: Disk, m: Map, tail: nat)
    requires Durable(d, m, tail)
    ensures var (base, offset) := Checkpoint(d.snapshot).value;
      var d' := d.(wal := []);
      Recover(d') == Ok((base, 0)) && (AppendsSurvive(d') <==> offset == 0)
  {
    var d' := d.(wal := []);
    RecoverFromCheckpoint(d');
    AppendsSurviveIffDurable(d');
  }

  // ---------- Legacy snapshots ----------

  /** A legacy snapshot records no offset, so the whole WAL is replayed over it. Taken at any
      record boundary `c`, it recovers what the WAL alone would. */
  lemma LegacySnapshotRecovers(w: Bytes, c: nat, es: seq<Entry>, temp: Option<Bytes>)
    requires c <= |w| && Framed(w[..c])
    requires Enumerates(es, ReplayBytes(w[..c], map[]).0) && |es| <= U32_MAX && |es| != MAGIC
    ensures Recover(Disk(w, Some(EncodeLegacy(es)), temp)) == Recover(Disk(w, None, temp))
  {
    var m := ReplayBytes(w[..c], map[]).0;
    DecodedOpsFitBytes(w[..c]);
    ReplayLoadable(map[], DecodeOps(w[..c]));
    LegacyLoads(es, m);
    Absorption(w, 0, c, map[]);
    assert w[0..] == w && w[..0] == [];
  }
}
