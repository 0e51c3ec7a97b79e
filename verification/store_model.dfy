/** The store as a state machine over memory and disk, and the map it promises to keep. */
module StoreModel {
  import opened BinaryIo
  import opened WalFormat
  import opened Replay
  import opened SnapshotFormat
  import opened FileSystem
  import opened Snapshots
  import opened Recovery

  const SNAPSHOT_INTERVAL: nat := 1000

  /** Which persistence objects the store was constructed with. */
  datatype Config = Config(hasWal: bool, hasSnapshot: bool)

  const FULL: Config := Config(true, true)

  datatype State = State(data: Map, writes: nat, disk: Disk)

  /** How the save belonging to a step went, if the step attempted one. */
  datatype SaveOutcome = NoSave | Saved | SaveThrew

  datatype Event =
    | Write(op: Op, save: SaveOutcome)
    | Refused(op: Op)
    | ClearMemory
    | SaveSnapshot(save: SaveOutcome)
    | ClearPersistence
    | Restart(replayed: nat)

  // ---------- Concrete steps ----------

  /** The WAL position a snapshot taken now records. */
  function Position(cfg: Config, d: Disk): nat {
    if cfg.hasWal then |d.wal| else 0
  }

  /** Logged, applied to memory and counted, in that order; the snapshot check comes after. */
  function Logged(cfg: Config, s: State, op: Op): State {
    State(ApplyOp(s.data, op),
          s.writes + 1,
          if cfg.hasWal then s.disk.(wal := s.disk.wal + EncodeRecord(op)) else s.disk)
  }

  predicate SaveDue(cfg: Config, s: State, op: Op) {
    cfg.hasSnapshot && Logged(cfg, s, op).writes >= SNAPSHOT_INTERVAL
  }

  ghost predicate SaveStep(cfg: Config, s: State, save: SaveOutcome, s': State) {
    match save
    case NoSave => s' == s
    case Saved =>
      && s'.data == s.data && s'.writes == 0 && s'.disk.wal == s.disk.wal
      && s'.disk.snapshot.Some? && IsImage(s'.disk.snapshot.value, s.data, Position(cfg, s.disk))
      && s'.disk.temp == None
    case SaveThrew =>
      && s'.data == s.data && s'.writes == s.writes
      && s'.disk.wal == s.disk.wal && s'.disk.snapshot == s.disk.snapshot
  }

  ghost predicate WriteStep(cfg: Config, s: State, op: Op, save: SaveOutcome, s': State) {
    && (cfg.hasWal ==> Fits(op))
    && (save.NoSave? <==> !SaveDue(cfg, s, op))
    && SaveStep(cfg, Logged(cfg, s, op), save, s')
  }

  function Cleared(cfg: Config, d: Disk): Disk {
    Disk(if cfg.hasWal then [] else d.wal,
         if cfg.hasSnapshot then None else d.snapshot,
         if cfg.hasSnapshot then None else d.temp)
  }

  ghost predicate Step(cfg: Config, s: State, e: Event, s': State) {
    && |s'.disk.wal| <= MAX_POSITION
    && match e
       case Write(op, save) => WriteStep(cfg, s, op, save, s')
       case Refused(op) => cfg.hasWal && !Fits(op) && s' == s
       case ClearMemory => s' == s.(data := map[], writes := 0)
       case SaveSnapshot(save) => (save.NoSave? <==> !cfg.hasSnapshot) && SaveStep(cfg, s, save, s')
       case ClearPersistence => s' == State(s.data, 0, Cleared(cfg, s.disk))
       case Restart(replayed) => Recover(s.disk) == Ok((s'.data, replayed)) && s' == State(s'.data, 0, s.disk)
  }

  /** Logging an accepted operation failed part-way: memory was not reached. */
  ghost predicate AppendThrew(s: State, op: Op, s': State) {
    Fits(op) && s'.data == s.data && s'.writes == s.writes && TornAppend(s.disk, EncodeRecord(op), s'.disk)
  }

  /** Clearing persistence stopped before the WAL was emptied, or after. */
  ghost predicate ClearThrew(cfg: Config, s: State, s': State) {
    && s'.data == s.data && s'.writes == s.writes
    && (|| s' == s
        || (s'.disk.wal == (if cfg.hasWal then [] else s.disk.wal) && s'.disk.snapshot in [s.disk.snapshot, None]))
  }

  /** The disks a crash can leave behind while a write is in progress. */
  ghost predicate WriteCrash(cfg: Config, s: State, op: Op, d: Disk) {
    || (cfg.hasWal && Fits(op) && TornAppend(s.disk, EncodeRecord(op), d))
    || ((cfg.hasWal ==> Fits(op)) && SaveDue(cfg, s, op) &&
        var s1 := Logged(cfg, s, op); SaveCrash(s1.disk, s1.data, Position(cfg, s1.disk), d))
  }

  // ---------- The promise, from events alone ----------

  /** The two maps a client reasons about, and the work since the last checkpoint. `data` is what
      reads see; `durable` is what a restart brings back. */
  datatype Abs = Abs(data: Map, durable: Map, writes: nat, tail: nat)

  const EMPTY: Abs := Abs(map[], map[], 0, 0)

  function AbsStep(a: Abs, e: Event): Abs {
    match e
    case Write(op, save) =>
      var data := ApplyOp(a.data, op);
      if save.Saved? then Abs(data, data, 0, 0)
      else Abs(data, ApplyOp(a.durable, op), a.writes + 1, a.tail + 1)
    case Refused(_) => a
    case ClearMemory => a.(data := map[], writes := 0)
    case SaveSnapshot(save) => if save.Saved? then Abs(a.data, a.data, 0, 0) else a
    case ClearPersistence => Abs(a.data, map[], 0, 0)
    case Restart(_) => a.(data := a.durable, writes := 0)
  }

  ghost predicate Refines(s: State, a: Abs) {
    && s.data == a.data
    && s.writes == a.writes
    && Loadable(s.data)
    && Durable(s.disk, a.durable, a.tail)
  }

  // ---------- Every step keeps the promise ----------

  /** Every snapshot a store with a WAL can write loads back as the map it was taken from. */
  lemma SaveLoads(s: State, s': State)
    requires Loadable(s.data) && |s.disk.wal| <= MAX_POSITION && SaveStep(FULL, s, Saved, s')
    ensures LoadFile(s'.disk.snapshot) == Loaded(s.data, |s.data|, |s.disk.wal|)
  {
    ImageLoads(s'.disk.snapshot.value, s.data, |s.disk.wal|);
  }

  /** A successful save establishes the promise from any WAL bytes whatever. */
  lemma SaveRefines(s: State, s': State)
    requires Loadable(s.data) && |s.disk.wal| <= MAX_POSITION && SaveStep(FULL, s, Saved, s')
    ensures Refines(s', Abs(s.data, s.data, 0, 0))
  {
    SaveMakesDurable(s'.disk, s.data);
  }

  lemma LoggedRefines(s: State, a: Abs, op: Op)
    requires Refines(s, a) && Fits(op) && |s.disk.wal| + RecordLength(op) <= MAX_POSITION
    ensures Refines(Logged(FULL, s, op), AbsStep(a, Write(op, NoSave)))
  {
    hide Durable, Loadable, EncodeRecord, ApplyOp, Fits;
    ApplyLoadable(s.data, op);
    AppendedDurable(s.disk, a.durable, a.tail, op);
  }

  lemma WriteRefines(s: State, a: Abs, op: Op, save: SaveOutcome, s': State)
    requires Refines(s, a) && WriteStep(FULL, s, op, save, s') && |s'.disk.wal| <= MAX_POSITION
    ensures Refines(s', AbsStep(a, Write(op, save)))
  {
    hide Durable, Loadable, EncodeRecord, ApplyOp, Fits, IsImage, PayloadLength;
    var s1 := Logged(FULL, s, op);
    assert |s'.disk.wal| == |s.disk.wal| + RecordLength(op);
    LoggedRefines(s, a, op);
    match save
    case NoSave =>
    case Saved => SaveRefines(s1, s');
    case SaveThrew => TempIgnored(s1.disk, s'.disk, ApplyOp(a.durable, op), a.tail + 1);
  }

  lemma StepRefines(s: State, a: Abs, e: Event, s': State)
    requires Refines(s, a) && Step(FULL, s, e, s')
    ensures Refines(s', AbsStep(a, e))
    ensures e.Restart? ==> e.replayed == a.tail
  {
    match e
    case Write(op, save) => WriteRefines(s, a, op, save, s');
    case Refused(_) =>
    case ClearMemory =>
    case SaveSnapshot(save) =>
      if save.Saved? {
        SaveRefines(s, s');
      }
    case ClearPersistence => EmptyFilesDurable(None);
    case Restart(_) =>
      DurableRecovers(s.disk, a.durable, a.tail);
      RecoveredLoadable(s.disk);
  }

  // ---------- Crashes ----------

  lemma TornKeepsSnapshot(d0: Disk, r: Bytes, d: Disk)
    requires TornAppend(d0, r, d)
    ensures d.snapshot == d0.snapshot && |d.wal| <= |d0.wal| + |r|
  {
  }

  /** A crash at any byte of a write recovers the map before it until the record is complete, the
      durable map with the operation applied until a new snapshot is committed, and the saved
      memory after that. */
  lemma CrashRecovers(s: State, a: Abs, op: Op, d: Disk)
    requires Refines(s, a) && WriteCrash(FULL, s, op, d)
    requires |s.disk.wal| + RecordLength(op) <= MAX_POSITION
    ensures Recover(d).Ok?
    ensures var m := Recover(d).value.0;
      if |d.wal| < |s.disk.wal| + RecordLength(op) then m == a.durable
      else if d.snapshot == s.disk.snapshot then m == ApplyOp(a.durable, op)
      else m == ApplyOp(a.data, op)
  {
    hide Durable, Loadable, Recover, Fits, EncodeRecord, ApplyOp, IsImage, TornAppend;
    if TornAppend(s.disk, EncodeRecord(op), d) {
      AppendRecovers(s.disk, a.durable, a.tail, op, d);
      TornKeepsSnapshot(s.disk, EncodeRecord(op), d);
    } else {
      LoggedRefines(s, a, op);
      SaveCrashRecovers(Logged(FULL, s, op), AbsStep(a, Write(op, NoSave)), d);
    }
  }

  /** When nothing was cleared behind the log's back, there are only two outcomes. */
  lemma CrashAtomic(s: State, a: Abs, op: Op, d: Disk)
    requires Refines(s, a) && a.data == a.durable && WriteCrash(FULL, s, op, d)
    requires |s.disk.wal| + RecordLength(op) <= MAX_POSITION
    ensures Recover(d).Ok?
    ensures Recover(d).value.0 == if |d.wal| < |s.disk.wal| + RecordLength(op) then s.data
                                  else ApplyOp(s.data, op)
  {
    CrashRecovers(s, a, op, d);
  }

  /** An append interrupted after `k` bytes endangers later writes exactly when it tears the record. */
  lemma TornRecordIsTheOnlyDamage(s: State, a: Abs, op: Op, k: nat)
    requires Refines(s, a) && Fits(op) && k <= RecordLength(op) && |s.disk.wal| + k <= MAX_POSITION
    ensures Recover(Appended(s.disk, op, k)).Ok?
    ensures AppendsSurvive(Appended(s.disk, op, k)) <==> k == 0 || k == RecordLength(op)
  {
    var d := Appended(s.disk, op, k);
    assert |d.wal| <= MAX_POSITION;
    hide Durable, Recover, EncodeRecord, Fits, AppendsSurvive, Loadable, Appended;
    PartialAppendDurable(s.disk, a.durable, a.tail, op, k);
    AppendsSurviveIffDurable(d);
  }

  /** An interrupted explicit save recovers the durable map or the memory being saved. */
  lemma SaveCrashRecovers(s: State, a: Abs, d: Disk)
    requires Refines(s, a) && SaveCrash(s.disk, s.data, Position(FULL, s.disk), d)
    ensures Recover(d).Ok?
    ensures Recover(d).value.0 == if d.snapshot == s.disk.snapshot then a.durable else a.data
  {
    hide Loadable;
    if d.snapshot == s.disk.snapshot {
      TempIgnored(s.disk, d, a.durable, a.tail);
      DurableRecovers(d, a.durable, a.tail);
    } else {
      SaveMakesDurable(d, s.data);
      DurableRecovers(d, s.data, 0);
    }
  }

  /** Every crash of this write recovers the durable map before it or the one after it. */
  ghost predicate TwoOutcomes(s: State, a: Abs, op: Op)
  {
    forall d | WriteCrash(FULL, s, op, d) ::
      Recover(d).Ok? && Recover(d).value.0 in [a.durable, ApplyOp(a.data, op)]
  }

  /** The operation finds in the map what it would put there. */
  predicate NoEffect(m: Map, op: Op) {
    Lookup(m, op.key) == Effect(op)
  }

  lemma NoEffectIff(m: Map, op: Op)
    ensures NoEffect(m, op) <==> ApplyOp(m, op) == m
  {
    if NoEffect(m, op) {
      forall k ensures Lookup(ApplyOp(m, op), k) == Lookup(m, k) {
      }
      SameMap(ApplyOp(m, op), m);
    } else if op.Set? {
      assert Lookup(ApplyOp(m, op), op.key) == Some(op.value);
    } else {
      assert Lookup(ApplyOp(m, op), op.key) == None;
    }
  }

  /** Two maps bind every key but `key` alike. */
  ghost predicate AgreeOff(a: Map, b: Map, key: Bytes) {
    forall k | k != key :: Lookup(a, k) == Lookup(b, k)
  }

  lemma AgreeOffIff(a: Map, b: Map, op: Op)
    ensures AgreeOff(a, b, op.key) <==> ApplyOp(a, op) == ApplyOp(b, op)
  {
    if AgreeOff(a, b, op.key) {
      forall k ensures Lookup(ApplyOp(a, op), k) == Lookup(ApplyOp(b, op), k) {
        assert k != op.key ==> Lookup(a, k) == Lookup(b, k);
      }
      SameMap(ApplyOp(a, op), ApplyOp(b, op));
    } else {
      var k :| k != op.key && Lookup(a, k) != Lookup(b, k);
      assert Lookup(ApplyOp(a, op), k) == Lookup(a, k) && Lookup(ApplyOp(b, op), k) == Lookup(b, k);
    }
  }

  /** After an in-memory clear, a write whose automatic snapshot is due can be interrupted between
      its record and the rename, and a third map comes back. That is excluded exactly when the
      operation changes nothing in the durable map, or memory and the durable map agree on every
      other key. */
  lemma TwoOutcomesIff(s: State, a: Abs, op: Op)
    requires Refines(s, a) && Fits(op) && SaveDue(FULL, s, op)
    requires |s.disk.wal| + RecordLength(op) <= MAX_POSITION
    ensures TwoOutcomes(s, a, op) <==> NoEffect(a.durable, op) || AgreeOff(a.durable, a.data, op.key)
  {
    NoEffectIff(a.durable, op);
    AgreeOffIff(a.durable, a.data, op);
    hide ApplyOp, NoEffect, AgreeOff, Durable, Loadable, Recover, Fits;
    var mid := Logged(FULL, s, op).disk;
    LoggedIsCrash(s, op);
    CrashRecovers(s, a, op, mid);
    forall d | WriteCrash(FULL, s, op, d)
      ensures Recover(d).Ok? && Recover(d).value.0 in [a.durable, ApplyOp(a.durable, op), ApplyOp(a.data, op)]
    {
      CrashRecovers(s, a, op, d);
    }
  }

  lemma LoggedIsCrash(s: State, op: Op)
    requires Fits(op)
    ensures WriteCrash(FULL, s, op, Logged(FULL, s, op).disk)
  {
    var r := EncodeRecord(op);
    assert r == r[..|r|];
    assert TornAppend(s.disk, r, Logged(FULL, s, op).disk);
  }
}
