/** The store class over whole sessions on a healthy machine: what the theorems about runs mean for a
    program that calls it. */
module Sessions {
  import opened BinaryIo
  import opened WalFormat
  import opened Replay
  import opened SnapshotFormat
  import opened FileSystem
  import opened Wal
  import opened Snapshots
  import opened Recovery
  import opened StoreModel
  import opened KvStore

  const SAVES: CheckpointIo := CheckpointIo(OffsetIo(true, true, true), SaveIo(true, None, true))
  const WRITES: WriteIo := WriteIo(None, SAVES)
  const CLEARS: ResetIo := ResetIo(TruncateIo(true, true, true), ClearIo(true, true))

  /** The very first session: the write is stored, logged and read back. */
  method FirstWrite(key: Bytes, value: Bytes)
    returns (store: KVStore, before: bool, got: Option<Bytes>, known: bool, size: nat)
    requires Fits(Op.Set(key, value))
    ensures fresh(store) && store.Valid() && !before && got == Some(value) && known && size == 1
    ensures store.Now() == State(map[key := value], 1, Disk(EncodeRecord(Op.Set(key, value)), None, None))
  {
    hide Fits, EncodeRecord, Durable;
    EmptyFilesDurable(None);
    DurableRecovers(Disk([], None, None), map[], 0);
    hide Recover;
    var fs := new FileSystem(Disk([], None, None));
    var started;
    started, store := Startup(fs);
    FieldsFit(key, value);
    before := store.Contains(key);
    var r := store.Set(key, value, WRITES);
    assert r.Ok? && [] + EncodeRecord(Op.Set(key, value)) == EncodeRecord(Op.Set(key, value));
    got := store.Get(key);
    known := store.Contains(key);
    size := store.Size();
  }

  lemma FieldsFit(key: Bytes, value: Bytes)
    requires Fits(Op.Set(key, value))
    ensures FieldsWithin(map[key := value], U32_MAX) && |map[key := value]| <= U32_MAX
    ensures RecordLength(Op.Set(key, value)) <= MAX_POSITION
  {
    assert |map[key := value]| == 1;
  }

  /** Every call of a write on a working log is a step of the state machine: a refusal exactly when the
      record is too large, and a write otherwise. */
  method SetIsStep(store: KVStore, key: Bytes, value: Bytes, io: WriteIo) returns (r: Result<()>, ghost e: Event)
    requires store.Valid() && store.Cfg() == FULL && store.StreamGood() && io.room.None?
    requires HasRoom(store.fs.wal, Op.Set(key, value))
    modifies store, store.fs, store.wal
    ensures Step(FULL, old(store.Now()), e, store.Now())
    ensures if Fits(Op.Set(key, value)) then e.Write? && e.op == Op.Set(key, value) && (r.Ok? <==> !e.save.SaveThrew?)
            else e == Refused(Op.Set(key, value)) && r.Err?
  {
    ghost var s, op := store.Now(), Op.Set(key, value);
    hide Fits, EncodeRecord, IsImage, SaveCrash, TornAppend, ApplyOp;
    r := store.Set(key, value, io);
    e := if Fits(op) then Write(op, store.Outcome(SaveDue(FULL, s, op), r.Ok?)) else Refused(op);
  }

  /** A store in good order, on a working log, whose memory and files agree on `m`. */
  ghost predicate Serving(store: KVStore, m: Map)
    reads store, store.fs, store.wal
  {
    && store.Valid() && store.Cfg() == FULL && store.StreamGood()
    && exists writes, tail :: Refines(store.Now(), Abs(m, m, writes, tail))
  }

  /** Startup on files that hold `m`. */
  method Restart(fs: FileSystem, ghost m: Map, ghost tail: nat) returns (store: KVStore, replayed: nat)
    requires fs.Valid() && Durable(fs.Current(), m, tail)
    ensures fresh(store) && fresh(store.wal) && store.fs == fs
    ensures Serving(store, m) && store.data == m && replayed == tail
  {
    hide Durable, Recover, Loadable;
    DurableRecovers(fs.Current(), m, tail);
    RecoveredLoadable(fs.Current());
    var r;
    r, store := Startup(fs);
    replayed := r.value;
    assert Refines(store.Now(), Abs(m, m, 0, tail));
  }

  lemma LoadableFits(m: Map, op: Op)
    requires Loadable(m) && Fits(op)
    ensures FieldsWithin(ApplyOp(m, op), U32_MAX)
  {
    ApplyLoadable(m, op);
  }

  lemma OneMore(m: Map, op: Op)
    ensures |ApplyOp(m, op)| <= |m| + 1
  {
    if op.Delete? {
      assert (m - {op.key}).Keys <= m.Keys;
      Smaller((m - {op.key}).Keys, m.Keys);
    } else {
      assert m[op.key := op.value].Keys == m.Keys + {op.key};
    }
  }

  lemma Smaller<T>(a: set<T>, b: set<T>)
    requires a <= b
    ensures |a| <= |b|
  {
    assert b == a + (b - a);
  }

  /** Whatever the machine does to the write and its save, every state the files pass through holds
      the map before the write or the map after it. */
  method SetOnAnyMachine(store: KVStore, key: Bytes, value: Bytes, io: WriteIo) returns (r: Result<()>)
    requires Serving(store, store.data) && Fits(Op.Set(key, value))
    requires |store.fs.wal| + RecordLength(Op.Set(key, value)) <= MAX_POSITION
    modifies store, store.fs, store.wal
    ensures forall d :: d in store.fs.trail && d !in old(store.fs.trail) ==>
      Recover(d).Ok? && Recover(d).value.0 in [old(store.data), old(store.data)[key := value]]
    ensures r.Ok? ==> store.data == old(store.data)[key := value]
  {
    ghost var s, op := store.Now(), Op.Set(key, value);
    ghost var writes, tail :| Refines(s, Abs(s.data, s.data, writes, tail));
    r := store.Set(key, value, io);
    assert ApplyOp(s.data, op) == s.data[key := value];
    hide Fits, EncodeRecord, Durable, Loadable, Recover, TornAppend, SaveCrash, ApplyOp, WriteCrash;
    forall d | WriteCrash(FULL, s, op, d)
      ensures Recover(d).Ok? && Recover(d).value.0 in [s.data, ApplyOp(s.data, op)]
    {
      CrashAtomic(s, Abs(s.data, s.data, writes, tail), op, d);
    }
  }

  /** On a healthy machine the write succeeds, and the next process serves it. */
  method SetAndRestart(store: KVStore, key: Bytes, value: Bytes) returns (r: Result<()>, next: KVStore)
    requires Serving(store, store.data) && Fits(Op.Set(key, value)) && |store.data| < U32_MAX
    requires |store.fs.wal| + RecordLength(Op.Set(key, value)) <= MAX_POSITION
    modifies store, store.fs, store.wal
    ensures r.Ok? && fresh(next) && next.fs == store.fs
    ensures store.data == old(store.data)[key := value] && Serving(next, store.data) && next.data == store.data
  {
    ghost var s, op := store.Now(), Op.Set(key, value);
    ghost var writes, tail :| Refines(s, Abs(s.data, s.data, writes, tail));
    LoadableFits(s.data, op);
    OneMore(s.data, op);
    assert ApplyOp(s.data, op) == s.data[key := value];
    hide Fits, EncodeRecord, Durable, Loadable, Recover, IsImage, FieldsWithin, TornAppend, SaveCrash, ApplyOp;
    r := store.Set(key, value, WRITES);
    ghost var a := WroteRefines(s, Abs(s.data, s.data, writes, tail), op, store);
    var replayed;
    next, replayed := Restart(store.wal.fs, a.durable, a.tail);
  }

  /** The same for a DELETE, which also says whether the key was there. */
  method DeleteAndRestart(store: KVStore, key: Bytes) returns (r: Result<bool>, next: KVStore)
    requires Serving(store, store.data) && Fits(Op.Delete(key)) && |store.data| < U32_MAX
    requires |store.fs.wal| + RecordLength(Op.Delete(key)) <= MAX_POSITION
    modifies store, store.fs, store.wal
    ensures r == Ok(key in old(store.data)) && fresh(next) && next.fs == store.fs
    ensures store.data == old(store.data) - {key} && Serving(next, store.data) && next.data == store.data
  {
    ghost var s, op := store.Now(), Op.Delete(key);
    ghost var writes, tail :| Refines(s, Abs(s.data, s.data, writes, tail));
    LoadableFits(s.data, op);
    OneMore(s.data, op);
    assert ApplyOp(s.data, op) == s.data - {key};
    hide Fits, EncodeRecord, Durable, Loadable, Recover, IsImage, FieldsWithin, TornAppend, SaveCrash, ApplyOp;
    r := store.Delete(key, WRITES);
    ghost var a := WroteRefines(s, Abs(s.data, s.data, writes, tail), op, store);
    var replayed;
    next, replayed := Restart(store.wal.fs, a.durable, a.tail);
  }

  /** An explicit save succeeds, repairs any files, and leaves the next process nothing to replay. */
  method SaveAndRestart(store: KVStore) returns (r: Result<bool>, next: KVStore, replayed: nat)
    requires store.Valid() && store.Cfg() == FULL && store.StreamGood()
    requires Loadable(store.data) && |store.data| <= U32_MAX
    modifies store, store.fs, store.wal
    ensures r == Ok(true) && fresh(next) && next.fs == store.fs && replayed == 0
    ensures store.data == old(store.data)
    ensures Serving(next, store.data) && next.data == store.data && store.fs.wal == old(store.fs.wal)
  {
    ghost var s := store.Now();
    assert FieldsWithin(s.data, U32_MAX);
    hide Durable, Loadable, Recover, IsImage, FieldsWithin, SaveCrash;
    r := store.SaveSnapshot(SAVES);
    SaveRefines(s, store.Now());
    next, replayed := Restart(store.wal.fs, store.data, 0);
  }

  /** Clearing persistence succeeds and keeps memory; the next process starts empty. */
  method ClearAndRestart(store: KVStore) returns (r: Result<()>, next: KVStore, replayed: nat)
    requires store.Valid() && store.Cfg() == FULL
    modifies store, store.fs, store.wal
    ensures r.Ok? && fresh(next) && next.fs == store.fs && replayed == 0 && next.data == map[]
    ensures store.data == old(store.data) && store.writesSinceSnapshot == 0 && store.StreamGood()
    ensures store.fs.Current() == Disk([], None, None)
  {
    hide Durable, Loadable, Recover;
    r := store.ClearPersistence(CLEARS);
    EmptyFilesDurable(None);
    next, replayed := Restart(store.wal.fs, map[], 0);
  }

  lemma WroteRefines(s: State, a: Abs, op: Op, store: KVStore) returns (a': Abs)
    requires Refines(s, a) && a.data == a.durable && store.Valid()
    requires exists save :: WriteStep(FULL, s, op, save, store.Now())
    ensures Refines(store.Now(), a') && a'.data == a'.durable == ApplyOp(s.data, op)
  {
    assert s.data == a.data;
    hide Refines, WriteStep;
    var save :| WriteStep(FULL, s, op, save, store.Now());
    WriteRefines(s, a, op, save, store.Now());
    a' := AbsStep(a, Write(op, save));
  }
}
