/** The in-memory map, the order it persists writes in, and the startup sequence. */
module KvStore {
  import opened BinaryIo
  import opened WalFormat
  import opened Replay
  import opened SnapshotFormat
  import opened FileSystem
  import opened Wal
  import opened Snapshots
  import opened Recovery
  import opened StoreModel

  /** Where the operating system fails a save, with the log length it records. */
  datatype CheckpointIo = CheckpointIo(offset: OffsetIo, save: SaveIo) {
    predicate Healthy() {
      offset.Healthy() && save.Healthy()
    }
  }

  /** Where it fails a write: the size at which the log's device is full, and the save. */
  datatype WriteIo = WriteIo(room: Option<nat>, checkpoint: CheckpointIo) {
    predicate Healthy() {
      room.None? && checkpoint.Healthy()
    }
  }

  /** Where it fails clearing persistence. */
  datatype ResetIo = ResetIo(log: TruncateIo, snapshot: ClearIo) {
    predicate Healthy() {
      log.Healthy() && snapshot.removesSnapshot && snapshot.removesTemp
    }
  }

  class KVStore {
    var data: Map
    var writesSinceSnapshot: nat
    const wal: WriteAheadLog?
    const snapshot: Snapshot?
    ghost const fs: FileSystem

    ghost predicate Valid()
      reads fs
    {
      && fs.Valid()
      && (wal != null ==> wal.fs == fs)
      && (snapshot != null ==> snapshot.fs == fs)
    }

    ghost function Cfg(): Config {
      Config(wal != null, snapshot != null)
    }

    ghost function Now(): State
      reads this, fs
    {
      State(data, writesSinceSnapshot, fs.Current())
    }

    constructor (ghost fs: FileSystem, wal: WriteAheadLog?, snapshot: Snapshot?)
      requires fs.Valid()
      requires (wal != null ==> wal.fs == fs) && (snapshot != null ==> snapshot.fs == fs)
      ensures Valid() && this.fs == fs && this.wal == wal && this.snapshot == snapshot
      ensures Now() == State(map[], 0, fs.Current())
    {
      this.fs, this.wal, this.snapshot := fs, wal, snapshot;
      data, writesSinceSnapshot := map[], 0;
    }

    /** Every append stream this store needs still works. */
    ghost predicate StreamGood()
      reads wal
    {
      wal != null ==> wal.good
    }

    /** The outcome of the save a write attempted, read off its result. */
    ghost function Outcome(due: bool, ok: bool): SaveOutcome {
      if !due then NoSave else if ok then Saved else SaveThrew
    }

    /** The save every snapshot goes through, explicit or automatic. */
    method Checkpoint(io: CheckpointIo) returns (r: Result<()>)
      requires Valid() && snapshot != null
      modifies this`writesSinceSnapshot, fs, wal
      ensures Valid() && SaveStep(Cfg(), old(Now()), if r.Ok? then Saved else SaveThrew, Now())
      ensures forall d :: d in fs.trail ==>
        d in old(fs.trail) || SaveCrash(old(fs.Current()), data, old(Position(Cfg(), fs.Current())), d)
      ensures old(StreamGood()) && io.Healthy() && |data| <= U32_MAX && FieldsWithin(data, U32_MAX) ==> r.Ok?
    {
      var walOffset := 0;
      if wal != null {
        walOffset :- wal.CurrentOffset(io.offset);
      }
      var _ :- snapshot.Save(data, walOffset, io.save);
      writesSinceSnapshot := 0;
      return Ok(());
    }

    method MaybeSnapshot(io: CheckpointIo) returns (r: Result<()>)
      requires Valid()
      modifies this`writesSinceSnapshot, fs, wal
      ensures Valid()
      ensures var due := snapshot != null && old(writesSinceSnapshot) >= SNAPSHOT_INTERVAL;
        && SaveStep(Cfg(), old(Now()), if !due then NoSave else if r.Ok? then Saved else SaveThrew, Now())
        && (!due ==> r.Ok? && fs.trail == old(fs.trail))
      ensures forall d :: d in fs.trail ==>
        d in old(fs.trail) || SaveCrash(old(fs.Current()), data, old(Position(Cfg(), fs.Current())), d)
      ensures old(StreamGood()) && io.Healthy() && |data| <= U32_MAX && FieldsWithin(data, U32_MAX) ==> r.Ok?
    {
      if snapshot != null && writesSinceSnapshot >= SNAPSHOT_INTERVAL {
        r := Checkpoint(io);
      } else {
        r := Ok(());
      }
    }

    /** What a write does. A record the log refuses changes nothing, and neither does any write once
        the log's stream has failed. A record that a full device cuts short never reaches memory.
        Every other write is applied and counted, even when the save it owes throws. */
    ghost predicate WriteOutcome(op: Op, s: State, wasGood: bool, room: Option<nat>, ok: bool)
      reads this, fs, wal
    {
      if wal != null && !(Fits(op) && wasGood) then !ok && Now() == s
      else if wal != null && !FitsDevice(room, s.disk.wal, op) then !ok && !wal.good && AppendThrew(s, op, Now())
      else
        && WriteStep(Cfg(), s, op, Outcome(SaveDue(Cfg(), s, op), ok), Now())
        && (!ok ==> SaveDue(Cfg(), s, op))
    }

    /** Logged before memory changes, so every disk state on the way is one a crash may leave. */
    method Set(key: Bytes, value: Bytes, io: WriteIo) returns (r: Result<()>)
      requires Valid()
      requires wal != null ==> HasRoom(fs.wal, Op.Set(key, value))
      modifies this, fs, wal
      ensures Valid() && WriteOutcome(Op.Set(key, value), old(Now()), old(StreamGood()), io.room, r.Ok?)
      ensures old(StreamGood()) && (wal != null ==> Fits(Op.Set(key, value))) && io.Healthy() ==>
        |data| <= U32_MAX && FieldsWithin(data, U32_MAX) ==> r.Ok?
      ensures forall d :: d in fs.trail ==>
        d in old(fs.trail) || WriteCrash(Cfg(), old(Now()), Op.Set(key, value), d)
    {
      hide SaveCrash, TornAppend, Fits, EncodeRecord, FieldsWithin;
      if wal != null {
        var _ :- wal.AppendSet(key, value, io.room);
      }
      data := data[key := value];
      writesSinceSnapshot := writesSinceSnapshot + 1;
      assert Now() == Logged(Cfg(), old(Now()), Op.Set(key, value));
      r := MaybeSnapshot(io.checkpoint);
    }

    /** Deletes are logged even when the key is absent; the result says whether it was there. */
    method Delete(key: Bytes, io: WriteIo) returns (r: Result<bool>)
      requires Valid()
      requires wal != null ==> HasRoom(fs.wal, Op.Delete(key))
      modifies this, fs, wal
      ensures Valid() && WriteOutcome(Op.Delete(key), old(Now()), old(StreamGood()), io.room, r.Ok?)
      ensures old(StreamGood()) && (wal != null ==> Fits(Op.Delete(key))) && io.Healthy() ==>
        |data| <= U32_MAX && FieldsWithin(data, U32_MAX) ==> r.Ok?
      ensures r.Ok? ==> (r.value <==> key in old(data))
      ensures forall d :: d in fs.trail ==>
        d in old(fs.trail) || WriteCrash(Cfg(), old(Now()), Op.Delete(key), d)
    {
      hide SaveCrash, TornAppend, Fits, EncodeRecord, FieldsWithin;
      if wal != null {
        var _ :- wal.AppendDelete(key, io.room);
      }
      var erased := key in data;
      data := data - {key};
      writesSinceSnapshot := writesSinceSnapshot + 1;
      assert Now() == Logged(Cfg(), old(Now()), Op.Delete(key));
      var _ :- MaybeSnapshot(io.checkpoint);
      return Ok(erased);
    }

    method Get(key: Bytes) returns (r: Option<Bytes>)
      ensures r == Lookup(data, key)
    {
      return if key in data then Some(data[key]) else None;
    }

    method Contains(key: Bytes) returns (r: bool)
      ensures r <==> key in data
    {
      return key in data;
    }

    method Size() returns (n: nat)
      ensures n == |data|
    {
      return |data|;
    }

    /** Memory only: nothing is logged. */
    method Clear()
      modifies this
      ensures Now() == old(Now()).(data := map[], writes := 0)
    {
      data := map[];
      writesSinceSnapshot := 0;
    }

    /** Files only: the live map stays. The WAL goes first, then the snapshot; a failure on the way
        leaves the counter as it was. */
    method ClearPersistence(io: ResetIo) returns (r: Result<()>)
      requires Valid()
      modifies this`writesSinceSnapshot, fs, wal
      ensures Valid()
      ensures r.Ok? ==> Step(Cfg(), old(Now()), Event.ClearPersistence, Now()) && StreamGood()
      ensures r.Err? ==> ClearThrew(Cfg(), old(Now()), Now())
      ensures io.Healthy() ==> r.Ok?
      ensures forall d :: d in fs.trail ==>
        d in old(fs.trail) || (d.wal == fs.wal && d.snapshot in [old(fs.snapshot), None])
    {
      if wal != null {
        var _ :- wal.Clear(io.log);
      }
      if snapshot != null {
        var _ :- snapshot.Clear(io.snapshot);
      }
      writesSinceSnapshot := 0;
      return Ok(());
    }

    method SaveSnapshot(io: CheckpointIo) returns (r: Result<bool>)
      requires Valid()
      modifies this`writesSinceSnapshot, fs, wal
      ensures Valid() && SaveStep(Cfg(), old(Now()), Outcome(snapshot != null, r.Ok?), Now())
      ensures r.Ok? ==> (r.value <==> snapshot != null)
      ensures snapshot == null ==> r.Ok? && fs.trail == old(fs.trail)
      ensures old(StreamGood()) && io.Healthy() && |data| <= U32_MAX && FieldsWithin(data, U32_MAX) ==> r.Ok?
      ensures forall d :: d in fs.trail ==>
        d in old(fs.trail) || SaveCrash(old(fs.Current()), data, old(Position(Cfg(), fs.Current())), d)
    {
      if snapshot == null {
        return Ok(false);
      }
      var _ :- Checkpoint(io);
      return Ok(true);
    }

    method LoadSnapshot(source: Snapshot) returns (r: Result<LoadResult>)
      modifies this`data
      ensures match LoadFile(source.fs.snapshot)
        case NotLoaded => r == Ok(LoadResult(false, 0, 0)) && data == old(data)
        case Loaded(m, count, walOffset) => r == Ok(LoadResult(true, count, walOffset)) && data == m
        case Failed(error) => r == Err(error) && data == old(data)
    {
      r, data := source.Load(data);
    }

    method ReplayFromWal(source: WriteAheadLog, offset: nat) returns (r: Result<nat>)
      modifies this`data
      ensures if offset <= MAX_POSITION
        then r.Ok? && (data, r.value) == ReplayBytes(Tail(source.fs.wal, offset), old(data))
        else r == Err(OffsetTooLarge) && data == old(data)
    {
      r, data := source.ReplayFrom(offset, data);
    }
  }

  /** What the program does before serving: open the files, load the snapshot, replay the WAL from
      its offset. The store starts exactly as the files recover and ready to write, or startup throws. */
  method Startup(fs: FileSystem) returns (r: Result<nat>, store: KVStore)
    requires fs.Valid()
    ensures fresh(store) && store.Valid() && store.fs == fs && store.Cfg() == FULL
    ensures store.writesSinceSnapshot == 0
    ensures fresh(store.wal) && fresh(store.snapshot) && store.StreamGood()
    ensures match Recover(fs.Current())
      case Ok((data, replayed)) => r == Ok(replayed) && store.data == data
      case Err(error) => r == Err(error)
  {
    var wal := new WriteAheadLog(fs);
    var snapshot := new Snapshot(fs);
    store := new KVStore(fs, wal, snapshot);
    var loaded := store.LoadSnapshot(snapshot);
    if loaded.Err? {
      return Err(loaded.error), store;
    }
    assert fs.wal[0..] == fs.wal;
    r := store.ReplayFromWal(wal, loaded.value.walOffset);
  }
}
