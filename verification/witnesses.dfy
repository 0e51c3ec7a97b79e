/** Reachable inputs on which the code does not give what a reader might expect. */
module Witnesses {
  import opened BinaryIo
  import opened WalFormat
  import opened Replay
  import opened SnapshotFormat
  import opened FileSystem
  import opened Recovery
  import opened StoreModel
  import opened Runs
  import opened Checkpoints
  import opened Crashes
  import opened Forgery

  // ---------- A third map ----------

  lemma SmallOps()
    ensures Fits(Set([1], [1])) && RecordLength(Set([1], [1])) == 15
    ensures Fits(Set([2], [2])) && RecordLength(Set([2], [2])) == 15
  {
  }

  lemma RunOfTwo(s0: State, e1: Event, s1: State, e2: Event, s2: State)
    requires Step(FULL, s0, e1, s1) && Step(FULL, s1, e2, s2)
    ensures IsRun([s0, s1, s2], [e1, e2])
  {
    hide Step;
    var ss, es := [s0, s1, s2], [e1, e2];
    forall i | 0 <= i < |es| ensures Step(FULL, ss[i], es[i], ss[i + 1]) {
      assert i == 0 || i == 1;
    }
  }

  /** One write. */
  lemma WriteOnce() returns (s: State)
    ensures Step(FULL, FRESH, Write(Set([1], [1]), NoSave), s) && |s.disk.wal| == 15
    ensures Refines(s, Abs(map[[1] := [1]], map[[1] := [1]], 1, 1))
  {
    SmallOps();
    FreshRefines();
    var op := Set([1], [1]);
    assert ApplyOp(map[], op) == map[[1] := [1]];
    hide Durable, Loadable, Recover, EncodeRecord, Fits, ApplyOp;
    s := Logged(FULL, FRESH, op);
    LoggedRefines(FRESH, EMPTY, op);
  }

  /** A write, an in-memory clear, and 999 more writes: memory and the files differ, and the next
      write owes a snapshot. */
  lemma ClearThenWrites() returns (ss: seq<State>, es: seq<Event>)
    ensures IsRun(ss, es) && ss[0] == FRESH && |Last(ss).disk.wal| == 9006
    ensures Refines(Last(ss), Abs(map[], map[[1] := [1]], 999, 1000))
  {
    hide IsRun, Durable, Loadable, Recover, WriteStep;
    var m := map[[1] := [1]];
    var s1 := WriteOnce();
    var s2 := s1.(data := map[], writes := 0);
    StepRefines(s1, Abs(m, m, 1, 1), ClearMemory, s2);
    ss, es := [FRESH, s1, s2], [Write(Set([1], [1]), NoSave), ClearMemory];
    RunOfTwo(FRESH, es[0], s1, es[1], s2);
    ss, es := IdleWrites(ss, es, Abs(map[], m, 0, 1), 999);
  }

  /** There, a crash in the next write, a SET on a key neither map has, can recover a third map: not
      the durable map before the write and not the one after it. */
  lemma ThirdMapReached() returns (ss: seq<State>, es: seq<Event>, a: Abs, d: Disk)
    ensures IsRun(ss, es) && ss[0] == FRESH && Refines(Last(ss), a)
    ensures var op := Set([2], [2]);
      SaveDue(FULL, Last(ss), op) && WriteCrash(FULL, Last(ss), op, d) && !TwoOutcomes(Last(ss), a, op)
    ensures a.data == map[] && a.durable == map[[1] := [1]]
    ensures Recover(d).Ok? && Recover(d).value.0 == map[[1] := [1], [2] := [2]]
  {
    SmallOps();
    ss, es := ClearThenWrites();
    a := Abs(map[], map[[1] := [1]], 999, 1000);
    var s, op := Last(ss), Set([2], [2]);
    assert SaveDue(FULL, s, op);
    hide IsRun, Refines, TwoOutcomes, WriteCrash, Recover, EncodeRecord, Fits;
    d := Logged(FULL, s, op).disk;
    LoggedIsCrash(s, op);
    CrashRecovers(s, a, op, d);
    assert d.snapshot == s.disk.snapshot && |d.wal| == |s.disk.wal| + RecordLength(op);
    assert ApplyOp(a.durable, op) == map[[1] := [1], [2] := [2]];
    TwoOutcomesIff(s, a, op);
    assert !AgreeOff(a.durable, a.data, op.key) by {
      assert Lookup(a.durable, [1]) != Lookup(a.data, [1]);
    }
  }

  // ---------- Clearing persistence, interrupted ----------

  lemma OneEntryImage(key: Bytes, value: Bytes, position: nat)
    ensures IsImage(EncodeSnapshot([Entry(key, value)], position), map[key := value], position)
  {
    hide EncodeSnapshot;
    assert |map[key := value]| == 1;
    assert Enumerates([Entry(key, value)], map[key := value]);
  }

  /** One write, and a save of the one-entry map. */
  lemma WriteThenSave() returns (ss: seq<State>, es: seq<Event>)
    ensures IsRun(ss, es) && ss[0] == FRESH
    ensures Refines(Last(ss), Abs(map[[1] := [1]], map[[1] := [1]], 0, 0))
    ensures LoadFile(Last(ss).disk.snapshot) == Loaded(map[[1] := [1]], 1, 15) && Last(ss).disk.temp == None
  {
    hide IsRun, Durable, Loadable, Recover, EncodeSnapshot, IsImage, LoadFile, WriteStep;
    var m := map[[1] := [1]];
    var s1 := WriteOnce();
    OneEntryImage([1], [1], 15);
    var image := EncodeSnapshot([Entry([1], [1])], 15);
    var s2 := State(m, 0, Disk(s1.disk.wal, Some(image), None));
    StepRefines(s1, Abs(m, m, 1, 1), SaveSnapshot(Saved), s2);
    SaveLoads(s1, s2);
    ss, es := [FRESH, s1, s2], [Write(Set([1], [1]), NoSave), SaveSnapshot(Saved)];
    RunOfTwo(FRESH, es[0], s1, es[1], s2);
  }

  /** There the process dies while clearing persistence, after it emptied the WAL. A finished clear
      would have recovered the empty map; what comes back is the snapshot's, and the next write can be
      lost. */
  lemma ClearInterruptedReached() returns (ss: seq<State>, es: seq<Event>, d: Disk)
    ensures IsRun(ss, es) && ss[0] == FRESH && d == Last(ss).disk.(wal := []) && CrashDisk(Last(ss), d)
    ensures Recover(Cleared(FULL, Last(ss).disk)) == Ok((map[], 0))
    ensures Recover(d) == Ok((map[[1] := [1]], 0)) && !AppendsSurvive(d)
  {
    hide Step, Durable, Loadable, Recover, LoadFile, AppendsSurvive;
    ss, es := WriteThenSave();
    d := Last(ss).disk.(wal := []);
    FinishedOrNot(Last(ss).disk, map[[1] := [1]]);
  }

  lemma FinishedOrNot(d: Disk, m: Map)
    requires Durable(d, m, 0) && LoadFile(d.snapshot) == Loaded(m, 1, 15)
    ensures Recover(Cleared(FULL, d)) == Ok((map[], 0))
    ensures Recover(d.(wal := [])) == Ok((m, 0)) && !AppendsSurvive(d.(wal := []))
  {
    EmptyFilesDurable(None);
    DurableRecovers(Cleared(FULL, d), map[], 0);
    assert Checkpoint(d.snapshot) == Some((m, 15));
    hide Recover, Checkpoint, LoadFile, Durable, AppendsSurvive;
    ClearInterrupted(d, m, 0);
  }

  /** A DELETE whose key ends in the record of a SET, placed where a reader that skips the first 15
      bytes starts at that record. */
  lemma SkippedHead(value: Bytes) returns (op: Op)
    requires |value| == 1
    ensures op.Delete? && Fits(op) && RecordLength(op) == 30 && Fits(Set([9], value))
    ensures EncodeRecord(op)[15..] == EncodeRecord(Set([9], value))
  {
    var r := EncodeRecord(Set([9], value));
    op := Delete(Zeros(6) + r);
    DeleteRecordFrom(op.key);
    hide EncodeRecord;
    assert EncodeRecord(op)[15..] == EncodeRecord(op)[9..][6..];
  }

  /** The same store, without a crash: clearing persistence throws at the snapshot, the process keeps
      serving and logs a DELETE of a key nobody has. Memory is unchanged; the next startup reads the
      middle of that record and returns a binding nobody wrote. */
  lemma ForgedAfterFailedClear() returns (ss: seq<State>, es: seq<Event>, cleared: State, op: Op, s: State)
    ensures IsRun(ss, es) && ss[0] == FRESH
    ensures ClearThrew(FULL, Last(ss), cleared) && CrashDisk(Last(ss), cleared.disk)
    ensures op.Delete? && Step(FULL, cleared, Write(op, NoSave), s) && s.data == map[[1] := [1]]
    ensures Recover(s.disk) == Ok((map[[1] := [1], [9] := [9]], 1))
  {
    hide Durable, Loadable, Recover, LoadFile, EncodeRecord, Fits;
    ss, es := WriteThenSave();
    cleared := Last(ss).(disk := Last(ss).disk.(wal := []));
    op := SkippedHead([9]);
    s := Logged(FULL, cleared, op);
    assert op.key !in cleared.data;
    RecoversTheRest(s.disk, map[[1] := [1]], 15, Set([9], [9]));
  }

  lemma RecoversTheRest(d: Disk, m: Map, offset: nat, op: Op)
    requires LoadFile(d.snapshot).Loaded? && LoadFile(d.snapshot).entries == m
    requires LoadFile(d.snapshot).walOffset == offset <= |d.wal| && offset <= MAX_POSITION
    requires Fits(op) && d.wal[offset..] == EncodeRecord(op)
    ensures Recover(d) == Ok((ApplyOp(m, op), 1))
  {
    RecordDecodes(op);
    ApplyOne(m, op);
  }

  // ---------- A field the loader refuses ----------

  /** A store without a WAL accepts a value one byte longer than the loader's cap and saves it without
      complaint; the next startup throws. */
  lemma OversizedFieldSaved(value: Bytes) returns (s1: State, s2: State)
    requires |value| == MAX_FIELD + 1
    ensures var cfg := Config(false, true);
      && Step(cfg, FRESH, Write(Set([], value), NoSave), s1)
      && Step(cfg, s1, SaveSnapshot(Saved), s2)
    ensures s2.data == map[[] := value] && IsImage(s2.disk.snapshot.value, s2.data, 0)
    ensures LoadFile(s2.disk.snapshot) == Failed(SnapshotFieldTooLarge)
    ensures Recover(s2.disk) == Err(SnapshotFieldTooLarge)
  {
    var m := map[[] := value];
    OneEntryImage([], value, 0);
    var image := EncodeSnapshot([Entry([], value)], 0);
    s1 := State(m, 1, FRESH.disk);
    s2 := State(m, 0, Disk([], Some(image), None));
    hide IsImage, EncodeSnapshot, DecodeSnapshot;
    OversizedImageRefused([], value);
  }

  lemma OversizedImageRefused(key: Bytes, value: Bytes)
    requires |key| <= MAX_FIELD < |value| <= U32_MAX
    ensures DecodeSnapshot(EncodeSnapshot([Entry(key, value)], 0)) == Failed(SnapshotFieldTooLarge)
  {
    var e := Entry(key, value);
    assert EncodeEntries([e]) == EncodeEntry(e) + [] by {
      assert [e][1..] == [] && EncodeEntries([]) == [];
      hide EncodeEntry;
    }
    BodyDecides(0, 1, EncodeEntry(e) + []);
    OversizedEntryRefused(e, []);
    hide DecodeSnapshot, Header, DecodeEntry, EncodeEntry;
  }
}
