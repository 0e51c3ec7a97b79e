/** Crashes after any history, and any number of them. */
module Crashes {
  import opened BinaryIo
  import opened WalFormat
  import opened Replay
  import opened SnapshotFormat
  import opened FileSystem
  import opened Recovery
  import opened Snapshots
  import opened StoreModel
  import opened Runs
  import opened Healing

  // ---------- One crash at the end of a run ----------

  /** A write interrupted anywhere, after any history without resets, recovers every write
      accepted before it, and the interrupted one exactly when its whole record was logged. */
  lemma CrashAfterAnyRun(ss: seq<State>, es: seq<Event>, op: Op, d: Disk)
    requires IsRun(ss, es) && ss[0] == FRESH && NoResets(es)
    requires WriteCrash(FULL, Last(ss), op, d)
    requires |Last(ss).disk.wal| + RecordLength(op) <= MAX_POSITION
    ensures Recover(d).Ok?
    ensures Recover(d).value.0 ==
      ApplyOps(map[], Accepted(es) + if |d.wal| < |Last(ss).disk.wal| + RecordLength(op) then [] else [op])
  {
    FreshRefines();
    RunRefines(ss, es, EMPTY);
    NoResetsAgree(EMPTY, es);
    CrashAtomic(Last(ss), AbsRun(EMPTY, es), op, d);
    ApplySnoc(map[], Accepted(es), op);
    assert Accepted(es) + [] == Accepted(es);
  }

  // ---------- Crashes anywhere, any number of times ----------

  /** A disk that can be found after the process dies in state `s`: idle, in a write, in a save,
      or between emptying the WAL and removing the snapshot. */
  ghost predicate CrashDisk(s: State, d: Disk) {
    && |d.wal| <= MAX_POSITION
    && (|| d == s.disk
        || (exists op :: WriteCrash(FULL, s, op, d))
        || SaveCrash(s.disk, s.data, Position(FULL, s.disk), d)
        || (d.wal == [] && d.snapshot in [s.disk.snapshot, None]))
  }

  /** They include every disk a write, a save or a clear passes through. */
  lemma CrashDisksCover(s: State, d: Disk)
    requires |d.wal| <= MAX_POSITION
    requires || d == s.disk
             || (exists op :: WriteCrash(FULL, s, op, d))
             || (exists op, k: nat :: Fits(op) && k <= RecordLength(op) && d == Appended(s.disk, op, k))
             || (d.wal == s.disk.wal && d.snapshot == s.disk.snapshot)
             || (d.wal == s.disk.wal && d.snapshot.Some? && IsImage(d.snapshot.value, s.data, |s.disk.wal|))
             || (d.wal == [] && d.snapshot in [s.disk.snapshot, None])
    ensures CrashDisk(s, d)
  {
    hide EncodeRecord, IsImage, Fits, ApplyOp;
    if op, k: nat :| Fits(op) && k <= RecordLength(op) && d == Appended(s.disk, op, k) {
      assert TornAppend(s.disk, EncodeRecord(op), d);
      assert WriteCrash(FULL, s, op, d);
    }
  }

  /** The process dies, leaving one of those disks, and starts again. */
  ghost predicate CrashStep(s: State, s': State) {
    && CrashDisk(s, s'.disk)
    && Recover(s'.disk).Ok?
    && s'.data == Recover(s'.disk).value.0 && s'.writes == 0
  }

  /** An operation threw part-way and left memory alone. The WAL may have been emptied, or may have
      gained any bytes at all, as a failed stream may write what it still buffers more than once. */
  ghost predicate FaultStep(s: State, s': State) {
    && s'.data == s.data && s'.writes == s.writes && |s'.disk.wal| <= MAX_POSITION
    && (s'.disk.wal == [] || s.disk.wal <= s'.disk.wal)
    && s'.disk.snapshot in [s.disk.snapshot, None]
  }

  /** Failed appends and failed clears are such faults. */
  lemma ThrowsAreFaults(s: State, op: Op, s': State)
    requires AppendThrew(s, op, s') || ClearThrew(FULL, s, s')
    ensures |s'.disk.wal| <= MAX_POSITION ==> FaultStep(s, s')
  {
  }

  ghost predicate StepOrFault(s: State, s': State) {
    CrashStep(s, s') || FaultStep(s, s') || exists e :: Step(FULL, s, e, s')
  }

  /** Ordinary steps, crashes and failed operations in any order, from empty files. */
  ghost predicate FaultyRun(ss: seq<State>) {
    && ss != [] && ss[0] == FRESH
    && forall i | 0 < i < |ss| :: StepOrFault(ss[i - 1], ss[i])
  }

  lemma EmptyRuns()
    ensures FaultyRun([FRESH]) && IsHistory([FRESH], [])
  {
  }

  /** Such a run goes on with a restart after any crash, with any fault, and with any step. */
  lemma FaultyRunExtends(ss: seq<State>, s': State)
    requires FaultyRun(ss)
    requires || (CrashDisk(Last(ss), s'.disk) && Recover(s'.disk).Ok?
                 && s' == State(Recover(s'.disk).value.0, 0, s'.disk))
             || FaultStep(Last(ss), s')
             || (exists e :: Step(FULL, Last(ss), e, s'))
    ensures FaultyRun(ss + [s'])
  {
    hide Step, CrashDisk, FaultStep, Recover;
    var all := ss + [s'];
    assert StepOrFault(Last(ss), s');
    forall i | 0 < i < |all| ensures StepOrFault(all[i - 1], all[i]) {
      if i < |ss| {
        assert StepOrFault(ss[i - 1], ss[i]);
      }
    }
  }

  /** Startup would succeed, and so would loading anything this process saves. */
  ghost predicate Startable(s: State) {
    Recover(s.disk).Ok? && Loadable(s.data) && |s.disk.wal| <= MAX_POSITION
  }

  lemma SnapshotDecidesStartup(d: Disk, d': Disk)
    requires d'.snapshot == d.snapshot
    ensures Recover(d').Ok? <==> Recover(d).Ok?
  {
  }

  lemma NoSnapshotStarts(d: Disk)
    requires d.snapshot == None
    ensures Recover(d).Ok?
  {
  }

  lemma SavedStarts(d0: Disk, m: Map, position: nat, d: Disk)
    requires Loadable(m) && SaveCrash(d0, m, position, d) && position <= MAX_POSITION
    ensures d.snapshot == d0.snapshot || Recover(d).Ok?
  {
    if d.snapshot != d0.snapshot {
      ImageLoads(d.snapshot.value, m, position);
    }
  }

  lemma CrashedDiskStarts(s: State, d: Disk)
    requires Startable(s) && CrashDisk(s, d)
    ensures Recover(d).Ok?
  {
    hide Recover, IsImage, Loadable, Fits, EncodeRecord, ApplyOp;
    if d.snapshot == s.disk.snapshot {
      SnapshotDecidesStartup(s.disk, d);
    } else if d.snapshot == None {
      NoSnapshotStarts(d);
    } else if SaveCrash(s.disk, s.data, Position(FULL, s.disk), d) {
      SavedStarts(s.disk, s.data, Position(FULL, s.disk), d);
    } else {
      var op :| WriteCrash(FULL, s, op, d);
      var s1 := Logged(FULL, s, op);
      ApplyLoadable(s.data, op);
      SavedStarts(s1.disk, s1.data, Position(FULL, s1.disk), d);
    }
  }

  lemma StepKeepsStartable(s: State, e: Event, s': State)
    requires Startable(s) && Step(FULL, s, e, s')
    ensures Startable(s')
  {
    hide Recover, IsImage, Loadable, Fits, EncodeRecord, ApplyOp;
    match e
    case Write(op, save) =>
      var s1 := Logged(FULL, s, op);
      ApplyLoadable(s.data, op);
      if save.Saved? {
        SaveLoads(s1, s');
        LoadedStarts(s'.disk);
      } else {
        SnapshotDecidesStartup(s.disk, s'.disk);
      }
    case Refused(_) =>
    case ClearMemory => EmptyLoadable();
    case SaveSnapshot(save) =>
      if save.Saved? {
        SaveLoads(s, s');
        LoadedStarts(s'.disk);
      } else {
        SnapshotDecidesStartup(s.disk, s'.disk);
      }
    case ClearPersistence => NoSnapshotStarts(s'.disk);
    case Restart(_) => RecoveredLoadable(s.disk);
  }

  lemma LoadedStarts(d: Disk)
    requires LoadFile(d.snapshot).Loaded? && LoadFile(d.snapshot).walOffset <= MAX_POSITION
    ensures Recover(d).Ok?
  {
  }

  lemma EmptyLoadable()
    ensures Loadable(map[])
  {
  }

  lemma {:induction false} FaultyRunStartable(ss: seq<State>)
    requires FaultyRun(ss)
    ensures Startable(Last(ss))
  {
    var n := |ss| - 1;
    FreshStartable();
    hide Step, CrashStep, FaultStep, Startable;
    if n == 0 {
    } else {
      assert StepOrFault(ss[n - 1], ss[n]);
      assert FaultyRun(ss[..n]);
      FaultyRunStartable(ss[..n]);
      if CrashStep(ss[n - 1], ss[n]) {
        RestartedStartable(ss[n - 1], ss[n]);
      } else if FaultStep(ss[n - 1], ss[n]) {
        FaultyStartable(ss[n - 1], ss[n]);
      } else {
        var e :| Step(FULL, ss[n - 1], e, ss[n]);
        StepKeepsStartable(ss[n - 1], e, ss[n]);
      }
    }
  }

  lemma FreshStartable()
    ensures Startable(FRESH)
  {
    NoSnapshotStarts(FRESH.disk);
    RecoveredLoadable(FRESH.disk);
  }

  lemma RestartedStartable(s: State, s': State)
    requires CrashStep(s, s')
    ensures Startable(s')
  {
    RecoveredLoadable(s'.disk);
  }

  lemma FaultyStartable(s: State, s': State)
    requires Startable(s) && FaultStep(s, s')
    ensures Startable(s')
  {
    hide Recover, Loadable;
    if s'.disk.snapshot == None {
      NoSnapshotStarts(s'.disk);
    } else {
      SnapshotDecidesStartup(s.disk, s'.disk);
    }
  }

  /** Safety: no history of operations and crashes, however it interleaves them, leaves files that
      the next startup refuses. */
  lemma StartupNeverThrows(ss: seq<State>, d: Disk)
    requires FaultyRun(ss) && CrashDisk(Last(ss), d)
    ensures Recover(d).Ok?
  {
    FaultyRunStartable(ss);
    CrashedDiskStarts(Last(ss), d);
  }

  /** After any such history, once a save succeeds the store is exact again: with no resets and no
      further crash, recovery equals memory whatever follows. */
  lemma ExactAfterNextSave(ss: seq<State>, es: seq<Event>, i: nat, past: seq<State>) returns (a: Abs)
    requires FaultyRun(past) && IsRun(ss, es) && ss[0] == Last(past)
    requires i < |es| && NoResets(es[i + 1..]) && (es[i].Write? || es[i].SaveSnapshot?) && es[i].save.Saved?
    ensures Refines(Last(ss), a) && Recover(Last(ss).disk) == Ok((Last(ss).data, a.tail))
  {
    FaultyRunStartable(past);
    RunKeepsLoadable(ss, es, i);
    a := SaveHeals(ss, es, i);
  }

  lemma {:induction false} RunKeepsLoadable(ss: seq<State>, es: seq<Event>, i: nat)
    requires IsRun(ss, es) && Startable(ss[0]) && i <= |es|
    ensures Startable(ss[i])
  {
    hide Step, Startable;
    if i == 0 {
    } else {
      RunKeepsLoadable(ss, es, i - 1);
      assert Step(FULL, ss[i - 1], es[i - 1], ss[i - 1 + 1]);
      StepKeepsStartable(ss[i - 1], es[i - 1], ss[i]);
    }
  }

  /** However the process died, after any such history, it starts again, and recovery equals its
      memory once a thousand writes have returned: what it recovered, then every write accepted
      since. */
  lemma HealsAfterCrash(past: seq<State>, d: Disk, ss: seq<State>, es: seq<Event>) returns (a: Abs)
    requires FaultyRun(past) && CrashDisk(Last(past), d)
    requires IsRun(ss, es) && (Recover(d).Ok? ==> ss[0] == State(Recover(d).value.0, 0, d))
    requires KeepsRunning(es) && Returned(es) >= SNAPSHOT_INTERVAL
    ensures Recover(d).Ok? && Refines(Last(ss), a)
    ensures Recover(Last(ss).disk) == Ok((ApplyOps(Recover(d).value.0, Accepted(es)), a.tail))
    ensures Last(ss).data == ApplyOps(Recover(d).value.0, Accepted(es))
  {
    hide Step, Recover, Loadable, Refines;
    StartupNeverThrows(past, d);
    RecoveredLoadable(d);
    a := ThousandWritesHeal(ss, es);
  }

  // ---------- Any number of crashes, without resets ----------

  /** What happens between two states: an event, or a crash and the restart after it. A crash that
      tears no record may have completed the write `done`; any other tore `op` after `k` bytes. */
  datatype Move = Ran(e: Event) | Died(done: Option<Op>) | Tore(op: Op, k: nat)

  /** A disk found after a crash anywhere but inside a record: outside any write, or at any point of
      a save; in a write, after its record. A write interrupted before its record leaves the first. */
  ghost predicate CleanCrash(s: State, done: Option<Op>, d: Disk) {
    && |d.wal| <= MAX_POSITION
    && match done
       case None => d == s.disk || SaveCrash(s.disk, s.data, Position(FULL, s.disk), d)
       case Some(op) => WriteCrash(FULL, s, op, d) && |d.wal| == |s.disk.wal| + RecordLength(op)
  }

  ghost predicate TornCrash(s: State, op: Op, k: nat, d: Disk) {
    Fits(op) && 0 < k < RecordLength(op) && d == Appended(s.disk, op, k) && |d.wal| <= MAX_POSITION
  }

  /** Every crash of a write is clean or tears its record. */
  lemma CrashIsCleanOrTorn(s: State, op: Op, d: Disk)
    requires WriteCrash(FULL, s, op, d) && |d.wal| <= MAX_POSITION
    ensures CleanCrash(s, None, d) || CleanCrash(s, Some(op), d) ||
            exists k :: TornCrash(s, op, k, d)
  {
    hide EncodeRecord, IsImage, Fits, ApplyOp;
    var r := EncodeRecord(op);
    if TornAppend(s.disk, r, d) {
      var k: nat :| k <= |r| && d == s.disk.(wal := s.disk.wal + r[..k]);
      assert d == Appended(s.disk, op, k);
      assert k == 0 ==> d.wal == s.disk.wal;
      assert 0 < k < RecordLength(op) ==> TornCrash(s, op, k, d);
    }
  }

  ghost predicate MoveStep(s: State, mv: Move, s': State) {
    match mv
    case Ran(e) => Step(FULL, s, e, s')
    case Died(done) => CleanCrash(s, done, s'.disk) && Restarted(s')
    case Tore(op, k) => TornCrash(s, op, k, s'.disk) && Restarted(s')
  }

  /** The memory of a process that has just started. */
  ghost predicate Restarted(s: State) {
    Recover(s.disk).Ok? && s.data == Recover(s.disk).value.0 && s.writes == 0
  }

  /** Ordinary steps and crashes in any order, from empty files. */
  ghost predicate IsHistory(ss: seq<State>, moves: seq<Move>) {
    && |ss| == |moves| + 1 && ss[0] == FRESH
    && forall i | 0 <= i < |moves| :: MoveStep(ss[i], moves[i], ss[i + 1])
  }

  /** A history goes on with any step, and with a restart after any crash of a write. */
  lemma HistoryExtends(ss: seq<State>, moves: seq<Move>, e: Event, op: Op, s': State) returns (mv: Move)
    requires IsHistory(ss, moves)
    requires || Step(FULL, Last(ss), e, s')
             || (WriteCrash(FULL, Last(ss), op, s'.disk) && |s'.disk.wal| <= MAX_POSITION
                 && Recover(s'.disk).Ok? && s' == State(Recover(s'.disk).value.0, 0, s'.disk))
    ensures IsHistory(ss + [s'], moves + [mv])
    ensures mv == Ran(e) || mv == Died(None) || mv == Died(Some(op)) || (mv.Tore? && mv.op == op)
  {
    hide Step, CleanCrash, TornCrash, WriteCrash, Recover;
    var s := Last(ss);
    if Step(FULL, s, e, s') {
      mv := Ran(e);
    } else {
      CrashIsCleanOrTorn(s, op, s'.disk);
      if k :| TornCrash(s, op, k, s'.disk) {
        mv := Tore(op, k);
      } else {
        mv := Died(if CleanCrash(s, None, s'.disk) then None else Some(op));
      }
    }
    assert MoveStep(s, mv, s');
    HistorySnoc(ss, moves, mv, s');
  }

  lemma HistorySnoc(ss: seq<State>, moves: seq<Move>, mv: Move, s': State)
    requires IsHistory(ss, moves) && MoveStep(Last(ss), mv, s')
    ensures IsHistory(ss + [s'], moves + [mv])
  {
    hide MoveStep;
    var all, ms := ss + [s'], moves + [mv];
    forall i | 0 <= i < |ms| ensures MoveStep(all[i], ms[i], all[i + 1]) {
      if i < |moves| {
        assert MoveStep(ss[i], moves[i], ss[i + 1]);
      }
    }
  }

  predicate NoResetMoves(moves: seq<Move>) {
    forall mv | mv in moves :: mv.Ran? ==> !mv.e.ClearMemory? && !mv.e.ClearPersistence?
  }

  /** The write a move completed, if any: accepted, or interrupted after its record. */
  function MoveOps(mv: Move): seq<Op> {
    match mv
    case Ran(e) => if e.Write? then [e.op] else []
    case Died(done) => if done.Some? then [done.value] else []
    case Tore(_, _) => []
  }

  function Completed(moves: seq<Move>): seq<Op> {
    if moves == [] then [] else Completed(moves[..|moves| - 1]) + MoveOps(moves[|moves| - 1])
  }

  lemma SaveCrashDurable(s: State, a: Abs, d: Disk) returns (tail: nat)
    requires Refines(s, a) && a.data == a.durable && SaveCrash(s.disk, s.data, Position(FULL, s.disk), d)
    ensures Durable(d, a.data, tail)
  {
    hide Durable, Loadable, IsImage;
    if d.snapshot == s.disk.snapshot {
      TempIgnored(s.disk, d, a.durable, a.tail);
      tail := a.tail;
    } else {
      assert |s.disk.wal| <= MAX_POSITION by { DurableFits(s.disk, a.durable, a.tail); }
      SaveMakesDurable(d, s.data);
      tail := 0;
    }
  }

  lemma DurableFits(d: Disk, m: Map, tail: nat)
    requires Durable(d, m, tail)
    ensures |d.wal| <= MAX_POSITION
  {
  }

  /** A clean crash leaves files that hold the memory before it and the write it completed. */
  lemma CleanCrashDurable(s: State, a: Abs, done: Option<Op>, d: Disk) returns (tail: nat)
    requires Refines(s, a) && a.data == a.durable && CleanCrash(s, done, d)
    ensures Durable(d, ApplyOps(a.data, MoveOps(Died(done))), tail)
  {
    hide Durable, Loadable, IsImage, EncodeRecord, Fits, ApplyOp;
    match done
    case None =>
      if d == s.disk {
        tail := a.tail;
      } else {
        tail := SaveCrashDurable(s, a, d);
      }
    case Some(op) =>
      ApplyOne(a.data, op);
      LoggedRefines(s, a, op);
      var s1 := Logged(FULL, s, op);
      if TornAppend(s.disk, EncodeRecord(op), d) {
        CompleteAppend(s.disk, EncodeRecord(op), d);
        tail := a.tail + 1;
      } else {
        tail := SaveCrashDurable(s1, AbsStep(a, Write(op, NoSave)), d);
      }
  }

  lemma CompleteAppend(d0: Disk, r: Bytes, d: Disk)
    requires TornAppend(d0, r, d) && |d.wal| == |d0.wal| + |r|
    ensures d == d0.(wal := d0.wal + r)
  {
    assert r[..|r|] == r;
  }

  lemma MoveRefines(s: State, a: Abs, mv: Move, s': State) returns (a': Abs)
    requires Refines(s, a) && a.data == a.durable && MoveStep(s, mv, s')
    requires !mv.Tore? && (mv.Ran? ==> !mv.e.ClearMemory? && !mv.e.ClearPersistence?)
    ensures Refines(s', a') && a'.data == a'.durable == ApplyOps(a.data, MoveOps(mv))
  {
    hide Durable, Loadable, Recover, Step, CleanCrash, ApplyOp;
    match mv
    case Ran(e) =>
      StepRefines(s, a, e, s');
      a' := AbsStep(a, e);
      if e.Write? {
        ApplyOne(a.data, e.op);
      }
    case Died(done) =>
      var tail := CleanCrashDurable(s, a, done, s'.disk);
      var m := ApplyOps(a.data, MoveOps(mv));
      DurableRecovers(s'.disk, m, tail);
      RecoveredLoadable(s'.disk);
      a' := Abs(m, m, 0, tail);
  }

  /** The move leaves bytes of a record in the log. */
  predicate Logs(mv: Move) {
    match mv
    case Ran(e) => e.Write?
    case Died(done) => done.Some?
    case Tore(_, _) => true
  }

  predicate Saves(mv: Move) {
    mv.Ran? && SavedBy(mv.e)
  }

  /** No record was torn since the last save that succeeded. */
  predicate Repaired(moves: seq<Move>) {
    if moves == [] then true
    else
      var last := moves[|moves| - 1];
      Saves(last) || (!last.Tore? && Repaired(moves[..|moves| - 1]))
  }

  /** The operating rule: after a torn record, the next write logged saves at once or comes after a
      save that succeeded. */
  predicate SavesAfterTears(moves: seq<Move>) {
    if moves == [] then true
    else
      var last, before := moves[|moves| - 1], moves[..|moves| - 1];
      SavesAfterTears(before) && (Logs(last) && !Saves(last) ==> Repaired(before))
  }

  /** Memory is `m`, and a restart would bring it back; nothing is said of the end of the log. */
  ghost predicate Recovers(s: State, m: Map) {
    s.data == m && Loadable(m) && |s.disk.wal| <= MAX_POSITION && Recover(s.disk).Ok? && Recover(s.disk).value.0 == m
  }

  lemma RefinesRecovers(s: State, a: Abs)
    requires Refines(s, a) && a.data == a.durable
    ensures Recovers(s, a.data)
  {
    DurableRecovers(s.disk, a.durable, a.tail);
    DurableFits(s.disk, a.durable, a.tail);
  }

  lemma TornRecovers(s: State, a: Abs, op: Op, k: nat, s': State)
    requires Refines(s, a) && a.data == a.durable && TornCrash(s, op, k, s'.disk) && Restarted(s')
    ensures Recovers(s', a.data)
  {
    hide Durable, Loadable, Recover, Fits, Appended;
    AppendedRecovers(s.disk, a.durable, a.tail, op, k);
  }

  /** A save that succeeds repairs whatever end the log has. */
  lemma SaveRepairs(s: State, m: Map, mv: Move, s': State) returns (a: Abs)
    requires Recovers(s, m) && MoveStep(s, mv, s') && Saves(mv)
    ensures Refines(s', a) && a.data == a.durable == ApplyOps(m, MoveOps(mv))
  {
    hide Durable, Loadable, Recover, EncodeRecord, Fits, ApplyOp, IsImage;
    a := Abs(s'.data, s'.data, 0, 0);
    if mv.e.Write? {
      ApplyOne(m, mv.e.op);
      ApplyLoadable(m, mv.e.op);
      SaveRefines(Logged(FULL, s, mv.e.op), s');
    } else {
      SaveRefines(s, s');
    }
  }

  lemma SameRecovery(d: Disk, d': Disk)
    requires d'.wal == d.wal && d'.snapshot == d.snapshot
    ensures Recover(d') == Recover(d)
  {
  }

  /** Behind a torn record nothing more is lost while nothing is logged. */
  lemma IdleRecovers(s: State, m: Map, mv: Move, s': State)
    requires Recovers(s, m) && MoveStep(s, mv, s') && !Logs(mv) && !Saves(mv)
    requires mv.Ran? ==> !mv.e.ClearMemory? && !mv.e.ClearPersistence?
    ensures Recovers(s', m) && MoveOps(mv) == []
  {
    hide Durable, Loadable, Recover, IsImage;
    if s'.disk.snapshot == s.disk.snapshot {
      SameRecovery(s.disk, s'.disk);
    } else {
      SaveMakesDurable(s'.disk, s.data);
      DurableRecovers(s'.disk, s.data, 0);
    }
  }

  /** Any interleaving of operations, failed saves, restarts and crashes of every kind, without
      resets, that follows the rule keeps exactly the completed writes: in memory, and on every
      restart. */
  lemma {:induction false} RuleLosesNothing(ss: seq<State>, moves: seq<Move>) returns (a: Abs)
    requires IsHistory(ss, moves) && NoResetMoves(moves) && SavesAfterTears(moves)
    ensures Recovers(Last(ss), ApplyOps(map[], Completed(moves)))
    ensures Repaired(moves) ==> Refines(Last(ss), a) && a.data == a.durable == ApplyOps(map[], Completed(moves))
    decreases |moves|
  {
    hide MoveStep, Refines, Recovers;
    var n := |moves| - 1;
    if n < 0 {
      FreshRefines();
      a := EMPTY;
      RefinesRecovers(FRESH, EMPTY);
    } else {
      assert MoveStep(ss[n], moves[n], ss[n + 1]) && moves[n] in moves;
      assert IsHistory(ss[..n + 1], moves[..n]);
      assert NoResetMoves(moves[..n]);
      var a0 := RuleLosesNothing(ss[..n + 1], moves[..n]);
      var m := ApplyOps(map[], Completed(moves[..n]));
      a := RuleStep(ss[n], m, a0, Repaired(moves[..n]), moves[n], ss[n + 1]);
      ApplyConcat(map[], Completed(moves[..n]), MoveOps(moves[n]));
    }
  }

  lemma RuleStep(s: State, m: Map, a: Abs, repaired: bool, mv: Move, s': State) returns (a': Abs)
    requires Recovers(s, m) && (repaired ==> Refines(s, a) && a.data == a.durable == m)
    requires MoveStep(s, mv, s') && (Logs(mv) && !Saves(mv) ==> repaired)
    requires mv.Ran? ==> !mv.e.ClearMemory? && !mv.e.ClearPersistence?
    ensures Recovers(s', ApplyOps(m, MoveOps(mv)))
    ensures Saves(mv) || (repaired && !mv.Tore?) ==>
      Refines(s', a') && a'.data == a'.durable == ApplyOps(m, MoveOps(mv))
  {
    hide Step, CleanCrash, TornCrash, Refines, Recovers, SavedBy, Restarted;
    a' := a;
    if Saves(mv) {
      a' := SaveRepairs(s, m, mv, s');
      RefinesRecovers(s', a');
    } else if mv.Tore? {
      TornRecovers(s, a, mv.op, mv.k, s');
    } else if repaired {
      a' := MoveRefines(s, a, mv, s');
      RefinesRecovers(s', a');
    } else {
      IdleRecovers(s, m, mv, s');
    }
  }

  predicate NoTears(moves: seq<Move>) {
    forall mv | mv in moves :: !mv.Tore?
  }

  lemma {:induction false} NoTearsFollowsRule(moves: seq<Move>)
    requires NoTears(moves)
    ensures Repaired(moves) && SavesAfterTears(moves)
  {
    if moves == [] {
    } else {
      assert moves[|moves| - 1] in moves;
      NoTearsFollowsRule(moves[..|moves| - 1]);
    }
  }

  /** Histories that tear no record follow it of themselves, and end in the refinement. */
  lemma CleanCrashesLoseNothing(ss: seq<State>, moves: seq<Move>) returns (a: Abs)
    requires IsHistory(ss, moves) && NoResetMoves(moves) && NoTears(moves)
    ensures Refines(Last(ss), a) && a.data == a.durable == ApplyOps(map[], Completed(moves))
    ensures Recover(Last(ss).disk) == Ok((ApplyOps(map[], Completed(moves)), a.tail))
  {
    hide MoveStep, Durable, Loadable, Recover;
    NoTearsFollowsRule(moves);
    a := RuleLosesNothing(ss, moves);
    DurableRecovers(Last(ss).disk, a.durable, a.tail);
  }
}
