/** How much recovery has to replay: exactly in one process, and at most and at worst over many. */
module Checkpoints {
  import opened BinaryIo
  import opened WalFormat
  import opened Replay
  import opened SnapshotFormat
  import opened FileSystem
  import opened Recovery
  import opened StoreModel
  import opened Runs

  predicate SavesSucceed(es: seq<Event>) {
    forall e | e in es :: (e.Write? || e.SaveSnapshot?) ==> !e.save.SaveThrew?
  }

  /** Neither the process nor its memory is reset. */
  predicate OneProcess(es: seq<Event>) {
    forall e | e in es :: !e.ClearMemory? && !e.Restart?
  }

  /** The event leaves nothing to replay: a save that succeeded, or cleared files. */
  predicate IsCheckpoint(e: Event) {
    e.ClearPersistence? || ((e.Write? || e.SaveSnapshot?) && e.save.Saved?)
  }

  predicate HasCheckpoint(es: seq<Event>) {
    exists e :: e in es && IsCheckpoint(e)
  }

  /** How many times the counter was set to zero since the last checkpoint, `r` of them before. */
  function CounterResets(r: nat, es: seq<Event>): nat
    decreases |es|
  {
    if es == [] then r
    else if IsCheckpoint(es[0]) then CounterResets(0, es[1..])
    else if es[0].ClearMemory? || es[0].Restart? then CounterResets(r + 1, es[1..])
    else CounterResets(r, es[1..])
  }

  lemma {:induction false} CounterBounded(ss: seq<State>, es: seq<Event>)
    requires IsRun(ss, es) && SavesSucceed(es) && ss[0].writes < SNAPSHOT_INTERVAL
    ensures Last(ss).writes < SNAPSHOT_INTERVAL
    decreases |es|
  {
    hide Recover, Durable, IsImage, EncodeRecord, Fits;
    if es == [] {
    } else {
      RunTail(ss, es);
      assert es[0] in es;
      CounterBounded(ss[1..], es[1..]);
    }
  }

  // ---------- One process ----------

  /** In one process the counter and the operations to replay move together, so what an earlier
      process left unsaved stays as a constant difference until a checkpoint removes it. */
  lemma {:induction false} CounterFollowsTail(a: Abs, es: seq<Event>)
    requires OneProcess(es)
    ensures AbsRun(a, es).tail - AbsRun(a, es).writes == if HasCheckpoint(es) then 0 else a.tail - a.writes
    decreases |es|
  {
    hide ApplyOp;
    if es == [] {
    } else {
      var rest := es[1..];
      assert es[0] in es && forall e | e in rest :: e in es;
      assert forall e | e in es :: e == es[0] || e in rest;
      CounterFollowsTail(AbsStep(a, es[0]), rest);
    }
  }

  /** In one process, on whatever good files it started, recovery replays exactly the writes the
      counter counts, and before the first checkpoint also what the files held at the start. The
      counter stays under the interval while saves succeed. */
  lemma CheckpointBound(ss: seq<State>, es: seq<Event>, a: Abs)
    requires IsRun(ss, es) && Refines(ss[0], a) && OneProcess(es)
    ensures Recover(Last(ss).disk).Ok?
    ensures Recover(Last(ss).disk).value.1 ==
            Last(ss).writes + if HasCheckpoint(es) then 0 else a.tail - a.writes
    ensures SavesSucceed(es) && a.writes < SNAPSHOT_INTERVAL ==> Last(ss).writes < SNAPSHOT_INTERVAL
  {
    hide Step, OneProcess, HasCheckpoint, SavesSucceed, Durable, Loadable, Recover, AbsRun;
    RunRefines(ss, es, a);
    var a' := AbsRun(a, es);
    DurableRecovers(Last(ss).disk, a'.durable, a'.tail);
    CounterFollowsTail(a, es);
    if SavesSucceed(es) && a.writes < SNAPSHOT_INTERVAL {
      CounterBounded(ss, es);
    }
  }

  // ---------- Many processes ----------

  lemma {:induction false} TailBounded(ss: seq<State>, es: seq<Event>, a: Abs, r: nat)
    requires IsRun(ss, es) && ss[0].writes == a.writes < SNAPSHOT_INTERVAL && SavesSucceed(es)
    requires a.tail <= 999 * r + a.writes
    ensures AbsRun(a, es).tail <= 999 * CounterResets(r, es) + AbsRun(a, es).writes
    decreases |es|
  {
    hide Recover, Durable, IsImage, EncodeRecord, Fits, ApplyOp;
    if es == [] {
    } else {
      RunTail(ss, es);
      assert es[0] in es;
      var e := es[0];
      var r1 := if IsCheckpoint(e) then 0 else if e.ClearMemory? || e.Restart? then r + 1 else r;
      TailBounded(ss[1..], es[1..], AbsStep(a, e), r1);
    }
  }

  /** Over any run with saves succeeding, each restart or memory clear since the last checkpoint
      adds at most 999 operations to replay; `r` counts those before the run. */
  lemma ManyProcessesBound(ss: seq<State>, es: seq<Event>, a: Abs, r: nat)
    requires IsRun(ss, es) && Refines(ss[0], a) && SavesSucceed(es)
    requires a.writes < SNAPSHOT_INTERVAL && a.tail <= 999 * r + a.writes
    ensures Recover(Last(ss).disk).Ok?
    ensures Recover(Last(ss).disk).value.1 <= 999 * CounterResets(r, es) + Last(ss).writes
    ensures Last(ss).writes < SNAPSHOT_INTERVAL
  {
    hide Step, SavesSucceed, Durable, Loadable, Recover, AbsRun;
    RunRefines(ss, es, a);
    var a' := AbsRun(a, es);
    DurableRecovers(Last(ss).disk, a'.durable, a'.tail);
    TailBounded(ss, es, a, r);
    CounterBounded(ss, es);
  }

  // ---------- The bound is reached ----------

  /** Nothing but writes that owe no save, and restarts: no save is ever due. */
  predicate NeverDue(es: seq<Event>) {
    forall e | e in es :: (e.Write? && e.save.NoSave?) || e.Restart?
  }

  lemma {:induction false} CounterResetsSnoc(r: nat, es: seq<Event>, e: Event)
    ensures CounterResets(r, es + [e]) ==
            if IsCheckpoint(e) then 0
            else CounterResets(r, es) + if e.ClearMemory? || e.Restart? then 1 else 0
    decreases |es|
  {
    if es == [] {
      assert [e][1..] == [] && es + [e] == [e];
    } else {
      assert (es + [e])[1..] == es[1..] + [e];
      var r1 := if IsCheckpoint(es[0]) then 0
                else if es[0].ClearMemory? || es[0].Restart? then r + 1 else r;
      CounterResetsSnoc(r1, es[1..], e);
    }
  }

  lemma AbsentDelete(m: Map)
    requires [] !in m
    ensures ApplyOp(m, Delete([])) == m
  {
  }

  /** Deleting an absent key is logged and counted, and changes neither map. */
  lemma IdleWrite(s: State, a: Abs) returns (s': State)
    requires Refines(s, a) && [] !in a.data && [] !in a.durable
    requires a.writes + 1 < SNAPSHOT_INTERVAL && |s.disk.wal| + 9 <= MAX_POSITION
    ensures Step(FULL, s, Write(Delete([]), NoSave), s')
    ensures Refines(s', a.(writes := a.writes + 1, tail := a.tail + 1)) && |s'.disk.wal| == |s.disk.wal| + 9
  {
    hide Durable, Loadable, EncodeRecord, Fits, Recover, ApplyOp;
    SmallestRecord();
    AbsentDelete(a.data);
    AbsentDelete(a.durable);
    s' := Logged(FULL, s, Delete([]));
    LoggedRefines(s, a, Delete([]));
  }

  /** Extends a run by `n` such writes. */
  lemma {:induction false} IdleWrites(ss: seq<State>, es: seq<Event>, a: Abs, n: nat)
    returns (ss': seq<State>, es': seq<Event>)
    requires IsRun(ss, es) && Refines(Last(ss), a) && [] !in a.data && [] !in a.durable
    requires a.writes + n < SNAPSHOT_INTERVAL && |Last(ss).disk.wal| + 9 * n <= MAX_POSITION
    ensures IsRun(ss', es') && ss'[0] == ss[0] && Refines(Last(ss'), a.(writes := a.writes + n, tail := a.tail + n))
    ensures |Last(ss').disk.wal| == |Last(ss).disk.wal| + 9 * n
    ensures CounterResets(0, es') == CounterResets(0, es) && (NeverDue(es) ==> NeverDue(es'))
  {
    hide Step, Refines;
    if n == 0 {
      ss', es' := ss, es;
    } else {
      ss', es' := IdleWrites(ss, es, a, n - 1);
      var e := Write(Delete([]), NoSave);
      var s := IdleWrite(Last(ss'), a.(writes := a.writes + n - 1, tail := a.tail + n - 1));
      RunSnoc(ss', es', e, s);
      CounterResetsSnoc(0, es', e);
      ss', es' := ss' + [s], es' + [e];
    }
  }

  lemma RestartAfter(s: State, a: Abs) returns (s': State)
    requires Refines(s, a) && a.data == a.durable
    ensures Step(FULL, s, Restart(a.tail), s') && Refines(s', a.(writes := 0)) && s'.disk == s.disk
  {
    DurableRecovers(s.disk, a.durable, a.tail);
    s' := State(a.durable, 0, s.disk);
  }

  /** A program restarted before each thousandth write never takes a snapshot: with any number `r`
      of restarts and `w` writes after the last, recovery replays 999 operations per restart and
      those `w`, so the bound above cannot be improved. */
  lemma {:induction false} RestartsDeferCheckpoints(r: nat, w: nat) returns (ss: seq<State>, es: seq<Event>)
    requires w < SNAPSHOT_INTERVAL && 9 * (999 * r + w) <= MAX_POSITION
    ensures IsRun(ss, es) && ss[0] == FRESH && NeverDue(es) && CounterResets(0, es) == r
    ensures Refines(Last(ss), Abs(map[], map[], w, 999 * r + w)) && |Last(ss).disk.wal| == 9 * (999 * r + w)
    ensures Recover(Last(ss).disk) == Ok((map[], 999 * r + w))
    decreases r
  {
    hide Step, Durable, Loadable, Recover;
    if r == 0 {
      FreshRefines();
      ss, es := [FRESH], [];
    } else {
      ss, es := RestartsDeferCheckpoints(r - 1, 999);
      var s := RestartAfter(Last(ss), Abs(map[], map[], 999, 999 * r));
      var e := Restart(999 * r);
      RunSnoc(ss, es, e, s);
      CounterResetsSnoc(0, es, e);
      ss, es := ss + [s], es + [e];
    }
    ss, es := IdleWrites(ss, es, Abs(map[], map[], 0, 999 * r), w);
    DurableRecovers(Last(ss).disk, map[], 999 * r + w);
  }
}
