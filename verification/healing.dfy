/** Self-stabilisation: what repairs files in any condition. */
module Healing {
  import opened BinaryIo
  import opened WalFormat
  import opened Replay
  import opened SnapshotFormat
  import opened Recovery
  import opened StoreModel
  import opened Runs

  /** From any WAL bytes, any snapshot file and any loadable map in memory, a run in which some
      save succeeds ends in the refinement again, as if it had started at that save. */
  lemma RecoversFromSave(ss: seq<State>, es: seq<Event>, i: nat)
    requires IsRun(ss, es) && i < |es| && Loadable(ss[i].data)
    requires (es[i].Write? || es[i].SaveSnapshot?) && es[i].save.Saved?
    ensures Refines(Last(ss), AbsRun(Abs(ss[i + 1].data, ss[i + 1].data, 0, 0), es[i + 1..]))
  {
    assert Step(FULL, ss[i], es[i], ss[i + 1]);
    hide IsImage, EncodeRecord, ApplyOp, Fits, Durable, Loadable;
    if es[i].Write? {
      var s1 := Logged(FULL, ss[i], es[i].op);
      ApplyLoadable(ss[i].data, es[i].op);
      SaveRefines(s1, ss[i + 1]);
    } else {
      SaveRefines(ss[i], ss[i + 1]);
    }
    RunSuffix(ss, es, i + 1);
    RunRefines(ss[i + 1..], es[i + 1..], Abs(ss[i + 1].data, ss[i + 1].data, 0, 0));
  }

  /** Clearing persistence repairs the files too, if it returns: the run goes on as if nothing had
      been durable before. */
  lemma RecoversFromClear(ss: seq<State>, es: seq<Event>, i: nat)
    requires IsRun(ss, es) && i < |es| && Loadable(ss[i].data) && es[i].ClearPersistence?
    ensures Refines(Last(ss), AbsRun(Abs(ss[i + 1].data, map[], 0, 0), es[i + 1..]))
  {
    assert Step(FULL, ss[i], es[i], ss[i + 1]);
    EmptyFilesDurable(None);
    RunSuffix(ss, es, i + 1);
    hide Step, Durable, Loadable;
    RunRefines(ss[i + 1..], es[i + 1..], Abs(ss[i + 1].data, map[], 0, 0));
  }

  /** From then on, with no resets, recovery equals memory. */
  lemma SaveHeals(ss: seq<State>, es: seq<Event>, i: nat) returns (a: Abs)
    requires IsRun(ss, es) && i < |es| && Loadable(ss[i].data) && NoResets(es[i + 1..])
    requires (es[i].Write? || es[i].SaveSnapshot?) && es[i].save.Saved?
    ensures Refines(Last(ss), a) && a.data == a.durable
    ensures Recover(Last(ss).disk) == Ok((Last(ss).data, a.tail))
  {
    var a0 := Abs(ss[i + 1].data, ss[i + 1].data, 0, 0);
    a := AbsRun(a0, es[i + 1..]);
    hide Step, Loadable, AbsRun, ApplyOps, Durable, Recover;
    RecoversFromSave(ss, es, i);
    NoResetsAgree(a0, es[i + 1..]);
    DurableRecovers(Last(ss).disk, a.durable, a.tail);
  }

  // ---------- A thousand returned writes ----------

  /** The process keeps running and nothing is cleared. Writes may be refused and saves may throw. */
  predicate KeepsRunning(es: seq<Event>) {
    forall e | e in es :: !e.ClearMemory? && !e.ClearPersistence? && !e.Restart?
  }

  predicate SavedBy(e: Event) {
    (e.Write? || e.SaveSnapshot?) && e.save.Saved?
  }

  /** How many writes came back to the caller without an error. */
  function Returned(es: seq<Event>): nat
    decreases |es|
  {
    if es == [] then 0
    else (if es[0].Write? && !es[0].save.SaveThrew? then 1 else 0) + Returned(es[1..])
  }

  /** A write returns only if its save succeeded or none was due, so without a save the counter
      leaves room for fewer than a thousand of them. A save that throws keeps the counter, and the
      next write tries again. */
  lemma {:induction false} UnsavedReturns(ss: seq<State>, es: seq<Event>)
    requires IsRun(ss, es) && KeepsRunning(es) && forall e | e in es :: !SavedBy(e)
    ensures Returned(es) > 0 ==> ss[0].writes + Returned(es) < SNAPSHOT_INTERVAL
    decreases |es|
  {
    hide IsImage, EncodeRecord, Fits, ApplyOp;
    if es == [] {
    } else {
      RunTail(ss, es);
      assert es[0] in es;
      UnsavedReturns(ss[1..], es[1..]);
    }
  }

  lemma {:induction false} MemoryKept(ss: seq<State>, es: seq<Event>, i: nat)
    requires IsRun(ss, es) && KeepsRunning(es) && Loadable(ss[0].data) && i <= |es|
    ensures Loadable(ss[i].data)
  {
    hide IsImage, EncodeRecord, ApplyOp, Fits, Loadable;
    if i == 0 {
    } else {
      MemoryKept(ss, es, i - 1);
      var e := es[i - 1];
      assert e in es && Step(FULL, ss[i - 1], e, ss[i - 1 + 1]);
      if e.Write? {
        ApplyLoadable(ss[i - 1].data, e.op);
      }
    }
  }

  lemma {:induction false} MemoryFoldsWrites(ss: seq<State>, es: seq<Event>)
    requires IsRun(ss, es) && KeepsRunning(es)
    ensures Last(ss).data == ApplyOps(ss[0].data, Accepted(es))
    decreases |es|
  {
    hide IsImage, EncodeRecord, ApplyOp, Fits;
    if es == [] {
    } else {
      RunTail(ss, es);
      assert es[0] in es;
      MemoryFoldsWrites(ss[1..], es[1..]);
      if es[0].Write? {
        ApplyConcat(ss[0].data, [es[0].op], Accepted(es[1..]));
        ApplyOne(ss[0].data, es[0].op);
      } else {
        assert Accepted(es) == Accepted(es[1..]) && ss[1].data == ss[0].data;
      }
    }
  }

  /** Whatever damage the files carry, a thousand returned writes in one process repair it, whatever
      refused writes, failed saves and explicit saves come between: recovery equals memory again,
      and the refinement carries it through any later run. */
  lemma ThousandWritesHeal(ss: seq<State>, es: seq<Event>) returns (a: Abs)
    requires IsRun(ss, es) && KeepsRunning(es) && Loadable(ss[0].data)
    requires Returned(es) >= SNAPSHOT_INTERVAL
    ensures Refines(Last(ss), a) && a.data == a.durable
    ensures Recover(Last(ss).disk) == Ok((Last(ss).data, a.tail))
    ensures Last(ss).data == ApplyOps(ss[0].data, Accepted(es))
  {
    hide Step, Loadable, Refines, Recover;
    if forall e | e in es :: !SavedBy(e) {
      UnsavedReturns(ss, es);
      assert false;
    }
    var e :| e in es && SavedBy(e);
    var i: nat :| i < |es| && es[i] == e;
    forall e | e in es[i + 1..] ensures !e.ClearMemory? && !e.ClearPersistence? {
      assert e in es;
    }
    MemoryKept(ss, es, i);
    a := SaveHeals(ss, es, i);
    MemoryFoldsWrites(ss, es);
  }
}
