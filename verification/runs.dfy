/** Whole runs of a store with both a WAL and a snapshot: what memory and the files hold after any
    sequence of operations, saves and restarts. */
module Runs {
  import opened BinaryIo
  import opened WalFormat
  import opened Replay
  import opened SnapshotFormat
  import opened FileSystem
  import opened Recovery
  import opened StoreModel

  /** `ss` are the states and `es` the events between them. */
  ghost predicate IsRun(ss: seq<State>, es: seq<Event>) {
    && |ss| == |es| + 1
    && forall i | 0 <= i < |es| :: Step(FULL, ss[i], es[i], ss[i + 1])
  }

  function Last(ss: seq<State>): State
    requires ss != []
  {
    ss[|ss| - 1]
  }

  function AbsRun(a: Abs, es: seq<Event>): Abs
    decreases |es|
  {
    if es == [] then a else AbsRun(AbsStep(a, es[0]), es[1..])
  }

  const FRESH: State := State(map[], 0, Disk([], None, None))

  lemma RunTail(ss: seq<State>, es: seq<Event>)
    requires IsRun(ss, es) && es != []
    ensures IsRun(ss[1..], es[1..]) && Last(ss[1..]) == Last(ss)
    ensures Step(FULL, ss[0], es[0], ss[1])
  {
    hide Step;
    forall i | 0 <= i < |es| - 1
      ensures Step(FULL, ss[1..][i], es[1..][i], ss[1..][i + 1])
    {
      assert Step(FULL, ss[i + 1], es[i + 1], ss[i + 2]);
    }
    assert Step(FULL, ss[0], es[0], ss[0 + 1]);
  }

  lemma RunSuffix(ss: seq<State>, es: seq<Event>, n: nat)
    requires IsRun(ss, es) && n <= |es|
    ensures IsRun(ss[n..], es[n..]) && Last(ss[n..]) == Last(ss)
  {
    hide Step;
    forall i | 0 <= i < |es| - n ensures Step(FULL, ss[n..][i], es[n..][i], ss[n..][i + 1]) {
      assert Step(FULL, ss[n + i], es[n + i], ss[n + i + 1]);
    }
  }

  lemma RunSnoc(ss: seq<State>, es: seq<Event>, e: Event, s: State)
    requires IsRun(ss, es) && Step(FULL, Last(ss), e, s)
    ensures IsRun(ss + [s], es + [e]) && Last(ss + [s]) == s && (ss + [s])[0] == ss[0]
  {
    var ss', es' := ss + [s], es + [e];
    hide Step;
    forall i | 0 <= i < |es'| ensures Step(FULL, ss'[i], es'[i], ss'[i + 1]) {
      if i < |es| {
        assert Step(FULL, ss[i], es[i], ss[i + 1]);
      }
    }
  }

  // ---------- Refinement ----------

  /** The refinement holds along any run that starts in it, restarts included. */
  lemma {:induction false} RunRefines(ss: seq<State>, es: seq<Event>, a: Abs)
    requires IsRun(ss, es) && Refines(ss[0], a)
    ensures Refines(Last(ss), AbsRun(a, es))
    decreases |es|
  {
    hide Step, Refines;
    if es == [] {
    } else {
      RunTail(ss, es);
      StepRefines(ss[0], a, es[0], ss[1]);
      RunRefines(ss[1..], es[1..], AbsStep(a, es[0]));
    }
  }

  lemma FreshRefines()
    ensures Refines(FRESH, EMPTY)
  {
    EmptyFilesDurable(None);
  }

  /** After any history from empty files, a restart recovers exactly the map the events promise,
      and reports exactly the writes since the last checkpoint. */
  lemma RecoveryIsExact(ss: seq<State>, es: seq<Event>)
    requires IsRun(ss, es) && ss[0] == FRESH
    ensures var a := AbsRun(EMPTY, es);
      Recover(Last(ss).disk) == Ok((a.durable, a.tail)) && Last(ss).data == a.data && Last(ss).writes == a.writes
  {
    FreshRefines();
    RunRefines(ss, es, EMPTY);
    var a := AbsRun(EMPTY, es);
    DurableRecovers(Last(ss).disk, a.durable, a.tail);
  }

  // ---------- Without resets, memory and files never part ----------

  predicate NoResets(es: seq<Event>) {
    forall e | e in es :: !e.ClearMemory? && !e.ClearPersistence?
  }

  /** The operations a run accepted, in order. */
  function Accepted(es: seq<Event>): seq<Op>
    decreases |es|
  {
    if es == [] then []
    else (if es[0].Write? then [es[0].op] else []) + Accepted(es[1..])
  }

  lemma {:induction false} NoResetsAgree(a: Abs, es: seq<Event>)
    requires a.data == a.durable && NoResets(es)
    ensures AbsRun(a, es).data == AbsRun(a, es).durable == ApplyOps(a.data, Accepted(es))
    decreases |es|
  {
    hide ApplyOp;
    if es == [] {
    } else {
      var a1 := AbsStep(a, es[0]);
      assert es[0] in es;
      NoResetsAgree(a1, es[1..]);
      if es[0].Write? {
        ApplyConcat(a.data, [es[0].op], Accepted(es[1..]));
        ApplyOne(a.data, es[0].op);
      } else {
        assert Accepted(es) == Accepted(es[1..]) && a1.data == a.data;
      }
    }
  }

  /** Durability: without resets, recovery after any number of writes, snapshots, failed saves
      and restarts is the fold of every accepted write, and equals memory. */
  lemma AcceptedWritesAreDurable(ss: seq<State>, es: seq<Event>)
    requires IsRun(ss, es) && ss[0] == FRESH && NoResets(es)
    ensures Last(ss).data == ApplyOps(map[], Accepted(es))
    ensures Recover(Last(ss).disk).Ok? && Recover(Last(ss).disk).value.0 == Last(ss).data
  {
    RecoveryIsExact(ss, es);
    NoResetsAgree(EMPTY, es);
  }

  /** Reading a key returns what the last accepted write on it says, restarts included. */
  lemma ReadsReturnLastWrite(ss: seq<State>, es: seq<Event>, key: Bytes)
    requires IsRun(ss, es) && ss[0] == FRESH && NoResets(es)
    ensures Lookup(Last(ss).data, key) ==
            match LastOn(Accepted(es), key)
            case Some(op) => Effect(op)
            case None => None
  {
    AcceptedWritesAreDurable(ss, es);
    LastWriterWins(map[], Accepted(es), key);
  }

  /** A restart after such a run succeeds, and any restart step there is invisible to readers. */
  lemma RestartIsInvisible(ss: seq<State>, es: seq<Event>, s': State, replayed: nat)
    requires IsRun(ss, es) && ss[0] == FRESH && NoResets(es)
    ensures var tail := AbsRun(EMPTY, es).tail;
      Step(FULL, Last(ss), Restart(tail), Last(ss).(writes := 0))
    ensures Step(FULL, Last(ss), Restart(replayed), s') ==> s'.data == Last(ss).data
  {
    AcceptedWritesAreDurable(ss, es);
    RecoveryIsExact(ss, es);
    FreshRefines();
    RunRefines(ss, es, EMPTY);
  }

  // ---------- Nothing is invented ----------

  /** Memory or the files bind `key` to `value`. */
  predicate Holds(a: Abs, key: Bytes, value: Bytes) {
    Lookup(a.data, key) == Some(value) || Lookup(a.durable, key) == Some(value)
  }

  lemma StepInventsNothing(a: Abs, e: Event, key: Bytes, value: Bytes)
    requires Holds(AbsStep(a, e), key, value)
    ensures Holds(a, key, value) || (e.Write? && e.op == Set(key, value))
  {
  }

  /** A binding that memory or the files hold after a run was there before it, or some accepted
      write of the run set it. */
  lemma {:induction false} NothingInvented(a: Abs, es: seq<Event>, key: Bytes, value: Bytes)
    requires Holds(AbsRun(a, es), key, value)
    ensures Holds(a, key, value) || Set(key, value) in Accepted(es)
    decreases |es|
  {
    hide Holds, AbsStep;
    if es == [] {
    } else {
      NothingInvented(AbsStep(a, es[0]), es[1..], key, value);
      if Set(key, value) !in Accepted(es) {
        StepInventsNothing(a, es[0], key, value);
      }
    }
  }

  /** From files in good order, recovery after any run, resets included, returns no binding that
      was not there at the start or written since. */
  lemma RecoveryInventsNothing(ss: seq<State>, es: seq<Event>, a: Abs, key: Bytes, value: Bytes)
    requires IsRun(ss, es) && Refines(ss[0], a)
    ensures Recover(Last(ss).disk).Ok?
    ensures Lookup(Recover(Last(ss).disk).value.0, key) == Some(value) ==>
      Holds(a, key, value) || Set(key, value) in Accepted(es)
  {
    hide Step, Durable, Loadable, Recover, AbsRun, Accepted;
    RunRefines(ss, es, a);
    var a' := AbsRun(a, es);
    DurableRecovers(Last(ss).disk, a'.durable, a'.tail);
    if Lookup(a'.durable, key) == Some(value) {
      NothingInvented(a, es, key, value);
    }
  }
}
