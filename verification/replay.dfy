/** What replaying operations does to a map, and which logs are safe to append to. */
module Replay {
  import opened BinaryIo
  import opened WalFormat

  function ApplyOp(m: Map, op: Op): Map {
    match op
    case Set(key, value) => m[key := value]
    case Delete(key) => m - {key}
  }

  function ApplyOps(m: Map, ops: seq<Op>): Map
    decreases |ops|
  {
    if ops == [] then m else ApplyOps(ApplyOp(m, ops[0]), ops[1..])
  }

  /** Replay of the bytes `w`: the map it leaves and the count it returns. */
  function ReplayBytes(w: Bytes, m: Map): (Map, nat) {
    (ApplyOps(m, DecodeOps(w)), |DecodeOps(w)|)
  }

  lemma {:induction false} ApplyConcat(m: Map, xs: seq<Op>, ys: seq<Op>)
    ensures ApplyOps(m, xs + ys) == ApplyOps(ApplyOps(m, xs), ys)
    decreases |xs|
  {
    if xs == [] {
      assert xs + ys == ys;
    } else {
      ApplyConcat(ApplyOp(m, xs[0]), xs[1..], ys);
      assert (xs + ys)[1..] == xs[1..] + ys;
    }
  }

  lemma ApplyOne(m: Map, op: Op)
    ensures ApplyOps(m, [op]) == ApplyOp(m, op)
  {
    assert [op][1..] == [];
  }

  lemma ApplySnoc(m: Map, xs: seq<Op>, op: Op)
    ensures ApplyOps(m, xs + [op]) == ApplyOp(ApplyOps(m, xs), op)
  {
    ApplyConcat(m, xs, [op]);
    ApplyOne(ApplyOps(m, xs), op);
  }

  // ---------- Last writer wins: an independent reading of replay ----------

  function Lookup(m: Map, k: Bytes): Option<Bytes> {
    if k in m then Some(m[k]) else None
  }

  /** What an operation leaves under its key. */
  function Effect(op: Op): Option<Bytes> {
    match op
    case Set(_, value) => Some(value)
    case Delete(_) => None
  }

  /** The last operation on `k`, if any. */
  function LastOn(ops: seq<Op>, k: Bytes): Option<Op> {
    if ops == [] then None
    else if ops[|ops| - 1].key == k then Some(ops[|ops| - 1])
    else LastOn(ops[..|ops| - 1], k)
  }

  /** Each key holds what its last operation says, or what it held before if there is none. */
  lemma {:induction false} LastWriterWins(m: Map, ops: seq<Op>, k: Bytes)
    ensures Lookup(ApplyOps(m, ops), k) ==
            match LastOn(ops, k)
            case Some(op) => Effect(op)
            case None => Lookup(m, k)
  {
    if ops == [] {
    } else {
      var n := |ops| - 1;
      LastWriterWins(m, ops[..n], k);
      ApplySnoc(m, ops[..n], ops[n]);
      assert ops == ops[..n] + [ops[n]];
    }
  }

  lemma SameMap(a: Map, b: Map)
    requires forall k :: Lookup(a, k) == Lookup(b, k)
    ensures a == b
  {
    forall k ensures k in a <==> k in b { assert Lookup(a, k) == Lookup(b, k); }
    forall k | k in a ensures a[k] == b[k] { assert Lookup(a, k) == Lookup(b, k); }
  }

  /** Replaying operations on a map that already holds their effect changes nothing. */
  lemma Idempotent(m: Map, ops: seq<Op>)
    ensures ApplyOps(ApplyOps(m, ops), ops) == ApplyOps(m, ops)
  {
    var once := ApplyOps(m, ops);
    forall k ensures Lookup(ApplyOps(once, ops), k) == Lookup(once, k) {
      LastWriterWins(m, ops, k);
      LastWriterWins(once, ops, k);
    }
    SameMap(ApplyOps(once, ops), once);
  }

  /** A second replay of the same arbitrary bytes, from any starting map. */
  lemma ReplayTwice(w: Bytes, m: Map)
    ensures ReplayBytes(w, ReplayBytes(w, m).0) == ReplayBytes(w, m)
  {
    Idempotent(m, DecodeOps(w));
  }

  /** Replay from any offset counts at most one operation per nine bytes it can see, and past the
      end of the file it does nothing. */
  lemma ReplayBound(w: Bytes, offset: nat, m: Map)
    ensures offset <= |w| ==> 9 * ReplayBytes(Tail(w, offset), m).1 <= |w| - offset
    ensures offset > |w| ==> ReplayBytes(Tail(w, offset), m) == (m, 0)
  {
    DecodedOpsFitBytes(Tail(w, offset));
  }

  lemma ReplayConcat(w1: Bytes, w2: Bytes, m: Map)
    requires Framed(w1)
    ensures var (mid, n1) := ReplayBytes(w1, m);
            var (end, n2) := ReplayBytes(w2, mid);
            ReplayBytes(w1 + w2, m) == (end, n1 + n2)
  {
    hide DecodeOps, ApplyOps, Framed;
    DecodeConcat(w1, w2);
    ApplyConcat(m, DecodeOps(w1), DecodeOps(w2));
  }

  /** A map that already covers the log up to the boundary `c` absorbs a replay from any
      earlier boundary `b`; the bytes after `c` are arbitrary. */
  lemma Absorption(w: Bytes, b: nat, c: nat, m: Map)
    requires b <= c <= |w| && Framed(w[..b]) && Framed(w[..c])
    ensures ReplayBytes(w[b..], ReplayBytes(w[..c], m).0).0 == ReplayBytes(w, m).0
  {
    hide DecodeOps, ApplyOps, Framed, ReplayBytes;
    var mid := w[b..c];
    BoundarySlice(w, b, c);
    assert w == w[..b] + w[b..] && w[b..] == mid + w[c..] && w[..c] == w[..b] + mid;
    var atB := ReplayBytes(w[..b], m).0;
    ReplayConcat(w[..b], w[b..], m);
    ReplayConcat(w[..b], mid, m);
    ReplayConcat(mid, w[c..], atB);
    ReplayConcat(mid, w[c..], ReplayBytes(mid, atB).0);
    ReplayTwice(mid, atB);
  }

  // ---------- When is it safe to append? ----------

  /** Every operation appended after `w` takes effect on the next replay. */
  ghost predicate LogAppendsSurvive(w: Bytes, m: Map) {
    forall op | Fits(op) ::
      ApplyOps(m, DecodeOps(w + EncodeRecord(op))) == ApplyOp(ApplyOps(m, DecodeOps(w)), op)
  }

  /** The operation that an unframed tail always swallows. */
  function Probe(x: byte): Op {
    Set([], [x])
  }

  lemma ProbeBytes(x: byte)
    ensures EncodePayload(Probe(x)) == [1, 0, 0, 0, 0, 1, 0, 0, 0, x]
    ensures EncodeRecord(Probe(x)) == [10, 0, 0, 0, 1, 0, 0, 0, 0, 1, 0, 0, 0, x]
  {
    assert Encode(0, 4) == [0, 0, 0, 0];
    assert Encode(1, 4) == [1, 0, 0, 0];
    assert Encode(10, 4) == [10, 0, 0, 0];
  }

  /** A nonempty tail with no complete frame swallows the probe record. */
  lemma TailSwallowsProbe(t: Bytes, x: byte)
    requires t != [] && !StartsFrame(t) && x != 10
    ensures Probe(x) !in DecodeOps(t + EncodeRecord(Probe(x)))
  {
    var r := EncodeRecord(Probe(x));
    var w := t + r;
    ProbeBytes(x);
    DecodeFour(w[..4]);
    if |t| >= 4 {
      assert w[..4] == t[..4];
    }
    if StartsFrame(w) {
      // Fewer than four tail bytes would make the length field span the probe's own length.
      assert |t| >= 4 && FrameEnd(w) > |t|;
      var p := FirstPayload(w);
      assert p[|t| - 4] == r[0] == 10;
      if DecodePayload(p) == Some(Probe(x)) {
        EncodeOfDecode(p);
        assert false;
      }
      DecodedOpsFitBytes(AfterFirst(w));
    }
  }

  lemma {:induction false} UnframedSwallowsProbe(w: Bytes, x: byte)
    requires !Framed(w) && x != 10
    ensures var after := DecodeOps(w + EncodeRecord(Probe(x)));
            DecodeOps(w) <= after && Probe(x) !in after[|DecodeOps(w)|..]
    decreases |w|
  {
    var r := EncodeRecord(Probe(x));
    DecodePrefixMonotone(w, r);
    if StartsFrame(w) {
      FrameExtends(w, r);
      UnframedSwallowsProbe(AfterFirst(w), x);
      DecodePrefixMonotone(AfterFirst(w), r);
    } else {
      TailSwallowsProbe(w, x);
    }
  }

  lemma {:induction false} NoSetNoValue(m: Map, ops: seq<Op>, k: Bytes, v: Bytes)
    requires Set(k, v) !in ops && Lookup(m, k) != Some(v)
    ensures Lookup(ApplyOps(m, ops), k) != Some(v)
    decreases |ops|
  {
    if ops == [] {
    } else {
      NoSetNoValue(ApplyOp(m, ops[0]), ops[1..], k, v);
    }
  }

  /** The code never truncates a torn tail, so later appends can be lost. They are all kept
      exactly when the log ends at a record boundary. */
  lemma AppendsSurviveIffFramed(w: Bytes, m: Map)
    ensures LogAppendsSurvive(w, m) <==> Framed(w)
  {
    hide DecodeOps, ApplyOps, EncodeRecord, Framed;
    if Framed(w) {
      forall op | Fits(op)
        ensures ApplyOps(m, DecodeOps(w + EncodeRecord(op))) == ApplyOp(ApplyOps(m, DecodeOps(w)), op)
      {
        DecodeConcat(w, EncodeRecord(op));
        RecordDecodes(op);
        ApplySnoc(m, DecodeOps(w), op);
      }
    } else {
      var before := ApplyOps(m, DecodeOps(w));
      var x: byte := if Lookup(before, []) == Some([0]) then 1 else 0;
      var r := EncodeRecord(Probe(x));
      UnframedSwallowsProbe(w, x);
      DecodePrefixMonotone(w, r);
      var ops := DecodeOps(w + r);
      var added := ops[|DecodeOps(w)|..];
      assert ops == DecodeOps(w) + added;
      ApplyConcat(m, DecodeOps(w), added);
      NoSetNoValue(before, added, [], [x]);
      ProbeBytes(x);
      assert Fits(Probe(x));
      assert Lookup(ApplyOp(before, Probe(x)), []) == Some([x]);
    }
  }

  /** The smallest failing case: one stray byte, then a SET, then a replay that finds nothing. */
  lemma TornTailLosesWrite()
    ensures DecodeOps([0] + EncodeRecord(Probe(0))) == []
  {
    ProbeBytes(0);
    var w := [0 as byte] + EncodeRecord(Probe(0));
    DecodeFour(w[..4]);
    assert Decode(w[..4]) == 2560;
  }
}
