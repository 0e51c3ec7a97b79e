/** Appending accepted operations so that replay finds one nobody wrote: where that is possible, and
    that it is possible everywhere else than on the logs known to be immune. */
module Forgery {
  import opened BinaryIo
  import opened WalFormat
  import opened Replay
  import opened FileSystem
  import opened Recovery
  import opened Damage

  predicate LastIs(ops: seq<Op>, op: Op) {
    ops != [] && ops[|ops| - 1] == op
  }

  predicate AcceptedDeletes(ops: seq<Op>) {
    forall op | op in ops :: op.Delete? && Fits(op)
  }

  /** Once the deletes `ops` are appended to `t`, replay finds more operations than before, and the
      last of them is a SET. */
  ghost predicate Forges(t: Bytes, ops: seq<Op>, x: byte) {
    && AcceptedDeletes(ops)
    && var after := DecodeOps(t + EncodeAll(ops)); |DecodeOps(t)| < |after| && LastIs(after, Probe(x))
  }

  // ---------- Completing a pending frame ----------

  /** `t` opens a frame of which `j` bytes are missing. */
  predicate Pending(t: Bytes, j: nat) {
    |t| >= 4 && Decode(t[..4]) <= MAX_RECORD && 0 < j && |t| + j == 4 + Decode(t[..4])
  }

  /** The pending frame swallows `j` bytes, and decoding goes on after them. */
  lemma DecodesAfterPending(t: Bytes, j: nat, s: Bytes)
    requires Pending(t, j) && j <= |s|
    ensures DecodeOps(t) == []
    ensures forall op :: LastIs(DecodeOps(s[j..]), op) ==> LastIs(DecodeOps(t + s), op)
  {
    var w := t + s;
    assert w[..4] == t[..4];
    assert StartsFrame(w) && AfterFirst(w) == s[j..];
  }

  /** Fewer than `j` bytes leave the frame pending. */
  lemma StillPending(t: Bytes, j: nat, s: Bytes)
    requires Pending(t, j) && |s| < j
    ensures Pending(t + s, j - |s|)
  {
    assert (t + s)[..4] == t[..4];
  }

  function Zeros(n: nat): (z: Bytes)
    ensures |z| == n
  {
    seq(n, i => 0)
  }

  lemma DropPrefix(a: Bytes, b: Bytes, j: nat)
    requires j <= |a|
    ensures (a + b)[j..] == a[j..] + b
  {
  }

  lemma EncodeAllOne(op: Op)
    ensures EncodeAll([op]) == EncodeRecord(op)
  {
    assert [op][1..] == [];
  }

  lemma EncodeAllCons(op: Op, ops: seq<Op>)
    ensures EncodeAll([op] + ops) == EncodeRecord(op) + EncodeAll(ops)
  {
    assert ([op] + ops)[1..] == ops;
  }

  /** The bytes of a DELETE record from its key size on, and from its key on. */
  lemma DeleteRecordFrom(key: Bytes)
    ensures EncodeRecord(Delete(key))[5..] == Encode(|key|, 4) + key
    ensures EncodeRecord(Delete(key))[9..] == key
  {
    hide Encode;
    Cuts(Encode(5 + |key|, 4), DELETE_CODE, Encode(|key|, 4), key);
  }

  lemma Cuts(length: Bytes, code: byte, size: Bytes, key: Bytes)
    requires |length| == |size| == 4
    ensures (length + ([code] + size + key))[5..] == size + key
    ensures (length + ([code] + size + key))[9..] == key
  {
    assert length + ([code] + size + key) == (length + [code]) + (size + key);
  }

  lemma ForgedDecodes(pad: Bytes, x: byte)
    requires pad == [] || pad == [0, 0, 0, 0]
    ensures LastIs(DecodeOps(pad + EncodeRecord(Probe(x))), Probe(x))
  {
    var r := EncodeRecord(Probe(x));
    ProbeBytes(x);
    RecordDecodes(Probe(x));
    if pad == [] {
      assert pad + r == r;
    } else {
      var w := pad + r;
      DecodeFour(w[..4]);
      assert StartsFrame(w) && AfterFirst(w) == r;
    }
  }

  /** The general step: a record whose bytes after the first `j` decode to the forged operation. */
  lemma ForgeWith(t: Bytes, j: nat, op: Op, x: byte) returns (ops: seq<Op>)
    requires Pending(t, j) && Fits(op) && op.Delete? && j <= RecordLength(op)
    requires LastIs(DecodeOps(EncodeRecord(op)[j..]), Probe(x))
    ensures Forges(t, ops, x)
  {
    hide EncodeRecord, EncodeAll, DecodeOps, Pending, Fits;
    ops := [op];
    EncodeAllOne(op);
    DecodesAfterPending(t, j, EncodeRecord(op));
  }

  /** Nine bytes or more missing: hide the forged record in the key of a DELETE. */
  lemma ForgeFar(t: Bytes, j: nat, x: byte) returns (ops: seq<Op>)
    requires Pending(t, j) && 9 <= j <= MAX_RECORD - 10
    ensures Forges(t, ops, x)
  {
    var r := EncodeRecord(Probe(x));
    var key := Zeros(j - 9) + r;
    var op := Delete(key);
    DeleteRecordFrom(key);
    ForgedDecodes([], x);
    assert [] + r == r && key[j - 9..] == r;
    ProbeBytes(x);
    assert Fits(op);
    hide EncodeRecord, EncodeAll, DecodeOps, Pending, Fits, Zeros;
    assert EncodeRecord(op)[j..] == EncodeRecord(op)[9..][j - 9..];
    ops := ForgeWith(t, j, op, x);
  }

  /** Five to eight bytes missing: the key size field and the key spell frames of their own. */
  lemma ForgeNear(t: Bytes, j: nat, x: byte) returns (ops: seq<Op>)
    requires Pending(t, j) && 5 <= j <= 8
    ensures Forges(t, ops, x)
  {
    var r := EncodeRecord(Probe(x));
    if j == 5 {
      var op := Delete(EncodePayload(Probe(x)));
      DeleteRecordFrom(op.key);
      ForgedDecodes([], x);
      assert [] + r == r;
      ops := ForgeWith(t, j, op, x);
    } else {
      var key := Zeros(j - 5) + r;
      NearRecord(key, j, x);
      ForgedDecodes([0, 0, 0, 0], x);
      hide EncodeRecord, EncodeAll, DecodeOps, Pending, Fits;
      ops := ForgeWith(t, j, Delete(key), x);
    }
  }

  lemma NearRecord(key: Bytes, j: nat, x: byte)
    requires 6 <= j <= 8 && key == Zeros(j - 5) + EncodeRecord(Probe(x))
    ensures EncodeRecord(Delete(key))[j..] == [0, 0, 0, 0] + EncodeRecord(Probe(x))
    ensures Fits(Delete(key)) && j <= RecordLength(Delete(key))
  {
    ProbeBytes(x);
    DeleteRecordFrom(key);
    SmallEncoding(|key|);
    assert Zeros(j - 5) == seq(j - 5, _ => 0);
    hide EncodeRecord, Encode, Zeros;
    NearBytes(EncodeRecord(Delete(key)), Encode(|key|, 4), Zeros(j - 5), EncodeRecord(Probe(x)), j - 5);
  }

  lemma NearBytes(record: Bytes, size: Bytes, z: Bytes, r: Bytes, i: nat)
    requires |record| >= 9 && record[5..] == size + (z + r)
    requires 1 <= i <= 3 && |size| == 4 && size[1..] == [0, 0, 0] && z == seq(i, _ => 0)
    ensures record[5 + i..] == [0, 0, 0, 0] + r
  {
    assert record[5 + i..] == record[5..][i..];
    DropPrefix(size, z + r, i);
    Associates(size[i..], z, r);
    assert size[i..] == size[1..][i - 1..];
    assert size[i..] + z == [0, 0, 0, 0];
  }

  /** One to four bytes missing: the shortest record completes the frame, and what is left of it
      opens another with far more missing. */
  lemma AfterShortest(j: nat) returns (s: Bytes, j': nat)
    requires 1 <= j <= 4
    ensures s == EncodeRecord(Delete([]))[j..] && Pending(s, j')
    ensures if j == 4 then j' == 1 else 9 <= j' <= MAX_RECORD - 10
  {
    SmallEncoding(0);
    SmallEncoding(5);
    var r := EncodeRecord(Delete([]));
    assert r == [5, 0, 0, 0, 2, 0, 0, 0, 0];
    s := r[j..];
    DecodeFour(s[..4]);
    j' := 4 + Decode(s[..4]) - |s|;
  }

  /** Prepends the shortest record to a forgery that works on what that record leaves. */
  lemma ForgeAfterShortest(t: Bytes, j: nat, s: Bytes, rest: seq<Op>, x: byte) returns (ops: seq<Op>)
    requires Pending(t, j) && j <= 9 && s == EncodeRecord(Delete([]))[j..] && Forges(s, rest, x)
    ensures Forges(t, ops, x)
  {
    hide EncodeRecord, EncodeAll, DecodeOps, Pending, Fits;
    var r, e := EncodeRecord(Delete([])), EncodeAll(rest);
    SmallestRecord();
    ops := [Delete([])] + rest;
    EncodeAllCons(Delete([]), rest);
    DropPrefix(r, e, j);
    DecodesAfterPending(t, j, r + e);
  }

  lemma ForgeSmall(t: Bytes, j: nat, x: byte) returns (ops: seq<Op>)
    requires Pending(t, j) && 1 <= j <= 4
    ensures Forges(t, ops, x)
    decreases j == 4
  {
    hide EncodeRecord, EncodeAll, DecodeOps, Pending, Fits, Forges;
    var s, j' := AfterShortest(j);
    var rest;
    if j == 4 {
      rest := ForgeSmall(s, j', x);
    } else {
      rest := ForgeFar(s, j', x);
    }
    ops := ForgeAfterShortest(t, j, s, rest, x);
  }

  /** Prepends a record that the pending frame swallows whole. */
  lemma ForgeAfterFiller(t: Bytes, filler: Op, rest: seq<Op>, x: byte) returns (ops: seq<Op>)
    requires Fits(filler) && filler.Delete? && Forges(t + EncodeRecord(filler), rest, x)
    ensures Forges(t, ops, x)
  {
    hide EncodeRecord, EncodeAll, DecodeOps, Fits;
    ops := [filler] + rest;
    EncodeAllCons(filler, rest);
    DecodePrefixMonotone(t, EncodeRecord(filler));
    Associates(t, EncodeRecord(filler), EncodeAll(rest));
  }

  lemma ForgePending(t: Bytes, j: nat, x: byte) returns (ops: seq<Op>)
    requires Pending(t, j)
    ensures Forges(t, ops, x)
  {
    if j <= 4 {
      ops := ForgeSmall(t, j, x);
    } else if j <= 8 {
      ops := ForgeNear(t, j, x);
    } else if j <= MAX_RECORD - 10 {
      ops := ForgeFar(t, j, x);
    } else {
      var filler := Delete([0]);
      assert Fits(filler) && RecordLength(filler) == 10;
      StillPending(t, j, EncodeRecord(filler));
      var rest := ForgeFar(t + EncodeRecord(filler), j - 10, x);
      ops := ForgeAfterFiller(t, filler, rest, x);
    }
  }

  /** One to three bytes of a length field: the next record's own length completes it. */
  lemma ForgeShort(t: Bytes, x: byte) returns (ops: seq<Op>)
    requires 1 <= |t| <= 3
    ensures Forges(t, ops, x)
  {
    var filler, j := ShortFiller(t);
    var rest := ForgePending(t + EncodeRecord(filler), j, x);
    ops := ForgeAfterFiller(t, filler, rest, x);
  }

  lemma ShortFiller(t: Bytes) returns (filler: Op, j: nat)
    requires 1 <= |t| <= 3
    ensures Fits(filler) && filler.Delete? && Pending(t + EncodeRecord(filler), j)
  {
    filler := Delete(if |t| == 3 then Zeros(252) else []);
    var n := PayloadLength(filler);
    assert n == if |t| == 3 then 257 else 5;
    var r, length := EncodeRecord(filler), Encode(n, 4);
    SmallLengths();
    assert length == if |t| == 3 then [1, 1, 0, 0] else [5, 0, 0, 0];
    assert Fits(filler) && r[..4] == length && |r| == 4 + n;
    hide EncodeRecord, Encode;
    j := ShortPending(t, r, n);
  }

  lemma SmallLengths()
    ensures Encode(5, 4) == [5, 0, 0, 0] && Encode(257, 4) == [1, 1, 0, 0]
  {
    SmallEncoding(5);
    assert Encode(1, 3) == [1, 0, 0];
  }

  lemma ShortPending(t: Bytes, r: Bytes, n: nat) returns (j: nat)
    requires 1 <= |t| <= 3 && |r| == 4 + n
    requires if |t| == 3 then n == 257 && r[..4] == [1, 1, 0, 0] else n == 5 && r[..4] == [5, 0, 0, 0]
    ensures Pending(t + r, j)
  {
    var w := t + r;
    assert forall i | 0 <= i < 4 :: r[i] == r[..4][i];
    DecodeFour(w[..4]);
    j := 4 + Decode(w[..4]) - |w|;
  }

  // ---------- Every log that is not immune ----------

  lemma {:induction false} ForgeLog(w: Bytes, x: byte) returns (ops: seq<Op>)
    requires !Immune(w)
    ensures Forges(w, ops, x)
    decreases |w|
  {
    if StartsFrame(w) {
      ops := ForgeLog(AfterFirst(w), x);
      FrameExtends(w, EncodeAll(ops));
    } else if |w| >= 4 {
      ops := ForgePending(w, 4 + Decode(w[..4]) - |w|, x);
    } else {
      ops := ForgeShort(w, x);
    }
  }

  /** A frame that opens with a zero byte does not decode, so completing it leaves the rest. */
  lemma ZeroFrame(j: nat, e: Bytes)
    requires 0 < j < MAX_RECORD
    ensures var t := Encode(1 + j, 4) + [0];
      Pending(t, j) && (DecodeOps(t + e) != [] ==> j <= |e| && DecodeOps(t + e) == DecodeOps(e[j..]))
  {
    var t := Encode(1 + j, 4) + [0];
    var w := t + e;
    U32RoundTrip(1 + j);
    assert t[..4] == w[..4] == Encode(1 + j, 4);
    if StartsFrame(w) {
      assert AfterFirst(w) == e[j..] && FirstPayload(w)[0] == 0;
    }
  }

  /** A reader `j` bytes past the end starts in the middle of what is appended. */
  lemma {:induction false} ForgePast(j: nat, x: byte) returns (ops: seq<Op>)
    requires j > 0
    ensures AcceptedDeletes(ops) && j <= |EncodeAll(ops)| && LastIs(DecodeOps(EncodeAll(ops)[j..]), Probe(x))
  {
    hide Encode, EncodeRecord, EncodeAll, DecodeOps, Pending, Fits;
    if j < MAX_RECORD {
      ZeroFrame(j, []);
      ops := ForgePending(Encode(1 + j, 4) + [0], j, x);
      ZeroFrame(j, EncodeAll(ops));
    } else {
      var rest := ForgePast(j - 9, x);
      ops := [Delete([])] + rest;
      SmallestRecord();
      EncodeAllCons(Delete([]), rest);
      DropAcross(EncodeRecord(Delete([])), EncodeAll(rest), j);
    }
  }

  lemma DropAcross(a: Bytes, b: Bytes, j: nat)
    requires |a| <= j <= |a| + |b|
    ensures (a + b)[j..] == b[j - |a|..]
  {
  }

  ghost predicate ForgesFrom(w: Bytes, offset: nat, ops: seq<Op>, x: byte) {
    && AcceptedDeletes(ops)
    && var after := DecodeOps(Tail(w + EncodeAll(ops), offset));
       |DecodeOps(Tail(w, offset))| < |after| && LastIs(after, Probe(x))
  }

  lemma ForgeTail(w: Bytes, offset: nat, x: byte) returns (ops: seq<Op>)
    requires !(offset <= |w| && Immune(Tail(w, offset)))
    ensures ForgesFrom(w, offset, ops, x)
  {
    hide DecodeOps, EncodeAll, AcceptedDeletes;
    if offset <= |w| {
      ops := ForgeLog(Tail(w, offset), x);
      TailOfAppend(w, EncodeAll(ops), offset);
    } else {
      var j := offset - |w|;
      ops := ForgePast(j, x);
      assert Tail(w + EncodeAll(ops), offset) == EncodeAll(ops)[j..];
      NothingInNothing();
    }
  }

  lemma NothingInNothing()
    ensures DecodeOps([]) == []
  {
  }

  /** Whatever is appended, replay from `offset` finds no operation that nobody wrote. */
  ghost predicate NothingForged(w: Bytes, offset: nat) {
    forall ops | AllFit(ops) :: OnlyWritten(w, offset, ops)
  }

  /** Replay from a checkpoint can be made to find an operation nobody wrote, by appending accepted
      ones, except in two cases: the log past the checkpoint is whole frames, or what follows its last
      whole frame begins with an impossible length. */
  lemma NothingForgedIffImmune(w: Bytes, offset: nat)
    ensures NothingForged(w, offset) <==> offset <= |w| && Immune(Tail(w, offset))
  {
    hide Immune, AllFit, DecodeOps, EncodeAll, Tail;
    if offset <= |w| && Immune(Tail(w, offset)) {
      forall ops | AllFit(ops) ensures OnlyWritten(w, offset, ops) {
        ImmuneLogs(w, offset, ops);
      }
    } else {
      var ops := ForgeTail(w, offset, 0);
      ForgeryIsNotWritten(w, offset, ops, 0);
    }
  }

  lemma ForgeryIsNotWritten(w: Bytes, offset: nat, ops: seq<Op>, x: byte)
    requires ForgesFrom(w, offset, ops, x)
    ensures AllFit(ops) && !OnlyWritten(w, offset, ops)
  {
    hide DecodeOps, EncodeAll, Tail, Fits;
    var before, after := DecodeOps(Tail(w, offset)), DecodeOps(Tail(w + EncodeAll(ops), offset));
    if before <= after {
      assert after[|before|..][|after| - 1 - |before|] == Probe(x);
      assert Probe(x) !in ops;
    }
  }

  // ---------- The same on the files ----------

  /** The value `key` has between the two maps is explained by `ops`: it is the same, or what one of
      them gives it. */
  ghost predicate Explained(before: Map, after: Map, ops: seq<Op>, key: Bytes) {
    || Lookup(after, key) == Lookup(before, key)
    || exists op :: op in ops && op.key == key && Lookup(after, key) == Effect(op)
  }

  /** Once `ops` are logged, the next recovery differs only as they say. */
  ghost predicate RecoversWritten(d: Disk, ops: seq<Op>)
    requires Recover(d).Ok?
  {
    var after := Recover(d.(wal := d.wal + EncodeAll(ops)));
    after.Ok? && forall key :: Explained(Recover(d).value.0, after.value.0, ops, key)
  }

  ghost predicate RecoveryForgesNothing(d: Disk)
    requires Recover(d).Ok?
  {
    forall ops | AllFit(ops) :: RecoversWritten(d, ops)
  }

  lemma {:induction false} LastOnIsOneOf(ops: seq<Op>, key: Bytes)
    ensures var last := LastOn(ops, key); last.Some? ==> last.value in ops && last.value.key == key
  {
    if ops == [] {
    } else {
      LastOnIsOneOf(ops[..|ops| - 1], key);
    }
  }

  lemma AddedExplains(base: Map, before: seq<Op>, after: seq<Op>, ops: seq<Op>, key: Bytes)
    requires before <= after && forall op :: op in after[|before|..] ==> op in ops
    ensures Explained(ApplyOps(base, before), ApplyOps(base, after), ops, key)
  {
    var added := after[|before|..];
    assert after == before + added;
    ApplyConcat(base, before, added);
    LastWriterWins(ApplyOps(base, before), added, key);
    LastOnIsOneOf(added, key);
  }

  lemma LastApplied(m: Map, ops: seq<Op>, x: byte)
    requires LastIs(ops, Probe(x))
    ensures Lookup(ApplyOps(m, ops), []) == Some([x])
  {
    var n := |ops| - 1;
    assert ops == ops[..n] + [ops[n]];
    ApplySnoc(m, ops[..n], ops[n]);
  }

  lemma RecoverAppended(d: Disk, s: Bytes)
    requires Recover(d).Ok?
    ensures var (base, offset) := Checkpoint(d.snapshot).value;
      Recover(d.(wal := d.wal + s)) == Ok(ReplayBytes(Tail(d.wal + s, offset), base))
      && Recover(d) == Ok(ReplayBytes(Tail(d.wal, offset), base))
  {
    RecoverFromCheckpoint(d);
    RecoverFromCheckpoint(d.(wal := d.wal + s));
  }

  lemma ImmuneFilesForgeNothing(d: Disk)
    requires Recover(d).Ok?
    requires var offset := Checkpoint(d.snapshot).value.1; offset <= |d.wal| && Immune(Tail(d.wal, offset))
    ensures RecoveryForgesNothing(d)
  {
    var (base, offset) := Checkpoint(d.snapshot).value;
    hide Checkpoint, Recover, Immune, Explained, DecodeOps, EncodeAll, Tail, AllFit, ApplyOps;
    var before := DecodeOps(Tail(d.wal, offset));
    forall ops | AllFit(ops) ensures RecoversWritten(d, ops) {
      RecoverAppended(d, EncodeAll(ops));
      ImmuneLogs(d.wal, offset, ops);
      forall key {
        AddedExplains(base, before, DecodeOps(Tail(d.wal + EncodeAll(ops), offset)), ops, key);
      }
    }
  }

  lemma OtherFilesForge(d: Disk)
    requires Recover(d).Ok?
    requires var offset := Checkpoint(d.snapshot).value.1; !(offset <= |d.wal| && Immune(Tail(d.wal, offset)))
    ensures !RecoveryForgesNothing(d)
  {
    var (base, offset) := Checkpoint(d.snapshot).value;
    hide Checkpoint, Recover, Immune, DecodeOps, EncodeAll, Tail, ApplyOps, Fits;
    var x: byte := if Lookup(Recover(d).value.0, []) == Some([0]) then 1 else 0;
    var ops := ForgeTail(d.wal, offset, x);
    var e := EncodeAll(ops);
    RecoverAppended(d, e);
    LastApplied(base, DecodeOps(Tail(d.wal + e, offset)), x);
    assert AllFit(ops);
    assert !Explained(Recover(d).value.0, Recover(d.(wal := d.wal + e)).value.0, ops, []);
  }

  /** Over all files that recover: nothing that recovery returns after more writes is anybody's
      invention exactly when the checkpoint is within the WAL and what follows it is immune. */
  lemma RecoveryForgesNothingIff(d: Disk)
    requires Recover(d).Ok?
    ensures var offset := Checkpoint(d.snapshot).value.1;
      RecoveryForgesNothing(d) <==> offset <= |d.wal| && Immune(Tail(d.wal, offset))
  {
    var offset := Checkpoint(d.snapshot).value.1;
    hide Recover, Checkpoint, Immune, RecoveryForgesNothing;
    if offset <= |d.wal| && Immune(Tail(d.wal, offset)) {
      ImmuneFilesForgeNothing(d);
    } else {
      OtherFilesForge(d);
    }
  }
}
