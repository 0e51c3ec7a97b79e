/** What a damaged log tail does to the records written after it: when they can be read back as
    operations nobody wrote, and when they cannot. */
module Damage {
  import opened BinaryIo
  import opened WalFormat
  import opened Replay
  import opened FileSystem
  import opened Recovery

  // ---------- A value nobody wrote ----------

  /** A SET record is everything before its value bytes, which depends on the value only through its
      length, and the value. */
  function SetHead(key: Bytes, length: nat): Bytes {
    Encode(9 + |key| + length, 4) + ([SET_CODE] + Encode(|key|, 4) + key + Encode(length, 4))
  }

  lemma SetIsHeadAndValue(key: Bytes, value: Bytes)
    ensures EncodeRecord(Set(key, value)) == SetHead(key, |value|) + value
    ensures |SetHead(key, |value|)| == RecordLength(Set(key, value)) - |value|
  {
    hide Encode;
  }

  /** Tear a SET just before its value, when the value is as long as the record of `op`, then log
      `op`: replay reads that record as the value. The key gets bytes nobody wrote, any earlier value
      of it is gone, and `op` itself has no effect. */
  lemma TornTailForgesValue(good: Bytes, key: Bytes, value: Bytes, op: Op)
    requires Framed(good) && Fits(Set(key, value)) && |value| == RecordLength(op)
    ensures var torn := EncodeRecord(Set(key, value))[..RecordLength(Set(key, value)) - |value|];
      DecodeOps((good + torn) + EncodeRecord(op)) == DecodeOps(good) + [Set(key, EncodeRecord(op))]
  {
    var r := EncodeRecord(op);
    var head := SetHead(key, |value|);
    SetIsHeadAndValue(key, value);
    SetIsHeadAndValue(key, r);
    var forged := Set(key, r);
    assert Fits(forged);
    hide EncodeRecord, SetHead, DecodeOps, Framed, Fits;
    assert EncodeRecord(Set(key, value))[..RecordLength(Set(key, value)) - |value|] == head;
    assert (good + head) + r == good + (head + r);
    RecordDecodes(forged);
    DecodeConcat(good, EncodeRecord(forged));
  }

  /** The same on the files: before the write recovery gives the old map, and after it a map with a
      value for `key` that no caller ever passed. */
  lemma ForgedValueRecovered(d: Disk, m: Map, tail: nat, key: Bytes, value: Bytes, op: Op)
    requires Durable(d, m, tail) && Fits(Set(key, value)) && |value| == RecordLength(op)
    ensures var torn := Appended(d, Set(key, value), RecordLength(Set(key, value)) - |value|);
      && Recover(torn) == Ok((m, tail))
      && Recover(torn.(wal := torn.wal + EncodeRecord(op))) == Ok((m[key := EncodeRecord(op)], tail + 1))
  {
    var r := EncodeRecord(op);
    var n := RecordLength(Set(key, value)) - |value|;
    var forged := Set(key, r);
    assert Fits(forged) && ApplyOp(m, forged) == m[key := r] && |value| > 0;
    hide EncodeRecord, SetHead, Fits, Durable, Recover, ApplyOp;
    SetIsHeadAndValue(key, value);
    SetIsHeadAndValue(key, r);
    var torn, head := Appended(d, Set(key, value), n), SetHead(key, |value|);
    assert EncodeRecord(Set(key, value))[..n] == head;
    Associates(d.wal, head, r);
    AppendedRecovers(d, m, tail, Set(key, value), n);
    WholeAppend(d, forged);
    AppendedRecovers(d, m, tail, forged, RecordLength(forged));
  }

  lemma WholeAppend(d: Disk, op: Op)
    ensures Appended(d, op, RecordLength(op)) == d.(wal := d.wal + EncodeRecord(op))
  {
    assert EncodeRecord(op)[..RecordLength(op)] == EncodeRecord(op);
  }

  /** On files in good order a write touches its own key only. */
  lemma WriteTouchesOneKey(d: Disk, m: Map, tail: nat, op: Op, key: Bytes)
    requires Durable(d, m, tail) && Fits(op) && key != op.key
    ensures var after := Recover(d.(wal := d.wal + EncodeRecord(op)));
      after.Ok? && Lookup(after.value.0, key) == Lookup(m, key)
  {
    hide EncodeRecord, Fits, Durable, Recover;
    WholeAppend(d, op);
    AppendedRecovers(d, m, tail, op, RecordLength(op));
  }

  // ---------- Exactly which logs are immune ----------

  predicate AllFit(ops: seq<Op>) {
    forall op :: op in ops ==> Fits(op)
  }

  /** What replay from `offset` finds after `ops` are appended to `w` is what it found before, then
      operations from among `ops`. */
  ghost predicate OnlyWritten(w: Bytes, offset: nat, ops: seq<Op>) {
    var before, after := DecodeOps(Tail(w, offset)), DecodeOps(Tail(w + EncodeAll(ops), offset));
    before <= after && forall op :: op in after[|before|..] ==> op in ops
  }

  /** The bytes left after the last whole frame, where decoding stops. */
  function Residue(w: Bytes): Bytes
    decreases |w|
  {
    if StartsFrame(w) then Residue(AfterFirst(w)) else w
  }

  /** A length field no record may have: decoding stops there whatever follows. */
  predicate Impossible(t: Bytes) {
    |t| >= 4 && Decode(t[..4]) > MAX_RECORD
  }

  /** Either whole frames, or cut off for good. */
  predicate Immune(w: Bytes) {
    Residue(w) == [] || Impossible(Residue(w))
  }

  lemma {:induction false} FramedIffNoResidue(w: Bytes)
    ensures Framed(w) <==> Residue(w) == []
    decreases |w|
  {
    if !StartsFrame(w) {
    } else {
      FramedIffNoResidue(AfterFirst(w));
    }
  }

  lemma {:induction false} CutOffForGood(w: Bytes, s: Bytes)
    requires Impossible(Residue(w))
    ensures DecodeOps(w + s) == DecodeOps(w)
    decreases |w|
  {
    if !StartsFrame(w) {
      assert (w + s)[..4] == w[..4];
    } else {
      FrameExtends(w, s);
      hide FirstPayload, AfterFirst, PayloadOps, StartsFrame;
      CutOffForGood(AfterFirst(w), s);
    }
  }

  lemma ImmuneLogs(w: Bytes, offset: nat, ops: seq<Op>)
    requires offset <= |w| && Immune(Tail(w, offset)) && AllFit(ops)
    ensures OnlyWritten(w, offset, ops)
  {
    var seen, e := Tail(w, offset), EncodeAll(ops);
    TailOfAppend(w, e, offset);
    hide DecodeOps, EncodeAll, Residue, Framed, Fits, Tail;
    if Residue(seen) == [] {
      FramedIffNoResidue(seen);
      DecodeConcat(seen, e);
      LogRoundTrip(ops);
    } else {
      CutOffForGood(seen, e);
    }
  }

  lemma {:induction false} ResidueConcat(w: Bytes, s: Bytes)
    requires Framed(w)
    ensures Residue(w + s) == Residue(s)
    decreases |w|
  {
    hide StartsFrame, FirstPayload, AfterFirst;
    if w == [] {
      assert w + s == s;
    } else {
      FrameExtends(w, s);
      ResidueConcat(AfterFirst(w), s);
    }
  }

  /** A record torn by a crash never leaves an immune log. */
  lemma TornRecordIsForgeable(w: Bytes, op: Op, k: nat)
    requires Framed(w) && Fits(op) && 0 < k < RecordLength(op)
    ensures !Immune(w + EncodeRecord(op)[..k])
  {
    var p := EncodePayload(op);
    var t := EncodeRecord(op)[..k];
    ResidueConcat(w, t);
    TornFrame(p, k);
    U32RoundTrip(|p|);
    assert k >= 4 ==> t[..4] == Encode(|p|, 4);
  }
}
