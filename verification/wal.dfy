/** The write-ahead log: framed appends and the replay loop. */
module Wal {
  import opened BinaryIo
  import opened WalFormat
  import opened Replay
  import opened FileSystem

  method CheckedRecordLength(length: nat) returns (r: Result<nat>)
    ensures r == if length <= MAX_RECORD then Ok(length) else Err(RecordTooLarge)
  {
    if length > MAX_RECORD {
      return Err(RecordTooLarge);
    }
    return Ok(length);
  }

  /** Parses one framed payload with the bounded cursor and applies it to `store`. */
  method ApplyRecord(record: Bytes, store: Map) returns (applied: bool, store': Map)
    ensures applied <==> DecodePayload(record).Some?
    ensures applied ==> EncodePayload(DecodePayload(record).value) == record
    ensures store' == if applied then ApplyOp(store, DecodePayload(record).value) else store
  {
    hide EncodePayload, Encode, Limit;
    store' := store;
    if DecodePayload(record).Some? {
      EncodeOfDecode(record);
    }
    var offset, ok := 0, false;
    var code, keySize, key, valueSize, value;
    ok, offset, code := ConsumePrimitive(record, offset, 1);
    if !ok { return false, store; }
    assert code == record[0] as nat by { assert record[0..1][1..] == []; }
    hide Decode;
    ok, offset, keySize := ConsumePrimitive(record, offset, 4);
    if !ok { return false, store; }
    ok, offset, key := ConsumeBytes(record, offset, keySize);
    if !ok { return false, store; }

    if code == SET_CODE as nat {
      ok, offset, valueSize := ConsumePrimitive(record, offset, 4);
      if !ok { return false, store; }
      ok, offset, value := ConsumeBytes(record, offset, valueSize);
      if !ok || offset != |record| { return false, store; }
      assert record[offset - valueSize..] == value;
      return true, store[key := value];
    }
    if code == DELETE_CODE as nat {
      if offset != |record| { return false, store; }
      return true, store - {key};
    }
    return false, store;
  }

  lemma Regroup(a: Bytes, b: Bytes, c: Bytes, d: Bytes, e: Bytes, f: Bytes)
    ensures a + b + c + d + e + f == a + (b + c + d + e + f)
    ensures a + b + c + d == a + (b + c + d)
  {
  }

  /** The start every record shares, in the pieces it is written in. */
  ghost function Keyed(length: nat, code: byte, keySize: nat, key: Bytes): (start: Bytes)
    ensures |start| == 9 + |key|
  {
    [] + Encode(length, 4) + [code] + Encode(keySize, 4) + key
  }

  /** The pieces the two append methods write, in order, spell the record. */
  lemma RecordLayout(op: Op)
    ensures EncodeRecord(op) ==
            match op
            case Set(key, value) => Keyed(PayloadLength(op), SET_CODE, |key|, key) + Encode(|value|, 4) + value
            case Delete(key) => Keyed(PayloadLength(op), DELETE_CODE, |key|, key)
  {
    var start, keySize := Encode(PayloadLength(op), 4), Encode(|op.key|, 4);
    assert [] + start == start;
    match op
    case Set(key, value) => Regroup(start, [SET_CODE], keySize, key, Encode(|value|, 4), value);
    case Delete(key) => Regroup(start, [DELETE_CODE], keySize, key, [], []);
  }

  /** Reads one framed payload, within the cap, or reports that replay must stop here. */
  method ReadFrame(input: InputStream) returns (r: Option<Bytes>)
    requires input.good
    modifies input
    ensures r.Some? <==> StartsFrame(old(input.Rest()))
    ensures r.Some? ==> input.good && r.value == FirstPayload(old(input.Rest()))
    ensures r.Some? ==> input.Rest() == AfterFirst(old(input.Rest()))
  {
    ghost var rest := input.Rest();
    var ok, length := input.ReadPrimitive(4);
    if !ok {
      return None;
    }
    if length > MAX_RECORD {
      return None;
    }
    var record;
    ok, record := input.Read(length);
    if !ok {
      return None;
    }
    assert rest[4..][length..] == rest[4 + length..];
    return Some(record);
  }

  /** What one turn of the replay loop leaves to do. */
  lemma ReplayStep(store: Map, w: Bytes)
    ensures if !StartsFrame(w) then DecodeOps(w) == []
      else match DecodePayload(FirstPayload(w))
        case Some(op) =>
          && ApplyOps(store, DecodeOps(w)) == ApplyOps(ApplyOp(store, op), DecodeOps(AfterFirst(w)))
          && |DecodeOps(w)| == 1 + |DecodeOps(AfterFirst(w))|
        case None => DecodeOps(w) == DecodeOps(AfterFirst(w))
    ensures ApplyOps(store, []) == store
  {
    hide StartsFrame, FirstPayload, AfterFirst, DecodePayload;
    if StartsFrame(w) && DecodePayload(FirstPayload(w)).Some? {
      ApplyConcat(store, [DecodePayload(FirstPayload(w)).value], DecodeOps(AfterFirst(w)));
      ApplyOne(store, DecodePayload(FirstPayload(w)).value);
    }
  }

  /** A record the log accepts must leave the file within the largest stream position. */
  predicate HasRoom(log: Bytes, op: Op) {
    Fits(op) ==> |log| + RecordLength(op) <= MAX_POSITION
  }

  /** The device has room for the whole record after the log. */
  predicate FitsDevice(room: Option<nat>, log: Bytes, op: Op) {
    room.None? || |log| + RecordLength(op) <= room.value
  }

  /** Where the operating system fails a request for the log's length. */
  datatype OffsetIo = OffsetIo(flushes: bool, seeks: bool, tells: bool) {
    predicate Healthy() {
      flushes && seeks && tells
    }
  }

  /** Where the operating system fails emptying the log: opening it for truncation, flushing the empty
      file, opening it again for appending. */
  datatype TruncateIo = TruncateIo(opens: bool, flushes: bool, reopens: bool) {
    predicate Healthy() {
      opens && flushes && reopens
    }
  }

  class WriteAheadLog {
    const fs: FileSystem
    /** The append stream is open and has not failed. A failed stream stays failed until the log is
        cleared. */
    var good: bool

    constructor (fs: FileSystem)
      ensures this.fs == fs && good
    {
      this.fs := fs;
      good := true;
    }

    /** `done` has been appended since disk state `d0`, and nothing but its prefixes was on disk
        since the trail was `trail0`. */
    ghost predicate Written(d0: Disk, trail0: iset<Disk>, done: Bytes)
      reads fs
    {
      fs.Current() == d0.(wal := d0.wal + done) && Torn(d0, trail0, done)
    }

    /** Some prefix of `record` has been appended since disk state `d0`, and nothing else. */
    ghost predicate Torn(d0: Disk, trail0: iset<Disk>, record: Bytes)
      reads fs
    {
      && fs.Valid()
      && TornAppend(d0, record, fs.Current())
      && forall d :: d in fs.trail ==> d in trail0 || TornAppend(d0, record, d)
    }

    lemma TornLonger(d0: Disk, trail0: iset<Disk>, done: Bytes, record: Bytes)
      requires Torn(d0, trail0, done) && done <= record
      ensures Torn(d0, trail0, record)
    {
      var rest := record[|done|..];
      assert record == done + rest;
      hide TornAppend;
      forall d | TornAppend(d0, done, d) ensures TornAppend(d0, record, d) {
        TornAppendCompose(d0, done, rest, d);
      }
    }

    lemma NothingWritten()
      requires fs.Valid()
      ensures Written(fs.Current(), fs.trail, [])
    {
      var d := fs.Current();
      assert d.wal + [][..0] == d.wal + [] == d.wal;
    }

    /** Writes one piece of a record, or part of it. */
    method WritePiece(bytes: Bytes, room: Option<nat>, ghost d0: Disk, ghost trail0: iset<Disk>, ghost done: Bytes)
      returns (ok: bool, ghost all: Bytes)
      requires Written(d0, trail0, done) && |fs.wal| + |bytes| <= MAX_POSITION
      modifies fs
      ensures all == done + bytes && (ok <==> room.None? || old(|fs.wal|) + |bytes| <= room.value)
      ensures if ok then Written(d0, trail0, all) && |fs.wal| == old(|fs.wal|) + |bytes| else Torn(d0, trail0, all)
    {
      all := done + bytes;
      ok := fs.AppendWal(bytes, room);
      assert d0.wal + done + bytes == d0.wal + (done + bytes);
      hide TornAppend;
      forall d ensures TornAppend(d0, done, d) || TornAppend(old(fs.Current()), bytes, d) ==> TornAppend(d0, all, d) {
        TornAppendCompose(d0, done, bytes, d);
      }
    }

    /** Writes that start: length, operation code and key. */
    method WriteKeyed(length: nat, code: byte, keySize: nat, key: Bytes, room: Option<nat>,
                      ghost d0: Disk, ghost trail0: iset<Disk>)
      returns (ok: bool, ghost done: Bytes)
      requires fs.Valid() && fs.Current() == d0 && fs.trail == trail0
      requires |fs.wal| + 9 + |key| <= MAX_POSITION
      modifies fs
      ensures ok <==> room.None? || old(|fs.wal|) + 9 + |key| <= room.value
      ensures if ok then
          && done == Keyed(length, code, keySize, key)
          && Written(d0, trail0, done) && |fs.wal| == old(|fs.wal|) + 9 + |key|
        else
          && done <= Keyed(length, code, keySize, key)
          && Torn(d0, trail0, done)
    {
      NothingWritten();
      hide Encode, TornAppend, Written, Torn;
      ok, done := WritePiece(Encode(length, 4), room, d0, trail0, []);
      if !ok { return; }
      ok, done := WritePiece([code], room, d0, trail0, done);
      if !ok { return; }
      ok, done := WritePiece(Encode(keySize, 4), room, d0, trail0, done);
      if !ok { return; }
      ok, done := WritePiece(key, room, d0, trail0, done);
    }

    /** Writes a whole SET record: that start, then the value and its size. */
    method WriteSet(length: nat, keySize: nat, key: Bytes, valueSize: nat, value: Bytes, room: Option<nat>,
                    ghost d0: Disk, ghost trail0: iset<Disk>)
      returns (ok: bool, ghost done: Bytes)
      requires fs.Valid() && fs.Current() == d0 && fs.trail == trail0
      requires |fs.wal| + 13 + |key| + |value| <= MAX_POSITION
      modifies fs
      ensures ok <==> room.None? || old(|fs.wal|) + 13 + |key| + |value| <= room.value
      ensures if ok then
          && done == Keyed(length, SET_CODE, keySize, key) + Encode(valueSize, 4) + value
          && Written(d0, trail0, done)
        else
          && done <= Keyed(length, SET_CODE, keySize, key) + Encode(valueSize, 4) + value
          && Torn(d0, trail0, done)
    {
      hide Encode, Keyed, TornAppend, Written, Torn;
      ok, done := WriteKeyed(length, SET_CODE, keySize, key, room, d0, trail0);
      if !ok { return; }
      ok, done := WritePiece(Encode(valueSize, 4), room, d0, trail0, done);
      if !ok { return; }
      ok, done := WritePiece(value, room, d0, trail0, done);
    }

    /** What an append may do. An oversized record, or any record once the stream has failed, is
        refused before writing. Otherwise the log grows by the whole encoding, or by a prefix of it if
        the device fails, and the stream with it; on the way only its prefixes are ever on disk. */
    ghost predicate AppendOutcome(op: Op, wasGood: bool, d0: Disk, trail0: iset<Disk>, r: Result<()>)
      reads this, fs
    {
      && fs.Valid()
      && if !Fits(op) || !wasGood then
           r.Err? && fs.Current() == d0 && fs.trail == trail0 && good == wasGood
         else
           && (r.Ok? ==> fs.Current() == d0.(wal := d0.wal + EncodeRecord(op)))
           && (r.Err? ==> TornAppend(d0, EncodeRecord(op), fs.Current()))
           && (good <==> r.Ok?)
           && forall d :: d in fs.trail ==> d in trail0 || TornAppend(d0, EncodeRecord(op), d)
    }

    lemma PiecesDone(op: Op, d0: Disk, trail0: iset<Disk>, done: Bytes, r: Result<()>)
      requires Fits(op) && done <= EncodeRecord(op) && (r.Ok? <==> good)
      requires if good then done == EncodeRecord(op) && Written(d0, trail0, done) else Torn(d0, trail0, done)
      ensures AppendOutcome(op, true, d0, trail0, r)
    {
      hide EncodeRecord, Fits, TornAppend;
      TornLonger(d0, trail0, done, EncodeRecord(op));
    }

    method AppendSet(key: Bytes, value: Bytes, room: Option<nat>) returns (r: Result<()>)
      requires fs.Valid() && HasRoom(fs.wal, Set(key, value))
      modifies this`good, fs
      ensures AppendOutcome(Set(key, value), old(good), old(fs.Current()), old(fs.trail), r)
      ensures r.Ok? <==> old(good) && Fits(Set(key, value)) && FitsDevice(room, old(fs.wal), Set(key, value))
    {
      RecordLayout(Set(key, value));
      assert Fits(Set(key, value)) <==> 9 + |key| + |value| <= MAX_RECORD;
      hide Fits, EncodePayload, EncodeRecord, Encode, Keyed, TornAppend;
      var keySize :- CheckedSize(key);
      var valueSize :- CheckedSize(value);
      var length :- CheckedRecordLength(1 + 4 + keySize + 4 + valueSize);
      if !good {
        return Err(WriteFailed);
      }
      ghost var d0, t0 := fs.Current(), fs.trail;
      hide Written, Torn;
      ghost var done;
      good, done := WriteSet(length, keySize, key, valueSize, value, room, d0, t0);
      r := if good then Ok(()) else Err(WriteFailed);
      PiecesDone(Set(key, value), d0, t0, done, r);
    }

    method AppendDelete(key: Bytes, room: Option<nat>) returns (r: Result<()>)
      requires fs.Valid() && HasRoom(fs.wal, Delete(key))
      modifies this`good, fs
      ensures AppendOutcome(Delete(key), old(good), old(fs.Current()), old(fs.trail), r)
      ensures r.Ok? <==> old(good) && Fits(Delete(key)) && FitsDevice(room, old(fs.wal), Delete(key))
    {
      RecordLayout(Delete(key));
      assert Fits(Delete(key)) <==> 5 + |key| <= MAX_RECORD;
      hide Fits, EncodePayload, EncodeRecord, Encode, Keyed, TornAppend;
      var keySize :- CheckedSize(key);
      var length :- CheckedRecordLength(1 + 4 + keySize);
      if !good {
        return Err(WriteFailed);
      }
      ghost var d0, t0 := fs.Current(), fs.trail;
      hide Written, Torn;
      ghost var done;
      good, done := WriteKeyed(length, DELETE_CODE, keySize, key, room, d0, t0);
      r := if good then Ok(()) else Err(WriteFailed);
      PiecesDone(Delete(key), d0, t0, done, r);
    }

    /** The length of the log, unless the stream has failed or fails now. */
    method CurrentOffset(io: OffsetIo) returns (r: Result<nat>)
      requires fs.Valid()
      modifies this`good
      ensures r.Ok? ==> r.value == |fs.wal| && r.value <= MAX_POSITION
      ensures r.Ok? <==> old(good) && io.Healthy()
      ensures good <==> old(good) && io.flushes && io.seeks
    {
      good := good && io.flushes;
      if !good {
        return Err(OffsetFailed);
      }
      good := io.seeks;
      if !good || !io.tells {
        return Err(OffsetFailed);
      }
      return Ok(|fs.wal|);
    }

    /** Empties the log, and makes a failed stream usable again. If the log cannot be emptied it stays
        as it is; either failure leaves the stream closed. */
    method Clear(io: TruncateIo) returns (r: Result<()>)
      requires fs.Valid()
      modifies this`good, fs
      ensures fs.Valid() && good == r.Ok? == io.Healthy()
      ensures fs.Current() == if io.opens then old(fs.Current()).(wal := []) else old(fs.Current())
      ensures forall d :: d in fs.trail ==> d in old(fs.trail) || d == fs.Current()
    {
      good := false;
      if !io.opens {
        return Err(OpenFailed);
      }
      fs.TruncateWal();
      if !io.flushes || !io.reopens {
        return Err(WriteFailed);
      }
      good := true;
      return Ok(());
    }

    /** Applies the valid records after `offset`. An offset past the end finds nothing; an offset
        no stream position can hold throws. */
    method ReplayFrom(offset: nat, store: Map) returns (r: Result<nat>, store': Map)
      ensures if offset <= MAX_POSITION
        then r.Ok? && (store', r.value) == ReplayBytes(Tail(fs.wal, offset), store)
        else r == Err(OffsetTooLarge) && store' == store
    {
      store' := store;
      if offset > MAX_POSITION {
        return Err(OffsetTooLarge), store;
      }
      var input := new InputStream(fs.wal, offset);
      var recovered := 0;
      ghost var all := DecodeOps(Tail(fs.wal, offset));
      hide StartsFrame, FirstPayload, AfterFirst, DecodePayload, DecodeOps, ApplyOps, ApplyOp;
      while true
        invariant input.good && fresh(input)
        invariant ApplyOps(store', DecodeOps(input.Rest())) == ApplyOps(store, all)
        invariant recovered + |DecodeOps(input.Rest())| == |all|
        decreases |input.Rest()|
      {
        ghost var rest := input.Rest();
        ReplayStep(store', rest);
        var frame := ReadFrame(input);
        if frame.None? {
          break;
        }
        var applied;
        applied, store' := ApplyRecord(frame.value, store');
        if applied {
          recovered := recovered + 1;
        }
      }
      return Ok(recovered), store';
    }
  }
}
