/** The snapshot file handle: save through a temp file and a rename, bounded load. */
module Snapshots {
  import opened BinaryIo
  import opened WalFormat
  import opened SnapshotFormat
  import opened FileSystem

  /** Where the operating system fails a save: opening the temp file, a full device, the rename. */
  datatype SaveIo = SaveIo(opens: bool, room: Option<nat>, renames: bool) {
    predicate Healthy() {
      opens && room.None? && renames
    }
  }

  /** Where the operating system fails a clear: removing the snapshot, removing the temp file. */
  datatype ClearIo = ClearIo(removesSnapshot: bool, removesTemp: bool)

  /** A disk a crash can leave while `m` is being saved over `d0`: the WAL is untouched and the
      committed snapshot is the old one or a complete new one. The temp file may hold anything. */
  ghost predicate SaveCrash(d0: Disk, m: Map, walOffset: nat, d: Disk) {
    && d.wal == d0.wal
    && (d.snapshot == d0.snapshot || (d.snapshot.Some? && IsImage(d.snapshot.value, m, walOffset)))
  }

  lemma {:induction false} EncodeEntriesSnoc(es: seq<Entry>, e: Entry)
    ensures EncodeEntries(es + [e]) == EncodeEntries(es) + EncodeEntry(e)
  {
    if es == [] {
      assert EncodeEntries([e]) == EncodeEntry(e) + EncodeEntries([]);
    } else {
      EncodeEntriesSnoc(es[1..], e);
      assert (es + [e])[1..] == es[1..] + [e];
    }
  }

  lemma AppendEntry(start: Bytes, es: seq<Entry>, e: Entry)
    ensures start + EncodeEntries(es) + EncodeEntry(e) == start + EncodeEntries(es + [e])
  {
    EncodeEntriesSnoc(es, e);
    hide EncodeEntries, EncodeEntry;
  }

  /** `es` lists, once each, the bindings of `store` that are no longer in `remaining`. */
  ghost predicate Listed(es: seq<Entry>, store: Map, remaining: Map) {
    && |es| + |remaining| == |store|
    && (forall k | k in remaining :: k in store && remaining[k] == store[k])
    && (forall k | k in store && k !in remaining :: |k| <= U32_MAX && |store[k]| <= U32_MAX)
    && (forall i | 0 <= i < |es| ::
          es[i].key in store && es[i].key !in remaining && store[es[i].key] == es[i].value)
    && (forall i, j | 0 <= i < j < |es| :: es[i].key != es[j].key)
  }

  lemma ListOne(es: seq<Entry>, store: Map, remaining: Map, e: Entry)
    requires Listed(es, store, remaining) && e.key in remaining && e.value == remaining[e.key]
    requires |e.key| <= U32_MAX && |e.value| <= U32_MAX
    ensures Listed(es + [e], store, remaining - {e.key})
  {
    assert (remaining - {e.key}).Keys == remaining.Keys - {e.key};
  }

  lemma AllListed(es: seq<Entry>, store: Map, remaining: Map)
    requires Listed(es, store, remaining)
    ensures remaining == map[] ==> Enumerates(es, store) && FieldsWithin(store, U32_MAX)
    ensures forall k | k in remaining :: k in store && remaining[k] == store[k]
  {
  }

  lemma FieldsOf(m: Map, limit: nat, k: Bytes)
    requires FieldsWithin(m, limit) && k in m
    ensures |k| <= limit && |m[k]| <= limit
  {
  }

  class Snapshot {
    const fs: FileSystem

    constructor (fs: FileSystem)
      ensures this.fs == fs
    {
      this.fs := fs;
    }

    ghost predicate Saving(d0: Disk, trail0: iset<Disk>)
      reads fs
    {
      && fs.Valid() && fs.temp.Some? && fs.wal == d0.wal && fs.snapshot == d0.snapshot
      && forall d :: d in fs.trail ==> d in trail0 || (d.wal == d0.wal && d.snapshot == d0.snapshot)
    }

    method WritePiece(bytes: Bytes, room: Option<nat>, ghost d0: Disk, ghost trail0: iset<Disk>)
      returns (r: Result<()>)
      requires Saving(d0, trail0)
      modifies fs
      ensures Saving(d0, trail0)
      ensures r.Ok? ==> fs.temp.value == old(fs.temp.value) + bytes
      ensures room.None? ==> r.Ok?
      ensures r.Err? ==> r == Err(WriteFailed)
    {
      var ok := fs.AppendTemp(bytes, room);
      return if ok then Ok(()) else Err(WriteFailed);
    }

    method WriteHeader(walOffset: nat, count: nat, room: Option<nat>, ghost d0: Disk, ghost trail0: iset<Disk>)
      returns (r: Result<()>)
      requires Saving(d0, trail0) && fs.temp.value == []
      modifies fs
      ensures Saving(d0, trail0)
      ensures r.Ok? ==> fs.temp.value == Header(walOffset, count)
      ensures room.None? ==> r.Ok?
    {
      var _ :- WritePiece(Encode(MAGIC, 4), room, d0, trail0);
      var _ :- WritePiece(Encode(VERSION, 4), room, d0, trail0);
      var _ :- WritePiece(Encode(walOffset, 8), room, d0, trail0);
      var _ :- WritePiece(Encode(count, 4), room, d0, trail0);
      return Ok(());
    }

    method WriteField(x: Bytes, size: nat, room: Option<nat>, ghost d0: Disk, ghost trail0: iset<Disk>)
      returns (r: Result<()>)
      requires Saving(d0, trail0) && size == |x|
      modifies fs
      ensures Saving(d0, trail0)
      ensures r.Ok? ==> fs.temp.value == old(fs.temp.value) + EncodeField(x)
      ensures room.None? ==> r.Ok?
    {
      var _ :- WritePiece(Encode(size, 4), room, d0, trail0);
      var _ :- WritePiece(x, room, d0, trail0);
      return Ok(());
    }

    method WriteEntry(e: Entry, room: Option<nat>, ghost d0: Disk, ghost trail0: iset<Disk>)
      returns (r: Result<()>)
      requires Saving(d0, trail0)
      modifies fs
      ensures Saving(d0, trail0)
      ensures r.Ok? ==> fs.temp.value == old(fs.temp.value) + EncodeEntry(e)
      ensures r.Ok? ==> |e.key| <= U32_MAX && |e.value| <= U32_MAX
      ensures room.None? && |e.key| <= U32_MAX && |e.value| <= U32_MAX ==> r.Ok?
    {
      var keySize :- CheckedSize(e.key);
      var valueSize :- CheckedSize(e.value);
      ghost var start := fs.temp.value;
      var _ :- WriteField(e.key, keySize, room, d0, trail0);
      var _ :- WriteField(e.value, valueSize, room, d0, trail0);
      assert fs.temp.value == start + EncodeEntry(e);
      return Ok(());
    }

    /** Writes every binding once, in whatever order the map yields them. */
    method WriteEntries(store: Map, room: Option<nat>, ghost d0: Disk, ghost trail0: iset<Disk>)
      returns (r: Result<()>, ghost es: seq<Entry>)
      requires Saving(d0, trail0)
      modifies fs
      ensures Saving(d0, trail0)
      ensures r.Ok? ==> Enumerates(es, store) && fs.temp.value == old(fs.temp.value) + EncodeEntries(es)
      ensures r.Ok? ==> FieldsWithin(store, U32_MAX)
      ensures room.None? && FieldsWithin(store, U32_MAX) ==> r.Ok?
    {
      var remaining := store;
      es := [];
      ghost var start := fs.temp.value;
      assert fs.temp.value == start + EncodeEntries(es);
      assert Listed(es, store, remaining);
      hide Listed, FieldsWithin, Enumerates, EncodeEntry, EncodeEntries;
      while remaining != map[]
        invariant Saving(d0, trail0) && fs.temp.Some?
        invariant Listed(es, store, remaining)
        invariant fs.temp.value == start + EncodeEntries(es)
        decreases |remaining|
      {
        var key :| key in remaining;
        var e := Entry(key, remaining[key]);
        AllListed(es, store, remaining);
        if FieldsWithin(store, U32_MAX) {
          FieldsOf(store, U32_MAX, key);
        }
        r := WriteEntry(e, room, d0, trail0);
        if r.Err? {
          return;
        }
        AppendEntry(start, es, e);
        ListOne(es, store, remaining, e);
        remaining := remaining - {key};
        es := es + [e];
      }
      AllListed(es, store, remaining);
      r := Ok(());
    }

    /** Replaces the committed snapshot by a complete image of `store`, or leaves it alone; no
        intermediate disk state holds anything else. */
    method Save(store: Map, walOffset: nat, io: SaveIo) returns (r: Result<()>)
      requires fs.Valid()
      modifies fs
      ensures fs.Valid() && fs.wal == old(fs.wal)
      ensures r.Ok? ==> fs.snapshot.Some? && IsImage(fs.snapshot.value, store, walOffset) && fs.temp == None
      ensures r.Err? ==> fs.snapshot == old(fs.snapshot)
      ensures r.Ok? ==> FieldsWithin(store, U32_MAX)
      ensures io.Healthy() && |store| <= U32_MAX && FieldsWithin(store, U32_MAX) ==> r.Ok?
      ensures forall d :: d in fs.trail ==> d in old(fs.trail) || SaveCrash(old(fs.Current()), store, walOffset, d)
    {
      if |store| > U32_MAX {
        return Err(TooManyEntries);
      }
      if !io.opens {
        return Err(OpenFailed);
      }
      ghost var d0, trail0 := fs.Current(), fs.trail;
      fs.TruncateTemp();
      var _ :- WriteHeader(walOffset, |store|, io.room, d0, trail0);

      ghost var es;
      r, es := WriteEntries(store, io.room, d0, trail0);
      if r.Err? {
        return;
      }
      if !io.renames {
        return Err(RenameFailed);
      }
      assert fs.temp.value == EncodeSnapshot(es, walOffset);
      fs.RenameTemp();
      return Ok(());
    }

    /** Removes the committed snapshot, then any abandoned temp file. A missing file counts as
        removed; a file that cannot be removed stays, and the other one is not tried after it. */
    method Clear(io: ClearIo) returns (r: Result<()>)
      requires fs.Valid()
      modifies fs
      ensures fs.Valid()
      ensures var hadSnapshot, hadTemp := old(fs.snapshot).Some?, old(fs.temp).Some?;
        if hadSnapshot && !io.removesSnapshot then r == Err(RemoveFailed) && fs.Current() == old(fs.Current())
        else if hadTemp && !io.removesTemp then
          r == Err(RemoveFailed) && fs.Current() == old(fs.Current()).(snapshot := None)
        else r.Ok? && fs.Current() == Disk(old(fs.wal), None, None)
      ensures forall d :: d in fs.trail ==> d in old(fs.trail) || (d.wal == old(fs.wal) && d.snapshot == None)
    {
      if fs.snapshot.Some? {
        if !io.removesSnapshot {
          return Err(RemoveFailed);
        }
        fs.RemoveSnapshot();
      }
      if fs.temp.Some? {
        if !io.removesTemp {
          return Err(RemoveFailed);
        }
        fs.RemoveTemp();
      }
      return Ok(());
    }

    method ReadField(input: InputStream) returns (r: Result<Option<Bytes>>)
      requires input.good && input.pos <= |input.bytes|
      modifies input
      ensures match DecodeField(old(input.Rest()))
        case Field(x, rest) => r == Ok(Some(x)) && input.good && input.pos <= |input.bytes| && input.Rest() == rest
        case ShortField => r == Ok(None)
        case OversizedField => r == Err(SnapshotFieldTooLarge)
    {
      ghost var b := input.Rest();
      var ok, size := input.ReadPrimitive(4);
      if !ok { return Ok(None); }
      if size > MAX_FIELD { return Err(SnapshotFieldTooLarge); }
      var x;
      ok, x := input.Read(size);
      if !ok { return Ok(None); }
      assert b[4..][..size] == b[4..4 + size] && b[4..][size..] == b[4 + size..];
      return Ok(Some(x));
    }

    method ReadEntry(input: InputStream) returns (r: Result<Option<Entry>>)
      requires input.good && input.pos <= |input.bytes|
      modifies input
      ensures match DecodeEntry(old(input.Rest()))
        case ReadEntry(e, rest) =>
          r == Ok(Some(e)) && input.good && input.pos <= |input.bytes| && input.Rest() == rest
        case ShortEntry => r == Ok(None)
        case OversizedEntry => r == Err(SnapshotFieldTooLarge)
    {
      var key :- ReadField(input);
      if key.None? { return Ok(None); }
      var value :- ReadField(input);
      if value.None? { return Ok(None); }
      return Ok(Some(Entry(key.value, value.value)));
    }

    method ReadEntries(input: InputStream, entryCount: nat) returns (r: Result<Map>)
      requires input.good && input.pos <= |input.bytes|
      modifies input
      ensures r == DecodeEntries(old(input.Rest()), entryCount, map[])
    {
      hide DecodeEntry;
      var loaded: Map := map[];
      var counter := 0;
      while counter < entryCount
        invariant counter <= entryCount && input.good && input.pos <= |input.bytes|
        invariant DecodeEntries(input.Rest(), entryCount - counter, loaded)
               == DecodeEntries(old(input.Rest()), entryCount, map[])
      {
        var entry :- ReadEntry(input);
        if entry.None? {
          return Err(BadEntry);
        }
        loaded := loaded[entry.value.key := entry.value.value];
        counter := counter + 1;
      }
      return Ok(loaded);
    }

    /** Replaces `store` only after the whole file has been read and accepted. */
    method Load(store: Map) returns (r: Result<LoadResult>, store': Map)
      ensures match LoadFile(fs.snapshot)
        case NotLoaded => r == Ok(LoadResult(false, 0, 0)) && store' == store
        case Loaded(m, count, walOffset) => r == Ok(LoadResult(true, count, walOffset)) && store' == m
        case Failed(error) => r == Err(error) && store' == store
    {
      hide Decode, DecodeEntries;
      store' := store;
      if fs.snapshot.None? {
        return Ok(LoadResult(false, 0, 0)), store;
      }
      ghost var b := fs.snapshot.value;
      var input := new InputStream(fs.snapshot.value, 0);
      var walOffset, entryCount, version := 0, 0, 0;
      var ok, firstField := input.ReadPrimitive(4);
      if !ok {
        return Ok(LoadResult(false, 0, 0)), store;
      }
      if firstField == MAGIC {
        ok, version := input.ReadPrimitive(4);
        assert ok ==> b[4..][..4] == b[4..8] && b[4..][4..] == b[8..];
        if !ok || version != VERSION { return Err(BadMetadata), store; }
        ok, walOffset := input.ReadPrimitive(8);
        if !ok { return Err(BadMetadata), store; }
        assert b[8..][..8] == b[8..16] && b[8..][8..] == b[16..];
        ok, entryCount := input.ReadPrimitive(4);
        if !ok { return Err(BadMetadata), store; }
        assert b[16..][..4] == b[16..20] && b[16..][4..] == b[20..];
      } else {
        entryCount := firstField;
      }

      var loaded := ReadEntries(input, entryCount);
      if loaded.Err? {
        return Err(loaded.error), store;
      }
      return Ok(LoadResult(true, entryCount, walOffset)), loaded.value;
    }
  }
}
