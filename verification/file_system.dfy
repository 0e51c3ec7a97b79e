/** The three files persistence touches, and every state they pass through on the way. */
module FileSystem {
  import opened BinaryIo

  /** What a crash leaves behind. A missing WAL is the empty one: opening it creates it. */
  datatype Disk = Disk(wal: Bytes, snapshot: Option<Bytes>, temp: Option<Bytes>)

  /** The largest file position a stream can report. */
  const MAX_POSITION: nat := 0x7FFF_FFFF_FFFF_FFFF

  /** Positions are signed 64-bit numbers. */
  lemma PositionIsSigned()
    ensures Limit(8) == 2 * (MAX_POSITION + 1)
  {
    Limits();
  }

  /** `d` is `d0` with some prefix of `bytes` appended to its WAL. */
  ghost predicate TornAppend(d0: Disk, bytes: Bytes, d: Disk) {
    exists k: nat :: k <= |bytes| && d == d0.(wal := d0.wal + bytes[..k])
  }

  lemma PrefixOfSum(first: Bytes, second: Bytes, k: nat)
    requires k <= |first + second|
    ensures (first + second)[..k] == if k <= |first| then first[..k] else first + second[..k - |first|]
  {
  }

  /** Appending two pieces passes through the prefixes of the first, then through those of the second
      after it. */
  lemma TornAppendCompose(d0: Disk, first: Bytes, second: Bytes, d: Disk)
    ensures TornAppend(d0, first + second, d) <==>
            TornAppend(d0, first, d) || TornAppend(d0.(wal := d0.wal + first), second, d)
  {
    if k: nat :| k <= |first + second| && d == d0.(wal := d0.wal + (first + second)[..k]) {
      PrefixOfSum(first, second, k);
      if k > |first| {
        Associates(d0.wal, first, second[..k - |first|]);
      }
    }
    if k: nat :| k <= |first| && d == d0.(wal := d0.wal + first[..k]) {
      PrefixOfSum(first, second, k);
    }
    if k: nat :| k <= |second| && d == d0.(wal := d0.wal + first + second[..k]) {
      PrefixOfSum(first, second, |first| + k);
      assert k == 0 ==> first + second[..0] == first[..|first|];
      Associates(d0.wal, first, second[..k]);
    }
  }

  class FileSystem {
    var wal: Bytes
    var snapshot: Option<Bytes>
    var temp: Option<Bytes>
    /** Every disk state that has existed: where a crash could have stopped. */
    ghost var trail: iset<Disk>

    function Current(): Disk
      reads this
    {
      Disk(wal, snapshot, temp)
    }

    ghost predicate Valid()
      reads this
    {
      Current() in trail && |wal| <= MAX_POSITION
    }

    constructor (d: Disk)
      requires |d.wal| <= MAX_POSITION
      ensures Valid() && Current() == d && trail == iset{d}
    {
      wal, snapshot, temp := d.wal, d.snapshot, d.temp;
      trail := iset{d};
    }

    /** Appends to the WAL byte by byte. `room`, if any, is the size at which the device is full. */
    method AppendWal(bytes: Bytes, room: Option<nat>) returns (ok: bool)
      requires Valid() && |wal| + |bytes| <= MAX_POSITION
      modifies this
      ensures Valid() && TornAppend(old(Current()), bytes, Current())
      ensures ok ==> Current() == old(Current()).(wal := old(wal) + bytes)
      ensures ok <==> room.None? || |old(wal)| + |bytes| <= room.value
      ensures forall d :: d in trail <==>
        d in old(trail) || (TornAppend(old(Current()), bytes, d) && |d.wal| <= |wal|)
    {
      ok := room.None? || |wal| + |bytes| <= room.value;
      var n := if ok then |bytes| else if room.value <= |wal| then 0 else room.value - |wal|;
      ghost var d0 := Current();
      trail := trail + iset d | TornAppend(d0, bytes, d) && |d.wal| <= |d0.wal| + n;
      wal := wal + bytes[..n];
      assert bytes == bytes[..|bytes|];
      assert TornAppend(d0, bytes, Current());
    }

    method TruncateWal()
      requires Valid()
      modifies this
      ensures Valid() && Current() == old(Current()).(wal := [])
      ensures trail == old(trail) + iset{Current()}
    {
      wal := [];
      trail := trail + iset{Current()};
    }

    method TruncateTemp()
      requires Valid()
      modifies this
      ensures Valid() && Current() == old(Current()).(temp := Some([]))
      ensures trail == old(trail) + iset{Current()}
    {
      temp := Some([]);
      trail := trail + iset{Current()};
    }

    /** Appends to the temp file. `room`, if any, is the size at which the device is full. */
    method AppendTemp(bytes: Bytes, room: Option<nat>) returns (ok: bool)
      requires Valid() && temp.Some?
      modifies this
      ensures Valid() && wal == old(wal) && snapshot == old(snapshot) && temp.Some?
      ensures ok <==> room.None? || |old(temp).value| + |bytes| <= room.value
      ensures ok ==> temp.value == old(temp).value + bytes
      ensures forall d :: d in trail <==>
        || d in old(trail)
        || exists k: nat :: k <= |bytes| && |old(temp).value| + k <= |temp.value|
             && d == old(Current()).(temp := Some(old(temp).value + bytes[..k]))
    {
      ok := room.None? || |temp.value| + |bytes| <= room.value;
      var n := if ok then |bytes| else if room.value <= |temp.value| then 0 else room.value - |temp.value|;
      ghost var d0 := Current();
      trail := trail + iset k: nat | k <= n :: d0.(temp := Some(d0.temp.value + bytes[..k]));
      temp := Some(temp.value + bytes[..n]);
      assert bytes == bytes[..|bytes|];
    }

    /** Renaming replaces the committed snapshot in one step. */
    method RenameTemp()
      requires Valid() && temp.Some?
      modifies this
      ensures Valid() && Current() == Disk(old(wal), old(temp), None)
      ensures trail == old(trail) + iset{Current()}
    {
      snapshot, temp := temp, None;
      trail := trail + iset{Current()};
    }

    method RemoveSnapshot()
      requires Valid()
      modifies this
      ensures Valid() && Current() == old(Current()).(snapshot := None)
      ensures trail == old(trail) + iset{Current()}
    {
      snapshot := None;
      trail := trail + iset{Current()};
    }

    method RemoveTemp()
      requires Valid()
      modifies this
      ensures Valid() && Current() == old(Current()).(temp := None)
      ensures trail == old(trail) + iset{Current()}
    {
      temp := None;
      trail := trail + iset{Current()};
    }
  }
}
