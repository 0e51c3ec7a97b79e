/** Fixed-width integers and bounded byte fields shared by the WAL and the snapshot format. */
module BinaryIo {

  newtype byte = x: int | 0 <= x < 256
  type Bytes = seq<byte>

  datatype Option<+T> = None | Some(value: T)
  datatype Result<+T> = Ok(value: T) | Err(error: Error) {
    predicate IsFailure() { Err? }

    function PropagateFailure<U>(): Result<U>
      requires Err?
    {
      Err(error)
    }

    function Extract(): T
      requires Ok?
    {
      value
    }
  }

  /** One constructor per kind of exception the persistence code throws. */
  datatype Error =
    | FieldTooLarge
    | RecordTooLarge
    | OffsetTooLarge
    | OffsetFailed
    | TooManyEntries
    | OpenFailed
    | WriteFailed
    | RenameFailed
    | RemoveFailed
    | BadMetadata
    | BadEntry
    | SnapshotFieldTooLarge

  const U32_MAX: nat := 0xFFFF_FFFF
  const U64_MAX: nat := 0xFFFF_FFFF_FFFF_FFFF

  // ---------- Primitives in host (little-endian) order ----------

  /** The number of values a `width`-byte unsigned integer can hold. */
  function Limit(width: nat): (r: nat)
    ensures r >= 1
  {
    if width == 0 then 1 else 256 * Limit(width - 1)
  }

  function Encode(n: nat, width: nat): (b: Bytes)
    ensures |b| == width
    decreases width, n
  {
    if width == 0 then [] else [(n % 256) as byte] + Encode(n / 256, width - 1)
  }

  function Decode(b: Bytes): (n: nat)
    ensures n < Limit(|b|)
  {
    if b == [] then 0 else b[0] as nat + 256 * Decode(b[1..])
  }

  lemma {:induction false} DecodeEncode(n: nat, width: nat)
    requires n < Limit(width)
    ensures Decode(Encode(n, width)) == n
  {
    if width == 0 {
    } else {
      DecodeEncode(n / 256, width - 1);
      assert Encode(n, width)[1..] == Encode(n / 256, width - 1);
    }
  }

  lemma LowByte(low: nat, high: nat)
    requires low < 256
    ensures (low + 256 * high) % 256 == low && (low + 256 * high) / 256 == high
  {
  }

  lemma {:induction false} EncodeDecode(b: Bytes)
    ensures Encode(Decode(b), |b|) == b
  {
    if b == [] {
    } else {
      EncodeDecode(b[1..]);
      LowByte(b[0] as nat, Decode(b[1..]));
      assert b == [b[0]] + b[1..];
    }
  }

  lemma Limits()
    ensures Limit(4) == U32_MAX + 1
    ensures Limit(8) == U64_MAX + 1
  {
    assert Limit(4) == 0x1_0000_0000;
  }

  /** A u32 that fits survives encoding, whatever bytes surround it. */
  lemma U32RoundTrip(n: nat)
    requires n <= U32_MAX
    ensures Decode(Encode(n, 4)) == n
  {
    Limits();
    DecodeEncode(n, 4);
  }

  lemma U32Unique(b: Bytes)
    requires |b| == 4
    ensures Decode(b) <= U32_MAX
    ensures Encode(Decode(b), 4) == b
  {
    Limits();
    EncodeDecode(b);
  }

  lemma DecodeFour(b: Bytes)
    requires |b| == 4
    ensures Decode(b) == b[0] as nat + 0x100 * b[1] as nat + 0x1_0000 * b[2] as nat + 0x100_0000 * b[3] as nat
  {
    assert b[1..][1..] == b[2..] && b[2..][1..] == b[3..] && b[3..][1..] == [];
    assert Decode(b[3..]) == b[3] as nat;
    assert Decode(b[2..]) == b[2] as nat + 256 * Decode(b[3..]);
    assert Decode(b[1..]) == b[1] as nat + 256 * Decode(b[2..]);
  }

  lemma FourBytes(a: byte, b: byte, c: byte, d: byte)
    ensures Encode(a as nat + 0x100 * b as nat + 0x1_0000 * c as nat + 0x100_0000 * d as nat, 4) == [a, b, c, d]
  {
    DecodeFour([a, b, c, d]);
    EncodeDecode([a, b, c, d]);
  }

  /** The eight bytes of a u64 are those of its low half, then those of its high half. */
  lemma TwoHalves(low: nat, high: nat)
    requires low <= U32_MAX
    ensures Encode(low + 0x1_0000_0000 * high, 8) == Encode(low, 4) + Encode(high, 4)
  {
    TakeBytes(low, high, 4, 4);
    Limits();
  }

  lemma {:induction false} TakeBytes(low: nat, high: nat, n: nat, width: nat)
    requires low < Limit(n)
    ensures Encode(low + Limit(n) * high, n + width) == Encode(low, n) + Encode(high, width)
  {
    if n == 0 {
    } else {
      var m := low + Limit(n) * high;
      assert m == low % 256 + 256 * (low / 256 + Limit(n - 1) * high);
      LowByte(low % 256, low / 256 + Limit(n - 1) * high);
      TakeBytes(low / 256, high, n - 1, width);
    }
  }

  lemma Associates(a: Bytes, b: Bytes, c: Bytes)
    ensures (a + b) + c == a + (b + c)
  {
  }

  // ---------- The bounded cursor over an in-memory buffer ----------

  method CheckedSize(bytes: Bytes) returns (r: Result<nat>)
    ensures r == if |bytes| <= U32_MAX then Ok(|bytes|) else Err(FieldTooLarge)
  {
    if |bytes| > U32_MAX {
      return Err(FieldTooLarge);
    }
    return Ok(|bytes|);
  }

  /** Succeeds exactly when the whole value lies inside the buffer; the offset moves only then. */
  method ConsumePrimitive(buffer: Bytes, offset: nat, width: nat) returns (ok: bool, next: nat, value: nat)
    ensures ok <==> offset + width <= |buffer|
    ensures ok ==> next == offset + width && Encode(value, width) == buffer[offset..next]
    ensures ok ==> value == Decode(buffer[offset..next])
    ensures !ok ==> next == offset
  {
    if offset > |buffer| || |buffer| - offset < width {
      return false, offset, 0;
    }
    value := Decode(buffer[offset..offset + width]);
    EncodeDecode(buffer[offset..offset + width]);
    return true, offset + width, value;
  }

  method ConsumeBytes(buffer: Bytes, offset: nat, size: nat) returns (ok: bool, next: nat, value: Bytes)
    ensures ok <==> offset + size <= |buffer|
    ensures ok ==> next == offset + size && value == buffer[offset..next]
    ensures !ok ==> next == offset
  {
    if offset > |buffer| || |buffer| - offset < size {
      return false, offset, [];
    }
    return true, offset + size, buffer[offset..offset + size];
  }

  // ---------- Input streams ----------

  /** An opened input file: its bytes, the read position and the sticky failure state. */
  class InputStream {
    const bytes: Bytes
    var pos: nat
    var good: bool

    constructor (bytes: Bytes, pos: nat)
      ensures good && this.bytes == bytes && this.pos == pos
    {
      this.bytes := bytes;
      this.pos := pos;
      this.good := true;
    }

    /** The bytes not yet read. */
    function Rest(): Bytes
      reads this
    {
      if pos <= |bytes| then bytes[pos..] else []
    }

    /** A short read takes nothing the caller may use and makes every later read fail. */
    method Read(n: nat) returns (ok: bool, data: Bytes)
      modifies this
      ensures ok <==> old(good) && old(pos) + n <= |bytes|
      ensures ok ==> good && pos <= |bytes|
      ensures ok ==> data == old(Rest())[..n] && Rest() == old(Rest())[n..]
      ensures !ok ==> !good
    {
      if !good || pos + n > |bytes| {
        good := false;
        return false, [];
      }
      data := bytes[pos..pos + n];
      pos := pos + n;
      return true, data;
    }

    method ReadPrimitive(width: nat) returns (ok: bool, value: nat)
      modifies this
      ensures ok <==> old(good) && old(pos) + width <= |bytes|
      ensures ok ==> good && pos <= |bytes|
      ensures ok ==> value == Decode(old(Rest())[..width]) && Rest() == old(Rest())[width..]
      ensures !ok ==> !good
    {
      var data;
      ok, data := Read(width);
      value := 0;
      if ok {
        value := Decode(data);
      }
    }
  }
}
