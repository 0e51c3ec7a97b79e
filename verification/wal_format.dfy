/** WAL records: payload codec, framing, and the list of operations a byte string decodes to. */
module WalFormat {
  import opened BinaryIo

  type Map = map<Bytes, Bytes>

  datatype Op = Set(key: Bytes, value: Bytes) | Delete(key: Bytes)

  const MAX_RECORD: nat := 64 * 1024 * 1024
  const SET_CODE: byte := 1
  const DELETE_CODE: byte := 2

  // ---------- One record ----------

  /** The length the writer computes before it writes anything. */
  function PayloadLength(op: Op): nat {
    match op
    case Set(key, value) => 1 + 4 + |key| + 4 + |value|
    case Delete(key) => 1 + 4 + |key|
  }

  function EncodePayload(op: Op): (p: Bytes)
    ensures |p| == PayloadLength(op)
  {
    match op
    case Set(key, value) => [SET_CODE] + Encode(|key|, 4) + key + Encode(|value|, 4) + value
    case Delete(key) => [DELETE_CODE] + Encode(|key|, 4) + key
  }

  /** The writer's limit: operations over it are refused before any byte is written. */
  predicate Fits(op: Op) {
    PayloadLength(op) <= MAX_RECORD
  }

  function Frame(payload: Bytes): Bytes {
    Encode(|payload|, 4) + payload
  }

  function RecordLength(op: Op): nat {
    4 + PayloadLength(op)
  }

  function EncodeRecord(op: Op): (r: Bytes)
    ensures |r| == RecordLength(op)
  {
    Frame(EncodePayload(op))
  }

  function EncodeAll(ops: seq<Op>): Bytes {
    if ops == [] then [] else EncodeRecord(ops[0]) + EncodeAll(ops[1..])
  }

  function DecodePayload(p: Bytes): Option<Op> {
    if |p| < 5 then None
    else
      var n := Decode(p[1..5]);
      if |p| < 5 + n then None
      else
        var key := p[5..5 + n];
        if p[0] == SET_CODE then
          if |p| < 9 + n then None
          else if |p| != 9 + n + Decode(p[5 + n..9 + n]) then None
          else Some(Set(key, p[9 + n..]))
        else if p[0] == DELETE_CODE then
          if |p| != 5 + n then None else Some(Delete(key))
        else None
  }

  /** The shortest record: deleting the empty key. */
  lemma SmallestRecord()
    ensures Fits(Delete([])) && RecordLength(Delete([])) == 9
  {
  }

  lemma DecodeOfEncode(op: Op)
    requires Fits(op)
    ensures DecodePayload(EncodePayload(op)) == Some(op)
  {
    var p := EncodePayload(op);
    var n := |op.key|;
    U32RoundTrip(n);
    assert p[1..5] == Encode(n, 4);
    assert p[5..5 + n] == op.key;
    if op.Set? {
      U32RoundTrip(|op.value|);
      assert p[5 + n..9 + n] == Encode(|op.value|, 4);
      assert p[9 + n..] == op.value;
    }
  }

  /** A byte string is the concatenation of its pieces at increasing cut points. */
  lemma Pieces(p: Bytes, a: nat, b: nat, c: nat)
    requires 1 <= a <= b <= c <= |p|
    ensures p == [p[0]] + p[1..a] + p[a..b] + p[b..c] + p[c..]
  {
  }

  lemma EncodeOfDecode(p: Bytes)
    requires DecodePayload(p).Some?
    ensures EncodePayload(DecodePayload(p).value) == p
  {
    var op := DecodePayload(p).value;
    var n := |op.key|;
    var d := if op.Set? then 9 + n else 5 + n;
    Pieces(p, 5, 5 + n, d);
    U32Unique(p[1..5]);
    assert p[1..5] == Encode(n, 4);
    if op.Set? {
      U32Unique(p[5 + n..d]);
      assert p[5 + n..d] == Encode(|op.value|, 4);
    } else {
      assert p[5 + n..d] == [] && p[d..] == [];
    }
  }

  /** Among payloads within the cap, the decoder accepts exactly the encoder's image, and its
      answer is the one operation with that encoding. */
  lemma DecoderAcceptsExactlyEncodings(p: Bytes, op: Op)
    requires |p| <= MAX_RECORD
    ensures DecodePayload(p) == Some(op) <==> EncodePayload(op) == p
    ensures DecodePayload(p).None? <==> forall o: Op :: EncodePayload(o) != p
  {
    forall o: Op
      ensures DecodePayload(p) == Some(o) <==> EncodePayload(o) == p
    {
      if EncodePayload(o) == p {
        DecodeOfEncode(o);
      }
      if DecodePayload(p) == Some(o) {
        EncodeOfDecode(p);
      }
    }
    if DecodePayload(p).Some? {
      EncodeOfDecode(p);
    }
  }

  // ---------- A log ----------

  /** The bytes open with a complete frame within the cap. */
  predicate StartsFrame(w: Bytes) {
    && |w| >= 4
    && Decode(w[..4]) <= MAX_RECORD
    && 4 + Decode(w[..4]) <= |w|
  }

  function FrameEnd(w: Bytes): (e: nat)
    requires StartsFrame(w)
    ensures 4 <= e <= |w|
  {
    4 + Decode(w[..4])
  }

  /** The payload of the first frame, and the bytes after that frame. */
  function FirstPayload(w: Bytes): Bytes
    requires StartsFrame(w)
  {
    w[4..FrameEnd(w)]
  }

  function AfterFirst(w: Bytes): (rest: Bytes)
    requires StartsFrame(w)
    ensures |rest| < |w|
  {
    w[FrameEnd(w)..]
  }

  /** One operation, or none for a payload that does not decode. */
  function PayloadOps(p: Bytes): seq<Op> {
    match DecodePayload(p)
    case Some(op) => [op]
    case None => []
  }

  /** The operations replay applies, in order: frames that do not decode are skipped, and
      reading stops at the first torn or impossible frame. */
  function DecodeOps(w: Bytes): seq<Op>
    decreases |w|
  {
    if !StartsFrame(w) then [] else PayloadOps(FirstPayload(w)) + DecodeOps(AfterFirst(w))
  }

  /** The bytes a reader positioned at `offset` still sees. */
  function Tail(w: Bytes, offset: nat): Bytes {
    if offset <= |w| then w[offset..] else []
  }

  /** The log is a whole number of frames: its end is a record boundary. */
  predicate Framed(w: Bytes)
    decreases |w|
  {
    w == [] || (StartsFrame(w) && Framed(AfterFirst(w)))
  }

  lemma FrameStarts(p: Bytes, s: Bytes)
    requires |p| <= MAX_RECORD
    ensures var w := Frame(p) + s; StartsFrame(w) && FirstPayload(w) == p && AfterFirst(w) == s
  {
    U32RoundTrip(|p|);
    assert (Frame(p) + s)[..4] == Encode(|p|, 4);
  }

  lemma FrameExtends(w: Bytes, s: Bytes)
    requires StartsFrame(w)
    ensures StartsFrame(w + s) && FirstPayload(w + s) == FirstPayload(w) && AfterFirst(w + s) == AfterFirst(w) + s
  {
    assert (w + s)[..4] == w[..4];
  }

  /** Past a record boundary, decoding is compositional whatever bytes follow. */
  lemma {:induction false} DecodeConcat(w: Bytes, s: Bytes)
    requires Framed(w)
    ensures DecodeOps(w + s) == DecodeOps(w) + DecodeOps(s)
    decreases |w|
  {
    hide StartsFrame, FirstPayload, AfterFirst, PayloadOps;
    if w == [] {
      assert w + s == s;
    } else {
      FrameExtends(w, s);
      DecodeConcat(AfterFirst(w), s);
    }
  }

  lemma {:induction false} FramedConcat(w: Bytes, s: Bytes)
    requires Framed(w)
    ensures Framed(w + s) <==> Framed(s)
    decreases |w|
  {
    hide StartsFrame, FirstPayload, AfterFirst;
    if w == [] {
      assert w + s == s;
    } else {
      FrameExtends(w, s);
      FramedConcat(AfterFirst(w), s);
    }
  }

  /** Appending never changes or reorders what was already recoverable, on any bytes. */
  lemma {:induction false} DecodePrefixMonotone(w: Bytes, s: Bytes)
    ensures DecodeOps(w) <= DecodeOps(w + s)
    decreases |w|
  {
    hide FirstPayload, AfterFirst, PayloadOps;
    if !StartsFrame(w) {
    } else {
      FrameExtends(w, s);
      DecodePrefixMonotone(AfterFirst(w), s);
    }
  }

  lemma FrameAlone(p: Bytes)
    requires |p| <= MAX_RECORD
    ensures Framed(Frame(p)) && DecodeOps(Frame(p)) == PayloadOps(p)
  {
    FrameStarts(p, []);
    assert Frame(p) + [] == Frame(p);
  }

  lemma RecordDecodes(op: Op)
    requires Fits(op)
    ensures Framed(EncodeRecord(op)) && DecodeOps(EncodeRecord(op)) == [op]
  {
    FrameAlone(EncodePayload(op));
    DecodeOfEncode(op);
  }

  lemma {:induction false} LogRoundTrip(ops: seq<Op>)
    requires forall op :: op in ops ==> Fits(op)
    ensures Framed(EncodeAll(ops)) && DecodeOps(EncodeAll(ops)) == ops
  {
    if ops == [] {
    } else {
      RecordDecodes(ops[0]);
      LogRoundTrip(ops[1..]);
      DecodeConcat(EncodeRecord(ops[0]), EncodeAll(ops[1..]));
      FramedConcat(EncodeRecord(ops[0]), EncodeAll(ops[1..]));
    }
  }

  /** A strict prefix of one frame decodes to nothing. */
  lemma TornFrame(p: Bytes, k: nat)
    requires |p| <= MAX_RECORD && k < |Frame(p)|
    ensures !StartsFrame(Frame(p)[..k]) && DecodeOps(Frame(p)[..k]) == []
  {
    if k >= 4 {
      U32RoundTrip(|p|);
      assert Frame(p)[..k][..4] == Encode(|p|, 4);
    }
  }

  /** A torn append after a record boundary changes nothing; a complete one adds its operation. */
  lemma AppendAtBoundary(w: Bytes, op: Op, k: nat)
    requires Framed(w) && Fits(op) && k <= |EncodeRecord(op)|
    ensures DecodeOps(w + EncodeRecord(op)[..k])
         == if k < |EncodeRecord(op)| then DecodeOps(w) else DecodeOps(w) + [op]
    ensures k == |EncodeRecord(op)| ==> Framed(w + EncodeRecord(op)[..k])
  {
    var r := EncodeRecord(op);
    DecodeConcat(w, r[..k]);
    if k < |r| {
      TornFrame(EncodePayload(op), k);
    } else {
      assert r[..k] == r;
      RecordDecodes(op);
      FramedConcat(w, r);
    }
  }

  lemma SkipsUndecodable(bad: Bytes, s: Bytes)
    requires |bad| <= MAX_RECORD && DecodePayload(bad).None?
    ensures DecodeOps(Frame(bad) + s) == DecodeOps(s)
  {
    FrameStarts(bad, s);
  }

  /** A framed record that does not decode can sit at any record boundary without trace. */
  lemma DamageIsolation(w1: Bytes, bad: Bytes, w2: Bytes)
    requires Framed(w1) && |bad| <= MAX_RECORD && DecodePayload(bad).None?
    ensures DecodeOps(w1 + (Frame(bad) + w2)) == DecodeOps(w1 + w2)
  {
    SkipsUndecodable(bad, w2);
    DecodeConcat(w1, Frame(bad) + w2);
    DecodeConcat(w1, w2);
  }

  /** Every decoded operation is paid for by the bytes of its own record. */
  lemma {:induction false} DecodedOpsFitBytes(w: Bytes)
    ensures 9 * |DecodeOps(w)| <= |w|
    ensures forall op :: op in DecodeOps(w) ==> Fits(op) && |EncodeRecord(op)| <= |w|
    decreases |w|
  {
    if !StartsFrame(w) {
    } else {
      DecodedOpsFitBytes(AfterFirst(w));
      if DecodePayload(FirstPayload(w)).Some? {
        EncodeOfDecode(FirstPayload(w));
      }
    }
  }

  /** Both ends of a slice between two record boundaries are boundaries of the slice. */
  lemma BoundarySlice(w: Bytes, b: nat, c: nat)
    requires b <= c <= |w| && Framed(w[..b]) && Framed(w[..c])
    ensures Framed(w[b..c])
  {
    FramedConcat(w[..b], w[b..c]);
    assert w[..b] + w[b..c] == w[..c];
  }

  // ---------- The bytes on disk ----------

  lemma SmallEncoding(n: nat)
    requires n < 256
    ensures Encode(n, 4) == [n as byte, 0, 0, 0]
  {
    assert Encode(0, 3) == [0, 0, 0];
  }

  /** The layout of both records, byte by byte. */
  lemma RecordBytes(x: byte, y: byte, z: byte)
    ensures EncodeRecord(Set([x], [y, z])) == [12, 0, 0, 0, 1, 1, 0, 0, 0, x, 2, 0, 0, 0, y, z]
    ensures EncodeRecord(Delete([x])) == [6, 0, 0, 0, 2, 1, 0, 0, 0, x]
  {
    hide Encode;
    SmallEncoding(12);
    SmallEncoding(6);
    SmallEncoding(1);
    SmallEncoding(2);
  }

  /** The cap is 64 MiB, and a frame one byte longer ends the replay whatever follows. */
  lemma RecordCap(s: Bytes)
    ensures Encode(MAX_RECORD, 4) == [0, 0, 0, 4]
    ensures DecodeOps([1, 0, 0, 4] + s) == []
  {
    assert Encode(MAX_RECORD, 4) == [0, 0, 0, 4] && Encode(MAX_RECORD + 1, 4) == [1, 0, 0, 4];
    U32RoundTrip(MAX_RECORD + 1);
    assert ([1, 0, 0, 4] + s)[..4] == [1, 0, 0, 4];
  }
}
