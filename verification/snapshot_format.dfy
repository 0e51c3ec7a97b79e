/** The snapshot file: header, entries in any order, and the bounded loader. */
module SnapshotFormat {
  import opened BinaryIo
  import opened WalFormat

  const MAGIC: nat := 0x3153564B  // "KVS1"
  const VERSION: nat := 1
  const MAX_FIELD: nat := 64 * 1024 * 1024

  datatype Entry = Entry(key: Bytes, value: Bytes)

  /** Metadata the loader returns; a file that is absent or under four bytes is not loaded. */
  datatype LoadResult = LoadResult(loaded: bool, entryCount: nat, walOffset: nat)

  /** What loading does: keep the caller's map, replace it, or throw. */
  datatype LoadOutcome =
    | NotLoaded
    | Loaded(entries: Map, count: nat, walOffset: nat)
    | Failed(error: Error)

  // ---------- Encoding ----------

  function EncodeField(x: Bytes): Bytes {
    Encode(|x|, 4) + x
  }

  function EncodeEntry(e: Entry): Bytes {
    EncodeField(e.key) + EncodeField(e.value)
  }

  function EncodeEntries(es: seq<Entry>): Bytes {
    if es == [] then [] else EncodeEntry(es[0]) + EncodeEntries(es[1..])
  }

  function Header(walOffset: nat, count: nat): (h: Bytes)
    ensures |h| == 20
  {
    Encode(MAGIC, 4) + Encode(VERSION, 4) + Encode(walOffset, 8) + Encode(count, 4)
  }

  function EncodeSnapshot(es: seq<Entry>, walOffset: nat): Bytes {
    Header(walOffset, |es|) + EncodeEntries(es)
  }

  /** The format before the magic number: an entry count and the entries. */
  function EncodeLegacy(es: seq<Entry>): Bytes {
    Encode(|es|, 4) + EncodeEntries(es)
  }

  // ---------- Hash-map iteration orders ----------

  /** `es` lists every binding of `m` exactly once. */
  ghost predicate Enumerates(es: seq<Entry>, m: Map) {
    && |es| == |m|
    && (forall i | 0 <= i < |es| :: es[i].key in m && m[es[i].key] == es[i].value)
    && (forall i, j | 0 <= i < j < |es| :: es[i].key != es[j].key)
  }

  predicate FieldsWithin(m: Map, limit: nat) {
    forall k | k in m :: |k| <= limit && |m[k]| <= limit
  }

  /** Every key and value is within the loader's cap. */
  predicate Loadable(m: Map) {
    FieldsWithin(m, MAX_FIELD)
  }

  /** Some complete file that saving `m` at `walOffset` can produce. */
  ghost predicate IsImage(image: Bytes, m: Map, walOffset: nat) {
    && |m| <= U32_MAX
    && exists es :: Enumerates(es, m) && image == EncodeSnapshot(es, walOffset)
  }

  // ---------- Decoding ----------

  datatype FieldOutcome = Field(bytes: Bytes, rest: Bytes) | ShortField | OversizedField

  function DecodeField(b: Bytes): FieldOutcome {
    if |b| < 4 then ShortField
    else
      var n := Decode(b[..4]);
      if n > MAX_FIELD then OversizedField
      else if |b| < 4 + n then ShortField
      else Field(b[4..4 + n], b[4 + n..])
  }

  datatype EntryOutcome = ReadEntry(entry: Entry, rest: Bytes) | ShortEntry | OversizedEntry

  function DecodeEntry(b: Bytes): EntryOutcome {
    match DecodeField(b)
    case ShortField => ShortEntry
    case OversizedField => OversizedEntry
    case Field(key, afterKey) =>
      match DecodeField(afterKey)
      case ShortField => ShortEntry
      case OversizedField => OversizedEntry
      case Field(value, rest) => ReadEntry(Entry(key, value), rest)
  }

  function DecodeEntries(b: Bytes, n: nat, m: Map): Result<Map>
    decreases n
  {
    if n == 0 then Ok(m)
    else
      match DecodeEntry(b)
      case ReadEntry(e, rest) => DecodeEntries(rest, n - 1, m[e.key := e.value])
      case ShortEntry => Err(BadEntry)
      case OversizedEntry => Err(SnapshotFieldTooLarge)
  }

  function LoadEntries(b: Bytes, count: nat, walOffset: nat): LoadOutcome {
    match DecodeEntries(b, count, map[])
    case Ok(m) => Loaded(m, count, walOffset)
    case Err(error) => Failed(error)
  }

  function DecodeSnapshot(b: Bytes): LoadOutcome {
    if |b| < 4 then NotLoaded
    else if Decode(b[..4]) == MAGIC then
      if |b| < 20 || Decode(b[4..8]) != VERSION then Failed(BadMetadata)
      else LoadEntries(b[20..], Decode(b[16..20]), Decode(b[8..16]))
    else LoadEntries(b[4..], Decode(b[..4]), 0)
  }

  function LoadFile(file: Option<Bytes>): LoadOutcome {
    match file
    case Some(b) => DecodeSnapshot(b)
    case None => NotLoaded
  }

  // ---------- Entries ----------

  predicate EntryLoadable(e: Entry) {
    |e.key| <= MAX_FIELD && |e.value| <= MAX_FIELD
  }

  /** What saving accepts. */
  predicate EntrySavable(e: Entry) {
    |e.key| <= U32_MAX && |e.value| <= U32_MAX
  }

  function AddEntries(m: Map, es: seq<Entry>): Map
    decreases |es|
  {
    if es == [] then m else AddEntries(m[es[0].key := es[0].value], es[1..])
  }

  lemma FieldRoundTrip(x: Bytes, s: Bytes)
    requires |x| <= MAX_FIELD
    ensures DecodeField(EncodeField(x) + s) == Field(x, s)
  {
    U32RoundTrip(|x|);
    assert (EncodeField(x) + s)[..4] == Encode(|x|, 4);
  }

  lemma OversizedFieldRefused(x: Bytes, s: Bytes)
    requires MAX_FIELD < |x| <= U32_MAX
    ensures DecodeField(EncodeField(x) + s) == OversizedField
  {
    U32RoundTrip(|x|);
    assert (EncodeField(x) + s)[..4] == Encode(|x|, 4);
  }

  lemma TornField(x: Bytes, k: nat)
    requires |x| <= U32_MAX && k < |EncodeField(x)|
    ensures DecodeField(EncodeField(x)[..k]) == if k >= 4 && |x| > MAX_FIELD then OversizedField else ShortField
  {
    U32RoundTrip(|x|);
    if k >= 4 {
      assert EncodeField(x)[..k][..4] == Encode(|x|, 4);
    }
  }

  lemma EntryRoundTrip(e: Entry, s: Bytes)
    requires EntryLoadable(e)
    ensures DecodeEntry(EncodeEntry(e) + s) == ReadEntry(e, s)
  {
    FieldRoundTrip(e.key, EncodeField(e.value) + s);
    FieldRoundTrip(e.value, s);
    assert EncodeEntry(e) + s == EncodeField(e.key) + (EncodeField(e.value) + s);
  }

  lemma OversizedEntryRefused(e: Entry, s: Bytes)
    requires EntrySavable(e) && !EntryLoadable(e)
    ensures DecodeEntry(EncodeEntry(e) + s) == OversizedEntry
  {
    var key, value := EncodeField(e.key), EncodeField(e.value);
    hide EncodeField, DecodeField;
    assert EncodeEntry(e) + s == key + (value + s);
    if |e.key| > MAX_FIELD {
      OversizedFieldRefused(e.key, value + s);
    } else {
      FieldRoundTrip(e.key, value + s);
      OversizedFieldRefused(e.value, s);
    }
  }

  lemma TornEntry(e: Entry, k: nat)
    requires EntrySavable(e) && k < |EncodeEntry(e)|
    ensures !DecodeEntry(EncodeEntry(e)[..k]).ReadEntry?
    ensures EntryLoadable(e) ==> DecodeEntry(EncodeEntry(e)[..k]) == ShortEntry
  {
    var key, value := EncodeField(e.key), EncodeField(e.value);
    hide EncodeField, DecodeField;
    if k < |key| {
      TornField(e.key, k);
      assert EncodeEntry(e)[..k] == key[..k];
    } else {
      assert EncodeEntry(e)[..k] == key + value[..k - |key|];
      TornField(e.value, k - |key|);
      if |e.key| > MAX_FIELD {
        OversizedFieldRefused(e.key, value[..k - |key|]);
      } else {
        FieldRoundTrip(e.key, value[..k - |key|]);
      }
    }
  }

  lemma {:induction false} EntriesRoundTrip(es: seq<Entry>, s: Bytes, m: Map)
    requires forall e :: e in es ==> EntryLoadable(e)
    ensures DecodeEntries(EncodeEntries(es) + s, |es|, m) == Ok(AddEntries(m, es))
    decreases |es|
  {
    hide DecodeEntry, EncodeEntry;
    if es == [] {
    } else {
      EntryRoundTrip(es[0], EncodeEntries(es[1..]) + s);
      assert EncodeEntries(es) + s == EncodeEntry(es[0]) + (EncodeEntries(es[1..]) + s);
      EntriesRoundTrip(es[1..], s, m[es[0].key := es[0].value]);
    }
  }

  lemma {:induction false} TornEntries(es: seq<Entry>, k: nat, m: Map)
    requires forall e :: e in es ==> EntrySavable(e)
    requires k < |EncodeEntries(es)|
    ensures var r := DecodeEntries(EncodeEntries(es)[..k], |es|, m);
      r.Err? && ((forall e :: e in es ==> EntryLoadable(e)) ==> r == Err(BadEntry))
    decreases |es|
  {
    hide DecodeEntry, EncodeEntry, EntryLoadable, EntrySavable;
    var first, rest := EncodeEntry(es[0]), EncodeEntries(es[1..]);
    if k < |first| {
      TornEntry(es[0], k);
      assert EncodeEntries(es)[..k] == first[..k];
    } else {
      assert EncodeEntries(es)[..k] == first + rest[..k - |first|];
      if EntryLoadable(es[0]) {
        EntryRoundTrip(es[0], rest[..k - |first|]);
        TornEntries(es[1..], k - |first|, m[es[0].key := es[0].value]);
      } else {
        OversizedEntryRefused(es[0], rest[..k - |first|]);
      }
    }
  }

  lemma {:induction false} AddEntriesKeys(es: seq<Entry>, m: Map)
    requires forall i, j | 0 <= i < j < |es| :: es[i].key != es[j].key
    ensures var r := AddEntries(m, es);
      && (forall i | 0 <= i < |es| :: es[i].key in r && r[es[i].key] == es[i].value)
      && (forall k | (forall i | 0 <= i < |es| :: es[i].key != k) :: k in r <==> k in m)
      && (forall k | k in m && (forall i | 0 <= i < |es| :: es[i].key != k) :: r[k] == m[k])
    decreases |es|
  {
    if es == [] {
    } else {
      AddEntriesKeys(es[1..], m[es[0].key := es[0].value]);
      assert forall i | 1 <= i < |es| :: es[i] == es[1..][i - 1];
    }
  }

  lemma {:induction false} DistinctKeysCount(es: seq<Entry>)
    requires forall i, j | 0 <= i < j < |es| :: es[i].key != es[j].key
    ensures |set i | 0 <= i < |es| :: es[i].key| == |es|
  {
    var keys := set i | 0 <= i < |es| :: es[i].key;
    if es != [] {
      var n := |es| - 1;
      DistinctKeysCount(es[..n]);
      var most := set i | 0 <= i < n :: es[..n][i].key;
      assert keys == most + {es[n].key} && es[n].key !in most;
    } else {
      assert keys == {};
    }
  }

  lemma SubsetOfSameSize<T>(a: set<T>, b: set<T>)
    requires a <= b && |a| == |b|
    ensures a == b
  {
    assert |b - a| == 0;
  }

  /** Reading back any enumeration, in its own order, rebuilds the map. */
  lemma EnumerationRebuilds(es: seq<Entry>, m: Map)
    requires Enumerates(es, m)
    ensures AddEntries(map[], es) == m
  {
    AddEntriesKeys(es, map[]);
    hide AddEntries;
    var r := AddEntries(map[], es);
    var keys := set i | 0 <= i < |es| :: es[i].key;
    DistinctKeysCount(es);
    SubsetOfSameSize(keys, m.Keys);
    forall k ensures k in r <==> k in m {
      assert k in m <==> k in keys;
    }
  }

  // ---------- Whole files ----------

  lemma HeaderFields(walOffset: nat, count: nat, s: Bytes)
    requires walOffset <= U64_MAX && count <= U32_MAX
    ensures var b := Header(walOffset, count) + s;
      Decode(b[..4]) == MAGIC && Decode(b[4..8]) == VERSION && Decode(b[8..16]) == walOffset
      && Decode(b[16..20]) == count && b[20..] == s
  {
    var b := Header(walOffset, count) + s;
    U32RoundTrip(MAGIC);
    U32RoundTrip(VERSION);
    U32RoundTrip(count);
    Limits();
    DecodeEncode(walOffset, 8);
    hide Encode, Decode, Limit;
    HeaderCuts(Encode(MAGIC, 4), Encode(VERSION, 4), Encode(walOffset, 8), Encode(count, 4), s);
  }

  lemma HeaderCuts(magic: Bytes, version: Bytes, offset: Bytes, count: Bytes, s: Bytes)
    requires |magic| == |version| == |count| == 4 && |offset| == 8
    ensures var b := magic + version + offset + count + s;
      b[..4] == magic && b[4..8] == version && b[8..16] == offset && b[16..20] == count && b[20..] == s
  {
  }

  /** A file with a current header loads exactly as the bytes after it. */
  lemma BodyDecides(walOffset: nat, count: nat, body: Bytes)
    requires walOffset <= U64_MAX && count <= U32_MAX
    ensures DecodeSnapshot(Header(walOffset, count) + body) == LoadEntries(body, count, walOffset)
  {
    HeaderFields(walOffset, count, body);
    hide Decode, Encode, Header, LoadEntries;
  }

  /** Entries may repeat a key: the last one wins, and the count reported is that of the entries. */
  lemma RepeatedKeys(es: seq<Entry>, walOffset: nat, s: Bytes)
    requires forall e :: e in es ==> EntryLoadable(e)
    requires |es| <= U32_MAX && walOffset <= U64_MAX
    ensures DecodeSnapshot(EncodeSnapshot(es, walOffset) + s) == Loaded(AddEntries(map[], es), |es|, walOffset)
    ensures |es| != MAGIC ==>
      DecodeSnapshot(EncodeLegacy(es) + s) == Loaded(AddEntries(map[], es), |es|, 0)
  {
    hide DecodeSnapshot, Header, Encode, EncodeEntries, DecodeEntries, AddEntries, EntryLoadable;
    var entries := EncodeEntries(es);
    EntriesRoundTrip(es, s, map[]);
    Associates(Header(walOffset, |es|), entries, s);
    BodyDecides(walOffset, |es|, entries + s);
    if |es| != MAGIC {
      Associates(Encode(|es|, 4), entries, s);
      LegacyBodyDecides(|es|, entries + s);
    }
  }

  lemma LegacyBodyDecides(count: nat, body: Bytes)
    requires count <= U32_MAX && count != MAGIC
    ensures DecodeSnapshot(Encode(count, 4) + body) == LoadEntries(body, count, 0)
  {
    var b := Encode(count, 4) + body;
    U32RoundTrip(count);
    assert b[..4] == Encode(count, 4) && b[4..] == body;
  }

  /** Saving then loading gives back the map, its size and the offset, for every iteration
      order of the map and whatever trailing bytes follow. */
  lemma SnapshotRoundTrip(es: seq<Entry>, m: Map, walOffset: nat, trailing: Bytes)
    requires Enumerates(es, m) && Loadable(m) && |m| <= U32_MAX && walOffset <= U64_MAX
    ensures DecodeSnapshot(EncodeSnapshot(es, walOffset) + trailing) == Loaded(m, |m|, walOffset)
  {
    hide DecodeSnapshot, EncodeSnapshot;
    RepeatedKeys(es, walOffset, trailing);
    EnumerationRebuilds(es, m);
  }

  lemma ImageLoads(image: Bytes, m: Map, walOffset: nat)
    requires IsImage(image, m, walOffset) && Loadable(m) && walOffset <= U64_MAX
    ensures DecodeSnapshot(image) == Loaded(m, |m|, walOffset)
  {
    var es :| Enumerates(es, m) && image == EncodeSnapshot(es, walOffset);
    SnapshotRoundTrip(es, m, walOffset, []);
    assert image + [] == image;
  }

  lemma LegacyLoads(es: seq<Entry>, m: Map)
    requires Enumerates(es, m) && Loadable(m) && |m| <= U32_MAX && |m| != MAGIC
    ensures DecodeSnapshot(EncodeLegacy(es)) == Loaded(m, |m|, 0)
  {
    assert EncodeLegacy(es) + [] == EncodeLegacy(es);
    RepeatedKeys(es, 0, []);
    EnumerationRebuilds(es, m);
  }

  lemma TornHeader(image: Bytes, m: Map, walOffset: nat, k: nat)
    requires IsImage(image, m, walOffset) && walOffset <= U64_MAX && k < 20
    ensures DecodeSnapshot(image[..k]) == if k < 4 then NotLoaded else Failed(BadMetadata)
  {
    var es :| Enumerates(es, m) && image == EncodeSnapshot(es, walOffset);
    HeaderFields(walOffset, |es|, EncodeEntries(es));
    if k >= 4 {
      assert image[..k][..4] == image[..4];
    }
  }

  lemma EntriesWithin(es: seq<Entry>, m: Map)
    requires Enumerates(es, m)
    ensures FieldsWithin(m, U32_MAX) ==> forall e :: e in es ==> EntrySavable(e)
    ensures Loadable(m) ==> forall e :: e in es ==> EntryLoadable(e)
  {
  }

  lemma TornBody(image: Bytes, m: Map, walOffset: nat, k: nat)
    requires IsImage(image, m, walOffset) && FieldsWithin(m, U32_MAX) && walOffset <= U64_MAX && 20 <= k < |image|
    ensures DecodeSnapshot(image[..k]).Failed?
    ensures Loadable(m) ==> DecodeSnapshot(image[..k]) == Failed(BadEntry)
  {
    var es :| Enumerates(es, m) && image == EncodeSnapshot(es, walOffset);
    var torn := EncodeEntries(es)[..k - 20];
    EntriesWithin(es, m);
    TornEntries(es, k - 20, map[]);
    BodyDecides(walOffset, |es|, torn);
    hide DecodeSnapshot, Header, EncodeEntries, DecodeEntries, Loadable, FieldsWithin;
    hide EntrySavable, EntryLoadable, Enumerates;
    assert image[..k] == Header(walOffset, |es|) + torn;
  }

  /** A truncated snapshot never loads, whatever saving accepted: under four bytes it counts as absent,
      else it throws. */
  lemma NoStrictPrefixLoads(image: Bytes, m: Map, walOffset: nat, k: nat)
    requires IsImage(image, m, walOffset) && FieldsWithin(m, U32_MAX) && walOffset <= U64_MAX && k < |image|
    ensures if k < 4 then DecodeSnapshot(image[..k]) == NotLoaded
            else if k < 20 then DecodeSnapshot(image[..k]) == Failed(BadMetadata)
            else DecodeSnapshot(image[..k]).Failed?
    ensures k >= 20 && Loadable(m) ==> DecodeSnapshot(image[..k]) == Failed(BadEntry)
  {
    hide DecodeSnapshot, IsImage, Loadable, FieldsWithin;
    if k < 20 {
      TornHeader(image, m, walOffset, k);
    } else {
      TornBody(image, m, walOffset, k);
    }
  }

  /** Whatever the file, a map that loads is within the cap. */
  lemma {:induction false} LoadedEntriesLoadable(b: Bytes, n: nat, m: Map)
    requires Loadable(m)
    ensures DecodeEntries(b, n, m).Ok? ==> Loadable(DecodeEntries(b, n, m).value)
    decreases n
  {
    if n == 0 || !DecodeEntry(b).ReadEntry? {
    } else {
      var ReadEntry(e, rest) := DecodeEntry(b);
      LoadedEntriesLoadable(rest, n - 1, m[e.key := e.value]);
    }
  }

  lemma LoadedIsLoadable(file: Option<Bytes>)
    ensures LoadFile(file).Loaded? ==> Loadable(LoadFile(file).entries)
    ensures LoadFile(file).Loaded? ==> LoadFile(file).walOffset <= U64_MAX
  {
    Limits();
    if file.Some? && |file.value| >= 4 {
      var b := file.value;
      LoadedEntriesLoadable(b[4..], Decode(b[..4]), map[]);
      if |b| >= 20 {
        LoadedEntriesLoadable(b[20..], Decode(b[16..20]), map[]);
      }
    }
  }

  /** Saving accepts fields the loader refuses: without the WAL's cap the round trip holds
      exactly when every key and value is within the loader's own. */
  lemma RoundTripIffLoadable(image: Bytes, m: Map, walOffset: nat)
    requires IsImage(image, m, walOffset) && walOffset <= U64_MAX
    ensures DecodeSnapshot(image) == Loaded(m, |m|, walOffset) <==> Loadable(m)
  {
    if Loadable(m) {
      ImageLoads(image, m, walOffset);
    }
    LoadedIsLoadable(Some(image));
  }

  // ---------- The bytes on disk ----------

  /** The header: "KVS1", version 1, the WAL offset and the entry count, low bytes first. */
  lemma HeaderBytes()
    ensures Header(0x0807_0605_0403_0201, 0x0C0B_0A09) ==
            [0x4B, 0x56, 0x53, 0x31, 1, 0, 0, 0, 1, 2, 3, 4, 5, 6, 7, 8, 9, 10, 11, 12]
  {
    hide Encode;
    FourBytes(0x4B, 0x56, 0x53, 0x31);
    FourBytes(1, 0, 0, 0);
    FourBytes(1, 2, 3, 4);
    FourBytes(5, 6, 7, 8);
    TwoHalves(0x0403_0201, 0x0807_0605);
    FourBytes(9, 10, 11, 12);
  }

  lemma EntryBytes(x: byte, y: byte, z: byte)
    ensures EncodeEntry(Entry([x], [y, z])) == [1, 0, 0, 0, x, 2, 0, 0, 0, y, z]
    ensures EncodeLegacy([Entry([x], [y, z])]) == [1, 0, 0, 0, 1, 0, 0, 0, x, 2, 0, 0, 0, y, z]
  {
    var e := Entry([x], [y, z]);
    hide Encode;
    SmallEncoding(1);
    SmallEncoding(2);
    assert [e][1..] == [] && EncodeEntries([e]) == EncodeEntry(e) + EncodeEntries([]);
  }

  /** The cap on keys and values is 64 MiB, and a field one byte longer is refused. */
  lemma FieldCap(s: Bytes)
    ensures Encode(MAX_FIELD, 4) == [0, 0, 0, 4]
    ensures DecodeField([1, 0, 0, 4] + s) == OversizedField
  {
    assert Encode(MAX_FIELD, 4) == [0, 0, 0, 4] && Encode(MAX_FIELD + 1, 4) == [1, 0, 0, 4];
    U32RoundTrip(MAX_FIELD + 1);
    assert ([1, 0, 0, 4] + s)[..4] == [1, 0, 0, 4];
  }

  /** Under the magic number any version but 1 is refused, whatever follows. */
  lemma OtherVersionsRefused(version: nat, rest: Bytes)
    requires version <= U32_MAX && version != 1
    ensures DecodeSnapshot([0x4B, 0x56, 0x53, 0x31] + (Encode(version, 4) + rest)) == Failed(BadMetadata)
  {
    var b := [0x4B, 0x56, 0x53, 0x31] + (Encode(version, 4) + rest);
    assert Encode(0x3153_564B, 4) == [0x4B, 0x56, 0x53, 0x31];
    U32RoundTrip(0x3153_564B);
    U32RoundTrip(version);
    assert b[..4] == [0x4B, 0x56, 0x53, 0x31] && b[4..8] == Encode(version, 4);
  }
}
