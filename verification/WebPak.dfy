/** Building a web pack: the launcher manifest, and the pack that holds it and the resources. */
module WebPak {
  import opened Bytes
  import opened DataPack

  const MAX_RESOURCE_COUNT := 0xFFFF
  const MAX_RESOURCE_BYTES := 64 * 1024 * 1024
  const DATAPACK_VERSION: Word := 4

  // Paths are ASCII: sources with other names are not collected.
  type Ascii = x: int | 0 <= x < 0x80

  datatype Resource = Resource(id: Word, path: seq<Ascii>, payload: seq<Byte>)

  datatype BuildError = NoResources | TooManyResources | TooLong
  datatype Built = Built(bytes: seq<Byte>) | Failed(error: BuildError)

  // ----- the manifest

  function Utf16(path: seq<Ascii>): (b: seq<Byte>)
    ensures |b| == 2 * |path|
  {
    if path == [] then [] else Utf16(path[..|path| - 1]) + [path[|path| - 1], 0]
  }

  lemma {:induction false} Utf16At(path: seq<Ascii>, k: nat)
    requires k < |path|
    ensures Utf16(path)[2 * k] == path[k] && Utf16(path)[2 * k + 1] == 0
  {
    if k < |path| - 1 {
      Utf16At(path[..|path| - 1], k);
    }
  }

  function Padding(n: nat): seq<Byte> {
    if n % 4 == 0 then [] else if n % 4 == 1 then [0, 0, 0] else if n % 4 == 2 then [0, 0] else [0]
  }

  lemma PaddedLength(n: nat)
    ensures (12 + n + |Padding(n)|) % 4 == 0
  {
  }

  /** The identifier in record i: that of the resource before it, and in the first record its own. */
  function LinkedId(resources: seq<Resource>, i: nat): Word
    requires i < |resources|
  {
    if i == 0 then resources[0].id else resources[i - 1].id
  }

  predicate PathFits(r: Resource) {
    |r.path| < 0x1_0000_0000
  }

  function RecordHead(resources: seq<Resource>, i: nat): (b: seq<Byte>)
    requires i < |resources| && PathFits(resources[i])
    ensures |b| == 12
  {
    LittleBytes(if i == 0 then 1 else 3) + LittleBytes(LinkedId(resources, i)) + LittleBytes(|resources[i].path|)
  }

  function Record(resources: seq<Resource>, i: nat): (b: seq<Byte>)
    requires i < |resources| && PathFits(resources[i])
    ensures |b| % 4 == 0 && |b| == 12 + 2 * |resources[i].path| + |Padding(2 * |resources[i].path|)|
  {
    PaddedLength(2 * |resources[i].path|);
    RecordHead(resources, i) + Utf16(resources[i].path) + Padding(2 * |resources[i].path|)
  }

  /** The first n records. */
  function Records(resources: seq<Resource>, n: nat): seq<Byte>
    requires n <= |resources| && forall i :: 0 <= i < n ==> PathFits(resources[i])
    decreases n
  {
    if n == 0 then [] else Records(resources, n - 1) + Record(resources, n - 1)
  }

  lemma {:induction false} RecordsAligned(resources: seq<Resource>, n: nat)
    requires n <= |resources| && forall i :: 0 <= i < n ==> PathFits(resources[i])
    ensures |Records(resources, n)| % 4 == 0
    decreases n
  {
    hide Record;
    if n > 0 {
      RecordsAligned(resources, n - 1);
      FourMore(|Records(resources, n - 1)|, |Record(resources, n - 1)|);
    }
  }

  lemma FourMore(a: nat, b: nat)
    requires a % 4 == 0 && b % 4 == 0
    ensures (a + b) % 4 == 0
  {
  }

  ghost predicate ManifestFits(resources: seq<Resource>) {
    && resources != [] && (forall i :: 0 <= i < |resources| ==> PathFits(resources[i]))
    && 12 + |Records(resources, |resources|)| < 0x1_0000_0000
  }

  /** Length, version, records, and a trailer with the last identifier. The length leaves itself out. */
  ghost function Manifest(resources: seq<Resource>): (b: seq<Byte>)
    requires ManifestFits(resources)
    ensures |b| == 16 + |Records(resources, |resources|)|
  {
    var records := Records(resources, |resources|);
    LittleBytes(12 + |records|) + LittleBytes(7) + records + LittleBytes(3) + LittleBytes(resources[|resources| - 1].id)
  }

  /** Appends zeros up to a multiple of four. */
  method Pad(manifest: seq<Byte>) returns (padded: seq<Byte>)
    ensures padded == manifest + Padding(|manifest|)
  {
    padded := manifest;
    while |padded| % 4 != 0
      invariant padded + Padding(|padded|) == manifest + Padding(|manifest|)
      decreases |Padding(|padded|)|
    {
      assert Padding(|padded|) == [0] + Padding(|padded| + 1);
      padded := padded + [0];
    }
  }

  /** The padding of a record brings the whole manifest to a multiple of four. */
  lemma RecordPadded(before: nat, n: nat)
    requires before % 4 == 0
    ensures Padding(before + 12 + n) == Padding(n)
  {
    assert (before + 12 + n) % 4 == n % 4;
  }

  lemma RecordAppended(start: seq<Byte>, resources: seq<Resource>, i: nat)
    requires |start| == 8 && i < |resources| && forall k :: 0 <= k <= i ==> PathFits(resources[k])
    ensures var path := resources[i].path;
      var unpadded := start + Records(resources, i) + RecordHead(resources, i) + Utf16(path);
      unpadded + Padding(|unpadded|) == start + Records(resources, i + 1)
  {
    hide RecordHead, Utf16, Padding;
    var path, before := resources[i].path, Records(resources, i);
    RecordsAligned(resources, i);
    FourMore(8, |before|);
    RecordPadded(8 + |before|, 2 * |path|);
    assert Records(resources, i + 1) == before + Record(resources, i);
  }

  lemma NoRecords(resources: seq<Resource>)
    ensures Records(resources, 0) == []
  {
  }

  /** Builds the manifest; its length is entered at the end. */
  method BuildQlManifest(resources: seq<Resource>) returns (r: Built)
    ensures resources == [] ==> r == Failed(NoResources)
    ensures resources != [] ==> (r.Built? <==> ManifestFits(resources))
    ensures r.Built? ==> ManifestFits(resources) && r.bytes == Manifest(resources) && |r.bytes| % 4 == 0
    ensures r.Failed? && resources != [] ==> r.error == TooLong
  {
    hide Record, Records, LittleBytes, Padding;
    if resources == [] { return Failed(NoResources); }
    var manifest := LittleBytes(0) + LittleBytes(7);
    ghost var start := manifest;
    assert manifest == start + Records(resources, 0) by { NoRecords(resources); }
    for index := 0 to |resources|
      invariant forall i :: 0 <= i < index ==> PathFits(resources[i])
      invariant manifest == start + Records(resources, index)
    {
      var resource := resources[index];
      var linkedId := if index == 0 then resource.id else resources[index - 1].id;
      if |resource.path| >= 0x1_0000_0000 {
        assert !PathFits(resources[index]);
        return Failed(TooLong);
      }
      manifest := manifest
        + (LittleBytes(if index == 0 then 1 else 3) + LittleBytes(linkedId) + LittleBytes(|resource.path|));
      manifest := manifest + Utf16(resource.path);
      RecordAppended(start, resources, index);
      manifest := Pad(manifest);
    }
    ghost var records := Records(resources, |resources|);
    var trailer := LittleBytes(3) + LittleBytes(resources[|resources| - 1].id);
    manifest := manifest + trailer;
    if |manifest| - 4 >= 0x1_0000_0000 {
      return Failed(TooLong);
    }
    RecordsAligned(resources, |resources|);
    FourMore(16, |records|);
    assert manifest[4..] == LittleBytes(7) + records + trailer;
    manifest := LittleBytes(|manifest| - 4) + manifest[4..];
    return Built(manifest);
  }

  // ----- the pack

  function Joined(payloads: seq<seq<Byte>>, n: nat): seq<Byte>
    requires n <= |payloads|
  {
    if n == 0 then [] else Joined(payloads, n - 1) + payloads[n - 1]
  }

  /** Where a payload begins, if the tables take this many bytes. */
  function OffsetOf(payloads: seq<seq<Byte>>, tables: nat, i: nat): nat
    requires i <= |payloads|
  {
    if i == 0 then tables else OffsetOf(payloads, tables, i - 1) + |payloads[i - 1]|
  }

  function TablesSize(count: nat): nat {
    9 + (count + 1) * 6
  }

  ghost predicate PackFits(payloads: seq<seq<Byte>>) {
    && 0 < |payloads| <= MAX_RESOURCE_COUNT
    && OffsetOf(payloads, TablesSize(|payloads|), |payloads|) < 0x1_0000_0000
  }

  lemma {:induction false} OffsetsStayBelow(payloads: seq<seq<Byte>>, tables: nat, i: nat, n: nat)
    requires i <= n <= |payloads|
    ensures tables <= OffsetOf(payloads, tables, i) <= OffsetOf(payloads, tables, n)
    decreases n
  {
    if i < n {
      OffsetsStayBelow(payloads, tables, i, n - 1);
    } else if 0 < n {
      OffsetsStayBelow(payloads, tables, n - 1, n - 1);
    }
  }

  /** The first n entries: payload numbers and offsets. */
  ghost function Entries(payloads: seq<seq<Byte>>, n: nat): (b: seq<Byte>)
    requires PackFits(payloads) && n <= |payloads|
    ensures |b| == 6 * n
    decreases n
  {
    if n == 0 then []
    else
      OffsetsStayBelow(payloads, TablesSize(|payloads|), n - 1, |payloads|);
      Entries(payloads, n - 1) + (HalfBytes(n - 1) + LittleBytes(OffsetOf(payloads, TablesSize(|payloads|), n - 1)))
  }

  /** The last entry: no identifier, and the length of the whole pack. */
  ghost function Sentinel(payloads: seq<seq<Byte>>): (b: seq<Byte>)
    requires PackFits(payloads)
    ensures |b| == 6
  {
    HalfBytes(0) + LittleBytes(OffsetOf(payloads, TablesSize(|payloads|), |payloads|))
  }

  ghost function PackBytes(payloads: seq<seq<Byte>>): seq<Byte>
    requires PackFits(payloads)
  {
    LittleBytes(DATAPACK_VERSION) + LittleBytes(|payloads|) + [0]
    + Entries(payloads, |payloads|) + Sentinel(payloads)
    + Joined(payloads, |payloads|)
  }

  function PayloadsOf(resources: seq<Resource>): seq<seq<Byte>> {
    seq(|resources|, i requires 0 <= i < |resources| => resources[i].payload)
  }

  /** The payloads of the pack: the manifest, and those of the resources. */
  ghost function AllPayloads(resources: seq<Resource>): seq<seq<Byte>>
    requires ManifestFits(resources)
  {
    [Manifest(resources)] + PayloadsOf(resources)
  }

  /** Builds the pack. */
  method EncodeWebPak(resources: seq<Resource>) returns (r: Built)
    ensures resources == [] ==> r == Failed(NoResources)
    ensures r.Built? <==> ManifestFits(resources) && PackFits(AllPayloads(resources))
    ensures r.Built? ==> r.bytes == PackBytes(AllPayloads(resources))
    ensures ManifestFits(resources) && MAX_RESOURCE_COUNT <= |resources| ==> r == Failed(TooManyResources)
  {
    hide Manifest, ManifestFits, LittleBytes, HalfBytes, Entries, Joined, OffsetOf, Sentinel;
    if resources == [] {
      assert !ManifestFits(resources) by { NothingFits(); }
      return Failed(NoResources);
    }
    var built := BuildQlManifest(resources);
    if built.Failed? { return built; }
    var payloads := [built.bytes] + PayloadsOf(resources);
    if |payloads| > MAX_RESOURCE_COUNT { return Failed(TooManyResources); }
    var entries, ok := EncodeEntries(payloads);
    if !ok { return Failed(TooLong); }
    var header := LittleBytes(DATAPACK_VERSION) + LittleBytes(|payloads|) + [0];
    var joined := JoinPayloads(header + entries, payloads);
    return Built(joined);
  }

  /** Appends the payloads to the tables. */
  method JoinPayloads(tables: seq<Byte>, payloads: seq<seq<Byte>>) returns (bytes: seq<Byte>)
    ensures bytes == tables + Joined(payloads, |payloads|)
  {
    hide Joined;
    bytes := tables;
    assert Joined(payloads, 0) == [] by { NothingJoined(payloads); }
    for i := 0 to |payloads|
      invariant bytes == tables + Joined(payloads, i)
    {
      NextJoined(payloads, i);
      bytes := bytes + payloads[i];
    }
  }

  lemma NothingFits()
    ensures !ManifestFits([])
  {
  }

  lemma NothingJoined(payloads: seq<seq<Byte>>)
    ensures Joined(payloads, 0) == []
  {
  }

  lemma NextJoined(payloads: seq<seq<Byte>>, n: nat)
    requires n < |payloads|
    ensures Joined(payloads, n + 1) == Joined(payloads, n) + payloads[n]
  {
  }

  /** Packs the entries and the sentinel, as far as the offsets fit in four bytes. */
  method EncodeEntries(payloads: seq<seq<Byte>>) returns (entries: seq<Byte>, ok: bool)
    requires 0 < |payloads| <= MAX_RESOURCE_COUNT
    ensures ok <==> PackFits(payloads)
    ensures ok ==> entries == Entries(payloads, |payloads|) + Sentinel(payloads)
  {
    hide LittleBytes, HalfBytes;
    ghost var size := TablesSize(|payloads|);
    var nextOffset := 9 + (|payloads| + 1) * 6;
    entries := [];
    for i := 0 to |payloads|
      invariant nextOffset == OffsetOf(payloads, size, i)
      invariant PackFits(payloads) ==> entries == Entries(payloads, i)
    {
      OffsetsStayBelow(payloads, size, i, |payloads|);
      if nextOffset >= 0x1_0000_0000 { return entries, false; }
      entries := entries + (HalfBytes(i) + LittleBytes(nextOffset));
      nextOffset := nextOffset + |payloads[i]|;
    }
    if nextOffset >= 0x1_0000_0000 { return entries, false; }
    entries := entries + (HalfBytes(0) + LittleBytes(nextOffset));
    return entries, true;
  }

  // ----- what the engine's inspection finds in it

  lemma {:induction false} EntryAt(payloads: seq<seq<Byte>>, n: nat, i: nat)
    requires PackFits(payloads) && i < n <= |payloads|
    ensures 0 <= OffsetOf(payloads, TablesSize(|payloads|), i) < 0x1_0000_0000
    ensures Entries(payloads, n)[6 * i..6 * i + 6]
      == HalfBytes(i) + LittleBytes(OffsetOf(payloads, TablesSize(|payloads|), i))
    decreases n
  {
    OffsetsStayBelow(payloads, TablesSize(|payloads|), i, |payloads|);
    hide LittleBytes, HalfBytes;
    if i < n - 1 {
      EntryAt(payloads, n - 1, i);
      assert Entries(payloads, n)[6 * i..6 * i + 6] == Entries(payloads, n - 1)[6 * i..6 * i + 6];
    }
  }

  /** The layout of a built pack. */
  function BuiltLayout(count: nat): Layout {
    Layout(4, count, 0, 9, 9, 9 + 6 * (count + 1), 9 + 6 * (count + 1))
  }

  /** Reading six bytes as an entry. */
  lemma EntryRead(bytes: seq<Byte>, at: nat, id: Half, offset: Word)
    requires at + 6 <= |bytes| && bytes[at..at + 6] == HalfBytes(id) + LittleBytes(offset)
    ensures HalfAt(bytes, at) == id && WordAt(bytes, at + 2) == offset
  {
    var e := bytes[at..at + 6];
    HalfOfBytes(id);
    LittleWordOfBytes(offset);
    hide HalfBytes, LittleBytes, LittleWord, LittleHalf;
    assert bytes[at..at + 2] == e[..2] == HalfBytes(id);
    assert bytes[at + 2..at + 6] == e[2..] == LittleBytes(offset);
  }

  lemma SubSlice(bytes: seq<Byte>, before: seq<Byte>, part: seq<Byte>, after: seq<Byte>, at: nat, n: nat)
    requires bytes == before + part + after && at + n <= |part|
    ensures bytes[|before| + at..|before| + at + n] == part[at..at + n]
  {
  }

  /** Entry i of a built pack has identifier i and the offset of payload i; the sentinel, identifier 0
      and the length of the pack. */
  lemma BuiltEntries(payloads: seq<seq<Byte>>, i: nat)
    requires PackFits(payloads) && i <= |payloads|
    ensures var bytes, l := PackBytes(payloads), BuiltLayout(|payloads|);
      && EntryId(bytes, l, i) == (if i < |payloads| then i else 0)
      && EntryOffset(bytes, l, i) == OffsetOf(payloads, TablesSize(|payloads|), i)
  {
    hide LittleBytes, HalfBytes, Entries, Joined, OffsetOf, WordAt, HalfAt;
    var bytes, count, size := PackBytes(payloads), |payloads|, TablesSize(|payloads|);
    var head, entries := LittleBytes(DATAPACK_VERSION) + LittleBytes(count) + [0], Entries(payloads, count);
    OffsetsStayBelow(payloads, size, i, count);
    var sentinel := Sentinel(payloads);
    if i < count {
      EntryAt(payloads, count, i);
      assert bytes == head + entries + (sentinel + Joined(payloads, count));
      SubSlice(bytes, head, entries, sentinel + Joined(payloads, count), 6 * i, 6);
      EntryRead(bytes, 9 + 6 * i, i, OffsetOf(payloads, size, i));
    } else {
      assert bytes == (head + entries) + sentinel + Joined(payloads, count);
      SubSlice(bytes, head + entries, sentinel, Joined(payloads, count), 0, 6);
      EntryRead(bytes, 9 + 6 * i, 0, OffsetOf(payloads, size, i));
    }
  }

  lemma HeaderOfVersion4(bytes: seq<Byte>, count: nat)
    requires 9 + 6 * (count + 1) <= |bytes| && 0 < count <= MAX_RESOURCE_COUNT
    requires WordAt(bytes, 0) == 4 && WordAt(bytes, 4) == count
    ensures HeaderLayout(bytes) == Ok(BuiltLayout(count))
  {
    hide WordAt, HalfAt;
  }

  lemma BuiltHeader(payloads: seq<seq<Byte>>)
    requires PackFits(payloads)
    ensures HeaderLayout(PackBytes(payloads)) == Ok(BuiltLayout(|payloads|))
  {
    hide LittleBytes, HalfBytes, Entries, Joined, OffsetOf, LittleWord, HeaderLayout;
    var bytes, count := PackBytes(payloads), |payloads|;
    var head, rest := LittleBytes(DATAPACK_VERSION) + LittleBytes(count) + [0], Entries(payloads, count);
    assert bytes == head + (rest + Sentinel(payloads) + Joined(payloads, count));
    assert bytes[0..4] == head[..4] == LittleBytes(DATAPACK_VERSION);
    assert bytes[4..8] == head[4..8] == LittleBytes(count);
    LittleWordOfBytes(DATAPACK_VERSION);
    LittleWordOfBytes(count);
    HeaderOfVersion4(bytes, count);
  }

  lemma {:induction false} JoinedAt(payloads: seq<seq<Byte>>, tables: nat, i: nat, n: nat)
    requires i < n <= |payloads|
    ensures tables <= OffsetOf(payloads, tables, i)
    ensures OffsetOf(payloads, tables, n) == tables + |Joined(payloads, n)|
    ensures OffsetOf(payloads, tables, i) - tables + |payloads[i]| <= |Joined(payloads, n)|
    ensures Joined(payloads, n)[OffsetOf(payloads, tables, i) - tables..][..|payloads[i]|] == payloads[i]
    decreases n
  {
    if i < n - 1 {
      JoinedAt(payloads, tables, i, n - 1);
    } else {
      JoinedSize(payloads, tables, i);
    }
  }

  lemma {:induction false} JoinedSize(payloads: seq<seq<Byte>>, tables: nat, n: nat)
    requires n <= |payloads|
    ensures OffsetOf(payloads, tables, n) == tables + |Joined(payloads, n)|
    decreases n
  {
    if n > 0 {
      JoinedSize(payloads, tables, n - 1);
    }
  }

  /** A built pack passes the inspection, and every payload is the slice between its bounds. */
  lemma BuiltPackIsPack(payloads: seq<seq<Byte>>)
    requires PackFits(payloads)
    ensures IsPack(PackBytes(payloads), BuiltLayout(|payloads|))
    ensures |PackBytes(payloads)| == OffsetOf(payloads, TablesSize(|payloads|), |payloads|)
  {
    hide LittleBytes, HalfBytes, EntryId, EntryOffset, HeaderLayout;
    var bytes, l, count, size := PackBytes(payloads), BuiltLayout(|payloads|), |payloads|, TablesSize(|payloads|);
    BuiltHeader(payloads);
    JoinedSize(payloads, size, count);
    forall i | 0 <= i <= count
      ensures EntryId(bytes, l, i) == (if i < count then i else 0)
      ensures EntryOffset(bytes, l, i) == OffsetOf(payloads, size, i) <= |bytes|
      ensures 0 < i ==> OffsetOf(payloads, size, i - 1) <= OffsetOf(payloads, size, i)
    {
      BuiltEntries(payloads, i);
      OffsetsStayBelow(payloads, size, i, count);
      if 0 < i { OffsetsStayBelow(payloads, size, i - 1, i); }
    }
  }

  lemma PayloadLies(payloads: seq<seq<Byte>>, i: nat)
    requires PackFits(payloads) && i < |payloads|
    ensures var bytes, at := PackBytes(payloads), OffsetOf(payloads, TablesSize(|payloads|), i);
      at + |payloads[i]| <= |bytes| && bytes[at..at + |payloads[i]|] == payloads[i]
  {
    hide LittleBytes, HalfBytes, Entries, OffsetOf, Joined;
    var bytes, count, size := PackBytes(payloads), |payloads|, TablesSize(|payloads|);
    JoinedAt(payloads, size, i, count);
    var tables := LittleBytes(DATAPACK_VERSION) + LittleBytes(count) + [0] + Entries(payloads, count) + Sentinel(payloads);
    assert bytes == tables + Joined(payloads, count) + [];
    SubSlice(bytes, tables, Joined(payloads, count), [], OffsetOf(payloads, size, i) - size, |payloads[i]|);
  }

  lemma PayloadIsSlice(payloads: seq<seq<Byte>>, i: nat)
    requires PackFits(payloads) && i < |payloads|
    ensures var bytes, l := PackBytes(payloads), BuiltLayout(|payloads|);
      var bounds := ResourceBounds(bytes, l, i);
      bounds.Some? && bounds.value.0 <= bounds.value.1 <= |bytes| && bytes[bounds.value.0..bounds.value.1] == payloads[i]
  {
    hide PackBytes, IsPack, EntryOffset, EntryId;
    var bytes, l, size := PackBytes(payloads), BuiltLayout(|payloads|), TablesSize(|payloads|);
    BuiltPackIsPack(payloads);
    BuiltEntries(payloads, i);
    BuiltEntries(payloads, i + 1);
    ResourcesAreApart(bytes, l, i);
    PayloadLies(payloads, i);
    assert OffsetOf(payloads, size, i + 1) == OffsetOf(payloads, size, i) + |payloads[i]|;
  }
}
