/** What becomes of a built web pack in the engine: every resource is found under its path with its
    payload, exactly if the engine can read all the paths and the pack is not too large. */
module WebPakRoundTrip {
  import opened Bytes
  import opened DataPack
  import opened WebPak
  import opened WebPakLoad

  const MAX_VIRTUAL_PATH := 255

  /** One of the names between the slashes is two dots. */
  predicate HasParent(p: seq<Ascii>) {
    exists i :: 0 <= i < |p| - 1 && p[i] == 0x2E && p[i + 1] == 0x2E
      && (i == 0 || p[i - 1] == 0x2F) && (i + 2 == |p| || p[i + 2] == 0x2F)
  }

  predicate Allowed(c: Ascii) {
    c != 0x3A && c != 0x5C && c != 0 && !(0x41 <= c <= 0x5A)
  }

  /** A path that the script accepts for a source. */
  predicate CheckedPath(p: seq<Ascii>) {
    0 < |p| <= MAX_VIRTUAL_PATH && p[0] != 0x2F && !HasParent(p) && forall k :: 0 <= k < |p| ==> Allowed(p[k])
  }

  /** A path that the engine can read. */
  predicate EngineReads(p: seq<Ascii>) {
    |p| < MAX_QPATH && !HasDots(p) && forall k :: 0 <= k < |p| ==> 0x20 <= p[k] && p[k] != 0x7F
  }

  /** The script accepts paths that the engine cannot read: one of 64 letters. */
  lemma LongPathIsLost()
    ensures CheckedPath(seq(MAX_QPATH, _ => 0x61)) && !EngineReads(seq(MAX_QPATH, _ => 0x61))
  {
  }

  /** Resources as the script collects them: numbered from 1, with different accepted paths. */
  ghost predicate CollectedResources(resources: seq<Resource>) {
    && resources != []
    && (forall i :: 0 <= i < |resources| ==> resources[i].id == i + 1 && CheckedPath(resources[i].path))
    && (forall i, j :: 0 <= i < j < |resources| ==> resources[i].path != resources[j].path)
  }

  /** The table with all paths and identifiers. */
  function Expected(resources: seq<Resource>): seq<PathEntry>
    requires |resources| < 0xFFFF
  {
    seq(|resources|, i requires 0 <= i < |resources| => PathEntry(resources[i].path, i + 1))
  }

  lemma PathRead(p: seq<Ascii>, b: seq<Byte>)
    requires CheckedPath(p) && b == Utf16(p)
    ensures PathOf(b, |p|) == if EngineReads(p) then Some(p) else None
  {
    hide HasParent, Utf16;
    forall k | 0 <= k < |p|
      ensures b[2 * k] == p[k] && b[2 * k + 1] == 0 && Allowed(p[k])
    {
      Utf16At(p, k);
    }
    assert Units(b, |p|) == p;
    assert AllLowered(p) == p;
    UnitsAreReadable(p, b);
    assert 0x3A !in p;
  }

  lemma UnitsAreReadable(p: seq<Ascii>, b: seq<Byte>)
    requires |b| == 2 * |p|
    requires forall k :: 0 <= k < |p| ==> b[2 * k] == p[k] && b[2 * k + 1] == 0
    ensures UnitsReadable(b, |p|) <==> forall k :: 0 <= k < |p| ==> 0x20 <= p[k] && p[k] != 0x7F
  {
    if UnitsReadable(b, |p|) {
      forall k | 0 <= k < |p|
        ensures 0x20 <= p[k] && p[k] != 0x7F
      {
        assert UnitReadable(b[2 * k], b[2 * k + 1]);
      }
    }
  }

  // ----- records in the manifest

  lemma {:induction false} RecordIn(resources: seq<Resource>, i: nat, n: nat)
    requires i < n <= |resources| && forall k :: 0 <= k < n ==> PathFits(resources[k])
    ensures |Records(resources, i)| + |Record(resources, i)| <= |Records(resources, n)|
    ensures Records(resources, n)[|Records(resources, i)|..][..|Record(resources, i)|] == Record(resources, i)
    decreases n
  {
    hide Record, Records;
    NextRecords(resources, n - 1);
    if i < n - 1 {
      RecordIn(resources, i, n - 1);
      StillInside(Records(resources, n - 1), Record(resources, n - 1), |Records(resources, i)|, |Record(resources, i)|);
    } else {
      StillInside(Records(resources, i), Record(resources, i), |Records(resources, i)|, 0);
    }
  }

  lemma StillInside(s: seq<Byte>, t: seq<Byte>, at: nat, k: nat)
    requires at + k <= |s|
    ensures (s + t)[at..][..k] == s[at..][..k] && (s + t)[|s|..] == t
  {
  }

  lemma Inside(m: seq<Byte>, at: nat, part: seq<Byte>, lo: nat, hi: nat)
    requires at + |part| <= |m| && m[at..at + |part|] == part && lo <= hi <= |part|
    ensures m[at + lo..at + hi] == part[lo..hi]
  {
    forall k | 0 <= k < hi - lo
      ensures m[at + lo..at + hi][k] == part[lo..hi][k]
    {
      assert m[at..at + |part|][lo + k] == part[lo + k];
    }
  }

  /** Where record i begins. */
  ghost function RecordPlace(resources: seq<Resource>, i: nat): nat
    requires i <= |resources| && forall k :: 0 <= k < |resources| ==> PathFits(resources[k])
  {
    8 + |Records(resources, i)|
  }

  lemma WordInside(m: seq<Byte>, at: nat, w: Word)
    requires at + 4 <= |m| && m[at..at + 4] == LittleBytes(w)
    ensures WordAt(m, at) == w
  {
    LittleWordOfBytes(w);
  }

  lemma RecordParts(resources: seq<Resource>, i: nat)
    requires i < |resources| && PathFits(resources[i])
    ensures var record, n := Record(resources, i), |resources[i].path|;
      && record[4..8] == LittleBytes(LinkedId(resources, i)) && record[8..12] == LittleBytes(n)
      && record[12..12 + 2 * n] == Utf16(resources[i].path)
  {
    hide LittleBytes, Utf16, Padding;
  }

  /** The fields of record i as they lie in the manifest. */
  lemma RecordFields(resources: seq<Resource>, i: nat)
    requires ManifestFits(resources) && i < |resources|
    ensures var m, at, n := Manifest(resources), RecordPlace(resources, i), |resources[i].path|;
      && at + 12 + 2 * n <= RecordPlace(resources, i + 1) <= |m| - 8
      && WordAt(m, at + 4) == LinkedId(resources, i) && WordAt(m, at + 8) == n
      && m[at + 12..at + 12 + 2 * n] == Utf16(resources[i].path)
      && RoundedUp(at + 12 + 2 * n) == RecordPlace(resources, i + 1)
  {
    hide Records, LittleBytes, Utf16, Padding, WordAt, Record;
    var m, at, n := Manifest(resources), RecordPlace(resources, i), |resources[i].path|;
    var records, record := Records(resources, |resources|), Record(resources, i);
    RecordIn(resources, i, |resources|);
    assert |Records(resources, i + 1)| == |Records(resources, i)| + |record| by { NextRecords(resources, i); }
    assert m[8..8 + |records|] == records;
    Inside(m, 8, records, at - 8, at - 8 + |record|);
    assert m[at..at + |record|] == record;
    Inside(m, at, record, 4, 8);
    Inside(m, at, record, 8, 12);
    Inside(m, at, record, 12, 12 + 2 * n);
    RecordParts(resources, i);
    WordInside(m, at + 4, LinkedId(resources, i));
    WordInside(m, at + 8, n);
    RecordsAligned(resources, i);
    FourMore(8, |Records(resources, i)|);
    RecordPadded(at, 2 * n);
  }

  lemma NextRecords(resources: seq<Resource>, i: nat)
    requires i < |resources| && forall k :: 0 <= k <= i ==> PathFits(resources[k])
    ensures Records(resources, i + 1) == Records(resources, i) + Record(resources, i)
  {
  }

  lemma ManifestEnds(resources: seq<Resource>)
    requires ManifestFits(resources)
    ensures var m := Manifest(resources);
      && WordAt(m, 0) == |m| - 4 && WordAt(m, |m| - 4) == resources[|resources| - 1].id
      && RecordPlace(resources, |resources|) == |m| - 8
  {
    hide Records, LittleBytes, WordAt;
    var m := Manifest(resources);
    assert m[0..4] == LittleBytes(|m| - 4);
    assert m[|m| - 4..|m|] == LittleBytes(resources[|resources| - 1].id);
    WordInside(m, 0, |m| - 4);
    WordInside(m, |m| - 4, resources[|resources| - 1].id);
  }

  // ----- reading it back

  /** Resources that the script collects and can pack. */
  ghost predicate Packed(resources: seq<Resource>) {
    CollectedResources(resources) && ManifestFits(resources) && PackFits(AllPayloads(resources))
  }

  /** The pack of these resources, and its layout. */
  ghost predicate BuiltFrom(resources: seq<Resource>, bytes: seq<Byte>, l: Layout) {
    && Packed(resources) && |resources| < MAX_RESOURCE_COUNT
    && bytes == PackBytes(AllPayloads(resources)) && l == BuiltLayout(|resources| + 1)
  }

  /** The engine can read the paths from i on. */
  ghost predicate ReadableFrom(resources: seq<Resource>, i: nat) {
    forall k :: i <= k < |resources| ==> EngineReads(resources[k].path)
  }

  lemma IdsAreThere(resources: seq<Resource>, bytes: seq<Byte>, l: Layout, id: Half)
    requires BuiltFrom(resources, bytes, l) && 0 <= id <= |resources|
    ensures HasResource(bytes, l, id) && Finds(bytes, l, id, id)
  {
    hide EntryId, PackBytes;
    BuiltEntries(AllPayloads(resources), id);
    assert IsEntryOf(bytes, l, id, id);
  }

  function PendingAt(resources: seq<Resource>, i: nat): Option<seq<Byte>>
    requires i <= |resources|
  {
    if i == 0 then None else Some(resources[i - 1].path)
  }

  function CountAt(i: nat): nat {
    if i == 0 then 0 else i - 1
  }

  /** One record more: if its path can be read, the path of the record before it enters the table. */
  lemma RecordReads(resources: seq<Resource>, bytes: seq<Byte>, l: Layout, i: nat)
    requires BuiltFrom(resources, bytes, l) && i < |resources|
    ensures var m := Manifest(resources);
      Recorded(bytes, l, m, RecordPlace(resources, i), PendingAt(resources, i), CountAt(i))
      == if !EngineReads(resources[i].path) then None
         else Joining(if i == 0 then [] else [PathEntry(resources[i - 1].path, i)],
                      Recorded(bytes, l, m, RecordPlace(resources, i + 1), PendingAt(resources, i + 1), CountAt(i + 1)))
  {
    hide Recorded, Manifest, RecordPlace, PathOf, WordAt, HasResource, Utf16, CheckedPath, EngineReads, PackBytes;
    hide RoundedUp, Joining, PackFits, HeaderLayout;
    var p := resources[i].path;
    assert LinkedId(resources, i) == if i == 0 then 1 else i;
    assert HasResource(bytes, l, LinkedId(resources, i)) by { IdsAreThere(resources, bytes, l, LinkedId(resources, i)); }
    PathRead(p, Utf16(p));
    PathHasLength(p);
    RecordFields(resources, i);
    RecordedNext(bytes, l, Manifest(resources), RecordPlace(resources, i), PendingAt(resources, i), CountAt(i));
  }

  lemma RecordsEnd(resources: seq<Resource>, bytes: seq<Byte>, l: Layout)
    requires BuiltFrom(resources, bytes, l)
    ensures var n := |resources|;
      Recorded(bytes, l, Manifest(resources), RecordPlace(resources, n), PendingAt(resources, n), CountAt(n))
      == Some(Expected(resources)[CountAt(n)..])
  {
    hide Recorded, Manifest, RecordPlace, WordAt, HasResource, CheckedPath, PackBytes, HeaderLayout, PackFits;
    var n := |resources|;
    ManifestEnds(resources);
    RecordedEnd(bytes, l, Manifest(resources), RecordPlace(resources, n), PendingAt(resources, n), CountAt(n));
    assert Expected(resources)[n - 1..] == [PathEntry(resources[n - 1].path, n)];
  }

  lemma {:induction false} RecordsRead(resources: seq<Resource>, bytes: seq<Byte>, l: Layout, i: nat)
    requires BuiltFrom(resources, bytes, l) && i <= |resources|
    ensures Recorded(bytes, l, Manifest(resources), RecordPlace(resources, i), PendingAt(resources, i), CountAt(i))
      == if ReadableFrom(resources, i) then Some(Expected(resources)[CountAt(i)..]) else None
    decreases |resources| - i
  {
    hide Recorded, Manifest, RecordPlace, CheckedPath, EngineReads, PackBytes, HeaderLayout, PackFits, ReadableFrom, Joining;
    if i == |resources| {
      RecordsEnd(resources, bytes, l);
      assert ReadableFrom(resources, i) by { NoneLeft(resources); }
    } else {
      RecordsRead(resources, bytes, l, i + 1);
      RecordReads(resources, bytes, l, i);
      ReadableNext(resources, i);
      JoinsExpected(resources, i);
    }
  }

  lemma NoneLeft(resources: seq<Resource>)
    ensures ReadableFrom(resources, |resources|)
  {
  }

  lemma ReadableNext(resources: seq<Resource>, i: nat)
    requires i < |resources|
    ensures ReadableFrom(resources, i) <==> EngineReads(resources[i].path) && ReadableFrom(resources, i + 1)
  {
    hide EngineReads;
  }

  lemma JoinsExpected(resources: seq<Resource>, i: nat)
    requires i < |resources| < 0xFFFF
    ensures CountAt(i + 1) <= |Expected(resources)| && CountAt(i) <= |Expected(resources)|
    ensures Joining(if i == 0 then [] else [PathEntry(resources[i - 1].path, i)], Some(Expected(resources)[CountAt(i + 1)..]))
      == Some(Expected(resources)[CountAt(i)..])
    ensures Joining(if i == 0 then [] else [PathEntry(resources[i - 1].path, i)], None) == None
  {
    var all := Expected(resources);
    if i == 0 {
      assert [] + all[0..] == all[0..];
    } else {
      assert all[i - 1..] == [PathEntry(resources[i - 1].path, i)] + all[i..];
    }
  }

  lemma PathHasLength(p: seq<Ascii>)
    requires CheckedPath(p)
    ensures |p| > 0 && (MAX_QPATH <= |p| ==> !EngineReads(p))
  {
  }

  /** The manifest of a built pack stands for all the paths, if the engine can read them. */
  lemma BuiltManifestReads(resources: seq<Resource>, bytes: seq<Byte>, l: Layout)
    requires BuiltFrom(resources, bytes, l)
    ensures IsPack(bytes, l) && 2 <= l.resourceCount && IsResource(bytes, l, 0, Manifest(resources))
    ensures TableOf(bytes, l, Manifest(resources))
      == if ReadableFrom(resources, 0) then Some(Expected(resources)) else None
  {
    hide Recorded, Manifest, RecordPlace, WordAt, HasResource, CheckedPath, EngineReads, PackBytes, IsPack, Records, Finds;
    var m, payloads := Manifest(resources), AllPayloads(resources);
    BuiltPackIsPack(payloads);
    PayloadIsSlice(payloads, 0);
    IdsAreThere(resources, bytes, l, 0);
    assert SliceIs(bytes, ResourceBounds(bytes, l, 0).value, m);
    assert IsResource(bytes, l, 0, m) by { assert Finds(bytes, l, 0, 0); }
    ManifestEnds(resources);
    IdsAreThere(resources, bytes, l, |resources|);
    RecordsRead(resources, bytes, l, 0);
    assert RecordPlace(resources, 0) == 8 by { FirstPlace(resources); }
    assert Expected(resources)[0..] == Expected(resources);
    assert NoDuplicates(Expected(resources));
  }

  /** The length of the pack of these resources. */
  ghost function PackLength(resources: seq<Resource>): nat
    requires ManifestFits(resources)
  {
    OffsetOf(AllPayloads(resources), TablesSize(|resources| + 1), |resources| + 1)
  }

  /** Loading the pack of collected resources: if the engine can read all paths and the pack is not too
      large, the table has every path with the identifier of its resource; else the pack is refused. */
  lemma BuiltPackLoads(resources: seq<Resource>, bytes: seq<Byte>, l: Layout, table: seq<PathEntry>)
    requires BuiltFrom(resources, bytes, l)
    ensures |bytes| == PackLength(resources)
    ensures Loads(bytes, table) <==>
      ReadableFrom(resources, 0) && PackLength(resources) <= 512 * 1024 * 1024 && table == Expected(resources)
  {
    hide Manifest, ReadableFrom, IsPack, TableOf, IsResource, Expected, CollectedResources, ManifestFits, PackBytes;
    hide OffsetOf, PackFits;
    BuiltManifestReads(resources, bytes, l);
    assert |bytes| == PackLength(resources) > 0 by {
      BuiltPackIsPack(AllPayloads(resources));
      OffsetsStayBelow(AllPayloads(resources), TablesSize(|resources| + 1), 0, |resources| + 1);
    }
    LoadsByManifest(bytes, l, Manifest(resources), table);
  }

  /** Nine resources as large as the script takes them, with the paths a to i. */
  function NineLarge(): (resources: seq<Resource>)
    ensures |resources| == 9
  {
    seq(9, i requires 0 <= i < 9 => Resource(i + 1, [0x61 + i], seq(MAX_RESOURCE_BYTES, _ => 0)))
  }

  /** The script packs these. */
  lemma NineLargePacked(resources: seq<Resource>)
    requires resources == NineLarge()
    ensures forall i :: 0 <= i < 9 ==> resources[i].path == [97 + i] && |resources[i].payload| == 67108864
    ensures Packed(resources) && ReadableFrom(resources, 0) && CL_WEB_PAK_MAX_BYTES < PackLength(resources)
  {
    hide Records, Manifest, OffsetOf, CheckedPath, EngineReads;
    forall i | 0 <= i < 9
      ensures resources[i].path == [0x61 + i] && CheckedPath(resources[i].path) && EngineReads(resources[i].path)
    {
      LetterIsGood(0x61 + i);
    }
    ShortRecords(resources, 9);
    EvenOffsets(AllPayloads(resources), TablesSize(10), MAX_RESOURCE_BYTES, 10);
  }

  lemma LetterIsGood(c: Ascii)
    requires 0x61 <= c <= 0x7A
    ensures CheckedPath([c]) && EngineReads([c])
  {
  }

  /** The engine can read all their paths, and yet refuses the pack. */
  lemma LargePackIsRefused(resources: seq<Resource>, bytes: seq<Byte>, l: Layout, table: seq<PathEntry>)
    requires resources == NineLarge() && BuiltFrom(resources, bytes, l)
    ensures ReadableFrom(resources, 0) && !Loads(bytes, table)
  {
    hide ReadableFrom, Packed, Loads, IsPack, PackBytes, Manifest, ManifestFits;
    NineLargePacked(resources);
    BuiltPackLoads(resources, bytes, l, table);
  }

  lemma {:induction false} ShortRecords(resources: seq<Resource>, n: nat)
    requires n <= |resources| && forall i :: 0 <= i < |resources| ==> |resources[i].path| == 1
    ensures |Records(resources, n)| == 16 * n
    decreases n
  {
    if n > 0 {
      ShortRecords(resources, n - 1);
    }
  }

  lemma {:induction false} EvenOffsets(payloads: seq<seq<Byte>>, tables: nat, size: nat, n: nat)
    requires 1 <= n <= |payloads| && forall i :: 1 <= i < |payloads| ==> |payloads[i]| == size
    ensures OffsetOf(payloads, tables, n) == tables + |payloads[0]| + (n - 1) * size
    decreases n
  {
    if n > 1 {
      EvenOffsets(payloads, tables, size, n - 1);
    } else {
      assert OffsetOf(payloads, tables, 0) == tables;
    }
  }

  lemma FirstPlace(resources: seq<Resource>)
    requires forall k :: 0 <= k < |resources| ==> PathFits(resources[k])
    ensures RecordPlace(resources, 0) == 8
  {
    NoRecords(resources);
  }

  /** Under the identifier of the table the engine finds the payload of the resource, and nothing else. */
  lemma PayloadComesBack(resources: seq<Resource>, bytes: seq<Byte>, l: Layout, i: nat, m: seq<Byte>)
    requires BuiltFrom(resources, bytes, l) && i < |resources|
    ensures IsPack(bytes, l)
    ensures IsResource(bytes, l, i + 1, m) <==> m == resources[i].payload
  {
    hide PackBytes, Manifest, Finds, ResourceBounds, CollectedResources, ManifestFits, PackFits, HasResource, IsPack;
    BuiltPackIsPack(AllPayloads(resources));
    IdsAreThere(resources, bytes, l, i + 1);
    PayloadIsSlice(AllPayloads(resources), i + 1);
    assert SliceIs(bytes, ResourceBounds(bytes, l, i + 1).value, resources[i].payload);
    OneResource(bytes, l, i + 1, resources[i].payload);
  }
}
