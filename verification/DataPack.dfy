/** The inspection of a Chromium DataPack before any of its tables is used, and finding and bounding
    its resources. */
module DataPack {
  import opened Bytes

  type Half = x: int | 0 <= x < 0x1_0000

  function LittleHalf(b: seq<Byte>): Half
    requires |b| == 2
  {
    b[0] + 0x100 * (b[1] as int)
  }

  function HalfBytes(w: Half): (b: seq<Byte>)
    ensures |b| == 2
  {
    [w % 0x100, w / 0x100]
  }

  lemma HalfOfBytes(w: Half)
    ensures LittleHalf(HalfBytes(w)) == w
  {
  }

  /** A number in the bytes, or 0 where there are not enough of them. */
  function HalfAt(bytes: seq<Byte>, at: nat): Half {
    if at + 2 <= |bytes| then LittleHalf(bytes[at..at + 2]) else 0
  }

  function WordAt(bytes: seq<Byte>, at: nat): Word {
    if at + 4 <= |bytes| then LittleWord(bytes[at..at + 4]) else 0
  }

  datatype PackError =
    | TruncatedHeader | UnsupportedVersion | InvalidResourceCount | TruncatedTables
    | UnsortedResourceIds | InvalidResourceOffset | UnsortedAliasIds | InvalidAliasTarget

  datatype Result<T> = Ok(value: T) | Err(error: PackError)
  datatype Option<T> = None | Some(value: T)

  datatype Layout = Layout(
    version: Word, resourceCount: nat, aliasCount: nat, headerSize: nat, entryTable: nat, aliasTable: nat, payload: nat)

  // ----- what is inspected

  /** The layout that the header tells. */
  function HeaderLayout(bytes: seq<Byte>): (r: Result<Layout>)
    ensures r.Ok? ==>
      var l := r.value;
      && 0 < l.resourceCount <= 0xFFFF && l.headerSize == l.entryTable
      && l.aliasTable == l.entryTable + 6 * (l.resourceCount + 1) && l.payload == l.aliasTable + 4 * l.aliasCount
      && l.payload <= |bytes|
  {
    if |bytes| < 4 then Err(TruncatedHeader)
    else
      var version := WordAt(bytes, 0);
      if version != 4 && version != 5 then Err(UnsupportedVersion)
      else
        var headerSize := if version == 4 then 9 else 12;
        if |bytes| < headerSize then Err(TruncatedHeader)
        else
          var count: nat := if version == 4 then WordAt(bytes, 4) else HalfAt(bytes, 8);
          var aliases: nat := if version == 4 then 0 else HalfAt(bytes, 10);
          if count == 0 || 0xFFFF < count then Err(InvalidResourceCount)
          else
            var aliasTable := headerSize + 6 * (count + 1);
            var payload := aliasTable + 4 * aliases;
            if |bytes| < payload then Err(TruncatedTables)
            else Ok(Layout(version, count, aliases, headerSize, headerSize, aliasTable, payload))
  }

  function EntryId(bytes: seq<Byte>, l: Layout, i: nat): Half {
    HalfAt(bytes, l.entryTable + 6 * i)
  }

  function EntryOffset(bytes: seq<Byte>, l: Layout, i: nat): Word {
    WordAt(bytes, l.entryTable + 6 * i + 2)
  }

  function AliasId(bytes: seq<Byte>, l: Layout, i: nat): Half {
    HalfAt(bytes, l.aliasTable + 4 * i)
  }

  function AliasTarget(bytes: seq<Byte>, l: Layout, i: nat): Half {
    HalfAt(bytes, l.aliasTable + 4 * i + 2)
  }

  /** Identifiers grow, offsets do not shrink and lie between the tables and the end of the data. */
  ghost predicate EntriesSorted(bytes: seq<Byte>, l: Layout, n: nat) {
    && (forall i :: 0 < i < n && i < l.resourceCount ==> EntryId(bytes, l, i - 1) < EntryId(bytes, l, i))
    && (forall i :: 0 < i < n ==> EntryOffset(bytes, l, i - 1) <= EntryOffset(bytes, l, i))
    && (forall i :: 0 <= i < n ==> EntryOffset(bytes, l, i) <= |bytes|)
    && (n > 0 ==> l.payload <= EntryOffset(bytes, l, 0))
  }

  ghost predicate AliasesSorted(bytes: seq<Byte>, l: Layout, n: nat) {
    && (forall i :: 0 < i < n ==> AliasId(bytes, l, i - 1) < AliasId(bytes, l, i))
    && (forall i :: 0 <= i < n ==> AliasTarget(bytes, l, i) < l.resourceCount)
  }

  /** The data is a pack of this layout. */
  ghost predicate IsPack(bytes: seq<Byte>, l: Layout) {
    HeaderLayout(bytes) == Ok(l) && EntriesSorted(bytes, l, l.resourceCount + 1) && AliasesSorted(bytes, l, l.aliasCount)
  }

  /** Entry or alias i is the first that is out of order, and this is the complaint about it. */
  ghost predicate EntryFails(bytes: seq<Byte>, l: Layout, i: nat, error: PackError) {
    && EntriesSorted(bytes, l, i) && i <= l.resourceCount
    && if 0 < i < l.resourceCount && EntryId(bytes, l, i) <= EntryId(bytes, l, i - 1) then error == UnsortedResourceIds
       else error == InvalidResourceOffset && !EntriesSorted(bytes, l, i + 1)
  }

  ghost predicate AliasFails(bytes: seq<Byte>, l: Layout, i: nat, error: PackError) {
    && EntriesSorted(bytes, l, l.resourceCount + 1) && AliasesSorted(bytes, l, i) && i < l.aliasCount
    && if 0 < i && AliasId(bytes, l, i) <= AliasId(bytes, l, i - 1) then error == UnsortedAliasIds
       else error == InvalidAliasTarget && l.resourceCount <= AliasTarget(bytes, l, i)
  }

  // ----- inspection

  /** Inspects the tables; accepts exactly the packs. */
  method InspectDataPack(bytes: seq<Byte>) returns (r: Result<Layout>)
    ensures r.Ok? ==> IsPack(bytes, r.value)
    ensures r.Err? ==> forall l :: !IsPack(bytes, l)
    ensures HeaderLayout(bytes).Err? ==> r == HeaderLayout(bytes)
    ensures HeaderLayout(bytes).Ok? && r.Err? ==>
      exists i :: EntryFails(bytes, HeaderLayout(bytes).value, i, r.error) || AliasFails(bytes, HeaderLayout(bytes).value, i, r.error)
  {
    hide HeaderLayout, EntriesSorted, AliasesSorted, EntryFails, AliasFails;
    r := ReadHeader(bytes);
    if r.Err? { return; }
    var l := r.value;
    var error := InspectEntries(bytes, l);
    if error.Some? { return Err(error.value); }
    error := InspectAliases(bytes, l);
    if error.Some? { return Err(error.value); }
    return Ok(l);
  }

  /** The complaint about the first entry that is out of order. */
  method InspectEntries(bytes: seq<Byte>, l: Layout) returns (error: Option<PackError>)
    ensures error.None? <==> EntriesSorted(bytes, l, l.resourceCount + 1)
    ensures error.Some? ==> exists i :: EntryFails(bytes, l, i, error.value)
  {
    hide HalfAt, WordAt;
    var previousId: Half, previousOffset: Word := 0, 0;
    var index: nat := 0;
    while index < l.resourceCount + 1
      invariant 0 <= index <= l.resourceCount + 1
      invariant EntriesSorted(bytes, l, index)
      invariant index > 0 ==> previousOffset == EntryOffset(bytes, l, index - 1)
      invariant 0 < index <= l.resourceCount ==> previousId == EntryId(bytes, l, index - 1)
    {
      var resourceId, offset := EntryId(bytes, l, index), EntryOffset(bytes, l, index);
      if index < l.resourceCount {
        if index > 0 && resourceId <= previousId {
          assert EntryFails(bytes, l, index, UnsortedResourceIds);
          return Some(UnsortedResourceIds);
        }
        previousId := resourceId;
      }
      if offset > |bytes| || (index == 0 && offset < l.payload) || (index > 0 && offset < previousOffset) {
        assert EntryFails(bytes, l, index, InvalidResourceOffset);
        return Some(InvalidResourceOffset);
      }
      previousOffset := offset;
      index := index + 1;
    }
    return None;
  }

  /** The complaint about the first alias that is out of order or has no entry. */
  method InspectAliases(bytes: seq<Byte>, l: Layout) returns (error: Option<PackError>)
    requires EntriesSorted(bytes, l, l.resourceCount + 1)
    ensures error.None? <==> AliasesSorted(bytes, l, l.aliasCount)
    ensures error.Some? ==> exists i :: AliasFails(bytes, l, i, error.value)
  {
    hide HalfAt, WordAt, EntriesSorted;
    var previousAlias: Half := 0;
    var index: nat := 0;
    while index < l.aliasCount
      invariant 0 <= index <= l.aliasCount
      invariant AliasesSorted(bytes, l, index)
      invariant index > 0 ==> previousAlias == AliasId(bytes, l, index - 1)
    {
      var aliasId, target := AliasId(bytes, l, index), AliasTarget(bytes, l, index);
      if index > 0 && aliasId <= previousAlias {
        assert AliasFails(bytes, l, index, UnsortedAliasIds);
        return Some(UnsortedAliasIds);
      }
      if target >= l.resourceCount {
        assert AliasFails(bytes, l, index, InvalidAliasTarget);
        return Some(InvalidAliasTarget);
      }
      previousAlias := aliasId;
      index := index + 1;
    }
    return None;
  }

  method ReadHeader(bytes: seq<Byte>) returns (r: Result<Layout>)
    ensures r == HeaderLayout(bytes)
  {
    if |bytes| < 4 { return Err(TruncatedHeader); }
    var version := LittleWord(bytes[0..4]);
    var headerSize, count, aliases := 9, 0, 0;
    if version == 4 {
      if |bytes| < headerSize { return Err(TruncatedHeader); }
      count := LittleWord(bytes[4..8]);
    } else if version == 5 {
      headerSize := 12;
      if |bytes| < headerSize { return Err(TruncatedHeader); }
      count := LittleHalf(bytes[8..10]);
      aliases := LittleHalf(bytes[10..12]);
    } else {
      return Err(UnsupportedVersion);
    }
    if count == 0 || count > 0xFFFF { return Err(InvalidResourceCount); }
    var aliasTable := headerSize + (count + 1) * 6;
    var payload := aliasTable + aliases * 4;
    if payload > |bytes| { return Err(TruncatedTables); }
    return Ok(Layout(version, count, aliases, headerSize, headerSize, aliasTable, payload));
  }

  // ----- resources

  /** Where a resource begins and ends. */
  function ResourceBounds(bytes: seq<Byte>, l: Layout, i: nat): Option<(nat, nat)> {
    if l.resourceCount <= i || l.payload > |bytes| || l.entryTable + 6 * i + 12 > |bytes| then None
    else
      var start, end := EntryOffset(bytes, l, i), EntryOffset(bytes, l, i + 1);
      if start > end || end > |bytes| then None else Some((start, end))
  }

  /** Every resource of a pack has bounds: behind the tables, within the data, and beginning where the
      one before it ends. */
  lemma ResourcesAreApart(bytes: seq<Byte>, l: Layout, i: nat)
    requires IsPack(bytes, l) && i < l.resourceCount
    ensures ResourceBounds(bytes, l, i).Some?
    ensures l.payload <= ResourceBounds(bytes, l, i).value.0 <= ResourceBounds(bytes, l, i).value.1 <= |bytes|
    ensures i + 1 < l.resourceCount ==>
      ResourceBounds(bytes, l, i + 1).Some? && ResourceBounds(bytes, l, i + 1).value.0 == ResourceBounds(bytes, l, i).value.1
  {
    hide WordAt, HalfAt;
    OffsetsGrow(bytes, l, 0, i);
    assert EntryOffset(bytes, l, i) <= EntryOffset(bytes, l, i + 1);
    assert i + 1 < l.resourceCount ==> EntryOffset(bytes, l, i + 1) <= EntryOffset(bytes, l, i + 2);
  }

  lemma {:induction false} OffsetsGrow(bytes: seq<Byte>, l: Layout, i: nat, j: nat)
    requires EntriesSorted(bytes, l, l.resourceCount + 1) && i <= j <= l.resourceCount
    ensures EntryOffset(bytes, l, i) <= EntryOffset(bytes, l, j)
    decreases j
  {
    hide WordAt, HalfAt, EntryOffset;
    if i < j {
      OffsetsGrow(bytes, l, i, j - 1);
      assert EntryOffset(bytes, l, j - 1) <= EntryOffset(bytes, l, j);
    }
  }

  lemma {:induction false} IdsGrow(bytes: seq<Byte>, l: Layout, i: nat, j: nat)
    requires EntriesSorted(bytes, l, l.resourceCount + 1) && i < j < l.resourceCount
    ensures EntryId(bytes, l, i) < EntryId(bytes, l, j)
    decreases j
  {
    hide WordAt, HalfAt, EntryId;
    assert EntryId(bytes, l, j - 1) < EntryId(bytes, l, j);
    if i + 1 < j {
      IdsGrow(bytes, l, i, j - 1);
    }
  }

  lemma {:induction false} AliasesGrow(bytes: seq<Byte>, l: Layout, i: nat, j: nat)
    requires AliasesSorted(bytes, l, l.aliasCount) && i < j < l.aliasCount
    ensures AliasId(bytes, l, i) < AliasId(bytes, l, j)
    decreases j
  {
    hide WordAt, HalfAt, AliasId;
    assert AliasId(bytes, l, j - 1) < AliasId(bytes, l, j);
    if i + 1 < j {
      AliasesGrow(bytes, l, i, j - 1);
    }
  }

  ghost predicate IsEntryOf(bytes: seq<Byte>, l: Layout, id: Half, i: nat) {
    i < l.resourceCount && EntryId(bytes, l, i) == id
  }

  ghost predicate IsAliasOf(bytes: seq<Byte>, l: Layout, id: Half, i: nat) {
    i < l.aliasCount && AliasId(bytes, l, i) == id
  }

  /** The entry of a resource: by its own identifier, and else by an alias. */
  ghost predicate Finds(bytes: seq<Byte>, l: Layout, id: Half, index: int) {
    if index >= 0 then
      index < l.resourceCount
      && (IsEntryOf(bytes, l, id, index)
          || ((forall i :: !IsEntryOf(bytes, l, id, i))
              && exists i :: IsAliasOf(bytes, l, id, i) && AliasTarget(bytes, l, i) == index))
    else
      (forall i :: !IsEntryOf(bytes, l, id, i)) && (forall i :: !IsAliasOf(bytes, l, id, i))
  }

  /** Searches both tables by halving. */
  method FindEntryIndex(bytes: seq<Byte>, l: Layout, id: Half) returns (index: int)
    requires IsPack(bytes, l)
    ensures Finds(bytes, l, id, index)
  {
    hide WordAt, HalfAt, HeaderLayout, EntryId, AliasId;
    var low, high := 0, l.resourceCount - 1;
    while low <= high
      invariant 0 <= low <= high + 1 <= l.resourceCount
      invariant forall i :: 0 <= i < low ==> EntryId(bytes, l, i) < id
      invariant forall i :: high < i < l.resourceCount ==> id < EntryId(bytes, l, i)
    {
      var mid := low + (high - low) / 2;
      var current := EntryId(bytes, l, mid);
      if current == id {
        return mid;
      }
      forall i | 0 <= i < l.resourceCount
        ensures i < mid ==> EntryId(bytes, l, i) < current
        ensures mid < i ==> current < EntryId(bytes, l, i)
      {
        if i < mid { IdsGrow(bytes, l, i, mid); } else if mid < i { IdsGrow(bytes, l, mid, i); }
      }
      if current < id {
        low := mid + 1;
      } else {
        high := mid - 1;
      }
    }
    low, high := 0, l.aliasCount - 1;
    while low <= high
      invariant 0 <= low <= high + 1 <= l.aliasCount
      invariant forall i :: 0 <= i < low ==> AliasId(bytes, l, i) < id
      invariant forall i :: high < i < l.aliasCount ==> id < AliasId(bytes, l, i)
    {
      var mid := low + (high - low) / 2;
      var current := AliasId(bytes, l, mid);
      if current == id {
        assert IsAliasOf(bytes, l, id, mid);
        return AliasTarget(bytes, l, mid);
      }
      forall i | 0 <= i < l.aliasCount
        ensures i < mid ==> AliasId(bytes, l, i) < current
        ensures mid < i ==> current < AliasId(bytes, l, i)
      {
        if i < mid { AliasesGrow(bytes, l, i, mid); } else if mid < i { AliasesGrow(bytes, l, mid, i); }
      }
      if current < id {
        low := mid + 1;
      } else {
        high := mid - 1;
      }
    }
    return -1;
  }
}
