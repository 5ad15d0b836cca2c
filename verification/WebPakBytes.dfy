/** Web packs byte by byte: the tables of both versions, what a built manifest and pack hold, how a path is
    spelled, and what every table that is loaded keeps to. */
module WebPakBytes {
  import opened Bytes
  import opened DataPack
  import opened WebPak
  import opened WebPakLoad
  import opened WebPakRoundTrip

  // ----- numbers, lowest byte first

  function U16(b: seq<Byte>, at: nat): int
    requires at + 2 <= |b|
  {
    var b0: int, b1: int := b[at], b[at + 1];
    b0 + 256 * b1
  }

  function U32(b: seq<Byte>, at: nat): int
    requires at + 4 <= |b|
  {
    var b0: int, b1: int, b2: int, b3: int := b[at], b[at + 1], b[at + 2], b[at + 3];
    b0 + 256 * b1 + 65536 * b2 + 16777216 * b3
  }

  lemma HalfIs(b: seq<Byte>, at: nat)
    requires at + 2 <= |b|
    ensures HalfAt(b, at) == U16(b, at)
  {
  }

  lemma WordIs(b: seq<Byte>, at: nat)
    requires at + 4 <= |b|
    ensures WordAt(b, at) == U32(b, at)
  {
  }

  // ----- tables

  /** The tables of a pack: of version 4 behind nine bytes, with a count in four; of version 5 behind twelve
      bytes, with counts of resources and aliases in two each. Six bytes for each resource and one
      entry more, then four for each alias. */
  ghost predicate TablesAt(bytes: seq<Byte>, count: int, aliases: int, entries: nat, aliasTable: nat, payload: nat) {
    && |bytes| >= 9
    && (|| (U32(bytes, 0) == 4 && count == U32(bytes, 4) && aliases == 0 && entries == 9)
        || (U32(bytes, 0) == 5 && |bytes| >= 12 && count == U16(bytes, 8) && aliases == U16(bytes, 10) && entries == 12))
    && 0 < count <= 65535
    && aliasTable == entries + 6 * (count + 1) && payload == aliasTable + 4 * aliases && payload <= |bytes|
  }

  lemma LayoutInBytes(bytes: seq<Byte>, l: Layout)
    ensures HeaderLayout(bytes) == Ok(l) <==>
      && TablesAt(bytes, l.resourceCount, l.aliasCount, l.entryTable, l.aliasTable, l.payload)
      && l.headerSize == l.entryTable && l.version == U32(bytes, 0)
  {
    hide WordAt, HalfAt, U32, U16;
    if |bytes| >= 9 {
      WordIs(bytes, 0);
      WordIs(bytes, 4);
    }
    if |bytes| >= 12 {
      HalfIs(bytes, 8);
      HalfIs(bytes, 10);
    }
  }

  /** The complaint about a header: too short for a version, an unknown version, too short for its header,
      a bad count, too short for its tables. */
  lemma HeaderComplaint(bytes: seq<Byte>)
    ensures |bytes| < 4 ==> HeaderLayout(bytes) == Err(TruncatedHeader)
    ensures |bytes| >= 4 && U32(bytes, 0) != 4 && U32(bytes, 0) != 5 ==> HeaderLayout(bytes) == Err(UnsupportedVersion)
    ensures 4 <= |bytes| < 9 && U32(bytes, 0) == 4 ==> HeaderLayout(bytes) == Err(TruncatedHeader)
    ensures 4 <= |bytes| < 12 && U32(bytes, 0) == 5 ==> HeaderLayout(bytes) == Err(TruncatedHeader)
    ensures |bytes| >= 9 && U32(bytes, 0) == 4 && !(0 < U32(bytes, 4) <= 65535) ==>
      HeaderLayout(bytes) == Err(InvalidResourceCount)
    ensures |bytes| >= 12 && U32(bytes, 0) == 5 && U16(bytes, 8) == 0 ==> HeaderLayout(bytes) == Err(InvalidResourceCount)
  {
    hide WordAt, HalfAt, U32, U16;
    if |bytes| >= 4 { WordIs(bytes, 0); }
    if |bytes| >= 9 { WordIs(bytes, 4); }
    if |bytes| >= 12 { HalfIs(bytes, 8); }
  }

  /** Of the first n entries identifiers grow, and offsets do not shrink and lie between the tables and the
      end; the last entry of all has no identifier. */
  ghost predicate EntriesOrdered(bytes: seq<Byte>, count: nat, entries: nat, payload: nat, n: nat) {
    && n <= count + 1 && entries + 6 * (count + 1) <= |bytes|
    && (forall i :: 1 <= i < n && i < count ==> U16(bytes, entries + 6 * (i - 1)) < U16(bytes, entries + 6 * i))
    && (n > 0 ==> payload <= U32(bytes, entries + 2))
    && (forall i :: 0 <= i < n ==> U32(bytes, entries + 6 * i + 2) <= |bytes|)
    && (forall i :: 1 <= i < n ==> U32(bytes, entries + 6 * (i - 1) + 2) <= U32(bytes, entries + 6 * i + 2))
  }

  /** Of the first n aliases, each is above the one before it and names an entry. */
  ghost predicate AliasesOrdered(bytes: seq<Byte>, count: nat, aliases: nat, table: nat, n: nat) {
    && n <= aliases && table + 4 * aliases <= |bytes|
    && (forall i :: 1 <= i < n ==> U16(bytes, table + 4 * (i - 1)) < U16(bytes, table + 4 * i))
    && (forall i :: 0 <= i < n ==> U16(bytes, table + 4 * i + 2) < count)
  }

  lemma EntriesInBytes(bytes: seq<Byte>, l: Layout)
    requires HeaderLayout(bytes) == Ok(l)
    ensures forall i :: 0 <= i <= l.resourceCount ==>
      && l.entryTable + 6 * i + 6 <= |bytes|
      && EntryId(bytes, l, i) == U16(bytes, l.entryTable + 6 * i)
      && EntryOffset(bytes, l, i) == U32(bytes, l.entryTable + 6 * i + 2)
    ensures forall i :: 0 <= i < l.aliasCount ==>
      && l.aliasTable + 4 * i + 4 <= |bytes|
      && AliasId(bytes, l, i) == U16(bytes, l.aliasTable + 4 * i)
      && AliasTarget(bytes, l, i) == U16(bytes, l.aliasTable + 4 * i + 2)
  {
    hide WordAt, HalfAt, U32, U16;
    forall i: nat | i <= l.resourceCount
      ensures l.entryTable + 6 * i + 6 <= |bytes|
      ensures EntryId(bytes, l, i) == U16(bytes, l.entryTable + 6 * i)
      ensures EntryOffset(bytes, l, i) == U32(bytes, l.entryTable + 6 * i + 2)
    {
      HalfIs(bytes, l.entryTable + 6 * i);
      WordIs(bytes, l.entryTable + 6 * i + 2);
    }
    forall i: nat | i < l.aliasCount
      ensures l.aliasTable + 4 * i + 4 <= |bytes|
      ensures AliasId(bytes, l, i) == U16(bytes, l.aliasTable + 4 * i)
      ensures AliasTarget(bytes, l, i) == U16(bytes, l.aliasTable + 4 * i + 2)
    {
      HalfIs(bytes, l.aliasTable + 4 * i);
      HalfIs(bytes, l.aliasTable + 4 * i + 2);
    }
  }

  /** Packs are what the inspection accepts. */
  lemma PacksInBytes(bytes: seq<Byte>, l: Layout)
    ensures IsPack(bytes, l) <==>
      && l.headerSize == l.entryTable
      && TablesAt(bytes, l.resourceCount, l.aliasCount, l.entryTable, l.aliasTable, l.payload)
      && l.version == U32(bytes, 0)
      && EntriesOrdered(bytes, l.resourceCount, l.entryTable, l.payload, l.resourceCount + 1)
      && AliasesOrdered(bytes, l.resourceCount, l.aliasCount, l.aliasTable, l.aliasCount)
  {
    hide HeaderLayout, EntriesSorted, AliasesSorted, EntriesOrdered, AliasesOrdered, U32, TablesAt;
    LayoutInBytes(bytes, l);
    if HeaderLayout(bytes) == Ok(l) {
      EntriesAgree(bytes, l, l.resourceCount + 1);
      AliasesAgree(bytes, l, l.aliasCount);
    }
  }

  lemma EntriesAgree(bytes: seq<Byte>, l: Layout, n: nat)
    requires HeaderLayout(bytes) == Ok(l) && n <= l.resourceCount + 1
    ensures EntriesSorted(bytes, l, n) <==> EntriesOrdered(bytes, l.resourceCount, l.entryTable, l.payload, n)
  {
    hide HeaderLayout, EntryId, EntryOffset, AliasId, AliasTarget, U16, U32;
    EntriesInBytes(bytes, l);
  }

  lemma AliasesAgree(bytes: seq<Byte>, l: Layout, n: nat)
    requires HeaderLayout(bytes) == Ok(l) && n <= l.aliasCount
    ensures AliasesSorted(bytes, l, n) <==> AliasesOrdered(bytes, l.resourceCount, l.aliasCount, l.aliasTable, n)
  {
    hide HeaderLayout, EntryId, EntryOffset, AliasId, AliasTarget, U16, U32;
    EntriesInBytes(bytes, l);
  }

  /** The complaint about entry i when all before it are in order: about its identifier if it has one that is not
      above the one before, and else about its offset, if that is past the end, in the tables or below the
      one before. */
  lemma EntryComplaint(bytes: seq<Byte>, l: Layout, i: nat, error: PackError)
    requires HeaderLayout(bytes) == Ok(l) && i <= l.resourceCount
    ensures l.entryTable + 6 * i + 6 <= |bytes|
    ensures var at := l.entryTable + 6 * i;
      var lower := 1 <= i < l.resourceCount && U16(bytes, at) <= U16(bytes, at - 6);
      var off := U32(bytes, at + 2) > |bytes| || (i == 0 && U32(bytes, at + 2) < l.payload)
                 || (i > 0 && U32(bytes, at + 2) < U32(bytes, at - 4));
      EntryFails(bytes, l, i, error) <==>
        && EntriesOrdered(bytes, l.resourceCount, l.entryTable, l.payload, i)
        && ((lower && error == UnsortedResourceIds) || (!lower && off && error == InvalidResourceOffset))
  {
    hide HeaderLayout, EntriesSorted, EntriesOrdered, EntryId, EntryOffset, U16, U32;
    EntriesInBytes(bytes, l);
    EntriesAgree(bytes, l, i);
    if EntriesSorted(bytes, l, i) {
      NextEntry(bytes, l, i);
    }
  }

  lemma NextEntry(bytes: seq<Byte>, l: Layout, i: nat)
    requires EntriesSorted(bytes, l, i) && i <= l.resourceCount
    ensures EntriesSorted(bytes, l, i + 1) <==>
      && (0 < i < l.resourceCount ==> EntryId(bytes, l, i - 1) < EntryId(bytes, l, i))
      && (0 < i ==> EntryOffset(bytes, l, i - 1) <= EntryOffset(bytes, l, i))
      && EntryOffset(bytes, l, i) <= |bytes| && (i == 0 ==> l.payload <= EntryOffset(bytes, l, 0))
  {
    hide EntryId, EntryOffset;
  }

  /** The complaint about alias i when all entries and all aliases before it are in order: about its identifier
      if that is not above the one before, and else about the entry that it names, if there is none. */
  lemma AliasComplaint(bytes: seq<Byte>, l: Layout, i: nat, error: PackError)
    requires HeaderLayout(bytes) == Ok(l) && i < l.aliasCount
    ensures l.aliasTable + 4 * i + 4 <= |bytes|
    ensures var at := l.aliasTable + 4 * i;
      var lower := 1 <= i && U16(bytes, at) <= U16(bytes, at - 4);
      AliasFails(bytes, l, i, error) <==>
        && EntriesOrdered(bytes, l.resourceCount, l.entryTable, l.payload, l.resourceCount + 1)
        && AliasesOrdered(bytes, l.resourceCount, l.aliasCount, l.aliasTable, i)
        && ((lower && error == UnsortedAliasIds)
            || (!lower && U16(bytes, at + 2) >= l.resourceCount && error == InvalidAliasTarget))
  {
    hide HeaderLayout, EntriesSorted, EntriesOrdered, AliasesSorted, AliasesOrdered, AliasId, AliasTarget, U16, U32;
    EntriesInBytes(bytes, l);
    EntriesAgree(bytes, l, l.resourceCount + 1);
    AliasesAgree(bytes, l, i);
  }

  /** What the halving finds: the entry of the identifier, and else the one that an alias with it names, if there
      is one; and whatever is found is an entry. */
  lemma FindsInBytes(bytes: seq<Byte>, l: Layout, id: Half, index: nat)
    requires IsPack(bytes, l) && Finds(bytes, l, id, index)
    ensures l.entryTable + 6 * l.resourceCount <= |bytes| && l.aliasTable + 4 * l.aliasCount <= |bytes|
    ensures index < l.resourceCount
    ensures || U16(bytes, l.entryTable + 6 * index) == id
            || ((forall i :: 0 <= i < l.resourceCount ==> U16(bytes, l.entryTable + 6 * i) != id)
                && exists i :: 0 <= i < l.aliasCount && U16(bytes, l.aliasTable + 4 * i) == id
                     && U16(bytes, l.aliasTable + 4 * i + 2) == index)
  {
    hide HeaderLayout, EntriesSorted, AliasesSorted, EntryId, EntryOffset, AliasId, AliasTarget, U16, U32;
    EntriesInBytes(bytes, l);
    if !IsEntryOf(bytes, l, id, index) {
      forall i: nat | i < l.resourceCount
        ensures U16(bytes, l.entryTable + 6 * i) != id
      {
        assert !IsEntryOf(bytes, l, id, i);
      }
      var i: nat :| IsAliasOf(bytes, l, id, i) && AliasTarget(bytes, l, i) == index;
      assert U16(bytes, l.aliasTable + 4 * i) == id;
    }
  }

  lemma NothingFound(bytes: seq<Byte>, l: Layout, id: Half)
    requires IsPack(bytes, l) && Finds(bytes, l, id, -1)
    ensures l.entryTable + 6 * l.resourceCount <= |bytes| && l.aliasTable + 4 * l.aliasCount <= |bytes|
    ensures forall i :: 0 <= i < l.resourceCount ==> U16(bytes, l.entryTable + 6 * i) != id
    ensures forall i :: 0 <= i < l.aliasCount ==> U16(bytes, l.aliasTable + 4 * i) != id
  {
    hide HeaderLayout, EntriesSorted, AliasesSorted, EntryId, EntryOffset, AliasId, AliasTarget, U16, U32;
    EntriesInBytes(bytes, l);
    forall i: nat | i < l.resourceCount
      ensures U16(bytes, l.entryTable + 6 * i) != id
    {
      assert !IsEntryOf(bytes, l, id, i);
    }
    forall i: nat | i < l.aliasCount
      ensures U16(bytes, l.aliasTable + 4 * i) != id
    {
      assert !IsAliasOf(bytes, l, id, i);
    }
  }

  /** A resource of a pack is the slice between its offset and the next. */
  lemma ResourceInBytes(bytes: seq<Byte>, l: Layout, i: nat)
    requires IsPack(bytes, l) && i < l.resourceCount
    ensures l.entryTable + 6 * i + 12 <= |bytes|
    ensures ResourceBounds(bytes, l, i)
      == Some((U32(bytes, l.entryTable + 6 * i + 2), U32(bytes, l.entryTable + 6 * i + 8)))
  {
    hide HeaderLayout, EntryId, AliasId, AliasTarget, U16, U32;
    EntriesInBytes(bytes, l);
    ResourcesAreApart(bytes, l, i);
  }

  // ----- how a path is spelled

  /** A character of a path: backslashes are turned, and capital letters made small. */
  function Spelled(c: int): int {
    if c == 92 then 47 else if 65 <= c <= 90 then c + 32 else c
  }

  /** One to 63 units of two bytes, the second 0 and the first no control character; no slash in front, no two
      dots in a row, no colon. */
  ghost predicate Spells(b: seq<Byte>, n: nat, p: seq<Byte>) {
    && 0 < n < 64 && 2 * n <= |b| && |p| == n
    && (forall i :: 0 <= i < n ==> b[2 * i + 1] == 0 && 32 <= b[2 * i] && b[2 * i] != 127 && p[i] == Spelled(b[2 * i]))
    && p[0] != 47
    && (forall i :: 0 < i < n ==> !(p[i - 1] == 46 && p[i] == 46))
    && (forall i :: 0 <= i < n ==> p[i] != 58)
  }

  lemma SpelledSmall(c: Byte)
    ensures Lowered(Slashed(c)) == Spelled(c)
    ensures Slashed(c) == 47 <==> Spelled(c) == 47
    ensures Slashed(c) == 46 <==> Spelled(c) == 46
    ensures Slashed(c) == 58 <==> Spelled(c) == 58
  {
  }

  /** A path is read if and only if the units spell one, and it is the one they spell. */
  lemma PathSpelled(b: seq<Byte>, n: nat, p: seq<Byte>)
    requires 2 * n <= |b|
    ensures PathOf(b, n) == Some(p) <==> Spells(b, n, p)
  {
    hide Slashed, Lowered, Spelled;
    var units := Units(b, n);
    forall i | 0 <= i < n
      ensures units[i] == Slashed(b[2 * i]) && AllLowered(units)[i] == Spelled(b[2 * i])
      ensures units[i] == 47 <==> Spelled(b[2 * i]) == 47
      ensures units[i] == 46 <==> Spelled(b[2 * i]) == 46
      ensures units[i] == 58 <==> Spelled(b[2 * i]) == 58
    {
      SpelledSmall(b[2 * i]);
    }
    if PathOf(b, n) == Some(p) {
      assert p == AllLowered(units);
      forall i | 0 <= i < n
        ensures b[2 * i + 1] == 0 && 32 <= b[2 * i] && b[2 * i] != 127 && p[i] != 58
        ensures 0 < i ==> !(p[i - 1] == 46 && p[i] == 46)
      {
        assert UnitReadable(b[2 * i], b[2 * i + 1]);
        assert units[i] in units;
        if 0 < i {
          assert !(units[i - 1] == 46 && units[i - 1 + 1] == 46);
        }
      }
    }
    if Spells(b, n, p) {
      forall i | 0 <= i < n
        ensures UnitReadable(b[2 * i], b[2 * i + 1])
      {
      }
      assert AllLowered(units) == p;
      assert 0x3A !in units;
      forall i | 0 <= i < n - 1
        ensures !(units[i] == 46 && units[i + 1] == 46)
      {
        assert !(p[i + 1 - 1] == 46 && p[i + 1] == 46);
      }
    }
  }

  // ----- records of a manifest

  lemma RoundsUp(n: nat)
    ensures RoundedUp(n) % 4 == 0 && n <= RoundedUp(n) < n + 4
  {
  }

  /** A record in the manifest: a word, the identifier of the record before it, the length of its path, the
      path, and bytes up to a multiple of four. Eight bytes of trailer come after the last one. */
  ghost predicate RecordAt(bytes: seq<Byte>, l: Layout, m: seq<Byte>, at: nat, path: seq<Byte>, next: nat) {
    && at + 12 + 8 <= |m|
    && U32(m, at + 4) <= 65535 && HasResource(bytes, l, U32(m, at + 4))
    && var n := U32(m, at + 8);
       && 0 < n < 64 && at + 12 + 2 * n <= next < at + 12 + 2 * n + 4 && next % 4 == 0 && next + 8 <= |m|
       && Spells(m[at + 12..at + 12 + 2 * n], n, path)
  }

  /** A record that is there enters the path before it with its identifier, if the table has room; and
      where there are bytes for a record but none, the manifest is refused. */
  lemma RecordInBytes(bytes: seq<Byte>, l: Layout, m: seq<Byte>, at: nat, pending: Option<seq<Byte>>, count: nat,
                      path: seq<Byte>, next: nat)
    requires at + 12 + 8 <= |m|
    ensures RecordAt(bytes, l, m, at, path, next) && pending.None? ==>
      Recorded(bytes, l, m, at, pending, count) == Recorded(bytes, l, m, next, Some(path), count)
    ensures RecordAt(bytes, l, m, at, path, next) && pending.Some? && count < l.resourceCount - 1 ==>
      Recorded(bytes, l, m, at, pending, count)
      == Joining([PathEntry(pending.value, U32(m, at + 4))], Recorded(bytes, l, m, next, Some(path), count + 1))
    ensures pending.Some? && l.resourceCount - 1 <= count ==> Recorded(bytes, l, m, at, pending, count) == None
    ensures (forall p, k :: !RecordAt(bytes, l, m, at, p, k)) ==> Recorded(bytes, l, m, at, pending, count) == None
  {
    hide Recorded, WordAt, U32, PathOf, Spells, HasResource, Padding, RoundedUp;
    RecordedNext(bytes, l, m, at, pending, count);
    WordIs(m, at + 4);
    WordIs(m, at + 8);
    var n, from := WordAt(m, at + 8), at + 12;
    RoundsUp(from + 2 * n);
    JoiningNothing(Recorded(bytes, l, m, RoundedUp(from + 2 * n), Some(path), count));
    if 0 < n && from + 2 * n + 8 <= |m| {
      PathSpelled(m[from..from + 2 * n], n, path);
      var read := PathOf(m[from..from + 2 * n], n);
      if read.Some? {
        PathSpelled(m[from..from + 2 * n], n, read.value);
        if n < 64 && WordAt(m, at + 4) <= 65535 && HasResource(bytes, l, WordAt(m, at + 4))
           && RoundedUp(from + 2 * n) + 8 <= |m| {
          assert RecordAt(bytes, l, m, at, read.value, RoundedUp(from + 2 * n));
        }
      }
      if RecordAt(bytes, l, m, at, path, next) {
        SameMultiple(from + 2 * n, next, RoundedUp(from + 2 * n));
      }
    }
  }

  lemma SameMultiple(n: nat, a: nat, b: nat)
    requires a % 4 == 0 && b % 4 == 0 && n <= a < n + 4 && n <= b < n + 4
    ensures a == b
  {
  }

  /** The last path has the identifier of the trailer. */
  lemma TrailerInBytes(bytes: seq<Byte>, l: Layout, m: seq<Byte>, at: nat, path: seq<Byte>, count: nat)
    requires 16 <= |m| < at + 12 + 8
    ensures Recorded(bytes, l, m, at, None, count) == Some([])
    ensures Recorded(bytes, l, m, at, Some(path), count)
      == if count < l.resourceCount - 1 && U32(m, |m| - 4) <= 65535
         then Some([PathEntry(path, U32(m, |m| - 4))]) else None
  {
    hide Recorded, WordAt, U32;
    RecordedEnd(bytes, l, m, at, Some(path), count);
    RecordedEnd(bytes, l, m, at, None, count);
    WordIs(m, |m| - 4);
  }

  /** What a manifest must be for its records to be read, and a table to be taken. */
  lemma TableInBytes(bytes: seq<Byte>, l: Layout, m: seq<Byte>, table: seq<PathEntry>)
    ensures TableOf(bytes, l, m) == Some(table) <==>
      && 16 <= |m| && U32(m, 0) <= |m| - 4
      && U32(m, |m| - 4) <= 65535 && HasResource(bytes, l, U32(m, |m| - 4))
      && Recorded(bytes, l, m, 8, None, 0) == Some(table)
      && table != [] && forall i, j :: 0 <= i < j < |table| ==> table[i].path != table[j].path
  {
    hide Recorded, WordAt, U32, HasResource;
    if 16 <= |m| {
      WordIs(m, 0);
      WordIs(m, |m| - 4);
    }
  }

  /** A file whose table is loaded has at most 512 MiB. */
  lemma LoadedSize(bytes: seq<Byte>, table: seq<PathEntry>)
    ensures Loads(bytes, table) ==> 0 < |bytes| <= 536870912
  {
    hide IsPack, TableOf, IsResource;
  }

  // ----- which paths the script accepts

  /** The names between the slashes of a path. */
  function Parts(p: seq<Ascii>): (r: seq<seq<Ascii>>)
    ensures r != []
  {
    if p == [] then [[]]
    else
      var before, n := Parts(p[..|p| - 1]), |p| - 1;
      if p[n] == 47 then before + [[]] else before[..|before| - 1] + [before[|before| - 1] + [p[n]]]
  }

  /** Two dots from place i on that are a name of their own. */
  ghost predicate DotsAt(p: seq<Ascii>, i: int) {
    0 <= i < |p| - 1 && p[i] == 46 && p[i + 1] == 46 && (i == 0 || p[i - 1] == 47) && (i + 2 == |p| || p[i + 2] == 47)
  }

  /** Such a name with a slash behind it. */
  ghost predicate EarlierDots(p: seq<Ascii>) {
    exists i :: DotsAt(p, i) && i + 2 < |p|
  }

  /** From place s on there is no slash, and there is one before it unless it is the first. */
  ghost predicate LastFrom(p: seq<Ascii>, s: nat) {
    s <= |p| && (s == 0 || p[s - 1] == 47) && forall i :: s <= i < |p| ==> p[i] != 47
  }

  /** The last name is what comes after the last slash, and two dots that have a slash behind them are one of
      the other names. */
  lemma {:induction false} NamesOf(p: seq<Ascii>) returns (s: nat)
    ensures LastFrom(p, s) && s <= |p| && Parts(p)[|Parts(p)| - 1] == p[s..]
    ensures [46, 46] in Parts(p)[..|Parts(p)| - 1] <==> EarlierDots(p)
    decreases |p|
  {
    hide DotsAt, Parts, EarlierDots, LastFrom;
    if p == [] {
      s := 0;
      NoNames(p);
    } else {
      var before := p[..|p| - 1];
      s := NamesOf(before);
      var parts := Parts(before);
      MoreNames(p);
      OneOfAll(parts);
      if p[|p| - 1] == 47 {
        SlashBehind(p, s);
        s := |p|;
      } else {
        LetterBehind(p, s);
      }
    }
  }

  lemma OneOfAll(parts: seq<seq<Ascii>>)
    requires parts != []
    ensures [46, 46] in parts <==> [46, 46] in parts[..|parts| - 1] || parts[|parts| - 1] == [46, 46]
  {
    assert parts == parts[..|parts| - 1] + [parts[|parts| - 1]];
  }

  lemma NoNames(p: seq<Ascii>)
    requires p == []
    ensures Parts(p) == [[]] && !EarlierDots(p) && LastFrom(p, 0)
  {
  }

  lemma MoreNames(p: seq<Ascii>)
    requires p != []
    ensures var before, last, parts := Parts(p[..|p| - 1]), p[|p| - 1], Parts(p);
      var n := |before| - 1;
      if last == 47 then |parts| == n + 2 && parts[..n + 1] == before && parts[n + 1] == []
      else |parts| == n + 1 && parts[..n] == before[..n] && parts[n] == before[n] + [last]
  {
    PartsNext(p);
    hide Parts;
  }

  lemma PartsNext(p: seq<Ascii>)
    requires p != []
    ensures var before, last := Parts(p[..|p| - 1]), p[|p| - 1];
      Parts(p)
      == if last == 47 then before + [[]] else before[..|before| - 1] + [before[|before| - 1] + [last]]
  {
  }

  lemma SlashBehind(p: seq<Ascii>, s: nat)
    requires p != [] && p[|p| - 1] == 47 && LastFrom(p[..|p| - 1], s)
    ensures LastFrom(p, |p|) && p[|p|..] == []
    ensures s <= |p| - 1 && (EarlierDots(p) <==> EarlierDots(p[..|p| - 1]) || p[..|p| - 1][s..] == [46, 46])
  {
    hide DotsAt;
    var before := p[..|p| - 1];
    DotsBefore(p);
    LastDots(before, s);
    assert DotsAt(before, |before| - 2) <==> DotsAt(p, |p| - 3);
    if EarlierDots(before) {
      var i :| DotsAt(before, i) && i + 2 < |before|;
      assert DotsAt(p, i);
    }
    if EarlierDots(p) {
      var i :| DotsAt(p, i) && i + 2 < |p|;
      assert DotsAt(before, i);
    }
  }

  lemma LetterBehind(p: seq<Ascii>, s: nat)
    requires p != [] && p[|p| - 1] != 47 && LastFrom(p[..|p| - 1], s)
    ensures LastFrom(p, s) && s <= |p| - 1 && p[s..] == p[..|p| - 1][s..] + [p[|p| - 1]]
    ensures EarlierDots(p) <==> EarlierDots(p[..|p| - 1])
  {
    hide DotsAt;
    var before := p[..|p| - 1];
    DotsBefore(p);
    if EarlierDots(before) {
      var i :| DotsAt(before, i) && i + 2 < |before|;
      assert DotsAt(p, i);
    }
    if EarlierDots(p) {
      var i :| DotsAt(p, i) && i + 2 < |p|;
      assert DotsAt(before, i);
    }
  }

  lemma DotsBefore(p: seq<Ascii>)
    requires p != []
    ensures forall i :: i + 2 < |p| - 1 ==> (DotsAt(p, i) <==> DotsAt(p[..|p| - 1], i))
    ensures forall i :: i + 2 == |p| - 1 ==> (DotsAt(p, i) <==> p[|p| - 1] == 47 && DotsAt(p[..|p| - 1], i))
  {
  }

  lemma LastDots(p: seq<Ascii>, s: nat)
    requires LastFrom(p, s)
    ensures s <= |p| && (p[s..] == [46, 46] <==> DotsAt(p, |p| - 2))
  {
    if DotsAt(p, |p| - 2) {
      assert s == |p| - 2;
    }
    if p[s..] == [46, 46] {
      assert p[s] == p[s..][0] && p[s + 1] == p[s..][1];
    }
  }

  /** The script accepts paths of 1 to 255 characters, none of which begins with a slash, has two dots as a
      name, or has a colon, a backslash, a zero or a capital letter. */
  lemma CheckedInParts(p: seq<Ascii>)
    ensures CheckedPath(p) <==>
      && 1 <= |p| <= 255 && p[0] != 47 && [46, 46] !in Parts(p)
      && forall k :: 0 <= k < |p| ==> p[k] != 58 && p[k] != 92 && p[k] != 0 && !(65 <= p[k] <= 90)
  {
    hide HasParent;
    assert HasParent(p) <==> [46, 46] in Parts(p) by { ParentInParts(p); }
  }

  lemma ParentInParts(p: seq<Ascii>)
    ensures HasParent(p) <==> [46, 46] in Parts(p)
  {
    hide HasParent, Parts, DotsAt, LastFrom;
    var s := NamesOf(p);
    LastDots(p, s);
    ParentIsDots(p);
    DotsInside(p);
    OneOfAll(Parts(p));
  }

  lemma DotsInside(p: seq<Ascii>)
    ensures forall i :: DotsAt(p, i) ==> i + 2 < |p| || i == |p| - 2
  {
  }

  lemma ParentIsDots(p: seq<Ascii>)
    ensures HasParent(p) <==> exists i :: DotsAt(p, i)
  {
    if HasParent(p) {
      var i :| 0 <= i < |p| - 1 && p[i] == 0x2E && p[i + 1] == 0x2E
        && (i == 0 || p[i - 1] == 0x2F) && (i + 2 == |p| || p[i + 2] == 0x2F);
      assert DotsAt(p, i);
    }
    if exists i :: DotsAt(p, i) {
      var i :| DotsAt(p, i);
      assert 0 <= i < |p| - 1 && p[i] == 0x2E && p[i + 1] == 0x2E
        && (i == 0 || p[i - 1] == 0x2F) && (i + 2 == |p| || p[i + 2] == 0x2F);
    }
  }

  // ----- what can be built

  function LengthOfAll(payloads: seq<seq<Byte>>): nat {
    if payloads == [] then 0 else |payloads[0]| + LengthOfAll(payloads[1..])
  }

  lemma {:induction false} OffsetsAdd(payloads: seq<seq<Byte>>, tables: nat, i: nat)
    requires i <= |payloads|
    ensures OffsetOf(payloads, tables, i) + LengthOfAll(payloads[i..]) == tables + LengthOfAll(payloads)
    decreases i
  {
    if i == 0 {
      assert payloads[0..] == payloads;
    } else {
      OffsetsAdd(payloads, tables, i - 1);
      assert payloads[i - 1..][1..] == payloads[i..];
    }
  }

  /** Payloads fit if there are 1 to 65535 of them and the pack has less than 4 GiB: nine bytes, six for each and
      for the end, and the payloads. */
  lemma FittingPayloads(payloads: seq<seq<Byte>>)
    ensures PackFits(payloads) <==>
      1 <= |payloads| <= 65535 && 9 + 6 * (|payloads| + 1) + LengthOfAll(payloads) <= 4294967295
  {
    hide OffsetOf, LengthOfAll;
    OffsetsAdd(payloads, 9 + (|payloads| + 1) * 6, |payloads|);
    assert LengthOfAll(payloads[|payloads|..]) == 0 by { NothingLong(); }
  }

  lemma NothingLong()
    ensures LengthOfAll([]) == 0
  {
  }

  function LengthOfRecords(resources: seq<Resource>): nat {
    if resources == [] then 0
    else LengthOfRecords(resources[..|resources| - 1]) + 12 + 2 * |resources[|resources| - 1].path|
         + (if |resources[|resources| - 1].path| % 2 == 0 then 0 else 2)
  }

  lemma {:induction false} RecordsLength(resources: seq<Resource>, n: nat)
    requires n <= |resources| && forall i :: 0 <= i < n ==> PathFits(resources[i])
    ensures |Records(resources, n)| == LengthOfRecords(resources[..n])
    decreases n
  {
    hide Record;
    if n > 0 {
      RecordsLength(resources, n - 1);
      assert resources[..n][..n - 1] == resources[..n - 1];
      assert |Records(resources, n)| == |Records(resources, n - 1)| + |Record(resources, n - 1)|;
      RecordLong(resources, n - 1);
    }
  }

  lemma RecordLong(resources: seq<Resource>, i: nat)
    requires i < |resources| && PathFits(resources[i])
    ensures |Record(resources, i)| == 12 + 2 * |resources[i].path| + if |resources[i].path| % 2 == 0 then 0 else 2
  {
    hide LittleBytes, Utf16;
  }

  /** A manifest can be built if there are resources, and their paths and all records are not too long for
      four-byte lengths: twelve bytes for each record, and its path in units up to a multiple of four. */
  lemma FittingManifest(resources: seq<Resource>)
    ensures ManifestFits(resources) <==>
      && |resources| > 0 && (forall i :: 0 <= i < |resources| ==> |resources[i].path| <= 4294967295)
      && 12 + LengthOfRecords(resources) <= 4294967295
  {
    hide Records, LengthOfRecords;
    if forall i :: 0 <= i < |resources| ==> PathFits(resources[i]) {
      RecordsLength(resources, |resources|);
      assert resources[..|resources|] == resources;
    }
  }

  // ----- what a built pack holds

  lemma BytesOfHalf(w: Half, b: seq<Byte>, at: nat)
    requires at + 2 <= |b| && b[at..at + 2] == HalfBytes(w)
    ensures U16(b, at) == w
  {
    hide HalfBytes;
    HalfOfBytes(w);
    HalfIs(b, at);
  }

  lemma BytesOfWord(w: Word, b: seq<Byte>, at: nat)
    requires at + 4 <= |b| && b[at..at + 4] == LittleBytes(w)
    ensures U32(b, at) == w
  {
    hide LittleBytes, U32, WordAt;
    WordInside(b, at, w);
    WordIs(b, at);
  }

  /** The manifest: its length less four, 7, the records, 3, and the identifier of the last resource. */
  lemma ManifestInBytes(resources: seq<Resource>)
    requires ManifestFits(resources)
    ensures var m := Manifest(resources);
      && |m| == 16 + |Records(resources, |resources|)|
      && U32(m, 0) == |m| - 4 && U32(m, 4) == 7
      && U32(m, |m| - 8) == 3 && U32(m, |m| - 4) == resources[|resources| - 1].id
  {
    hide Records, LittleBytes, U32;
    var m := Manifest(resources);
    assert m[0..4] == LittleBytes(|m| - 4) && m[4..8] == LittleBytes(7);
    assert m[|m| - 8..|m| - 4] == LittleBytes(3) && m[|m| - 4..] == LittleBytes(resources[|resources| - 1].id);
    assert m[|m| - 4..|m|] == m[|m| - 4..];
    BytesOfWord(|m| - 4, m, 0);
    BytesOfWord(7, m, 4);
    BytesOfWord(3, m, |m| - 8);
    BytesOfWord(resources[|resources| - 1].id, m, |m| - 4);
  }

  /** Record i: 1 for the first and 3 for the others, an identifier, the length of the path, the path in units
      of two bytes, and zeros. */
  lemma RecordInManifest(resources: seq<Resource>, i: nat)
    requires i < |resources| && PathFits(resources[i])
    ensures var r, n := Record(resources, i), |resources[i].path|;
      && 12 + 2 * n <= |r| < 12 + 2 * n + 4 && |r| % 4 == 0
      && U32(r, 0) == (if i == 0 then 1 else 3)
      && U32(r, 4) == (if i == 0 then resources[0].id else resources[i - 1].id)
      && U32(r, 8) == n
      && (forall k :: 0 <= k < n ==> r[12 + 2 * k] == resources[i].path[k] && r[12 + 2 * k + 1] == 0)
      && (forall k :: 12 + 2 * n <= k < |r| ==> r[k] == 0)
  {
    hide LittleBytes, U32, Utf16;
    var r, n := Record(resources, i), |resources[i].path|;
    var head, units, zeros := RecordHead(resources, i), Utf16(resources[i].path), Padding(2 * n);
    assert r == head + units + zeros;
    assert r[0..4] == head[0..4] == LittleBytes(if i == 0 then 1 else 3);
    assert r[4..8] == head[4..8] == LittleBytes(LinkedId(resources, i));
    assert r[8..12] == head[8..12] == LittleBytes(n);
    BytesOfWord(if i == 0 then 1 else 3, r, 0);
    BytesOfWord(LinkedId(resources, i), r, 4);
    BytesOfWord(n, r, 8);
    forall k | 0 <= k < n
      ensures r[12 + 2 * k] == resources[i].path[k] && r[12 + 2 * k + 1] == 0
    {
      Utf16At(resources[i].path, k);
      assert r[12 + 2 * k] == units[2 * k] && r[12 + 2 * k + 1] == units[2 * k + 1];
    }
    forall k | 12 + 2 * n <= k < |r|
      ensures r[k] == 0
    {
      assert r[k] == zeros[k - 12 - 2 * n];
    }
  }

  /** The pack: version 4, the count, a zero byte; six bytes for each payload, with its number and where it
      starts, and for the end; and the payloads from there on. */
  lemma PackInBytes(payloads: seq<seq<Byte>>, i: nat)
    requires PackFits(payloads) && i <= |payloads|
    ensures var bytes, count := PackBytes(payloads), |payloads|;
      && 9 + 6 * (count + 1) <= |bytes| && U32(bytes, 0) == 4 && U32(bytes, 4) == count && bytes[8] == 0
      && U16(bytes, 9 + 6 * i) == (if i < count then i else 0)
      && U32(bytes, 9 + 6 * i + 2) == OffsetOf(payloads, 9 + 6 * (count + 1), i)
      && (i == count ==> U32(bytes, 9 + 6 * i + 2) == |bytes|)
  {
    hide LittleBytes, HalfBytes, Entries, Joined, OffsetOf, WordAt, HalfAt, U16, U32, IsPack;
    var bytes, count := PackBytes(payloads), |payloads|;
    BuiltPackIsPack(payloads);
    OffsetsStayBelow(payloads, TablesSize(count), 0, count);
    BuiltEntries(payloads, i);
    FirstOffset(payloads, TablesSize(count));
    HalfIs(bytes, 9 + 6 * i);
    WordIs(bytes, 9 + 6 * i + 2);
    assert bytes[0..4] == LittleBytes(4) && bytes[4..8] == LittleBytes(count);
    BytesOfWord(4, bytes, 0);
    BytesOfWord(count, bytes, 4);
  }

  lemma FirstOffset(payloads: seq<seq<Byte>>, tables: nat)
    ensures OffsetOf(payloads, tables, 0) == tables
  {
  }

  /** Every payload starts where the one before it ends. */
  lemma NextOffset(payloads: seq<seq<Byte>>, tables: nat, i: nat)
    requires i < |payloads|
    ensures OffsetOf(payloads, tables, 0) == tables
    ensures OffsetOf(payloads, tables, i + 1) == OffsetOf(payloads, tables, i) + |payloads[i]|
  {
  }
}
