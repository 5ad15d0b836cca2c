/** Loading an AAS file: what is accepted, where every table is read, and that a written world
    comes back. */
module AasLoad {
  import opened Bytes
  import opened AasTables
  import opened AasHeader
  import opened AasFile

  datatype LoadError = NoError | CannotOpenFile | WrongFileId | WrongFileVersion | CannotReadLump

  // ----- where lumps are read

  /** The place of the file and the place that the loader believes in, before lump l. */
  datatype Place = Place(pos: int, lastoffset: int)

  function PlaceBefore(header: seq<Byte>, l: nat): Place
    requires |header| == HEADER_SIZE && l <= AAS_LUMPS
  {
    if l == 0 then Place(HEADER_SIZE, HEADER_SIZE)
    else PlaceAfter(PlaceBefore(header, l - 1), LumpOffset(header, l - 1), LumpLength(header, l - 1))
  }

  function PlaceAfter(p: Place, offset: int, length: int): Place {
    if length == 0 then p
    else Place((if offset != p.lastoffset then offset else p.pos) + length, p.lastoffset + length)
  }

  /** A lump that has any data is sought if it does not begin where the last one is believed to end. */
  predicate Seeks(header: seq<Byte>, l: nat)
    requires |header| == HEADER_SIZE && l < AAS_LUMPS
  {
    LumpLength(header, l) != 0 && LumpOffset(header, l) != PlaceBefore(header, l).lastoffset
  }

  function ReadAt(header: seq<Byte>, l: nat): int
    requires |header| == HEADER_SIZE && l < AAS_LUMPS
  {
    if Seeks(header, l) then LumpOffset(header, l) else PlaceBefore(header, l).pos
  }

  ghost predicate SoughtBefore(header: seq<Byte>, l: nat)
    requires |header| == HEADER_SIZE && l <= AAS_LUMPS
  {
    exists k :: 0 <= k < l && Seeks(header, k)
  }

  lemma {:induction false} PlacesDiffer(header: seq<Byte>, l: nat)
    requires |header| == HEADER_SIZE && l <= AAS_LUMPS
    ensures PlaceBefore(header, l).pos != PlaceBefore(header, l).lastoffset <==> SoughtBefore(header, l)
    decreases l
  {
    hide LumpOffset, LumpLength;
    if l > 0 {
      PlacesDiffer(header, l - 1);
      if Seeks(header, l - 1) {
        assert SoughtBefore(header, l);
      } else if SoughtBefore(header, l - 1) {
        var k :| 0 <= k < l - 1 && Seeks(header, k);
        assert Seeks(header, k) && SoughtBefore(header, l);
      }
    }
  }

  /** A lump that has any data is read at its own offset exactly if it is sought or no lump before it
      was: after a seek the loader does not know the place of the file any more. */
  lemma ReadAtOwnOffset(header: seq<Byte>, l: nat)
    requires |header| == HEADER_SIZE && l < AAS_LUMPS && LumpLength(header, l) != 0
    ensures ReadAt(header, l) == LumpOffset(header, l) <==> Seeks(header, l) || !SoughtBefore(header, l)
  {
    PlacesDiffer(header, l);
  }

  /** No length is negative and no seek goes before the file. */
  ghost predicate Readable(header: seq<Byte>)
    requires |header| == HEADER_SIZE
  {
    forall l :: 0 <= l < AAS_LUMPS ==> LumpReadable(header, l)
  }

  predicate LumpReadable(header: seq<Byte>, l: nat)
    requires |header| == HEADER_SIZE && l < AAS_LUMPS
  {
    0 <= LumpLength(header, l) && (Seeks(header, l) ==> 0 <= LumpOffset(header, l))
  }

  lemma {:induction false} PlaceInFile(header: seq<Byte>, l: nat)
    requires |header| == HEADER_SIZE && l <= AAS_LUMPS
    requires forall k :: 0 <= k < l ==> LumpReadable(header, k)
    ensures 0 <= PlaceBefore(header, l).pos
    decreases l
  {
    if l > 0 {
      PlaceInFile(header, l - 1);
      assert LumpReadable(header, l - 1);
    }
  }

  // ----- what is loaded

  /** The whole elements at the beginning of some bytes. */
  function Whole(widths: seq<nat>, b: seq<Byte>): seq<Byte>
    requires Sum(widths) > 0
  {
    b[..WholeLength(Sum(widths), |b|)]
  }

  function WholeLength(size: nat, length: nat): (n: nat)
    requires size > 0
    ensures n <= length < n + size
    ensures length < size ==> n == 0
    ensures length >= size ==> n == size + WholeLength(size, length - size)
    decreases length
  {
    if length < size then 0 else size + WholeLength(size, length - size)
  }

  function LumpRead(content: seq<Byte>, header: seq<Byte>, l: nat): seq<Byte>
    requires |header| == HEADER_SIZE && l < AAS_LUMPS && 0 <= LumpLength(header, l)
    requires LumpLength(header, l) != 0 ==> 0 <= ReadAt(header, l)
  {
    FieldsAreWide(l);
    if LumpLength(header, l) == 0 then []
    else Whole(FIELDS[l], Over(Zeros(LumpLength(header, l)), content, ReadAt(header, l)))
  }

  ghost function LumpsRead(content: seq<Byte>, header: seq<Byte>): (r: seq<seq<Byte>>)
    requires |header| == HEADER_SIZE && Readable(header)
    ensures |r| == AAS_LUMPS
  {
    seq(AAS_LUMPS, l requires 0 <= l < AAS_LUMPS =>
      PlaceInFile(header, l);
      assert LumpReadable(header, l);
      LumpRead(content, header, l))
  }

  /** A lump cannot be sought, yet it is too short for any element, and no lump after it has data. */
  ghost predicate LostAt(header: seq<Byte>, l: nat)
    requires |header| == HEADER_SIZE
  {
    && l < AAS_LUMPS && (forall k :: 0 <= k < l ==> LumpReadable(header, k))
    && !LumpReadable(header, l) && 0 <= LumpLength(header, l) < Sum(FIELDS[l])
    && forall k :: l < k < AAS_LUMPS ==> LumpLength(header, k) == 0
  }

  /** The world is given up when a lump cannot be sought, and all the same counts as loaded. */
  ghost predicate GivenUp(header: seq<Byte>)
    requires |header| == HEADER_SIZE
  {
    exists l :: LostAt(header, l)
  }

  /** The tables that loading leaves, unless it fails. */
  ghost function TablesLoaded(content: seq<Byte>, header: seq<Byte>): (r: seq<seq<Byte>>)
    requires |header| == HEADER_SIZE
    ensures |r| == AAS_LUMPS
  {
    if Readable(header) then LumpsRead(content, header) else seq(AAS_LUMPS, _ => [])
  }

  /** What the header alone decides. */
  function HeaderOutcome(raw: seq<Byte>, checksum: Word): LoadError
    requires |raw| == HEADER_SIZE
  {
    if LittleWord(raw[..4]) != AASID then WrongFileId
    else if LittleWord(raw[4..8]) != AASVERSION_OLD && LittleWord(raw[4..8]) != AASVERSION then WrongFileVersion
    else if LittleWord(Uncovered(raw)[8..12]) != checksum then WrongFileVersion
    else NoError
  }

  /** What loading answers. */
  ghost function Outcome(raw: seq<Byte>, checksum: Word): LoadError
    requires |raw| == HEADER_SIZE
  {
    if HeaderOutcome(raw, checksum) != NoError then HeaderOutcome(raw, checksum)
    else if !Readable(Uncovered(raw)) && !GivenUp(Uncovered(raw)) then CannotReadLump
    else NoError
  }

  // ----- loading

  /** One lump has been loaded, from place p on: its table, and the place afterwards. */
  ghost predicate LumpLoaded(content: seq<Byte>, widths: seq<nat>, offset: int, length: int, p: Place,
                             table: seq<Byte>, q: Place)
    requires Sum(widths) > 0
  {
    && q == PlaceAfter(p, offset, length)
    && if length == 0 then table == []
       else
         var at := if offset != p.lastoffset then offset else p.pos;
         0 <= at && 0 <= length && table == Whole(widths, Over(Zeros(length), content, at))
  }

  /** Reads the bytes of one lump. */
  method LoadLump(fp: File, offset: int, length: int, lastoffset: int, widths: seq<nat>)
    returns (failed: bool, table: array<Byte>, last: int)
    requires Sum(widths) > 0
    modifies fp`pos
    ensures fresh(table)
    ensures failed <==> length < 0 || (length != 0 && offset != lastoffset && offset < 0)
    ensures !failed ==>
      LumpLoaded(fp.content, widths, offset, length, Place(old(fp.pos), lastoffset), table[..], Place(fp.pos, last))
  {
    failed, last := false, lastoffset;
    if length == 0 {
      table := new Byte[0];
      return;
    }
    if offset != lastoffset {
      failed := fp.Seek(offset);
      if failed {
        table := new Byte[0];
        return;
      }
    }
    if length < 0 {
      table := new Byte[0];
      return true, table, last;
    }
    var buf := new Byte[length](_ => 0);
    assert buf[..] == Zeros(length);
    fp.Read(buf);
    last := lastoffset + length;
    var whole := WholeLength(Sum(widths), length);
    table := new Byte[whole](k requires 0 <= k < whole <= buf.Length reads buf => buf[k]);
    assert table[..] == buf[..whole];
  }

  /** The first n tables have been loaded. */
  ghost predicate LoadedUpTo(content: seq<Byte>, header: seq<Byte>, tables: seq<seq<Byte>>, p: Place, n: nat) {
    && |header| == HEADER_SIZE && n <= AAS_LUMPS && |tables| == n
    && p == PlaceBefore(header, n) && 0 <= p.pos
    && forall l :: 0 <= l < n ==>
         LumpReadable(header, l) && (LumpLength(header, l) != 0 ==> 0 <= ReadAt(header, l))
         && tables[l] == LumpRead(content, header, l)
  }

  lemma LoadingStarts(content: seq<Byte>, header: seq<Byte>)
    requires |header| == HEADER_SIZE
    ensures LoadedUpTo(content, header, [], Place(HEADER_SIZE, HEADER_SIZE), 0)
  {
  }

  /** A lump that was loaded is the next one. */
  lemma LoadingGoesOn(content: seq<Byte>, header: seq<Byte>, tables: seq<seq<Byte>>, p: Place, n: nat,
                      table: seq<Byte>, q: Place)
    requires LoadedUpTo(content, header, tables, p, n) && n < AAS_LUMPS && Sum(FIELDS[n]) > 0
    requires LumpLoaded(content, FIELDS[n], LumpOffset(header, n), LumpLength(header, n), p, table, q)
    ensures LoadedUpTo(content, header, tables + [table], q, n + 1)
  {
    hide LumpOffset, LumpLength, Whole, Over, Zeros;
    assert LumpReadable(header, n) && table == LumpRead(content, header, n);
    assert forall l :: 0 <= l < n ==> (tables + [table])[l] == tables[l];
  }

  lemma LoadedPlace(content: seq<Byte>, header: seq<Byte>, tables: seq<seq<Byte>>, p: Place, n: nat)
    requires LoadedUpTo(content, header, tables, p, n)
    ensures |header| == HEADER_SIZE && n <= AAS_LUMPS && |tables| == n
    ensures p == PlaceBefore(header, n)
    ensures forall l :: 0 <= l < n ==> LumpReadable(header, l)
  {
  }

  /** Loads lump l, if it can be read. */
  method LoadNext(fp: File, header: seq<Byte>, l: nat, lastoffset: int, ghost loaded: seq<seq<Byte>>)
    returns (failed: bool, table: array<Byte>, last: int)
    requires |header| == HEADER_SIZE && l < AAS_LUMPS
    requires LoadedUpTo(fp.content, header, loaded, Place(fp.pos, lastoffset), l)
    modifies fp`pos
    ensures fresh(table)
    ensures failed <==> !LumpReadable(header, l)
    ensures !failed ==> LoadedUpTo(fp.content, header, loaded + [table[..]], Place(fp.pos, last), l + 1)
  {
    hide LoadedUpTo, LumpOffset, LumpLength, LumpLoaded, PlaceBefore;
    ghost var p := Place(fp.pos, lastoffset);
    assert p == PlaceBefore(header, l) by { LoadedPlace(fp.content, header, loaded, p, l); }
    assert Sum(FIELDS[l]) > 0 by { FieldsAreWide(l); }
    failed, table, last := LoadLump(fp, LumpOffset(header, l), LumpLength(header, l), lastoffset, FIELDS[l]);
    if !failed {
      assert LoadedUpTo(fp.content, header, loaded + [table[..]], Place(fp.pos, last), l + 1) by {
        LoadingGoesOn(fp.content, header, loaded, p, l, table[..], Place(fp.pos, last));
      }
    }
  }

  /** These arrays are new ones, different from each other, and hold these tables. */
  ghost predicate Hold(tables: seq<array<Byte>>, contents: seq<seq<Byte>>)
    reads tables
  {
    && |tables| == |contents|
    && (forall k :: 0 <= k < |tables| ==> tables[k][..] == contents[k])
    && forall i, j :: 0 <= i < j < |tables| ==> tables[i] != tables[j]
  }

  /** The first lump that cannot be read decides whether the world is given up. */
  lemma LostFirst(header: seq<Byte>, l: nat)
    requires |header| == HEADER_SIZE && l < AAS_LUMPS && !LumpReadable(header, l)
    requires forall k :: 0 <= k < l ==> LumpReadable(header, k)
    ensures !Readable(header) && (GivenUp(header) <==> LostAt(header, l))
  {
    hide LumpReadable, LumpOffset, LumpLength, Sum;
    forall k | LostAt(header, k)
      ensures k == l
    {
    }
  }

  /** Does no lump from k on have data? */
  method AllEmpty(header: seq<Byte>, k: nat) returns (empty: bool)
    requires |header| == HEADER_SIZE && k <= AAS_LUMPS
    ensures empty <==> forall j :: k <= j < AAS_LUMPS ==> LumpLength(header, j) == 0
  {
    hide LumpLength;
    var i := k;
    while i < AAS_LUMPS
      invariant k <= i <= AAS_LUMPS && forall j :: k <= j < i ==> LumpLength(header, j) == 0
    {
      if LumpLength(header, i) != 0 { return false; }
      i := i + 1;
    }
    return true;
  }

  /** What becomes of the world when lump l could not be read: all tables are dropped and the file is
      closed. Loading goes on if the lump has no whole element, but no lump after it can be read. */
  method GiveUp(header: seq<Byte>, l: nat) returns (failed: bool, tables: seq<array<Byte>>)
    requires |header| == HEADER_SIZE && l < AAS_LUMPS && !LumpReadable(header, l)
    requires forall k :: 0 <= k < l ==> LumpReadable(header, k)
    ensures !Readable(header) && (failed <==> !GivenUp(header))
    ensures !failed ==> Hold(tables, seq(AAS_LUMPS, _ => [])) && forall k :: 0 <= k < |tables| ==> fresh(tables[k])
  {
    hide LumpReadable, LumpOffset, LumpLength, Readable, GivenUp, Hold, Sum;
    LostFirst(header, l);
    var empty := AllEmpty(header, l + 1);
    failed := LumpLength(header, l) < 0 || LumpLength(header, l) >= Sum(FIELDS[l]) || !empty;
    assert failed <==> !LostAt(header, l);
    tables := NoTables();
  }

  method NoTables() returns (tables: seq<array<Byte>>)
    ensures Hold(tables, seq(AAS_LUMPS, _ => [])) && forall k :: 0 <= k < |tables| ==> fresh(tables[k])
  {
    tables := [];
    var k := 0;
    while k < AAS_LUMPS
      invariant 0 <= k <= AAS_LUMPS && Hold(tables, seq(k, _ => []))
      invariant forall j :: 0 <= j < k ==> fresh(tables[j])
    {
      var table := new Byte[0];
      tables := tables + [table];
      k := k + 1;
    }
  }

  /** Loads all lumps in turn. */
  method LoadLumps(fp: File, header: seq<Byte>) returns (failed: bool, tables: seq<array<Byte>>)
    requires |header| == HEADER_SIZE && fp.pos == HEADER_SIZE
    modifies fp`pos
    ensures failed <==> !Readable(header) && !GivenUp(header)
    ensures !failed ==> Hold(tables, TablesLoaded(fp.content, header))
    ensures !failed ==> forall k :: 0 <= k < |tables| ==> fresh(tables[k])
  {
    hide LoadedUpTo, LumpReadable, Readable, GivenUp, TablesLoaded;
    ghost var loaded: seq<seq<Byte>> := [];
    tables := [];
    var lastoffset, l := HEADER_SIZE, 0;
    assert LoadedUpTo(fp.content, header, loaded, Place(fp.pos, lastoffset), 0) by { LoadingStarts(fp.content, header); }
    while l < AAS_LUMPS
      invariant 0 <= l <= AAS_LUMPS && |tables| == l
      invariant LoadedUpTo(fp.content, header, loaded, Place(fp.pos, lastoffset), l)
      invariant Hold(tables, loaded) && forall k :: 0 <= k < l ==> fresh(tables[k])
    {
      ghost var p := Place(fp.pos, lastoffset);
      var table;
      failed, table, lastoffset := LoadNext(fp, header, l, lastoffset, loaded);
      if failed {
        LoadedPlace(fp.content, header, loaded, p, l);
        failed, tables := GiveUp(header, l);
        assert !failed ==> TablesLoaded(fp.content, header) == seq(AAS_LUMPS, _ => []) by {
          if !failed { NothingLoaded(fp.content, header); }
        }
        return;
      }
      loaded := loaded + [table[..]];
      tables := tables + [table];
      l := l + 1;
    }
    assert Readable(header) && loaded == TablesLoaded(fp.content, header) by {
      LoadingEnds(fp.content, header, loaded, Place(fp.pos, lastoffset));
    }
    failed := false;
  }

  lemma NothingLoaded(content: seq<Byte>, header: seq<Byte>)
    requires |header| == HEADER_SIZE && !Readable(header)
    ensures TablesLoaded(content, header) == seq(AAS_LUMPS, _ => [])
  {
  }

  lemma LoadingEnds(content: seq<Byte>, header: seq<Byte>, tables: seq<seq<Byte>>, p: Place)
    requires LoadedUpTo(content, header, tables, p, AAS_LUMPS)
    ensures Readable(header) && tables == TablesLoaded(content, header)
  {
    hide LumpOffset, LumpLength, LumpRead;
  }

  /** Reads the header and checks it. */
  method ReadHeader(w: AasWorldTables, fp: File, host: Host, checksum: Word, header: array<Byte>)
    returns (error: LoadError)
    requires fp.pos == 0 && header.Length == HEADER_SIZE
    modifies w`bspchecksum, fp`pos, header
    ensures var raw := Over(old(header[..]), fp.content, 0);
      && error == HeaderOutcome(raw, checksum)
      && (error == NoError ==> header[..] == Uncovered(raw) && fp.pos == HEADER_SIZE && w.bspchecksum == checksum)
  {
    hide Obfuscated, LittleWord;
    ghost var raw := Over(header[..], fp.content, 0);
    fp.Read(header);
    assert header[..] == raw;
    var ident := GetWord(header, 0, host);
    if ident != AASID { return WrongFileId; }
    var version := GetWord(header, 1, host);
    if version != AASVERSION_OLD && version != AASVERSION { return WrongFileVersion; }
    if version == AASVERSION {
      DData(header, 8);
    }
    assert header[..] == Uncovered(raw);
    w.bspchecksum := checksum;
    var bspchecksum := GetWord(header, 2, host);
    return if bspchecksum != checksum then WrongFileVersion else NoError;
  }

  /** Loads a file; header is memory of any content for the header to be read into. */
  method LoadAASFile(w: AasWorldTables, fp: File, canOpen: bool, host: Host, checksum: Word, header: array<Byte>)
    returns (error: LoadError)
    requires fp.pos == 0 && header.Length == HEADER_SIZE
    modifies w, fp`pos, header
    ensures error == if !canOpen then CannotOpenFile else Outcome(Over(old(header[..]), fp.content, 0), checksum)
    ensures w.loaded <==> error == NoError
    ensures error == NoError ==>
      && var plain := Uncovered(Over(old(header[..]), fp.content, 0));
      && w.Valid() && w.Contents() == AllInFileOrder(host, TablesLoaded(fp.content, plain))
      && w.bspchecksum == checksum
    ensures error != NoError ==> w.tables == []
  {
    hide Readable, GivenUp, TablesLoaded, HeaderOutcome, Uncovered, Over, AllInFileOrder;
    w.tables, w.loaded := [], false;
    if !canOpen { return CannotOpenFile; }
    error := ReadHeader(w, fp, host, checksum, header);
    if error != NoError { return; }
    var failed, tables := LoadLumps(fp, header[..]);
    if failed { return CannotReadLump; }
    w.tables := tables;
    assert w.Contents() == TablesLoaded(fp.content, header[..]);
    w.SwapAASData(host);
    w.loaded := true;
  }

  // ----- two files that load as something else

  /** A file of the old version, whose header is these words as they are. */
  ghost predicate Begins(raw: seq<Byte>, words: seq<Word>) {
    && |words| == HEADER_WORDS && raw == WordsBytes(words)
    && words[0] == AASID && words[1] == AASVERSION_OLD && words[2] == 0
  }

  lemma HeaderSays(raw: seq<Byte>, words: seq<Word>)
    requires Begins(raw, words)
    ensures |raw| == HEADER_SIZE && HeaderOutcome(raw, 0) == NoError && Uncovered(raw) == raw
    ensures forall l :: 0 <= l < AAS_LUMPS ==>
      LumpOffset(raw, l) == Signed(words[3 + 2 * l]) && LumpLength(raw, l) == Signed(words[4 + 2 * l])
  {
    hide WordsBytes, LittleWord, Signed;
    WordTells(words, 0);
    WordTells(words, 1);
    WordTells(words, 2);
    forall l | 0 <= l < AAS_LUMPS
      ensures LumpOffset(raw, l) == Signed(words[3 + 2 * l]) && LumpLength(raw, l) == Signed(words[4 + 2 * l])
    {
      WordTells(words, 3 + 2 * l);
      WordTells(words, 4 + 2 * l);
    }
  }

  /** Two tables: a bounding box at 168, and a vertex at 156. */
  const TWO_TABLES: seq<Word> := [AASID, AASVERSION_OLD, 0, 168, 32, 156, 12] + seq(24, _ => 0)

  /** The box is sought and read. The loader then believes to be at the vertex, but is at the end of
      the file: the vertex is loaded as zeros, whatever it was. */
  lemma SoughtThenLost(raw: seq<Byte>, content: seq<Byte>)
    requires Begins(raw, TWO_TABLES) && |content| == 200 && raw <= content
    ensures |raw| == HEADER_SIZE && Outcome(raw, 0) == NoError && Readable(raw)
    ensures ReadAt(raw, 0) == 168 == LumpOffset(raw, 0) && ReadAt(raw, 1) == 200 && LumpOffset(raw, 1) == 156
    ensures LumpsRead(content, raw)[1] == Zeros(12)
  {
    hide LumpOffset, LumpLength, HeaderOutcome, Uncovered, WordsBytes, Begins;
    HeaderSays(raw, TWO_TABLES);
    forall l | 2 <= l < AAS_LUMPS
      ensures LumpLength(raw, l) == 0
    {
      assert TWO_TABLES[4 + 2 * l] == 0;
    }
    assert PlaceBefore(raw, 1) == Place(200, 156);
    forall l | 0 <= l < AAS_LUMPS
      ensures LumpReadable(raw, l)
    {
    }
    assert Whole(FIELDS[1], Zeros(12)) == Zeros(12);
    assert Over(Zeros(12), content, 200) == Zeros(12);
  }

  /** Two tables: a bounding box, and four bytes at -1 where there should be clusters of sixteen. */
  const SHORT_TABLE: seq<Word> := [AASID, AASVERSION_OLD, 0, 124, 32] + seq(24, _ => 0) + [0xFFFF_FFFF, 4]

  /** The world is given up at its last table, with the box that had been read, and counts as loaded. */
  lemma LoadedWithNothing(raw: seq<Byte>, content: seq<Byte>)
    requires Begins(raw, SHORT_TABLE) && raw <= content
    ensures |raw| == HEADER_SIZE && Outcome(raw, 0) == NoError && !Readable(raw)
    ensures TablesLoaded(content, raw) == seq(AAS_LUMPS, _ => [])
  {
    hide LumpOffset, LumpLength, HeaderOutcome, Uncovered, WordsBytes, Begins;
    HeaderSays(raw, SHORT_TABLE);
    forall l | 1 <= l < AAS_LUMPS - 1
      ensures LumpLength(raw, l) == 0
    {
      assert SHORT_TABLE[4 + 2 * l] == 0;
    }
    var last := AAS_LUMPS - 1;
    assert SHORT_TABLE[3 + 2 * last] == 0xFFFF_FFFF && SHORT_TABLE[4 + 2 * last] == 4;
    PlacesGoOn(raw, 1, last);
    assert PlaceBefore(raw, 1) == Place(156, 156);
    assert Seeks(raw, last) && !LumpReadable(raw, last);
    assert LostAt(raw, last);
  }

  lemma {:induction false} PlacesGoOn(header: seq<Byte>, l: nat, n: nat)
    requires |header| == HEADER_SIZE && l <= n <= AAS_LUMPS
    requires forall k :: l <= k < n ==> LumpLength(header, k) == 0
    ensures PlaceBefore(header, n) == PlaceBefore(header, l)
  {
    if l < n {
      PlacesGoOn(header, l, n - 1);
    }
  }

  // ----- what is written comes back

  /** The tables hold whole elements only. */
  ghost predicate WholeTables(tables: seq<seq<Byte>>) {
    |tables| == AAS_LUMPS && forall l :: 0 <= l < AAS_LUMPS ==> WholeTable(l, |tables[l]|)
  }

  predicate WholeTable(l: nat, length: nat)
    requires l < AAS_LUMPS
  {
    Sum(FIELDS[l]) > 0 && WholeLength(Sum(FIELDS[l]), length) == length
  }

  lemma {:induction false} JoinedPart(tables: seq<seq<Byte>>, l: nat, n: nat)
    requires l < n <= |tables|
    ensures HEADER_SIZE <= Start(tables, l)
    ensures Start(tables, l) - HEADER_SIZE + |tables[l]| <= |Joined(tables, n)|
    ensures Joined(tables, n)[Start(tables, l) - HEADER_SIZE..][..|tables[l]|] == tables[l]
    decreases n
  {
    StartsAfterHeader(tables, l);
    JoinedLength(tables, n - 1);
    JoinedLength(tables, l);
    if l < n - 1 {
      JoinedPart(tables, l, n - 1);
    }
  }

  lemma {:induction false} PlacesInSequence(header: seq<Byte>, tables: seq<seq<Byte>>, l: nat)
    requires |header| == HEADER_SIZE && |tables| == AAS_LUMPS && l <= AAS_LUMPS
    requires forall k :: 0 <= k < AAS_LUMPS ==> LumpOffset(header, k) == Start(tables, k)
    requires forall k :: 0 <= k < AAS_LUMPS ==> LumpLength(header, k) == |tables[k]|
    ensures PlaceBefore(header, l) == Place(Start(tables, l), Start(tables, l))
    decreases l
  {
    if l > 0 {
      PlacesInSequence(header, tables, l - 1);
    }
  }

  lemma LumpComesBack(checksum: Word, tables: seq<seq<Byte>>, header: seq<Byte>, l: nat)
    requires FileFits(tables) && WholeTables(tables) && l < AAS_LUMPS
    requires |header| == HEADER_SIZE
    requires forall k :: 0 <= k < AAS_LUMPS ==> LumpOffset(header, k) == Start(tables, k)
    requires forall k :: 0 <= k < AAS_LUMPS ==> LumpLength(header, k) == |tables[k]|
    ensures !Seeks(header, l) && LumpReadable(header, l) && 0 <= ReadAt(header, l)
    ensures LumpRead(FileOf(checksum, tables), header, l) == tables[l]
  {
    hide LumpOffset, LumpLength, HeaderBytes, Sum, Start, Joined, Over, FileOf, WholeLength;
    PlacesInSequence(header, tables, l);
    StartsAfterHeader(tables, l);
    TableInFile(checksum, tables, l);
    assert WholeTable(l, |tables[l]|);
  }

  lemma OverExact(content: seq<Byte>, before: seq<Byte>, rest: seq<Byte>, at: nat, n: nat)
    requires content == before + rest && at + n <= |rest|
    ensures Over(Zeros(n), content, |before| + at) == rest[at..][..n]
  {
  }

  /** A read of the right length at the start of a table gives the table. */
  lemma TableInFile(checksum: Word, tables: seq<seq<Byte>>, l: nat)
    requires FileFits(tables) && l < AAS_LUMPS
    ensures 0 <= Start(tables, l)
    ensures Over(Zeros(|tables[l]|), FileOf(checksum, tables), Start(tables, l)) == tables[l]
  {
    hide HeaderBytes, Start, Joined, Over;
    JoinedPart(tables, l, AAS_LUMPS);
    OverExact(FileOf(checksum, tables), HeaderBytes(checksum, tables), Joined(tables, AAS_LUMPS),
              Start(tables, l) - HEADER_SIZE, |tables[l]|);
  }

  /** A file that was written is accepted with the checksum that it was written with and refused with
      any other, no lump is sought, and the lumps that are read are the tables that were written. */
  lemma FileComesBack(checksum: Word, tables: seq<seq<Byte>>, stale: seq<Byte>, now: Word)
    requires FileFits(tables) && WholeTables(tables) && |stale| == HEADER_SIZE
    ensures var raw := Over(stale, FileOf(checksum, tables), 0);
      && Outcome(raw, now) == (if now == checksum then NoError else WrongFileVersion)
      && (forall l :: 0 <= l < AAS_LUMPS ==> !Seeks(Uncovered(raw), l))
      && Readable(Uncovered(raw))
      && LumpsRead(FileOf(checksum, tables), Uncovered(raw)) == tables
  {
    hide LumpOffset, LumpLength, LumpRead, Seeks, LumpReadable, ReadAt, LittleWord, Uncovered, Joined, FileFits;
    hide HeaderWords, WordsBytes;
    var content, bytes := FileOf(checksum, tables), HeaderBytes(checksum, tables);
    var raw := Over(stale, content, 0);
    assert raw == bytes by { assert |content| >= |bytes| && forall k :: 0 <= k < |bytes| ==> content[k] == bytes[k]; }
    HeaderUncovered(checksum, tables);
    var header := Uncovered(raw);
    forall l | 0 <= l < AAS_LUMPS
      ensures LittleWord(header[8..12]) == checksum
      ensures LumpOffset(header, l) == Start(tables, l) && LumpLength(header, l) == |tables[l]|
    {
      HeaderTells(checksum, tables, l);
    }
    HeaderTells(checksum, tables, 0);
    forall l | 0 <= l < AAS_LUMPS
      ensures !Seeks(header, l) && LumpReadable(header, l) && 0 <= ReadAt(header, l)
      ensures LumpRead(content, header, l) == tables[l]
    {
      LumpComesBack(checksum, tables, header, l);
    }
  }

  /** A world written on one machine and loaded on another means the same there: every field of every
      element has the value that it had. On the same machine the tables are the same bytes. */
  lemma WorldComesBack(checksum: Word, was: seq<seq<Byte>>, stale: seq<Byte>, writer: Host, reader: Host)
    requires FileFits(was) && WholeTables(was) && |stale| == HEADER_SIZE
    ensures var tables := AllInFileOrder(writer, was);
      && FileFits(tables)
      && var raw := Over(stale, FileOf(checksum, tables), 0);
      && Outcome(raw, checksum) == NoError && Readable(Uncovered(raw))
      && var loaded := AllInFileOrder(reader, LumpsRead(FileOf(checksum, tables), Uncovered(raw)));
      && (forall l :: 0 <= l < AAS_LUMPS ==>
            Values(reader, FIELDS[l], loaded[l]) == Values(writer, FIELDS[l], was[l]))
      && (reader == writer ==> loaded == was)
  {
    hide Outcome, Readable, LumpsRead, FileOf, Values, InFileOrder, Uncovered, Start, Over, WholeTable, FileFits;
    var tables := AllInFileOrder(writer, was);
    SwappingKeepsSizes(was, tables, writer);
    assert WholeTables(tables) by {
      assert forall l :: 0 <= l < AAS_LUMPS ==> WholeTable(l, |was[l]|);
    }
    FileComesBack(checksum, tables, stale, checksum);
    var loaded := AllInFileOrder(reader, tables);
    forall l | 0 <= l < AAS_LUMPS
      ensures Values(reader, FIELDS[l], loaded[l]) == Values(writer, FIELDS[l], was[l])
      ensures reader == writer ==> loaded[l] == was[l]
    {
      InFileOrderTwice(reader, FIELDS[l], tables[l]);
      InFileOrderTwice(writer, FIELDS[l], was[l]);
      FileOrderKeepsValues(reader, FIELDS[l], loaded[l]);
      FileOrderKeepsValues(writer, FIELDS[l], was[l]);
    }
  }
}
