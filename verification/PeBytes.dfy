/** Windows images byte by byte: where the headers keep what the parser takes from them, where an address
    leads, and how names, thunks and descriptors lie in the data. */
module PeBytes {
  import opened Bytes
  import opened PeImports

  // ----- numbers, lowest byte first

  function U16(b: seq<Byte>, at: nat): int
    requires at + 2 <= |b|
  {
    var b0: int, b1: int := b[at], b[at + 1];
    b0 + 256 * b1
  }

  function U32(b: seq<Byte>, at: nat): int
    requires at + 4 <= |b|
  {
    U16(b, at) + 65536 * U16(b, at + 2)
  }

  function U64(b: seq<Byte>, at: nat): int
    requires at + 8 <= |b|
  {
    U32(b, at) + 4294967296 * U32(b, at + 4)
  }

  lemma NumberNext(b: seq<Byte>)
    requires b != []
    ensures Number(b) == b[0] + 0x100 * Number(b[1..])
  {
  }

  lemma NumberOfTwo(b: seq<Byte>)
    requires |b| == 2
    ensures Number(b) == U16(b, 0)
  {
    hide Number;
    NumberNext(b);
    NumberNext(b[1..]);
    assert b[1..][1..] == [] && Number([]) == 0 by { NumberOfNone(); }
  }

  lemma NumberOfNone()
    ensures Number([]) == 0
  {
  }

  /** The number of some bytes is that of the first two, and 65536 times that of the others. */
  lemma NumberAfterTwo(b: seq<Byte>)
    requires |b| >= 2
    ensures Number(b) == U16(b, 0) + 65536 * Number(b[2..])
  {
    hide Number;
    NumberNext(b);
    NumberNext(b[1..]);
    assert b[1..][1..] == b[2..];
  }

  lemma FieldOfTwo(data: seq<Byte>, at: nat)
    requires at + 2 <= |data|
    ensures Field(data, at, 2) == U16(data, at)
  {
    hide Number;
    NumberOfTwo(data[at..at + 2]);
  }

  lemma FieldOfFour(data: seq<Byte>, at: nat)
    requires at + 4 <= |data|
    ensures Field(data, at, 4) == U32(data, at)
  {
    hide Number;
    var b := data[at..at + 4];
    NumberAfterTwo(b);
    NumberOfTwo(b[2..]);
  }

  lemma FieldOfEight(data: seq<Byte>, at: nat)
    requires at + 8 <= |data|
    ensures Field(data, at, 8) == U64(data, at)
  {
    hide Number;
    var b := data[at..at + 8];
    NumberAfterTwo(b);
    NumberAfterTwo(b[2..]);
    assert b[2..][2..] == data[at + 4..at + 8];
    FieldOfFour(data, at + 4);
  }

  // ----- headers

  /** Section i: forty bytes, with its size in memory at 8, its address at 12, its size in the file at 16
      and its place there at 20; the larger size counts. */
  ghost predicate SectionAt(data: seq<Byte>, at: nat, s: Section)
    requires at + 40 <= |data|
  {
    && s.address == U32(data, at + 12) && s.rawOffset == U32(data, at + 20)
    && U32(data, at + 8) <= s.mapped && U32(data, at + 16) <= s.mapped
    && (s.mapped == U32(data, at + 8) || s.mapped == U32(data, at + 16))
  }

  lemma {:induction false} SectionsInBytes(data: seq<Byte>, at: nat, n: nat)
    requires at + 40 * n <= |data|
    ensures |Sections(data, at, n)| == n
    ensures forall i :: 0 <= i < n ==> SectionAt(data, at + 40 * i, Sections(data, at, n)[i])
  {
    hide Field, U32;
    if n > 0 {
      var s := at + 40 * (n - 1);
      SectionsInBytes(data, at, n - 1);
      FieldOfFour(data, s + 8);
      FieldOfFour(data, s + 12);
      FieldOfFour(data, s + 16);
      FieldOfFour(data, s + 20);
    }
  }

  lemma SameSection(data: seq<Byte>, at: nat, s: Section, t: Section)
    requires at + 40 <= |data| && SectionAt(data, at, s) && SectionAt(data, at, t)
    ensures s == t
  {
    hide U32;
  }

  /** The import directory: the second of the directories, if there are two and they fit in the optional
      header; else there are no imports. */
  ghost predicate DirectoryAt(data: seq<Byte>, count: nat, end: nat, rva: int, size: int)
    requires count + 4 <= |data| && end <= |data|
  {
    if U32(data, count) > 1 && count + 20 <= end then rva == U32(data, count + 12) && size == U32(data, count + 16)
    else rva == 0 && size == 0
  }

  /** The headers of an image: "MZ", the place of "PE" at 60, machine, number of sections, size of the optional
      header and characteristics behind it; in the optional header its kind, 32 or 64 bits wide,
      and the directories; and the sections after it. */
  ghost predicate HeadersAt(data: seq<Byte>, image: Image) {
    && |data| >= 64 && data[0] == 0x4D && data[1] == 0x5A
    && var pe := U32(data, 60);
       && 64 <= pe && pe + 24 <= |data| && data[pe..pe + 4] == [0x50, 0x45, 0, 0]
       && image.machine == U16(data, pe + 4)
       && (image.isDll <==> U16(data, pe + 22) / 8192 % 2 == 1)
       && OptionalAt(data, image, pe + 24, U16(data, pe + 20), U16(data, pe + 6))
  }

  ghost predicate OptionalAt(data: seq<Byte>, image: Image, at: nat, size: int, sections: int) {
    && at + 2 <= |data| && at + size <= |data| && 0 <= size && 0 <= sections <= 96
    && U16(data, at) == (if image.wide then 0x20B else 0x10B)
    && var count := if image.wide then at + 108 else at + 92;
       && count + 4 <= |data| && DirectoryAt(data, count, at + size, image.importRva, image.importSize)
       && image.sectionOffset == at + size && at + size + 40 * sections <= |data| && |image.sections| == sections
       && forall i :: 0 <= i < sections ==> SectionAt(data, at + size + 40 * i, image.sections[i])
  }

  lemma HeadersInBytes(data: seq<Byte>, image: Image)
    ensures Headers(data) == Ok(Some(image)) <==> HeadersAt(data, image)
    ensures Headers(data) == Ok(None) <==> |data| < 2 || data[0] != 0x4D || data[1] != 0x5A
  {
    hide Field, U32, U16, Sections, SectionAt;
    assert |data| >= 2 ==> data[..2] == [data[0], data[1]];
    if |data| >= 64 && data[0] == 0x4D && data[1] == 0x5A {
      FieldOfFour(data, 60);
      var pe := Field(data, 60, 4);
      if 64 <= pe && pe + 24 <= |data| && data[pe..pe + 4] == [0x50, 0x45, 0, 0] {
        FieldOfTwo(data, pe + 4);
        FieldOfTwo(data, pe + 6);
        FieldOfTwo(data, pe + 20);
        FieldOfTwo(data, pe + 22);
        OptionalInBytes(data, image, pe + 24, Field(data, pe + 20, 2), Field(data, pe + 6, 2));
      }
    }
  }

  /** What the parser makes of the optional header and the sections. */
  function OptionalOf(data: seq<Byte>, optional: nat, optionalSize: nat, sectionCount: nat):
    Option<(nat, nat, bool, seq<Section>)>
  {
    if |data| < optional + optionalSize || |data| < optional + 2 then None
    else
      var magic := Field(data, optional, 2);
      if magic != 0x10B && magic != 0x20B then None
      else
        var directories := if magic == 0x10B then optional + 92 else optional + 108;
        if |data| < directories + 4 then None
        else
          var listed := Field(data, directories, 4) > 1 && directories + 20 <= optional + optionalSize;
          var sectionOffset := optional + optionalSize;
          if 96 < sectionCount || |data| < sectionOffset + 40 * sectionCount then None
          else
            Some((if listed then Field(data, directories + 12, 4) else 0,
                  if listed then Field(data, directories + 16, 4) else 0,
                  magic == 0x20B, Sections(data, sectionOffset, sectionCount)))
  }

  lemma OptionalInBytes(data: seq<Byte>, image: Image, at: nat, size: nat, sections: nat)
    ensures OptionalAt(data, image, at, size, sections) <==>
      && image.sectionOffset == at + size
      && OptionalOf(data, at, size, sections) == Some((image.importRva, image.importSize, image.wide, image.sections))
  {
    hide Field, U32, U16, Sections, SectionAt;
    if at + size <= |data| && at + 2 <= |data| {
      FieldOfTwo(data, at);
      var count := if Field(data, at, 2) == 0x10B then at + 92 else at + 108;
      if count + 4 <= |data| {
        FieldOfFour(data, count);
        if count + 20 <= |data| {
          FieldOfFour(data, count + 12);
          FieldOfFour(data, count + 16);
        }
      }
      if at + size + 40 * sections <= |data| {
        SectionsInBytes(data, at + size, sections);
        if |image.sections| == sections {
          SectionsAgree(data, at + size, sections, image.sections);
        }
      }
    }
  }

  lemma SectionsAgree(data: seq<Byte>, at: nat, n: nat, sections: seq<Section>)
    requires at + 40 * n <= |data| && |sections| == n
    ensures sections == Sections(data, at, n) <==> forall i :: 0 <= i < n ==> SectionAt(data, at + 40 * i, sections[i])
  {
    hide SectionAt, Sections;
    SectionsInBytes(data, at, n);
    if forall i :: 0 <= i < n ==> SectionAt(data, at + 40 * i, sections[i]) {
      forall i | 0 <= i < n
        ensures sections[i] == Sections(data, at, n)[i]
      {
        SameSection(data, at + 40 * i, sections[i], Sections(data, at, n)[i]);
      }
    }
  }

  // ----- addresses, names, thunks and descriptors

  /** Where an address leads: into the first section that maps it, if that is inside the data; else to its
      own place, if that is in the headers. */
  lemma AddressLeads(data: seq<Byte>, image: Image, rva: nat, k: nat)
    requires k <= |image.sections|
    requires forall j :: 0 <= j < k ==>
      rva < image.sections[j].address || image.sections[j].address + image.sections[j].mapped <= rva
    requires k < |image.sections| ==>
      image.sections[k].address <= rva < image.sections[k].address + image.sections[k].mapped
    ensures var at := if k < |image.sections| then image.sections[k].rawOffset + rva - image.sections[k].address else |data|;
      RvaToOffset(data, image, rva)
      == if at < |data| then Ok(at) else if rva < image.sectionOffset then Ok(rva) else Invalid
  {
    var f := FirstMapping(image.sections, rva, 0);
    assert f < k ==> Maps(image.sections[f], rva);
    assert k < |image.sections| ==> Maps(image.sections[k], rva);
  }

  lemma {:induction false} FirstZero(data: seq<Byte>, at: nat, limit: nat)
    requires limit <= |data|
    ensures var end := Until(data, at, limit);
      if end.Some? then
        at <= end.value < limit && data[end.value] == 0 && forall i :: at <= i < end.value ==> data[i] != 0
      else forall i :: at <= i < limit ==> data[i] != 0
    decreases limit - at
  {
    if at < limit && data[at] != 0 {
      FirstZero(data, at + 1, limit);
    }
  }

  /** A name: at most 511 bytes from 1 to 127, and a zero behind them. */
  lemma NameInBytes(data: seq<Byte>, at: nat, name: Name)
    ensures CString(data, at) == Ok(name) <==>
      && at + |name| < |data| && |name| <= 511
      && data[at..at + |name|] == name && data[at + |name|] == 0
      && forall i :: 0 <= i < |name| ==> 0 < name[i] < 128
  {
    hide Until;
    if at < |data| {
      var limit := Min(|data|, at + 512);
      FirstZero(data, at, limit);
      var end := Until(data, at, limit);
      if at + |name| < |data| && data[at..at + |name|] == name {
        forall i | 0 <= i < |name|
          ensures name[i] == data[at + i]
        {
          assert data[at..at + |name|][i] == data[at + i];
        }
      }
    }
  }

  /** An entry of a thunk table: four bytes or eight. Zero ends the table; the highest bit tells that a
      function has no name; else the name lies two bytes behind the address that the entry is. */
  lemma ThunkInBytes(data: seq<Byte>, image: Image, at: nat, left: nat)
    requires left > 0 && at + (if image.wide then 8 else 4) <= |data|
    ensures var next := if image.wide then at + 8 else at + 4;
      var thunk, high := if image.wide then U64(data, at) else U32(data, at),
                         if image.wide then 9223372036854775808 else 2147483648;
      && (thunk == 0 ==> Thunks(data, image, at, left) == Ok([]))
      && (thunk >= high ==> Thunks(data, image, at, left) == Thunks(data, image, next, left - 1))
      && (0 < thunk < high ==>
            var place := RvaToOffset(data, image, thunk + 2);
            Thunks(data, image, at, left)
            == if place.Invalid? || CString(data, place.value).Invalid? then Invalid
               else Follow([CString(data, place.value).value], Thunks(data, image, next, left - 1)))
  {
    hide Thunks, RvaToOffset, CString, Field, U32, U64;
    ThunksNext(data, image, at, left);
    if image.wide {
      FieldOfEight(data, at);
      NumbersFit(data, at, true);
    } else {
      FieldOfFour(data, at);
      NumbersFit(data, at, false);
    }
  }

  lemma NumbersFit(data: seq<Byte>, at: nat, wide: bool)
    requires at + (if wide then 8 else 4) <= |data|
    ensures 0 <= U32(data, at) < 4294967296
    ensures wide ==> 0 <= U64(data, at) < 18446744073709551616
  {
    HalvesFit(data, at);
    if wide {
      HalvesFit(data, at + 4);
    }
  }

  lemma HalvesFit(data: seq<Byte>, at: nat)
    requires at + 4 <= |data|
    ensures 0 <= U16(data, at) < 65536 && 0 <= U16(data, at + 2) < 65536
  {
  }

  /** A thunk table has at most 65536 entries with the one that ends it. */
  lemma ThunkTable(data: seq<Byte>, image: Image, rva: nat)
    ensures NamedImports(data, image, rva)
      == var at := RvaToOffset(data, image, rva); if at.Invalid? then Invalid else Thunks(data, image, at.value, 65536)
    ensures forall at :: Thunks(data, image, at, 0) == Invalid
  {
    hide RvaToOffset;
  }

  /** A descriptor: five numbers. All zero end the list; else the fourth leads to the name of the library, and
      the first to its functions, or the last if that is zero. */
  lemma DescriptorInBytes(data: seq<Byte>, image: Image, at: nat, limit: nat, left: nat)
    requires left > 0 && at + 20 <= limit <= |data|
    ensures var f0, f1, f2 := U32(data, at), U32(data, at + 4), U32(data, at + 8);
      var f3, f4 := U32(data, at + 12), U32(data, at + 16);
      var r := Descriptors(data, image, at, limit, left);
      && (f0 == f1 == f2 == f3 == f4 == 0 ==> r == Ok([]))
      && (!(f0 == f1 == f2 == f3 == f4 == 0) && f3 == 0 ==> r == Invalid)
      && (f3 > 0 ==>
            var place := RvaToOffset(data, image, f3);
            r == if place.Invalid? || CString(data, place.value).Invalid? then Invalid
                 else Follow([Import(CString(data, place.value).value, if f0 > 0 then f0 else if f4 > 0 then f4 else 0)],
                             Descriptors(data, image, at + 20, limit, left - 1)))
  {
    hide RvaToOffset, CString, Field, U32;
    FieldOfFour(data, at);
    FieldOfFour(data, at + 4);
    FieldOfFour(data, at + 8);
    FieldOfFour(data, at + 12);
    FieldOfFour(data, at + 16);
    NumbersFit(data, at, false);
    NumbersFit(data, at + 12, false);
    NumbersFit(data, at + 16, false);
  }

  /** At most 4096 descriptors are read, and none past the end of the directory if it tells its size. */
  lemma DescriptorTable(data: seq<Byte>, image: Image, at: nat)
    requires image.importRva != 0 && RvaToOffset(data, image, image.importRva) == Ok(at)
    ensures var most := if image.importSize != 0 then image.importSize else 81920;
      Imports(data, image)
      == Descriptors(data, image, at, if at + most < |data| then at + most else |data|, 4096)
  {
    hide RvaToOffset, Descriptors;
  }

  lemma DescriptorsEnd(data: seq<Byte>, image: Image, at: nat, limit: nat, left: nat)
    requires limit <= |data| && (left == 0 || limit < at + 20)
    ensures Descriptors(data, image, at, limit, left) == Invalid
  {
  }

  /** A library without a thunk table has no functions. */
  lemma FunctionsInThunks(data: seq<Byte>, image: Image, i: Import)
    ensures i.thunkRva == 0 ==> Functions(data, image, i) == Ok([])
    ensures i.thunkRva > 0 ==> Functions(data, image, i) == NamedImports(data, image, i.thunkRva)
  {
    hide NamedImports;
  }

  /** An image without an import directory imports nothing; one whose directory cannot be placed is refused. */
  lemma NoDescriptors(data: seq<Byte>, image: Image)
    ensures image.importRva == 0 ==> Imports(data, image) == Ok([])
    ensures image.importRva != 0 && RvaToOffset(data, image, image.importRva) == Invalid ==> Imports(data, image) == Invalid
  {
    hide RvaToOffset, Descriptors;
  }

  /** The answer about an image: the machine, whether it is a library, and the names of its libraries in the order
      of the descriptors; none if they cannot all be read. */
  lemma InfoInHeaders(data: seq<Byte>, image: Image)
    requires HeadersAt(data, image)
    ensures Imports(data, image).Invalid? ==> InfoOf(data) == Invalid
    ensures Imports(data, image).Ok? ==>
      var imports := Imports(data, image).value;
      && InfoOf(data).Ok? && InfoOf(data).value.Some?
      && var info := InfoOf(data).value.value;
         && info.machine == U16(data, U32(data, 60) + 4)
         && (info.isDll <==> U16(data, U32(data, 60) + 22) / 8192 % 2 == 1)
         && |info.imports| == |imports| && forall i :: 0 <= i < |imports| ==> info.imports[i] == imports[i].name
  {
    hide Headers, Imports, U16, U32, OptionalAt;
    HeadersInBytes(data, image);
  }

  // ----- the table of functions

  /** Capital letters are made small, and nothing else. */
  lemma FoldedLetters(name: Name, i: nat)
    requires i < |name|
    ensures |Folded(name)| == |name|
    ensures Folded(name)[i] == if 65 <= name[i] <= 90 then name[i] + 32 else name[i]
  {
  }

  /** The functions of the first n descriptors whose library has this folded name, in their order. */
  function FunctionsOf(data: seq<Byte>, image: Image, imports: seq<Import>, n: nat, key: Name): seq<Name>
    requires n <= |imports| && forall k :: 0 <= k < n ==> Functions(data, image, imports[k]).Ok?
  {
    if n == 0 then []
    else
      FunctionsOf(data, image, imports, n - 1, key) +
      if Folded(imports[n - 1].name) == key then Functions(data, image, imports[n - 1]).value else []
  }

  /** The table has the functions of a library in the order of the descriptors, under its folded name. */
  lemma {:induction false} TableInOrder(data: seq<Byte>, image: Image, imports: seq<Import>, n: nat, key: Name)
    requires n <= |imports| && forall k :: 0 <= k < n ==> Functions(data, image, imports[k]).Ok?
    ensures key in TableOf(data, image, imports, n) <==> exists k :: 0 <= k < n && Folded(imports[k].name) == key
    ensures key in TableOf(data, image, imports, n) ==>
      TableOf(data, image, imports, n)[key] == FunctionsOf(data, image, imports, n, key)
    ensures key !in TableOf(data, image, imports, n) ==> FunctionsOf(data, image, imports, n, key) == []
  {
    hide Functions, Folded;
    if n > 0 {
      TableInOrder(data, image, imports, n - 1, key);
    }
  }
}
