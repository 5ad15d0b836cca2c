/** Reading the imports of a Windows image: where addresses lead, and that the answer about the imported
    libraries does not depend on whether the functions are read too. */
module PeImports {
  import opened Bytes

  const MAX_IMPORT_DESCRIPTORS := 4096
  const MAX_IMPORTS_PER_DLL := 65536
  const IMAGE_FILE_DLL := 0x2000

  // Every complaint about a malformed image is one and the same here.
  datatype Result<T> = Ok(value: T) | Invalid
  datatype Option<T> = None | Some(value: T)

  type Name = seq<Byte>

  datatype Section = Section(address: nat, mapped: nat, rawOffset: nat)

  datatype Image = Image(
    machine: nat, isDll: bool, sectionOffset: nat, sections: seq<Section>, importRva: nat, importSize: nat, wide: bool)

  datatype Info = Info(machine: nat, isDll: bool, imports: seq<Name>)

  // ----- reading

  /** A little-endian number of some bytes. */
  function Number(b: seq<Byte>): nat {
    if b == [] then 0 else b[0] + 0x100 * Number(b[1..])
  }

  function Unpack(data: seq<Byte>, at: nat, width: nat): Result<nat> {
    if |data| < at + width then Invalid else Ok(Number(data[at..at + width]))
  }

  /** The number at a place where there is one. */
  function Field(data: seq<Byte>, at: nat, width: nat): nat
    requires at + width <= |data|
  {
    Number(data[at..at + width])
  }

  function Max(a: nat, b: nat): nat {
    if a < b then b else a
  }

  function Min(a: nat, b: nat): nat {
    if a < b then a else b
  }

  function Sections(data: seq<Byte>, at: nat, n: nat): seq<Section>
    requires at + 40 * n <= |data|
  {
    if n == 0 then []
    else
      var s := at + 40 * (n - 1);
      Sections(data, at, n - 1)
      + [Section(Field(data, s + 12, 4), Max(Field(data, s + 8, 4), Field(data, s + 16, 4)), Field(data, s + 20, 4))]
  }

  /** The headers of an image; None if the data is not one. */
  function Headers(data: seq<Byte>): Result<Option<Image>> {
    if |data| < 2 || data[..2] != [0x4D, 0x5A] then Ok(None)
    else if |data| < 64 then Invalid
    else
      var pe := Field(data, 60, 4);
      if pe < 64 || |data| < pe + 24 || data[pe..pe + 4] != [0x50, 0x45, 0, 0] then Invalid
      else
        var sectionCount, optionalSize := Field(data, pe + 6, 2), Field(data, pe + 20, 2);
        var optional := pe + 24;
        if |data| < optional + optionalSize || |data| < optional + 2 then Invalid
        else
          var magic := Field(data, optional, 2);
          if magic != 0x10B && magic != 0x20B then Invalid
          else
            var directories := if magic == 0x10B then optional + 92 else optional + 108;
            if |data| < directories + 4 then Invalid
            else
              var listed := Field(data, directories, 4) > 1 && directories + 20 <= optional + optionalSize;
              var sectionOffset := optional + optionalSize;
              if 96 < sectionCount || |data| < sectionOffset + 40 * sectionCount then Invalid
              else
                Ok(Some(Image(
                  Field(data, pe + 4, 2), Field(data, pe + 22, 2) / IMAGE_FILE_DLL % 2 == 1,
                  sectionOffset, Sections(data, sectionOffset, sectionCount),
                  if listed then Field(data, directories + 12, 4) else 0,
                  if listed then Field(data, directories + 16, 4) else 0, magic == 0x20B)))
  }

  // ----- addresses

  predicate Maps(s: Section, rva: nat) {
    s.address <= rva < s.address + s.mapped
  }

  /** The first section from i on that maps an address. */
  function FirstMapping(sections: seq<Section>, rva: nat, i: nat): (k: nat)
    requires i <= |sections|
    ensures i <= k <= |sections| && (k < |sections| ==> Maps(sections[k], rva))
    ensures forall j :: i <= j < k ==> !Maps(sections[j], rva)
    decreases |sections| - i
  {
    if i == |sections| || Maps(sections[i], rva) then i else FirstMapping(sections, rva, i + 1)
  }

  /** Where an address lies in the file. The first section that maps it decides, unless that leads past
      the end; then, and without a section, only an address in the headers is good. */
  function RvaToOffset(data: seq<Byte>, image: Image, rva: nat): Result<nat> {
    var k := FirstMapping(image.sections, rva, 0);
    if k < |image.sections| && image.sections[k].rawOffset + (rva - image.sections[k].address) < |data| then
      Ok(image.sections[k].rawOffset + (rva - image.sections[k].address))
    else if rva < image.sectionOffset then Ok(rva)
    else Invalid
  }

  method FindOffset(data: seq<Byte>, image: Image, rva: nat) returns (r: Result<nat>)
    ensures r == RvaToOffset(data, image, rva)
  {
    var i := 0;
    while i < |image.sections|
      invariant 0 <= i <= |image.sections|
      invariant FirstMapping(image.sections, rva, 0) == FirstMapping(image.sections, rva, i)
    {
      var s := image.sections[i];
      if s.address <= rva < s.address + s.mapped {
        var offset := s.rawOffset + (rva - s.address);
        if offset >= |data| {
          break;
        }
        return Ok(offset);
      }
      i := i + 1;
    }
    if rva < image.sectionOffset { return Ok(rva); }
    return Invalid;
  }

  /** Every offset that comes out lies inside the file. */
  lemma OffsetsAreInside(data: seq<Byte>, image: Image, rva: nat)
    requires Headers(data) == Ok(Some(image)) && RvaToOffset(data, image, rva).Ok?
    ensures RvaToOffset(data, image, rva).value < |data|
  {
  }

  // ----- names

  function Until(data: seq<Byte>, at: nat, limit: nat): Option<nat>
    decreases limit - at
  {
    if limit <= at || |data| <= at then None else if data[at] == 0 then Some(at) else Until(data, at + 1, limit)
  }

  predicate IsAscii(b: seq<Byte>) {
    forall i :: 0 <= i < |b| ==> b[i] < 0x80
  }

  /** A zero-terminated ASCII name of at most 511 bytes. */
  function CString(data: seq<Byte>, at: nat): Result<Name> {
    if |data| <= at then Invalid
    else
      var end := Until(data, at, Min(|data|, at + 512));
      if end.None? || end.value < at || |data| < end.value || !IsAscii(data[at..end.value]) then Invalid
      else Ok(data[at..end.value])
  }

  function NameAt(data: seq<Byte>, image: Image, rva: nat): Result<Name> {
    var at := RvaToOffset(data, image, rva);
    if at.Invalid? then Invalid else CString(data, at.value)
  }

  // ----- the functions of one library

  function Follow<T>(first: seq<T>, r: Result<seq<T>>): Result<seq<T>> {
    if r.Ok? then Ok(first + r.value) else r
  }

  /** The names from an entry of a thunk table on; imports by number have none. */
  function Thunks(data: seq<Byte>, image: Image, at: nat, left: nat): Result<seq<Name>>
    decreases left
  {
    var width := if image.wide then 8 else 4;
    if left == 0 || |data| < at + width then Invalid
    else
      var thunk := Field(data, at, width);
      if thunk == 0 then Ok([])
      else if ByNumber(image, thunk) then Thunks(data, image, at + width, left - 1)
      else
        var name := NameAt(data, image, thunk + 2);
        if name.Invalid? then Invalid else Follow([name.value], Thunks(data, image, at + width, left - 1))
  }

  predicate ByNumber(image: Image, thunk: nat) {
    if image.wide then thunk / 0x8000_0000_0000_0000 % 2 == 1 else thunk / 0x8000_0000 % 2 == 1
  }

  function NamedImports(data: seq<Byte>, image: Image, rva: nat): Result<seq<Name>> {
    var at := RvaToOffset(data, image, rva);
    if at.Invalid? then Invalid else Thunks(data, image, at.value, MAX_IMPORTS_PER_DLL)
  }

  lemma FollowTwice<T>(first: seq<T>, second: seq<T>, r: Result<seq<T>>)
    ensures Follow(first, Follow(second, r)) == Follow(first + second, r)
    ensures Follow([], r) == r
  {
    if r.Ok? {
      assert first + (second + r.value) == first + second + r.value;
      assert [] + r.value == r.value;
    }
  }

  method ReadNamedImports(data: seq<Byte>, image: Image, rva: nat) returns (r: Result<seq<Name>>)
    ensures r == NamedImports(data, image, rva)
  {
    hide RvaToOffset, CString, Thunks, ByNumber, Field, Number;
    var start := FindOffset(data, image, rva);
    if start.Invalid? { return Invalid; }
    var names: seq<Name>, at, width := [], start.value, if image.wide then 8 else 4;
    ghost var goal := Thunks(data, image, at, MAX_IMPORTS_PER_DLL);
    FollowTwice<Name>([], [], goal);
    var index := 0;
    while index < MAX_IMPORTS_PER_DLL
      invariant 0 <= index <= MAX_IMPORTS_PER_DLL
      invariant goal == Follow(names, Thunks(data, image, at, MAX_IMPORTS_PER_DLL - index))
    {
      ThunksNext(data, image, at, MAX_IMPORTS_PER_DLL - index);
      if |data| < at + width { return Invalid; }
      var thunk := Field(data, at, width);
      if thunk == 0 {
        assert names + [] == names;
        return Ok(names);
      }
      if !ByNumber(image, thunk) {
        var place := FindOffset(data, image, thunk + 2);
        if place.Invalid? { return Invalid; }
        var name := CString(data, place.value);
        if name.Invalid? { return Invalid; }
        FollowTwice(names, [name.value], Thunks(data, image, at + width, MAX_IMPORTS_PER_DLL - index - 1));
        names := names + [name.value];
      }
      at := at + width;
      index := index + 1;
    }
    ThunksNext(data, image, at, 0);
    return Invalid;
  }

  lemma ThunksNext(data: seq<Byte>, image: Image, at: nat, left: nat)
    ensures var width := if image.wide then 8 else 4;
      Thunks(data, image, at, left)
      == if left == 0 || |data| < at + width then Invalid
         else
           var thunk := Field(data, at, width);
           if thunk == 0 then Ok([])
           else if ByNumber(image, thunk) then Thunks(data, image, at + width, left - 1)
           else
             var name := NameAt(data, image, thunk + 2);
             if name.Invalid? then Invalid else Follow([name.value], Thunks(data, image, at + width, left - 1))
  {
  }

  // ----- the libraries

  /** A descriptor: the name of a library, and where its thunk table is, if it has one. */
  datatype Import = Import(name: Name, thunkRva: nat)

  /** The descriptors from a place on, up to an empty one. */
  function Descriptors(data: seq<Byte>, image: Image, at: nat, limit: nat, left: nat): Result<seq<Import>>
    requires limit <= |data|
    decreases left
  {
    if left == 0 || limit < at + 20 then Invalid
    else if Fields(data, at) == [0, 0, 0, 0, 0] then Ok([])
    else
      var f := Fields(data, at);
      if f[3] == 0 then Invalid
      else
        var name := NameAt(data, image, f[3]);
        if name.Invalid? then Invalid
        else
          Follow([Import(name.value, if f[0] != 0 then f[0] else f[4])],
                 Descriptors(data, image, at + 20, limit, left - 1))
  }

  function Fields(data: seq<Byte>, at: nat): (f: seq<nat>)
    requires at + 20 <= |data|
    ensures |f| == 5
  {
    [Field(data, at, 4), Field(data, at + 4, 4), Field(data, at + 8, 4), Field(data, at + 12, 4), Field(data, at + 16, 4)]
  }

  function Limit(data: seq<Byte>, image: Image, at: nat): nat {
    Min(|data|, at + (if image.importSize != 0 then image.importSize else 20 * MAX_IMPORT_DESCRIPTORS))
  }

  /** All libraries that an image imports. */
  function Imports(data: seq<Byte>, image: Image): Result<seq<Import>> {
    if image.importRva == 0 then Ok([])
    else
      var at := RvaToOffset(data, image, image.importRva);
      if at.Invalid? then Invalid
      else Descriptors(data, image, at.value, Limit(data, image, at.value), MAX_IMPORT_DESCRIPTORS)
  }

  function Names(imports: seq<Import>): seq<Name> {
    seq(|imports|, i requires 0 <= i < |imports| => imports[i].name)
  }

  function Functions(data: seq<Byte>, image: Image, i: Import): Result<seq<Name>> {
    if i.thunkRva == 0 then Ok([]) else NamedImports(data, image, i.thunkRva)
  }

  ghost predicate FunctionsRead(data: seq<Byte>, image: Image, imports: seq<Import>) {
    forall k :: 0 <= k < |imports| ==> Functions(data, image, imports[k]).Ok?
  }

  function Folded(name: Name): Name {
    seq(|name|, i requires 0 <= i < |name| => if 0x41 <= name[i] <= 0x5A then name[i] + 0x20 else name[i])
  }

  type Table = map<Name, seq<Name>>

  /** The functions listed by library, in the order of the descriptors, whatever the case of the names. */
  function TableOf(data: seq<Byte>, image: Image, imports: seq<Import>, n: nat): Table
    requires n <= |imports| && forall k :: 0 <= k < n ==> Functions(data, image, imports[k]).Ok?
  {
    if n == 0 then map[]
    else
      Entered(TableOf(data, image, imports, n - 1), imports[n - 1], Functions(data, image, imports[n - 1]).value)
  }

  function Entered(table: Table, i: Import, names: seq<Name>): Table {
    var key := Folded(i.name);
    table[key := (if key in table then table[key] else []) + names]
  }

  // ----- the parser

  datatype Parsed = Parsed(info: Info, functions: Table)

  /** The answer without functions. */
  function InfoOf(data: seq<Byte>): Result<Option<Info>> {
    var headers := Headers(data);
    if headers.Invalid? then Invalid
    else if headers.value.None? then Ok(None)
    else
      var image := headers.value.value;
      var imports := Imports(data, image);
      if imports.Invalid? then Invalid else Ok(Some(Info(image.machine, image.isDll, Names(imports.value))))
  }

  /** Reads the descriptors, and with collect the functions of each as it comes. */
  method ReadImports(data: seq<Byte>, image: Image, collect: bool) returns (r: Result<seq<Import>>, functions: Table)
    ensures r.Ok? ==> r == Imports(data, image) && |r.value| <= MAX_IMPORT_DESCRIPTORS
    ensures r.Ok? <==> Imports(data, image).Ok? && (collect ==> FunctionsRead(data, image, Imports(data, image).value))
    ensures r.Ok? && collect ==> FunctionsRead(data, image, r.value) && functions == TableOf(data, image, r.value, |r.value|)
    ensures r.Ok? && !collect ==> functions == map[]
  {
    hide RvaToOffset, CString, Descriptors, Fields, NamedImports, Folded;
    functions := map[];
    if image.importRva == 0 { return Ok([]), functions; }
    var start := FindOffset(data, image, image.importRva);
    if start.Invalid? { return Invalid, functions; }
    var imports: seq<Import>, at := [], start.value;
    var limit := Limit(data, image, at);
    ghost var goal := Descriptors(data, image, at, limit, MAX_IMPORT_DESCRIPTORS);
    FollowTwice<Import>([], [], goal);
    assert goal == Imports(data, image);
    var index := 0;
    while index < MAX_IMPORT_DESCRIPTORS
      invariant 0 <= index <= MAX_IMPORT_DESCRIPTORS && |imports| == index
      invariant goal == Follow(imports, Descriptors(data, image, at, limit, MAX_IMPORT_DESCRIPTORS - index))
      invariant collect ==> FunctionsRead(data, image, imports) && functions == TableOf(data, image, imports, index)
      invariant !collect ==> functions == map[]
    {
      DescriptorsNext(data, image, at, limit, MAX_IMPORT_DESCRIPTORS - index);
      if at + 20 > limit { return Invalid, functions; }
      var f := Fields(data, at);
      if f == [0, 0, 0, 0, 0] {
        assert imports + [] == imports;
        return Ok(imports), functions;
      }
      if f[3] == 0 { return Invalid, functions; }
      var place := FindOffset(data, image, f[3]);
      if place.Invalid? { return Invalid, functions; }
      var name := CString(data, place.value);
      if name.Invalid? { return Invalid, functions; }
      var one := Import(name.value, if f[0] != 0 then f[0] else f[4]);
      ghost var rest := Descriptors(data, image, at + 20, limit, MAX_IMPORT_DESCRIPTORS - index - 1);
      FollowTwice(imports, [one], rest);
      if collect {
        var names: seq<Name> := [];
        if one.thunkRva != 0 {
          var read := ReadNamedImports(data, image, one.thunkRva);
          if read.Invalid? {
            OneUnread(data, image, imports, one, rest);
            return Invalid, functions;
          }
          names := read.value;
        }
        TableNext(data, image, imports, one);
        functions := Entered(functions, one, names);
      }
      imports := imports + [one];
      at := at + 20;
      index := index + 1;
    }
    DescriptorsNext(data, image, at, limit, 0);
    return Invalid, functions;
  }

  lemma DescriptorsNext(data: seq<Byte>, image: Image, at: nat, limit: nat, left: nat)
    requires limit <= |data|
    ensures Descriptors(data, image, at, limit, left)
      == if left == 0 || limit < at + 20 then Invalid
         else
           var f := Fields(data, at);
           if f == [0, 0, 0, 0, 0] then Ok([])
           else if f[3] == 0 then Invalid
           else
             var name := NameAt(data, image, f[3]);
             if name.Invalid? then Invalid
             else
          Follow([Import(name.value, if f[0] != 0 then f[0] else f[4])],
                 Descriptors(data, image, at + 20, limit, left - 1))
  {
  }

  lemma OneUnread(data: seq<Byte>, image: Image, imports: seq<Import>, one: Import, rest: Result<seq<Import>>)
    requires Functions(data, image, one).Invalid?
    ensures var all := Follow(imports + [one], rest); all.Ok? ==> !FunctionsRead(data, image, all.value)
  {
    var all := Follow(imports + [one], rest);
    if all.Ok? {
      assert all.value[|imports|] == one;
    }
  }

  lemma {:induction false} SameTable(data: seq<Byte>, image: Image, imports: seq<Import>, more: seq<Import>, n: nat)
    requires n <= |imports| && imports <= more && FunctionsRead(data, image, imports)
    ensures forall k :: 0 <= k < n ==> Functions(data, image, more[k]).Ok?
    ensures TableOf(data, image, more, n) == TableOf(data, image, imports, n)
  {
    hide Functions;
    assert forall k :: 0 <= k < |imports| ==> more[k] == imports[k];
    if n > 0 {
      SameTable(data, image, imports, more, n - 1);
    }
  }

  lemma TableNext(data: seq<Byte>, image: Image, imports: seq<Import>, one: Import)
    requires FunctionsRead(data, image, imports) && Functions(data, image, one).Ok?
    ensures FunctionsRead(data, image, imports + [one])
    ensures TableOf(data, image, imports + [one], |imports| + 1)
      == Entered(TableOf(data, image, imports, |imports|), one, Functions(data, image, one).value)
  {
    hide Functions, Entered;
    SameTable(data, image, imports, imports + [one], |imports|);
  }

  /** Parses an image; with collect it reads the functions too. */
  method ParsePe(data: seq<Byte>, collect: bool) returns (r: Result<Option<Parsed>>)
    ensures !collect ==> r == AsParsed(InfoOf(data))
    ensures r.Ok? ==> InfoOf(data).Ok? && (r.value.None? <==> InfoOf(data).value.None?)
    ensures r.Ok? && r.value.Some? ==> InfoOf(data).value == Some(r.value.value.info)
    ensures r.Ok? <==> InfoOf(data).Ok? && (collect ==> AllFunctionsRead(data))
    ensures r.Ok? && r.value.Some? && collect ==> FunctionsShown(data, r.value.value.functions)
  {
    hide Headers, Imports;
    var headers := Headers(data);
    if headers.Invalid? { return Invalid; }
    if headers.value.None? { return Ok(None); }
    var image := headers.value.value;
    var imports, functions := ReadImports(data, image, collect);
    if imports.Invalid? { return Invalid; }
    return Ok(Some(Parsed(Info(image.machine, image.isDll, Names(imports.value)), functions)));
  }

  function AsParsed(r: Result<Option<Info>>): Result<Option<Parsed>> {
    if r.Invalid? then Invalid else if r.value.None? then Ok(None) else Ok(Some(Parsed(r.value.value, map[])))
  }

  /** All functions of all libraries that the image imports can be read. */
  ghost predicate AllFunctionsRead(data: seq<Byte>) {
    var headers := Headers(data);
    headers.Ok? && headers.value.Some? && Imports(data, headers.value.value).Ok? ==>
      FunctionsRead(data, headers.value.value, Imports(data, headers.value.value).value)
  }

  ghost predicate FunctionsShown(data: seq<Byte>, table: Table) {
    var headers := Headers(data);
    && headers.Ok? && headers.value.Some?
    && var imports := Imports(data, headers.value.value);
    && imports.Ok? && FunctionsRead(data, headers.value.value, imports.value)
    && table == TableOf(data, headers.value.value, imports.value, |imports.value|)
  }

  // ----- what the table holds

  /** Every function of every library is in the table, under the folded name of its library. */
  lemma {:induction false} TableHolds(data: seq<Byte>, image: Image, imports: seq<Import>, n: nat, k: nat)
    requires k < n <= |imports| && FunctionsRead(data, image, imports)
    ensures var table, key := TableOf(data, image, imports, n), Folded(imports[k].name);
      key in table && forall f :: f in Functions(data, image, imports[k]).value ==> f in table[key]
    decreases n
  {
    hide Functions, Folded;
    if k < n - 1 {
      TableHolds(data, image, imports, n - 1, k);
    }
  }

  /** Nothing else is in it. */
  lemma {:induction false} TableHoldsOnly(data: seq<Byte>, image: Image, imports: seq<Import>, n: nat, key: Name, f: Name)
    requires n <= |imports| && FunctionsRead(data, image, imports)
    requires key in TableOf(data, image, imports, n) && f in TableOf(data, image, imports, n)[key]
    ensures exists k :: 0 <= k < n && Folded(imports[k].name) == key && f in Functions(data, image, imports[k]).value
    decreases n
  {
    hide Functions, Folded;
    var before, last := TableOf(data, image, imports, n - 1), imports[n - 1];
    if key in before && f in before[key] {
      TableHoldsOnly(data, image, imports, n - 1, key, f);
      var k :| 0 <= k < n - 1 && Folded(imports[k].name) == key && f in Functions(data, image, imports[k]).value;
      assert Folded(imports[k].name) == key;
    } else {
      assert Folded(imports[n - 1].name) == key && f in Functions(data, image, imports[n - 1]).value;
    }
  }
}
