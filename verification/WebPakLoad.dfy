/** Loading a web pack into the engine's path table, and what becomes of a built pack there. */
module WebPakLoad {
  import opened Bytes
  import opened DataPack
  import opened WebPak

  const MAX_QPATH := 64
  const CL_WEB_PAK_MAX_BYTES := 512 * 1024 * 1024
  const CL_WEB_RESOURCE_MAX_BYTES := 64 * 1024 * 1024

  datatype PathEntry = PathEntry(path: seq<Byte>, id: Half)

  // ----- paths

  function Lowered(c: Byte): Byte {
    if 0x41 <= c <= 0x5A then c + 0x20 else c
  }

  function Slashed(c: Byte): Byte {
    if c == 0x5C then 0x2F else c
  }

  predicate UnitReadable(low: Byte, high: Byte) {
    high == 0 && 0x20 <= low && low != 0x7F
  }

  /** The characters of 16-bit units, low bytes first, with backslashes turned. */
  function Units(b: seq<Byte>, n: nat): seq<Byte>
    requires 2 * n <= |b|
  {
    seq(n, i requires 0 <= i < n => Slashed(b[2 * i]))
  }

  predicate UnitsReadable(b: seq<Byte>, n: nat)
    requires 2 * n <= |b|
  {
    forall i :: 0 <= i < n ==> UnitReadable(b[2 * i], b[2 * i + 1])
  }

  predicate HasDots(p: seq<Byte>) {
    exists i :: 0 <= i < |p| - 1 && p[i] == 0x2E && p[i + 1] == 0x2E
  }

  /** No leading slash, no two dots in a row, and no colon. */
  predicate PathSafe(p: seq<Byte>) {
    |p| > 0 && p[0] != 0x2F && !HasDots(p) && 0x3A !in p
  }

  function AllLowered(p: seq<Byte>): seq<Byte> {
    seq(|p|, i requires 0 <= i < |p| => Lowered(p[i]))
  }

  /** The path that these units spell, if it is one. */
  function PathOf(b: seq<Byte>, n: nat): Option<seq<Byte>>
    requires 2 * n <= |b|
  {
    if 0 < n < MAX_QPATH && UnitsReadable(b, n) && PathSafe(Units(b, n)) then Some(AllLowered(Units(b, n))) else None
  }

  method DecodePath(b: seq<Byte>, n: nat) returns (r: Option<seq<Byte>>)
    requires 2 * n <= |b|
    ensures r == PathOf(b, n)
  {
    if n == 0 || n >= MAX_QPATH { return None; }
    var path: seq<Byte> := [];
    var i := 0;
    while i < n
      invariant 0 <= i <= n && path == Units(b, i) && UnitsReadable(b, i)
    {
      var low, high := b[2 * i], b[2 * i + 1];
      if high != 0 || low == 0 || low < 0x20 || low == 0x7F {
        assert !UnitReadable(b[2 * i], b[2 * i + 1]);
        return None;
      }
      path := path + [if low == 0x5C then 0x2F else low];
      i := i + 1;
    }
    if path[0] == 0x2F || HasDots(path) || 0x3A in path { return None; }
    return Some(AllLowered(path));
  }

  // ----- resources by identifier

  ghost predicate HasResource(bytes: seq<Byte>, l: Layout, id: Half) {
    (exists i :: IsEntryOf(bytes, l, id, i)) || exists i :: IsAliasOf(bytes, l, id, i)
  }

  lemma FoundIfThere(bytes: seq<Byte>, l: Layout, id: Half, index: int)
    requires IsPack(bytes, l) && Finds(bytes, l, id, index)
    ensures index >= 0 <==> HasResource(bytes, l, id)
    ensures index < l.resourceCount
  {
  }

  // ----- the manifest

  function RoundedUp(n: nat): nat {
    n + |Padding(n)|
  }

  /** What the records from a place on add to the table, if all of them are good. The identifier in a
      record belongs to the path of the record before it; the last path has that of the trailer. */
  ghost function Recorded(bytes: seq<Byte>, l: Layout, m: seq<Byte>, cursor: nat, pending: Option<seq<Byte>>, count: nat):
    Option<seq<PathEntry>>
    requires |m| >= 16
    decreases |m| - cursor
  {
    if |m| - 8 < cursor + 12 then
      if pending.None? then Some([])
      else if l.resourceCount - 1 <= count || 0xFFFF < WordAt(m, |m| - 4) then None
      else Some([PathEntry(pending.value, WordAt(m, |m| - 4))])
    else
      var id, n, at := WordAt(m, cursor + 4), WordAt(m, cursor + 8), cursor + 12;
      if 0xFFFF < id || !HasResource(bytes, l, id) || n == 0 || MAX_QPATH <= n || |m| - 8 < at + 2 * n then None
      else
        var path := PathOf(m[at..at + 2 * n], n);
        var next := RoundedUp(at + 2 * n);
        if path.None? || |m| - 8 < next then None
        else if pending.Some? && l.resourceCount - 1 <= count then None
        else
          var rest := Recorded(bytes, l, m, next, path, if pending.None? then count else count + 1);
          if rest.None? then None
          else Some((if pending.None? then [] else [PathEntry(pending.value, id)]) + rest.value)
  }

  predicate NoDuplicates(table: seq<PathEntry>) {
    forall i, j :: 0 <= i < j < |table| ==> table[i].path != table[j].path
  }

  /** The table that a manifest stands for. */
  ghost function TableOf(bytes: seq<Byte>, l: Layout, m: seq<Byte>): Option<seq<PathEntry>> {
    if |m| < 16 || |m| - 4 < WordAt(m, 0)
       || 0xFFFF < WordAt(m, |m| - 4) || !HasResource(bytes, l, WordAt(m, |m| - 4)) then None
    else
      var table := Recorded(bytes, l, m, 8, None, 0);
      if table.None? || table.value == [] || !NoDuplicates(table.value) then None else table
  }

  function Joining(before: seq<PathEntry>, r: Option<seq<PathEntry>>): Option<seq<PathEntry>> {
    if r.None? then None else Some(before + r.value)
  }

  lemma JoiningTwice(before: seq<PathEntry>, more: seq<PathEntry>, r: Option<seq<PathEntry>>)
    ensures Joining(before, Joining(more, r)) == Joining(before + more, r)
  {
    if r.Some? {
      assert before + (more + r.value) == before + more + r.value;
    }
  }

  lemma RecordedNext(bytes: seq<Byte>, l: Layout, m: seq<Byte>, cursor: nat, pending: Option<seq<Byte>>, count: nat)
    requires |m| >= 16 && cursor + 12 <= |m| - 8
    ensures var id, n, at := WordAt(m, cursor + 4), WordAt(m, cursor + 8), cursor + 12;
      Recorded(bytes, l, m, cursor, pending, count)
      == if 0xFFFF < id || !HasResource(bytes, l, id) || n == 0 || MAX_QPATH <= n || |m| - 8 < at + 2 * n then None
         else
           var path, next := PathOf(m[at..at + 2 * n], n), RoundedUp(at + 2 * n);
           if path.None? || |m| - 8 < next || (pending.Some? && l.resourceCount - 1 <= count) then None
           else Joining(if pending.None? then [] else [PathEntry(pending.value, id)],
                        Recorded(bytes, l, m, next, path, if pending.None? then count else count + 1))
  {
  }

  lemma RecordedEnd(bytes: seq<Byte>, l: Layout, m: seq<Byte>, cursor: nat, pending: Option<seq<Byte>>, count: nat)
    requires |m| >= 16 && |m| - 8 < cursor + 12
    ensures Recorded(bytes, l, m, cursor, pending, count)
      == if pending.None? then Some([])
         else if l.resourceCount - 1 <= count || 0xFFFF < WordAt(m, |m| - 4) then None
         else Some([PathEntry(pending.value, WordAt(m, |m| - 4))])
  {
  }

  /** Reads the manifest into a table. */
  method ReadManifest(bytes: seq<Byte>, l: Layout, m: seq<Byte>) returns (r: Option<seq<PathEntry>>)
    requires IsPack(bytes, l)
    ensures r == TableOf(bytes, l, m)
  {
    hide IsPack, Finds, HasResource, Recorded, WordAt, PathOf, Padding;
    if |m| < 16 { return None; }
    if WordAt(m, 0) > |m| - 4 { return None; }
    var trailer := WordAt(m, |m| - 4);
    if trailer > 0xFFFF { return None; }
    var index := FindEntryIndex(bytes, l, trailer);
    FoundIfThere(bytes, l, trailer, index);
    if index < 0 { return None; }
    var paths: seq<PathEntry>, cursor, pending: Option<seq<Byte>> := [], 8, None;
    ghost var goal := Recorded(bytes, l, m, 8, None, 0);
    JoiningNothing(goal);
    while cursor + 12 <= |m| - 8
      invariant goal == Joining(paths, Recorded(bytes, l, m, cursor, pending, |paths|))
      decreases |m| - cursor
    {
      RecordedNext(bytes, l, m, cursor, pending, |paths|);
      cursor := cursor + 4;
      var nextId := WordAt(m, cursor);
      cursor := cursor + 4;
      var length := WordAt(m, cursor);
      cursor := cursor + 4;
      if nextId > 0xFFFF { return None; }
      index := FindEntryIndex(bytes, l, nextId);
      FoundIfThere(bytes, l, nextId, index);
      if index < 0 || length == 0 || length >= MAX_QPATH || cursor + length * 2 > |m| - 8 { return None; }
      var path := DecodePath(m[cursor..cursor + 2 * length], length);
      if path.None? { return None; }
      cursor := RoundedUp(cursor + length * 2);
      if cursor > |m| - 8 { return None; }
      if pending.Some? {
        if |paths| >= l.resourceCount - 1 { return None; }
        JoiningTwice(paths, [PathEntry(pending.value, nextId)], Recorded(bytes, l, m, cursor, path, |paths| + 1));
        paths := paths + [PathEntry(pending.value, nextId)];
      } else {
        JoiningTwice(paths, [], Recorded(bytes, l, m, cursor, path, |paths|));
        assert paths + [] == paths;
      }
      pending := path;
    }
    RecordedEnd(bytes, l, m, cursor, pending, |paths|);
    if pending.Some? {
      if |paths| >= l.resourceCount - 1 { return None; }
      paths := paths + [PathEntry(pending.value, trailer)];
    } else {
      assert paths + [] == paths;
    }
    if |paths| <= 0 { return None; }
    var distinct := AllDistinct(paths);
    if !distinct { return None; }
    return Some(paths);
  }

  lemma JoiningNothing(r: Option<seq<PathEntry>>)
    ensures Joining([], r) == r
  {
    if r.Some? {
      assert [] + r.value == r.value;
    }
  }

  method AllDistinct(table: seq<PathEntry>) returns (ok: bool)
    ensures ok <==> NoDuplicates(table)
  {
    for i := 0 to |table|
      invariant forall j, k :: 0 <= j < i && j < k < |table| ==> table[j].path != table[k].path
    {
      for k := i + 1 to |table|
        invariant forall j :: i < j < k ==> table[i].path != table[j].path
      {
        if table[i].path == table[k].path { return false; }
      }
    }
    return true;
  }

  // ----- the whole file

  /** The resource of this identifier. */
  ghost predicate IsResource(bytes: seq<Byte>, l: Layout, id: Half, m: seq<Byte>) {
    exists index :: Finds(bytes, l, id, index) && 0 <= index
      && ResourceBounds(bytes, l, index).Some? && SliceIs(bytes, ResourceBounds(bytes, l, index).value, m)
  }

  predicate SliceIs(bytes: seq<Byte>, bounds: (nat, nat), m: seq<Byte>) {
    bounds.0 <= bounds.1 <= |bytes| && bytes[bounds.0..bounds.1] == m
  }

  lemma OneResource(bytes: seq<Byte>, l: Layout, id: Half, m: seq<Byte>)
    requires IsPack(bytes, l) && IsResource(bytes, l, id, m)
    ensures forall n :: IsResource(bytes, l, id, n) ==> n == m
  {
    hide IsPack, Finds, ResourceBounds;
    var index :| Finds(bytes, l, id, index) && 0 <= index
      && ResourceBounds(bytes, l, index).Some? && SliceIs(bytes, ResourceBounds(bytes, l, index).value, m);
    OneIndex(bytes, l, id, index);
  }

  /** Finds the resource of this identifier. */
  method GetResourceView(bytes: seq<Byte>, l: Layout, id: Half) returns (r: Option<seq<Byte>>)
    requires IsPack(bytes, l)
    ensures r.Some? <==> HasResource(bytes, l, id)
    ensures r.Some? ==> IsResource(bytes, l, id, r.value)
  {
    hide IsPack, Finds;
    var index := FindEntryIndex(bytes, l, id);
    FoundIfThere(bytes, l, id, index);
    if index < 0 { return None; }
    ResourcesAreApart(bytes, l, index);
    var bounds := ResourceBounds(bytes, l, index).value;
    var m := bytes[bounds.0..bounds.1];
    assert SliceIs(bytes, bounds, m);
    return Some(m);
  }

  /** Reads the resource of this identifier, unless it is too large. */
  method ReadResource(bytes: seq<Byte>, l: Layout, id: Half) returns (r: Option<seq<Byte>>)
    requires IsPack(bytes, l)
    ensures forall m :: r == Some(m) <==> IsResource(bytes, l, id, m) && |m| <= 64 * 1024 * 1024
  {
    hide IsPack, IsResource, HasResource;
    var view := GetResourceView(bytes, l, id);
    if view.None? {
      ResourceIsThere(bytes, l, id);
      return None;
    }
    OneResource(bytes, l, id, view.value);
    return if |view.value| > CL_WEB_RESOURCE_MAX_BYTES then None else view;
  }

  lemma ResourceIsThere(bytes: seq<Byte>, l: Layout, id: Half)
    requires IsPack(bytes, l)
    ensures (exists m :: IsResource(bytes, l, id, m)) ==> HasResource(bytes, l, id)
  {
    hide IsPack;
    if m :| IsResource(bytes, l, id, m) {
      var index :| Finds(bytes, l, id, index) && 0 <= index
        && ResourceBounds(bytes, l, index).Some? && SliceIs(bytes, ResourceBounds(bytes, l, index).value, m);
      FoundIfThere(bytes, l, id, index);
    }
  }

  /** The file is a pack of acceptable size, with a resource 0 that is the manifest of this table. */
  ghost predicate Loads(bytes: seq<Byte>, table: seq<PathEntry>) {
    && 0 < |bytes| <= CL_WEB_PAK_MAX_BYTES
    && exists l, m ::
         IsPack(bytes, l) && 2 <= l.resourceCount && IsResource(bytes, l, 0, m) && TableOf(bytes, l, m) == Some(table)
  }

  /** In a pack only its manifest decides what is loaded. */
  lemma LoadsByManifest(bytes: seq<Byte>, l: Layout, m: seq<Byte>, table: seq<PathEntry>)
    requires IsPack(bytes, l) && IsResource(bytes, l, 0, m)
    ensures Loads(bytes, table) <==>
      0 < |bytes| <= CL_WEB_PAK_MAX_BYTES && 2 <= l.resourceCount && TableOf(bytes, l, m) == Some(table)
  {
    hide IsPack, TableOf, IsResource;
    OneLayout(bytes, l);
    OneResource(bytes, l, 0, m);
  }

  /** Loads a file: inspects it, finds the manifest and reads it. */
  method LoadFile(bytes: seq<Byte>) returns (r: Option<seq<PathEntry>>)
    ensures forall table :: r == Some(table) <==> Loads(bytes, table)
  {
    hide IsPack, TableOf, IsResource, HasResource;
    if |bytes| <= 0 || |bytes| > CL_WEB_PAK_MAX_BYTES { return None; }
    var inspected := InspectDataPack(bytes);
    if inspected.Err? { return None; }
    var l := inspected.value;
    OneLayout(bytes, l);
    if l.resourceCount < 2 { return None; }
    var view := GetResourceView(bytes, l, 0);
    if view.None? {
      ResourceIsThere(bytes, l, 0);
      return None;
    }
    r := ReadManifest(bytes, l, view.value);
    forall table
      ensures r == Some(table) <==> Loads(bytes, table)
    {
      LoadsByManifest(bytes, l, view.value, table);
    }
  }

  lemma OneLayout(bytes: seq<Byte>, l: Layout)
    requires IsPack(bytes, l)
    ensures forall k :: IsPack(bytes, k) ==> k == l
  {
  }

  lemma OneIndex(bytes: seq<Byte>, l: Layout, id: Half, index: int)
    requires IsPack(bytes, l) && Finds(bytes, l, id, index)
    ensures forall k :: Finds(bytes, l, id, k) && 0 <= k ==> k == index
  {
    forall k | Finds(bytes, l, id, k) && 0 <= k
      ensures k == index
    {
      SameIndex(bytes, l, id, k, index);
    }
  }

  lemma SameIndex(bytes: seq<Byte>, l: Layout, id: Half, i: int, j: int)
    requires IsPack(bytes, l) && Finds(bytes, l, id, i) && Finds(bytes, l, id, j) && 0 <= i
    ensures i == j
  {
    hide HeaderLayout, EntryId, AliasId;
    forall p, q | IsEntryOf(bytes, l, id, p) && IsEntryOf(bytes, l, id, q)
      ensures p == q
    {
      if p < q { IdsGrow(bytes, l, p, q); } else if q < p { IdsGrow(bytes, l, q, p); }
    }
    forall p, q | IsAliasOf(bytes, l, id, p) && IsAliasOf(bytes, l, id, q)
      ensures p == q
    {
      if p < q { AliasesGrow(bytes, l, p, q); } else if q < p { AliasesGrow(bytes, l, q, p); }
    }
  }
}
