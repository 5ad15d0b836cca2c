/** The check of a thin Mach-O file: which load-command tables and deployment targets it accepts. */
module MachO {
  import opened Bytes

  const HEADER_SIZE := 32
  const MAX_COMMAND_BYTES := 16 * 1024 * 1024
  const LC_VERSION_MIN_MACOSX: Word := 0x24
  const LC_BUILD_VERSION: Word := 0x32
  const PLATFORM_MACOS: Word := 1

  datatype Option<T> = None | Some(value: T)

  /** The byte order that the magic number tells. */
  function Order(data: seq<Byte>): Option<Host>
    requires |data| >= 4
  {
    if data[..4] == [0xCF, 0xFA, 0xED, 0xFE] then Some(Little)
    else if data[..4] == [0xFE, 0xED, 0xFA, 0xCF] then Some(Big)
    else None
  }

  /** A word of the file. The walk never reads one that is not there. */
  function ReadU32(data: seq<Byte>, at: nat, order: Host): Word {
    if at + 4 <= |data| then HostWord(order, data[at..at + 4]) else 0
  }

  // ----- versions

  datatype Version = Version(major: nat, minor: nat, patch: nat)

  function DecodeVersion(encoded: Word): Version {
    Version(encoded / 0x1_0000, encoded / 0x100 % 0x100, encoded % 0x100)
  }

  /** Versions in the order of their parts. */
  predicate AtMost(a: Version, b: Version) {
    a.major < b.major || (a.major == b.major && (a.minor < b.minor || (a.minor == b.minor && a.patch <= b.patch)))
  }

  const NEWEST_TARGET := Version(11, 0, 0)

  /** The order of versions is the order of the words that encode them. */
  lemma VersionOrder(a: Word, b: Word)
    ensures AtMost(DecodeVersion(a), DecodeVersion(b)) <==> a <= b
    ensures AtMost(DecodeVersion(a), NEWEST_TARGET) <==> a <= 0xB_0000
    ensures DecodeVersion(a).major == 0 <==> a < 0x1_0000
  {
    Parts(a);
    Parts(b);
  }

  lemma Parts(a: Word)
    ensures var v := DecodeVersion(a);
      a == 0x1_0000 * v.major + 0x100 * v.minor + v.patch && v.minor < 0x100 && v.patch < 0x100
  {
    assert a / 0x1_0000 == a / 0x100 / 0x100;
  }

  // ----- load commands

  /** Where command k begins if each is as long as it says. */
  function CommandPlace(commands: seq<Byte>, order: Host, k: nat): nat {
    if k == 0 then 0
    else
      var before := CommandPlace(commands, order, k - 1);
      before + ReadU32(commands, before + 4, order)
  }

  function Kind(commands: seq<Byte>, order: Host, k: nat): Word {
    ReadU32(commands, CommandPlace(commands, order, k), order)
  }

  /** Command k is framed right and, if it tells a deployment target, tells one for macOS. */
  predicate CommandFine(commands: seq<Byte>, order: Host, k: nat) {
    var at := CommandPlace(commands, order, k);
    var size := ReadU32(commands, at + 4, order);
    && at + 8 <= |commands| && 8 <= size && size % 8 == 0 && at + size <= |commands|
    && (Kind(commands, order, k) == LC_BUILD_VERSION ==>
          24 <= size && 24 + ReadU32(commands, at + 20, order) * 8 <= size
          && ReadU32(commands, at + 8, order) == PLATFORM_MACOS)
    && (Kind(commands, order, k) == LC_VERSION_MIN_MACOSX ==> 16 <= size)
  }

  /** The targets that the first n commands tell. */
  function Targets(commands: seq<Byte>, order: Host, n: nat): seq<Word> {
    if n == 0 then []
    else
      var at := CommandPlace(commands, order, n - 1);
      Targets(commands, order, n - 1)
      + (if Kind(commands, order, n - 1) == LC_BUILD_VERSION then [ReadU32(commands, at + 12, order)]
         else if Kind(commands, order, n - 1) == LC_VERSION_MIN_MACOSX then [ReadU32(commands, at + 8, order)]
         else [])
  }

  /** The commands tile their table, and all the targets that they tell are one, from 1.0 to 11.0. */
  ghost predicate TableFine(commands: seq<Byte>, order: Host, count: nat) {
    && (forall k :: 0 <= k < count ==> CommandFine(commands, order, k))
    && CommandPlace(commands, order, count) == |commands|
    && exists target :: TellsOnly(Targets(commands, order, count), target) && 0x1_0000 <= target <= 0xB_0000
  }

  ghost predicate TellsOnly(targets: seq<Word>, target: Word) {
    targets != [] && forall i :: 0 <= i < |targets| ==> targets[i] == target
  }

  /** A file that is accepted for a processor. */
  ghost predicate Acceptable(data: seq<Byte>, cpu: Word) {
    && HEADER_SIZE <= |data| && Order(data).Some?
    && var order := Order(data).value;
    var count, size := ReadU32(data, 16, order), ReadU32(data, 20, order);
    && ReadU32(data, 4, order) == cpu
    && size <= MAX_COMMAND_BYTES && HEADER_SIZE + size <= |data| && 8 * count <= size
    && TableFine(data[HEADER_SIZE..HEADER_SIZE + size], order, count)
  }

  /** Collects the targets of all commands. */
  method WalkCommands(commands: seq<Byte>, order: Host, count: nat) returns (ok: bool, targets: seq<Word>)
    ensures ok <==> (forall k :: 0 <= k < count ==> CommandFine(commands, order, k))
                    && CommandPlace(commands, order, count) == |commands|
    ensures ok ==> targets == Targets(commands, order, count)
  {
    hide ReadU32;
    targets := [];
    var offset, index := 0, 0;
    while index < count
      invariant 0 <= index <= count && offset == CommandPlace(commands, order, index) && offset <= |commands|
      invariant forall k :: 0 <= k < index ==> CommandFine(commands, order, k)
      invariant targets == Targets(commands, order, index)
    {
      if offset + 8 > |commands| {
        assert !CommandFine(commands, order, index);
        return false, [];
      }
      var command, size := ReadU32(commands, offset, order), ReadU32(commands, offset + 4, order);
      if size < 8 || size % 8 != 0 || offset + size > |commands| {
        assert !CommandFine(commands, order, index);
        return false, [];
      }
      if command == LC_BUILD_VERSION {
        if size < 24 {
          assert !CommandFine(commands, order, index);
          return false, [];
        }
        var platform: Word, toolCount: int := ReadU32(commands, offset + 8, order), ReadU32(commands, offset + 20, order);
        if 24 + toolCount * 8 > size || platform != PLATFORM_MACOS {
          assert !CommandFine(commands, order, index);
          return false, [];
        }
        targets := targets + [ReadU32(commands, offset + 12, order)];
      } else if command == LC_VERSION_MIN_MACOSX {
        if size < 16 {
          assert !CommandFine(commands, order, index);
          return false, [];
        }
        targets := targets + [ReadU32(commands, offset + 8, order)];
      }
      offset := offset + size;
      index := index + 1;
    }
    return offset == |commands|, targets;
  }

  /** Validates a file; accepts it exactly if it is acceptable. */
  method ValidateThinMacho(data: seq<Byte>, cpu: Word) returns (ok: bool)
    ensures ok <==> Acceptable(data, cpu)
  {
    hide ReadU32, CommandFine, Targets, CommandPlace;
    if |data| < HEADER_SIZE { return false; }
    var order := Order(data);
    if order.None? { return false; }
    if ReadU32(data, 4, order.value) != cpu { return false; }
    var count, size := ReadU32(data, 16, order.value), ReadU32(data, 20, order.value);
    if size > MAX_COMMAND_BYTES || size > |data| - HEADER_SIZE || count > size / 8 { return false; }
    var commands := data[HEADER_SIZE..HEADER_SIZE + size];
    var walked, targets := WalkCommands(commands, order.value, count);
    if !walked { return false; }
    if targets == [] { return false; }
    var target := targets[0];
    assert forall t :: TellsOnly(targets, t) ==> t == target;
    var i := 0;
    while i < |targets|
      invariant 0 <= i <= |targets|
      invariant forall k :: 0 <= k < i ==> DecodeVersion(targets[k]).major != 0
    {
      if DecodeVersion(targets[i]).major == 0 {
        VersionOrder(targets[i], 0);
        assert forall t :: TellsOnly(targets, t) ==> t == targets[i];
        return false;
      }
      i := i + 1;
    }
    i := 1;
    while i < |targets|
      invariant 1 <= i <= |targets|
      invariant forall k :: 0 <= k < i ==> targets[k] == target
    {
      if targets[i] != target {
        assert forall t :: !TellsOnly(targets, t);
        return false;
      }
      i := i + 1;
    }
    VersionOrder(target, 0);
    if !AtMost(DecodeVersion(target), NEWEST_TARGET) { return false; }
    assert TellsOnly(targets, target);
    return true;
  }

  /** The commands of an accepted file follow one another without a gap from the beginning of the table to
      its end, and every target is the same and no newer than 11.0. */
  lemma AcceptedTable(data: seq<Byte>, cpu: Word, k: nat)
    requires Acceptable(data, cpu) && k < ReadU32(data, 16, Order(data).value)
    ensures var order := Order(data).value;
      var commands := data[HEADER_SIZE..HEADER_SIZE + ReadU32(data, 20, order)];
      var at, next := CommandPlace(commands, order, k), CommandPlace(commands, order, k + 1);
      && at + 8 <= next <= |commands| && next == at + ReadU32(commands, at + 4, order)
      && forall t :: t in Targets(commands, order, ReadU32(data, 16, order)) ==>
           AtMost(DecodeVersion(t), NEWEST_TARGET) && t == Targets(commands, order, ReadU32(data, 16, order))[0]
  {
    hide ReadU32, Targets;
    var order := Order(data).value;
    var commands := data[HEADER_SIZE..HEADER_SIZE + ReadU32(data, 20, order)];
    var targets := Targets(commands, order, ReadU32(data, 16, order));
    assert CommandFine(commands, order, k);
    var target :| TellsOnly(targets, target) && 0x1_0000 <= target <= 0xB_0000;
    VersionOrder(target, 0);
  }
}
