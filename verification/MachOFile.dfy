/** Mach-O files that are put together from their load commands: which of them the check accepts. */
module MachOFile {
  import opened Bytes
  import opened MachO

  /** A load command: the build version with its platform, the least system it runs on, the kit it was built
      with and two words for each tool; the least version in its older form; or any other. */
  datatype Command =
    | Build(platform: Word, least: Word, sdk: Word, tools: seq<Word>)
    | Least(version: Word, kit: Word)
    | Others(kind: Word, body: seq<Byte>)

  // ----- words in either byte order

  function Four(order: Host, w: Word): (b: seq<Byte>)
    ensures |b| == 4
  {
    var b := [w % 256, w / 256 % 256, w / 65536 % 256, w / 16777216];
    if order == Little then b else [b[3], b[2], b[1], b[0]]
  }

  function Words(order: Host, words: seq<Word>): (b: seq<Byte>)
    ensures |b| == 4 * |words|
  {
    if words == [] then [] else Words(order, words[..|words| - 1]) + Four(order, words[|words| - 1])
  }

  lemma FourRead(order: Host, w: Word, data: seq<Byte>, at: nat)
    requires at + 4 <= |data| && data[at..at + 4] == Four(order, w)
    ensures ReadU32(data, at, order) == w
  {
    var b := LittleBytes(w);
    LittleWordOfBytes(w);
    if order == Big {
      assert Reversed([b[3], b[2], b[1], b[0]]) == b;
    }
  }

  lemma {:induction false} WordInWords(order: Host, words: seq<Word>, k: nat)
    requires k < |words|
    ensures Words(order, words)[4 * k..4 * k + 4] == Four(order, words[k])
  {
    hide Four;
    var before := Words(order, words[..|words| - 1]);
    if k < |words| - 1 {
      WordInWords(order, words[..|words| - 1], k);
      assert Words(order, words)[4 * k..4 * k + 4] == before[4 * k..4 * k + 4];
    }
  }

  lemma Inside(data: seq<Byte>, from: nat, to: nat, lo: nat, hi: nat)
    requires from <= to <= |data| && lo <= hi <= to - from
    ensures data[from..to][lo..hi] == data[from + lo..from + hi]
  {
    forall k | 0 <= k < hi - lo
      ensures data[from..to][lo..hi][k] == data[from + lo..from + hi][k]
    {
      assert data[from..to][lo + k] == data[from + lo + k];
    }
  }

  /** Word k of some words that lie at a place. */
  lemma WordRead(order: Host, words: seq<Word>, data: seq<Byte>, at: nat, k: nat)
    requires k < |words| && at + 4 * |words| <= |data| && data[at..at + 4 * |words|] == Words(order, words)
    ensures ReadU32(data, at + 4 * k, order) == words[k]
  {
    hide Words, Four, ReadU32;
    WordInWords(order, words, k);
    Inside(data, at, at + 4 * |words|, 4 * k, 4 * k + 4);
    FourRead(order, words[k], data, at + 4 * k);
  }

  // ----- files

  function Kit(c: Command): seq<Word>
    requires Fits(c)
  {
    match c
    case Build(platform, least, sdk, tools) => [50, 24 + 4 * |tools|, platform, least, sdk, |tools| / 2] + tools
    case Least(version, kit) => [36, 16, version, kit]
    case Others(kind, body) => [kind, 8 + |body|]
  }

  /** Commands are a multiple of eight bytes long and not too long for their size. */
  predicate Fits(c: Command) {
    match c
    case Build(_, _, _, tools) => |tools| % 2 == 0 && 24 + 4 * |tools| < 0x1_0000_0000
    case Least(_, _) => true
    case Others(kind, body) => kind != 36 && kind != 50 && |body| % 8 == 0 && 8 + |body| < 0x1_0000_0000
  }

  ghost predicate AllFit(commands: seq<Command>) {
    forall k :: 0 <= k < |commands| ==> Fits(commands[k])
  }

  function CommandBytes(order: Host, c: Command): (b: seq<Byte>)
    requires Fits(c)
    ensures |b| >= 8
  {
    Words(order, Kit(c)) + (if c.Others? then c.body else [])
  }

  ghost function TableBytes(order: Host, commands: seq<Command>): seq<Byte>
    requires AllFit(commands)
  {
    if commands == [] then []
    else TableBytes(order, commands[..|commands| - 1]) + CommandBytes(order, commands[|commands| - 1])
  }

  /** A header of eight words, the commands, and anything after them. */
  ghost function FileOf(order: Host, cpu: Word, subtype: Word, filetype: Word, commands: seq<Command>,
                        flags: Word, reserved: Word, rest: seq<Byte>): seq<Byte>
    requires AllFit(commands) && |commands| < 0x1_0000_0000 && |TableBytes(order, commands)| < 0x1_0000_0000
  {
    Words(order, [0xFEEDFACF, cpu, subtype, filetype, |commands|, |TableBytes(order, commands)|, flags, reserved])
    + TableBytes(order, commands) + rest
  }

  /** The least systems that commands tell. */
  function Told(commands: seq<Command>): seq<Word> {
    if commands == [] then []
    else
      var last := commands[|commands| - 1];
      Told(commands[..|commands| - 1])
      + if last.Build? then [last.least] else if last.Least? then [last.version] else []
  }

  ghost predicate ForMacos(commands: seq<Command>) {
    forall k :: 0 <= k < |commands| && commands[k].Build? ==> commands[k].platform == 1
  }

  /** One system from 1.0 to 11.0 is told, and no other. */
  predicate ToldIsFine(told: seq<Word>) {
    told != [] && 65536 <= told[0] <= 720896 && forall i :: 0 <= i < |told| ==> told[i] == told[0]
  }

  // ----- commands in their table

  lemma {:induction false} CommandInTable(order: Host, commands: seq<Command>, k: nat)
    requires AllFit(commands) && k < |commands|
    ensures AllFit(commands[..k])
    ensures var at, b := |TableBytes(order, commands[..k])|, CommandBytes(order, commands[k]);
      && at + |b| <= |TableBytes(order, commands)|
      && TableBytes(order, commands)[at..at + |b|] == b
      && |TableBytes(order, commands[..k + 1])| == at + |b|
    decreases |commands|
  {
    hide CommandBytes, TableBytes, Fits;
    var n := |commands| - 1;
    NextInTable(order, commands);
    if k < n {
      assert commands[..n][..k] == commands[..k] && commands[..n][..k + 1] == commands[..k + 1];
      CommandInTable(order, commands[..n], k);
      var at, b := |TableBytes(order, commands[..k])|, CommandBytes(order, commands[k]);
      var table := TableBytes(order, commands);
      assert table[..|TableBytes(order, commands[..n])|] == TableBytes(order, commands[..n]);
      Inside(table, 0, |TableBytes(order, commands[..n])|, at, at + |b|);
    } else {
      assert commands[..k + 1] == commands;
    }
  }

  lemma NextInTable(order: Host, commands: seq<Command>)
    requires AllFit(commands) && commands != []
    ensures AllFit(commands[..|commands| - 1])
    ensures TableBytes(order, commands)
      == TableBytes(order, commands[..|commands| - 1]) + CommandBytes(order, commands[|commands| - 1])
  {
    hide CommandBytes;
  }

  /** The numbers of command k, and whether it is fine. */
  lemma CommandRead(order: Host, table: seq<Byte>, at: nat, c: Command)
    requires Fits(c) && at + |CommandBytes(order, c)| <= |table|
    requires table[at..at + |CommandBytes(order, c)|] == CommandBytes(order, c)
    ensures forall j :: 0 <= j < |Kit(c)| ==> ReadU32(table, at + 4 * j, order) == Kit(c)[j]
    ensures |CommandBytes(order, c)| == Kit(c)[1]
  {
    hide Words, ReadU32;
    var n := 4 * |Kit(c)|;
    Inside(table, at, at + |CommandBytes(order, c)|, 0, n);
    assert table[at..at + n] == CommandBytes(order, c)[..n] == Words(order, Kit(c));
    forall j | 0 <= j < |Kit(c)|
      ensures ReadU32(table, at + 4 * j, order) == Kit(c)[j]
    {
      WordRead(order, Kit(c), table, at, j);
    }
  }

  lemma {:induction false} PlaceInTable(order: Host, commands: seq<Command>, k: nat)
    requires AllFit(commands) && k <= |commands|
    ensures AllFit(commands[..k])
    ensures CommandPlace(TableBytes(order, commands), order, k) == |TableBytes(order, commands[..k])|
    decreases k
  {
    hide TableBytes, CommandBytes, ReadU32;
    if k == 0 {
      assert commands[..0] == [] && |TableBytes(order, [])| == 0 by { NothingInTable(order); }
    } else {
      PlaceInTable(order, commands, k - 1);
      CommandInTable(order, commands, k - 1);
      var at := |TableBytes(order, commands[..k - 1])|;
      CommandRead(order, TableBytes(order, commands), at, commands[k - 1]);
      assert ReadU32(TableBytes(order, commands), at + 4 * 1, order) == Kit(commands[k - 1])[1];
    }
  }

  lemma NothingInTable(order: Host)
    ensures TableBytes(order, []) == []
  {
  }

  /** A command in its place: its kind and size, and where its version lies. */
  lemma CommandTells(order: Host, commands: seq<Command>, k: nat)
    requires AllFit(commands) && k < |commands|
    ensures var table, c := TableBytes(order, commands), commands[k];
      var at := CommandPlace(table, order, k);
      && (CommandFine(table, order, k) <==> c.Build? ==> c.platform == 1)
      && Kind(table, order, k) == (if c.Build? then 50 else if c.Least? then 36 else c.kind)
      && (c.Build? ==> ReadU32(table, at + 12, order) == c.least)
      && (c.Least? ==> ReadU32(table, at + 8, order) == c.version)
  {
    hide TableBytes, CommandBytes, ReadU32, CommandPlace, CommandFine, Fits, Kit;
    var table, c := TableBytes(order, commands), commands[k];
    CommandInTable(order, commands, k);
    PlaceInTable(order, commands, k);
    var at := CommandPlace(table, order, k);
    CommandRead(order, table, at, c);
    KitTells(order, table, k, c);
  }

  lemma KitTells(order: Host, table: seq<Byte>, k: nat, c: Command)
    requires Fits(c)
    requires var at := CommandPlace(table, order, k);
      at + Kit(c)[1] <= |table| && forall j :: 0 <= j < |Kit(c)| ==> ReadU32(table, at + 4 * j, order) == Kit(c)[j]
    ensures CommandFine(table, order, k) <==> c.Build? ==> c.platform == 1
    ensures Kind(table, order, k) == if c.Build? then 50 else if c.Least? then 36 else c.kind
    ensures c.Build? ==> ReadU32(table, CommandPlace(table, order, k) + 12, order) == c.least
    ensures c.Least? ==> ReadU32(table, CommandPlace(table, order, k) + 8, order) == c.version
  {
    hide ReadU32, CommandPlace;
    var at, kit := CommandPlace(table, order, k), Kit(c);
    assert ReadU32(table, at + 4 * 0, order) == kit[0] && ReadU32(table, at + 4 * 1, order) == kit[1];
    if c.Build? {
      assert ReadU32(table, at + 4 * 2, order) == kit[2] && ReadU32(table, at + 4 * 3, order) == kit[3];
      assert ReadU32(table, at + 4 * 5, order) == kit[5];
    } else if c.Least? {
      assert ReadU32(table, at + 4 * 2, order) == kit[2];
    }
  }

  lemma {:induction false} TargetsAreTold(order: Host, commands: seq<Command>, n: nat)
    requires AllFit(commands) && n <= |commands|
    ensures Targets(TableBytes(order, commands), order, n) == Told(commands[..n])
    decreases n
  {
    hide TableBytes, ReadU32, CommandPlace, Kind;
    if n > 0 {
      TargetsAreTold(order, commands, n - 1);
      CommandTells(order, commands, n - 1);
      assert commands[..n][..n - 1] == commands[..n - 1];
    }
  }

  // ----- the whole file

  lemma OrderRead(order: Host, words: seq<Word>, data: seq<Byte>)
    requires |words| == 8 && words[0] == 0xFEEDFACF && 32 <= |data| && data[0..32] == Words(order, words)
    ensures Order(data) == Some(order)
  {
    hide Words;
    WordInWords(order, words, 0);
    assert data[..4] == data[0..32][0..4] == Four(order, 0xFEEDFACF);
  }

  /** The commands are fine and fill their table; so the targets decide. */
  lemma TableIsFine(order: Host, commands: seq<Command>)
    requires AllFit(commands)
    ensures TableFine(TableBytes(order, commands), order, |commands|) <==>
      && ForMacos(commands)
      && ToldIsFine(Told(commands))
  {
    hide TableBytes, CommandPlace, Targets, Told, CommandFine, Kind, ReadU32;
    var table := TableBytes(order, commands);
    assert commands[..|commands|] == commands;
    PlaceInTable(order, commands, |commands|);
    TargetsAreTold(order, commands, |commands|);
    assert ToldIsFine(Told(commands)) ==> TellsOnly(Told(commands), Told(commands)[0]);
    forall k | 0 <= k < |commands|
      ensures CommandFine(table, order, k) <==> commands[k].Build? ==> commands[k].platform == 1
    {
      CommandTells(order, commands, k);
    }
  }

  lemma {:induction false} CommandsAreLong(order: Host, commands: seq<Command>)
    requires AllFit(commands)
    ensures 8 * |commands| <= |TableBytes(order, commands)|
  {
    hide CommandBytes;
    if commands != [] {
      CommandsAreLong(order, commands[..|commands| - 1]);
    }
  }

  // ----- any file, byte by byte

  /** The number in four bytes, in either order. */
  function NumberIn(order: Host, b: seq<Byte>, at: nat): int
    requires at + 4 <= |b|
  {
    var b0: int, b1: int, b2: int, b3: int := b[at], b[at + 1], b[at + 2], b[at + 3];
    if order == Little then b0 + 256 * b1 + 65536 * b2 + 16777216 * b3
    else 16777216 * b0 + 65536 * b1 + 256 * b2 + b3
  }

  lemma NumberRead(order: Host, b: seq<Byte>, at: nat)
    requires at + 4 <= |b|
    ensures ReadU32(b, at, order) == NumberIn(order, b, at)
  {
    var w := b[at..at + 4];
    assert Reversed(w) == [w[3], w[2], w[1], w[0]];
  }

  /** A command from one place to the next: its kind and its size, a multiple of eight and at least that; a
      build version is for macOS and holds its tools of eight bytes each behind 24 bytes. */
  ghost predicate CommandAt(b: seq<Byte>, order: Host, at: nat, next: nat) {
    && at + 8 <= next <= |b| && next - at == NumberIn(order, b, at + 4) && (next - at) % 8 == 0
    && (NumberIn(order, b, at) == 50 ==>
          at + 24 <= next && NumberIn(order, b, at + 8) == 1 && 24 + 8 * NumberIn(order, b, at + 20) <= next - at)
    && (NumberIn(order, b, at) == 36 ==> at + 16 <= next)
  }

  /** A command tells the least system in its fourth word if it is a build version, and in its third if it is
      the older form of that. */
  ghost predicate TellsAt(b: seq<Byte>, order: Host, at: nat, target: int) {
    && at + 16 <= |b|
    && ((NumberIn(order, b, at) == 50 && NumberIn(order, b, at + 12) == target)
        || (NumberIn(order, b, at) == 36 && NumberIn(order, b, at + 8) == target))
  }

  lemma CommandInBytes(b: seq<Byte>, order: Host, k: nat)
    ensures var at, next := CommandPlace(b, order, k), CommandPlace(b, order, k + 1);
      && (CommandFine(b, order, k) <==> CommandAt(b, order, at, next))
      && (CommandFine(b, order, k) ==>
            && Kind(b, order, k) == NumberIn(order, b, at)
            && (Kind(b, order, k) == 50 ==> at + 24 <= |b| && ReadU32(b, at + 12, order) == NumberIn(order, b, at + 12))
            && (Kind(b, order, k) == 36 ==> at + 16 <= |b| && ReadU32(b, at + 8, order) == NumberIn(order, b, at + 8)))
  {
    hide ReadU32, NumberIn;
    var at := CommandPlace(b, order, k);
    assert CommandPlace(b, order, k + 1) == at + ReadU32(b, at + 4, order);
    if at + 8 <= |b| {
      NumberRead(order, b, at);
      NumberRead(order, b, at + 4);
      if at + 16 <= |b| {
        NumberRead(order, b, at + 8);
        NumberRead(order, b, at + 12);
      }
      if at + 24 <= |b| {
        NumberRead(order, b, at + 20);
      }
    }
  }

  /** The targets are those that commands tell. */
  lemma {:induction false} TargetsInBytes(b: seq<Byte>, order: Host, n: nat, target: Word)
    requires forall k :: 0 <= k < n ==> CommandFine(b, order, k)
    ensures target in Targets(b, order, n) <==>
      exists k :: 0 <= k < n && TellsAt(b, order, CommandPlace(b, order, k), target)
  {
    hide ReadU32, NumberIn, CommandPlace, CommandFine, Kind, TellsAt;
    if n > 0 {
      TargetsInBytes(b, order, n - 1, target);
      LastTells(b, order, n, target);
    }
  }

  lemma ToldIsTarget(b: seq<Byte>, order: Host, n: nat, k: nat, target: Word)
    requires forall j :: 0 <= j < n ==> CommandFine(b, order, j)
    requires k < n && TellsAt(b, order, CommandPlace(b, order, k), target)
    ensures target in Targets(b, order, n)
  {
    hide ReadU32, NumberIn, CommandPlace, CommandFine, Kind, TellsAt, Targets;
    TargetsInBytes(b, order, n, target);
  }

  lemma LastTells(b: seq<Byte>, order: Host, n: nat, target: Word)
    requires n > 0 && CommandFine(b, order, n - 1)
    ensures target in Targets(b, order, n) <==>
      target in Targets(b, order, n - 1) || TellsAt(b, order, CommandPlace(b, order, n - 1), target)
  {
    hide ReadU32, NumberIn, CommandPlace, CommandFine, Kind;
    CommandInBytes(b, order, n - 1);
    CommandIsLong(b, order, n - 1);
  }

  lemma CommandIsLong(b: seq<Byte>, order: Host, k: nat)
    requires CommandFine(b, order, k)
    ensures CommandPlace(b, order, k) + 8 <= |b|
  {
    hide ReadU32;
  }

  /** The table of commands: each begins where the one before it ends, and the last ends with the table; and
      one least system from 1.0 to 11.0 is told, and no other. */
  ghost predicate TableAt(b: seq<Byte>, order: Host, places: seq<nat>, target: int) {
    && places != [] && places[0] == 0 && places[|places| - 1] == |b|
    && (forall k :: 1 <= k < |places| ==> CommandAt(b, order, places[k - 1], places[k]))
    && 65536 <= target <= 720896
    && (exists k :: 0 <= k < |places| - 1 && TellsAt(b, order, places[k], target))
    && (forall k, t :: 0 <= k < |places| - 1 && TellsAt(b, order, places[k], t) ==> t == target)
  }

  lemma {:induction false} PlacesAgree(b: seq<Byte>, order: Host, places: seq<nat>, k: nat)
    requires k < |places| && places[0] == 0
    requires forall j :: 1 <= j < |places| ==> CommandAt(b, order, places[j - 1], places[j])
    ensures places[k] == CommandPlace(b, order, k)
    decreases k
  {
    hide ReadU32, NumberIn;
    if k > 0 {
      PlacesAgree(b, order, places, k - 1);
      assert CommandAt(b, order, places[k - 1], places[k]);
      NumberRead(order, b, places[k - 1] + 4);
    }
  }

  function PlacesOf(b: seq<Byte>, order: Host, count: nat): seq<nat> {
    seq(count + 1, k requires 0 <= k <= count => CommandPlace(b, order, k))
  }

  lemma TableIfAt(b: seq<Byte>, order: Host, count: nat, places: seq<nat>, target: Word)
    requires |places| == count + 1 && TableAt(b, order, places, target)
    ensures TableFine(b, order, count)
  {
    hide CommandPlace, CommandFine, Targets, TellsAt, CommandAt;
    forall k | 0 <= k <= count
      ensures places[k] == CommandPlace(b, order, k)
    {
      PlacesAgree(b, order, places, k);
    }
    forall k | 0 <= k < count
      ensures CommandFine(b, order, k)
    {
      assert CommandAt(b, order, places[k + 1 - 1], places[k + 1]);
      CommandInBytes(b, order, k);
    }
    var targets := Targets(b, order, count);
    var k :| 0 <= k < count && TellsAt(b, order, places[k], target);
    ToldIsTarget(b, order, count, k, target);
    forall i | 0 <= i < |targets|
      ensures targets[i] == target
    {
      assert targets[i] in targets;
      TargetsInBytes(b, order, count, targets[i]);
      var j :| 0 <= j < count && TellsAt(b, order, CommandPlace(b, order, j), targets[i]);
      assert TellsAt(b, order, places[j], targets[i]);
    }
    assert TellsOnly(targets, target);
  }

  lemma AtIfTable(b: seq<Byte>, order: Host, count: nat) returns (target: Word)
    requires TableFine(b, order, count)
    ensures TableAt(b, order, PlacesOf(b, order, count), target)
  {
    hide CommandPlace, CommandFine, Targets, TellsAt, CommandAt;
    var places, targets := PlacesOf(b, order, count), Targets(b, order, count);
    target :| TellsOnly(targets, target) && 65536 <= target <= 720896;
    assert places[0] == 0 by { FirstPlace(b, order); }
    forall k | 1 <= k < |places|
      ensures CommandAt(b, order, places[k - 1], places[k])
    {
      CommandInBytes(b, order, k - 1);
    }
    assert targets[0] in targets;
    TargetsInBytes(b, order, count, target);
    var k :| 0 <= k < count && TellsAt(b, order, CommandPlace(b, order, k), target);
    assert TellsAt(b, order, places[k], target);
    forall j, t | 0 <= j < |places| - 1 && TellsAt(b, order, places[j], t)
      ensures t == target
    {
      assert 0 <= t < 0x1_0000_0000 by { ToldIsWord(b, order, places[j], t); }
      ToldIsTarget(b, order, count, j, t);
      var i :| 0 <= i < |targets| && targets[i] == t;
    }
  }

  lemma FirstPlace(b: seq<Byte>, order: Host)
    ensures CommandPlace(b, order, 0) == 0
  {
  }

  lemma ToldIsWord(b: seq<Byte>, order: Host, at: nat, t: int)
    requires TellsAt(b, order, at, t)
    ensures 0 <= t < 0x1_0000_0000
  {
    hide NumberIn, ReadU32;
    NumberRead(order, b, at + 8);
    NumberRead(order, b, at + 12);
  }

  /** A header of 32 bytes: the magic number, the processor, the count and the length of the commands; and the
      commands behind it. */
  ghost predicate AcceptedAt(data: seq<Byte>, cpu: Word, order: Host, places: seq<nat>, target: Word) {
    && |data| >= 32 && NumberIn(order, data, 0) == 0xFEEDFACF && NumberIn(order, data, 4) == cpu
    && var count, size := NumberIn(order, data, 16), NumberIn(order, data, 20);
       && 0 <= size <= 16777216 && 32 + size <= |data| && 8 * count <= size && |places| == count + 1
       && TableAt(data[32..32 + size], order, places, target)
  }

  lemma OrderInBytes(data: seq<Byte>, order: Host)
    requires |data| >= 4
    ensures Order(data) == Some(order) <==> NumberIn(order, data, 0) == 0xFEEDFACF
  {
    var b := data[..4];
    assert b == [data[0], data[1], data[2], data[3]];
    var x, y: Word := LittleWord(b), LittleWord([b[3], b[2], b[1], b[0]]);
    LittleBytesOfWord(b);
    LittleBytesOfWord([b[3], b[2], b[1], b[0]]);
  }

  /** Which files are accepted. */
  lemma AcceptedInBytes(data: seq<Byte>, cpu: Word)
    ensures Acceptable(data, cpu) <==> exists order, places, target :: AcceptedAt(data, cpu, order, places, target)
  {
    hide NumberIn, ReadU32, Order, TableFine, TableAt;
    if |data| >= 32 {
      forall order: Host
        ensures Order(data) == Some(order) <==> NumberIn(order, data, 0) == 0xFEEDFACF
        ensures ReadU32(data, 4, order) == NumberIn(order, data, 4)
        ensures ReadU32(data, 16, order) == NumberIn(order, data, 16)
        ensures ReadU32(data, 20, order) == NumberIn(order, data, 20)
      {
        OrderInBytes(data, order);
        NumberRead(order, data, 4);
        NumberRead(order, data, 16);
        NumberRead(order, data, 20);
      }
    }
    if Acceptable(data, cpu) {
      var order := Order(data).value;
      var count, size := ReadU32(data, 16, order), ReadU32(data, 20, order);
      var target := AtIfTable(data[32..32 + size], order, count);
      assert AcceptedAt(data, cpu, order, PlacesOf(data[32..32 + size], order, count), target);
    }
    if exists order, places, target :: AcceptedAt(data, cpu, order, places, target) {
      var order, places, target :| AcceptedAt(data, cpu, order, places, target);
      var count, size := ReadU32(data, 16, order), ReadU32(data, 20, order);
      TableIfAt(data[32..32 + size], order, count, places, target);
    }
  }

  // ----- a file that is built

  /** A file made of these commands is accepted if and only if it is for this processor, its commands take at most
      16 MiB, every build version is for macOS, and one least system from 1.0 to 11.0 is told, and no other. */
  lemma BuiltIsAccepted(order: Host, cpu: Word, subtype: Word, filetype: Word, commands: seq<Command>,
                        flags: Word, reserved: Word, rest: seq<Byte>, wanted: Word)
    requires AllFit(commands) && |commands| < 0x1_0000_0000 && |TableBytes(order, commands)| < 0x1_0000_0000
    ensures Acceptable(FileOf(order, cpu, subtype, filetype, commands, flags, reserved, rest), wanted) <==>
      && cpu == wanted && |TableBytes(order, commands)| <= 16777216 && ForMacos(commands)
      && ToldIsFine(Told(commands))
  {
    hide TableBytes, ReadU32, Words, TableFine, Told, ForMacos, TellsOnly;
    var table := TableBytes(order, commands);
    var words: seq<Word> := [0xFEEDFACF, cpu, subtype, filetype, |commands|, |table|, flags, reserved];
    var data := FileOf(order, cpu, subtype, filetype, commands, flags, reserved, rest);
    assert data == Words(order, words) + table + rest;
    assert data[0..32] == Words(order, words) && data[32..32 + |table|] == table;
    OrderRead(order, words, data);
    WordRead(order, words, data, 0, 1);
    WordRead(order, words, data, 0, 4);
    WordRead(order, words, data, 0, 5);
    CommandsAreLong(order, commands);
    TableIsFine(order, commands);
  }
}
