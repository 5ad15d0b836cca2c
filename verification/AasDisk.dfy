/** An AAS file byte by byte: what lies on disk when a world has been written, which headers are
    accepted, and what swapping does to the fields of each table. */
module AasDisk {
  import opened Bytes
  import opened AasTables
  import opened AasHeader
  import opened AasFile
  import opened AasLoad

  // ----- bytes of words

  /** Byte j of a word, counted from the lowest. */
  function ByteOf(w: Word, j: nat): Byte {
    if j == 0 then w % 256 else if j == 1 then w / 256 % 256 else if j == 2 then w / 65536 % 256
    else w / 16777216 % 256
  }

  lemma LittleByteAt(w: Word, j: nat)
    requires j < 4
    ensures LittleBytes(w)[j] == ByteOf(w, j)
  {
  }

  lemma ByteOfWords(words: seq<Word>, k: nat, j: nat)
    requires k < |words| && j < 4
    ensures 4 * k + j < |WordsBytes(words)| && WordsBytes(words)[4 * k + j] == ByteOf(words[k], j)
  {
    hide WordsBytes, LittleBytes, ByteOf;
    WordAt(words, k);
    LittleByteAt(words[k], j);
    assert WordsBytes(words)[4 * k + j] == WordsBytes(words)[4 * k..4 * k + 4][j];
  }

  lemma WordByte(words: seq<Word>, n: nat)
    requires n < 4 * |words|
    ensures WordsBytes(words)[n] == ByteOf(words[n / 4], n % 4)
  {
    hide WordsBytes, ByteOf;
    ByteOfWords(words, n / 4, n % 4);
  }

  /** Four bytes as a word, lowest first. */
  function FourBytes(b0: Byte, b1: Byte, b2: Byte, b3: Byte): int {
    b0 + 256 * b1 + 65536 * b2 + 16777216 * b3
  }

  lemma LittleWordIs(b: seq<Byte>)
    requires |b| == 4
    ensures LittleWord(b) == FourBytes(b[0], b[1], b[2], b[3])
  {
  }

  // ----- the file on disk

  /** The lengths of the first n tables together. */
  function TableBytes(tables: seq<seq<Byte>>, n: nat): nat
    requires n <= |tables|
  {
    if n == 0 then 0 else TableBytes(tables, n - 1) + |tables[n - 1]|
  }

  lemma {:induction false} TablesStart(tables: seq<seq<Byte>>, n: nat)
    requires n <= |tables|
    ensures Start(tables, n) == 124 + TableBytes(tables, n)
    decreases n
  {
    if n > 0 {
      TablesStart(tables, n - 1);
    }
  }

  /** Word k of the header before it is covered: "EAAS", version 5, the checksum, and for each of the
      fourteen tables where it starts and how long it is. */
  function HeaderField(checksum: Word, tables: seq<seq<Byte>>, k: nat): int
    requires |tables| == 14 && k < 31
  {
    if k == 0 then 0x53414145
    else if k == 1 then 5
    else if k == 2 then checksum
    else if k % 2 == 1 then 124 + TableBytes(tables, (k - 3) / 2)
    else |tables[(k - 3) / 2]|
  }

  lemma HeaderFields(checksum: Word, tables: seq<seq<Byte>>, k: nat)
    requires FileFits(tables) && k < 31
    ensures |tables| == 14 && HeaderField(checksum, tables, k) == HeaderWord(checksum, tables, AAS_LUMPS, k)
  {
    hide Start;
    if k >= 3 {
      TablesStart(tables, (k - 3) / 2);
    }
  }

  /** Every byte of the header of a written file: the first eight are plain, and byte 8 + i is covered
      with the byte 119 * i; the tables follow from byte 124 on without a gap. */
  lemma HeaderOnDisk(checksum: Word, tables: seq<seq<Byte>>, n: nat)
    requires FileFits(tables) && n < 124
    ensures |tables| == 14 && |FileOf(checksum, tables)| == 124 + TableBytes(tables, 14)
    ensures var field := HeaderField(checksum, tables, n / 4);
      && 0 <= field < 0x1_0000_0000
      && FileOf(checksum, tables)[n]
         == if n < 8 then ByteOf(field, n % 4)
            else ((ByteOf(field, n % 4) as bv8) ^ ((119 * (n - 8) % 256) as bv8)) as int
  {
    hide HeaderWord, Xor, WordsBytes, Joined, FileFits, ByteOf;
    var words := HeaderWords(checksum, tables, AAS_LUMPS);
    var plain := WordsBytes(words);
    HeaderFields(checksum, tables, n / 4);
    WordByte(words, n);
    assert FileOf(checksum, tables)[n] == HeaderBytes(checksum, tables)[n];
    if n >= 8 {
      XorIsBitwise(plain[n], 119 * (n - 8) % 256);
      assert plain[8..][n - 8] == plain[n];
    }
    JoinedLength(tables, AAS_LUMPS);
    TablesStart(tables, AAS_LUMPS);
  }

  lemma TableOnDisk(checksum: Word, tables: seq<seq<Byte>>, l: nat)
    requires FileFits(tables) && l < 14
    ensures var at := 124 + TableBytes(tables, l);
      && at + |tables[l]| <= |FileOf(checksum, tables)|
      && FileOf(checksum, tables)[at..at + |tables[l]|] == tables[l]
  {
    hide HeaderBytes, Joined, Start, TableBytes;
    var file, rest, at := FileOf(checksum, tables), Joined(tables, AAS_LUMPS), Start(tables, l) - HEADER_SIZE;
    JoinedPart(tables, l, AAS_LUMPS);
    TablesStart(tables, l);
    assert file[124 + at..124 + at + |tables[l]|] == rest[at..][..|tables[l]|];
  }

  // ----- which headers are accepted

  /** Byte n of a header whose version is 5, when it has been uncovered. */
  function Plainly(raw: seq<Byte>, n: nat): Byte
    requires n < |raw|
  {
    if n < 8 then raw[n] else ((raw[n] as bv8) ^ ((119 * (n - 8) % 256) as bv8)) as int
  }

  lemma UncoveredBytes(raw: seq<Byte>, n: nat)
    requires |raw| == 124 && n < 124
    ensures raw[4..8] == [5, 0, 0, 0] ==> Uncovered(raw)[n] == Plainly(raw, n)
    ensures raw[4..8] != [5, 0, 0, 0] ==> Uncovered(raw) == raw
  {
    hide Xor;
    LittleWordIs(raw[4..8]);
    if raw[4..8] == [5, 0, 0, 0] && n >= 8 {
      XorIsBitwise(raw[n], 119 * (n - 8) % 256);
      assert Uncovered(raw)[n] == Obfuscated(raw[8..])[n - 8];
      assert raw[8..][n - 8] == raw[n];
    } else {
      assert LittleWord(raw[4..8]) == 5 ==> raw[4] == 5 && raw[5] == 0 && raw[6] == 0 && raw[7] == 0;
      assert raw[4..8] == [raw[4], raw[5], raw[6], raw[7]];
    }
  }

  /** A file is refused for its first four bytes unless they are "EAAS", and for its version unless that
      is 4 or 5; then for its checksum, which is covered in version 5. */
  lemma HeaderDecides(raw: seq<Byte>, checksum: Word)
    requires |raw| == 124
    ensures HeaderOutcome(raw, checksum) ==
      if raw[0..4] != [0x45, 0x41, 0x41, 0x53] then WrongFileId
      else if raw[4..8] == [4, 0, 0, 0] then
        (if FourBytes(raw[8], raw[9], raw[10], raw[11]) == checksum then NoError else WrongFileVersion)
      else if raw[4..8] == [5, 0, 0, 0] then
        (if FourBytes(Plainly(raw, 8), Plainly(raw, 9), Plainly(raw, 10), Plainly(raw, 11)) == checksum
         then NoError else WrongFileVersion)
      else WrongFileVersion
  {
    hide Uncovered, LittleWord, Plainly;
    var plain := Uncovered(raw);
    UncoveredBytes(raw, 8);
    UncoveredBytes(raw, 9);
    UncoveredBytes(raw, 10);
    UncoveredBytes(raw, 11);
    LittleWordIs(plain[8..12]);
    FourBytesAre(raw[..4], [0x45, 0x41, 0x41, 0x53]);
    FourBytesAre(raw[4..8], [4, 0, 0, 0]);
    FourBytesAre(raw[4..8], [5, 0, 0, 0]);
    LittleWordIs([0x45, 0x41, 0x41, 0x53]);
    LittleWordIs([4, 0, 0, 0]);
    LittleWordIs([5, 0, 0, 0]);
  }

  lemma FourBytesAre(a: seq<Byte>, b: seq<Byte>)
    requires |a| == |b| == 4
    ensures LittleWord(a) == LittleWord(b) <==> a == b
  {
    hide LittleWord, LittleBytes;
    LittleBytesOfWord(a);
    LittleBytesOfWord(b);
  }

  /** Where a table of version 5 is said to start, in the bytes of the file: word 3 + 2 * l, signed. */
  lemma PlaceInHeader(raw: seq<Byte>, l: nat)
    requires |raw| == 124 && l < 14 && raw[4..8] == [5, 0, 0, 0]
    ensures var at := 12 + 8 * l;
      && LumpOffset(Uncovered(raw), l)
         == AsSigned(FourBytes(Plainly(raw, at), Plainly(raw, at + 1), Plainly(raw, at + 2), Plainly(raw, at + 3)))
      && LumpLength(Uncovered(raw), l)
         == AsSigned(FourBytes(Plainly(raw, at + 4), Plainly(raw, at + 5), Plainly(raw, at + 6), Plainly(raw, at + 7)))
  {
    hide Uncovered, LittleWord, FourBytes, Plainly;
    var at := 12 + 8 * l;
    WordInHeader(raw, at);
    WordInHeader(raw, at + 4);
  }

  function AsSigned(w: int): int {
    if w < 2147483648 then w else w - 4294967296
  }

  lemma WordInHeader(raw: seq<Byte>, at: nat)
    requires |raw| == 124 && at + 4 <= 124 && raw[4..8] == [5, 0, 0, 0]
    ensures LittleWord(Uncovered(raw)[at..at + 4])
      == FourBytes(Plainly(raw, at), Plainly(raw, at + 1), Plainly(raw, at + 2), Plainly(raw, at + 3))
  {
    hide Uncovered, LittleWord, FourBytes, Plainly;
    var word := Uncovered(raw)[at..at + 4];
    LittleWordIs(word);
    forall j | 0 <= j < 4
      ensures word[j] == Plainly(raw, at + j)
    {
      UncoveredBytes(raw, at + j);
    }
  }

  /** A header of version 5 with the bytes 1, 119, 238 and 101 from byte 8 on has checksum 1. */
  lemma CoveredChecksum(raw: seq<Byte>, checksum: Word)
    requires |raw| == 124 && raw[0..4] == [0x45, 0x41, 0x41, 0x53] && raw[4..8] == [5, 0, 0, 0]
    requires raw[8..12] == [1, 119, 238, 101]
    ensures HeaderOutcome(raw, checksum) == if checksum == 1 then NoError else WrongFileVersion
  {
    hide HeaderOutcome, Plainly;
    HeaderDecides(raw, checksum);
    assert raw[8..12][0] == raw[8] && raw[8..12][1] == raw[9] && raw[8..12][2] == raw[10] && raw[8..12][3] == raw[11];
    FirstByte(raw);
    CoveredZero(raw, 9);
    CoveredZero(raw, 10);
    CoveredZero(raw, 11);
  }

  lemma FirstByte(raw: seq<Byte>)
    requires |raw| > 8 && raw[8] == 1
    ensures Plainly(raw, 8) == 1
  {
    assert ((1 as bv8) ^ (0 as bv8)) as int == 1;
  }

  lemma CoveredZero(raw: seq<Byte>, n: nat)
    requires 8 <= n < |raw| && raw[n] == 119 * (n - 8) % 256
    ensures Plainly(raw, n) == 0
  {
    NoDifference(raw[n] as bv8);
  }

  lemma NoDifference(x: bv8)
    ensures (x ^ x) as int == 0
  {
  }

  // ----- fields of the tables

  /** Where byte j of word w of an element comes from when the byte order changes: words are turned, except
      that a reachability ends with a number of two bytes and two bytes of padding. */
  function Turned(reachability: bool, w: nat, j: nat): (k: nat)
    requires j < 4
    ensures k < 4
  {
    if reachability && w == 10 then [1, 0, 2, 3][j] else 3 - j
  }

  /** An element of words; or one of ten words, two bytes, and two single bytes. */
  ghost predicate MadeOf(widths: seq<nat>, reachability: bool, size: nat) {
    && Sum(widths) == size > 0
    && if reachability then |widths| == 13 && (forall i :: 0 <= i < 10 ==> widths[i] == 4) && widths[10..] == [2, 1, 1]
       else forall i :: 0 <= i < |widths| ==> widths[i] == 4
  }

  lemma FirstField(widths: seq<nat>, b: seq<Byte>)
    requires widths != [] && widths[0] == 4 && |b| == Sum(widths)
    ensures Sum(widths) == 4 + Sum(widths[1..]) && |b| >= 4
    ensures SwappedFields(widths, b) == Reversed(b[..4]) + SwappedFields(widths[1..], b[4..])
  {
  }

  lemma {:induction false} WordTurned(widths: seq<nat>, b: seq<Byte>, k: nat, w: nat, j: nat)
    requires w < k <= |widths| && (forall i :: 0 <= i < k ==> widths[i] == 4) && |b| == Sum(widths) && j < 4
    ensures 4 * w + 4 <= |b| && SwappedFields(widths, b)[4 * w + j] == b[4 * w + (3 - j)]
    decreases k
  {
    hide Sum, SwappedFields;
    FirstField(widths, b);
    var rest, tail := widths[1..], b[4..];
    var r := SwappedFields(rest, tail);
    if w > 0 {
      WordTurned(rest, tail, k - 1, w - 1, j);
      Shifted(SwappedFields(widths, b), r, b, 4, 4 * (w - 1), j, 3 - j);
    }
  }

  lemma {:induction false} AfterWords(widths: seq<nat>, b: seq<Byte>, k: nat)
    requires k <= |widths| && (forall i :: 0 <= i < k ==> widths[i] == 4) && |b| == Sum(widths)
    ensures |b| == 4 * k + Sum(widths[k..])
    ensures SwappedFields(widths, b)[4 * k..] == SwappedFields(widths[k..], b[4 * k..])
    decreases k
  {
    if k == 0 {
      assert widths[0..] == widths && b[0..] == b;
    } else {
      var rest, tail := widths[1..], b[4..];
      assert Sum(widths) == 4 + Sum(rest);
      assert SwappedFields(widths, b) == Reversed(b[..4]) + SwappedFields(rest, tail);
      AfterWords(rest, tail, k - 1);
      assert rest[k - 1..] == widths[k..] && tail[4 * (k - 1)..] == b[4 * k..];
      assert SwappedFields(widths, b)[4 * k..] == SwappedFields(rest, tail)[4 * (k - 1)..];
    }
  }

  /** The end of a reachability: two bytes turned, and two that stay. */
  lemma TailTurned(b: seq<Byte>)
    requires |b| == 4
    ensures Sum([2, 1, 1]) == 4 && SwappedFields([2, 1, 1], b) == [b[1], b[0], b[2], b[3]]
  {
    var tail := b[2..];
    assert [2, 1, 1][1..] == [1, 1] && [1, 1][1..] == [1] && [1][1..] == [];
    assert Sum([]) == 0 && Sum([1]) == 1 && Sum([1, 1]) == 2;
    assert SwappedFields([1], tail[1..]) == [tail[1]];
    assert SwappedFields([1, 1], tail) == [tail[0], tail[1]];
    assert Reversed(b[..2]) == [b[1], b[0]];
  }

  lemma {:induction false} FoursThen(widths: seq<nat>, k: nat)
    requires k <= |widths| && forall i :: 0 <= i < k ==> widths[i] == 4
    ensures Sum(widths) == 4 * k + Sum(widths[k..])
    decreases k
  {
    if k == 0 {
      assert widths[0..] == widths;
    } else {
      FoursThen(widths[1..], k - 1);
      assert widths[1..][k - 1..] == widths[k..];
    }
  }

  lemma NoFields()
    ensures Sum([]) == 0
  {
  }

  lemma ElementTurned(widths: seq<nat>, reachability: bool, b: seq<Byte>, w: nat, j: nat)
    requires MadeOf(widths, reachability, |b|) && 4 * w < |b| && j < 4
    ensures 4 * w + 4 <= |b| && SwappedFields(widths, b)[4 * w + j] == b[4 * w + Turned(reachability, w, j)]
  {
    hide SwappedFields, Sum;
    var k := if reachability then 10 else |widths|;
    if !reachability {
      assert widths[|widths|..] == [] && Sum([]) == 0 by { NoFields(); }
    }
    AfterWords(widths, b, k);
    if w < k {
      WordTurned(widths, b, k, w, j);
    } else {
      TailTurned([0, 0, 0, 0]);
      TailTurned(b[40..]);
      assert SwappedFields(widths, b)[40 + j] == SwappedFields(widths, b)[40..][j];
    }
  }

  /** Where element e begins. */
  function Place(e: nat, size: nat): nat {
    if e == 0 then 0 else size + Place(e - 1, size)
  }

  lemma {:induction false} ElementsTurned(widths: seq<nat>, reachability: bool, size: nat, b: seq<Byte>,
                                          e: nat, w: nat, j: nat)
    requires MadeOf(widths, reachability, size) && Place(e, size) + size <= |b| && 4 * w < size && j < 4
    ensures Place(e, size) + 4 * w + 4 <= |b|
    ensures Swapped(widths, b)[Place(e, size) + 4 * w + j] == b[Place(e, size) + 4 * w + Turned(reachability, w, j)]
    decreases e
  {
    hide SwappedFields, Sum, Turned, MadeOf, Swapped, Place;
    assert Sum(widths) == size > 0 by { MadeOfSize(widths, reachability, size); }
    NextPlace(e, size);
    var head, tail := b[..size], b[size..];
    assert b == head + tail;
    SwappedOf(widths, head, tail);
    ElementTurned(widths, reachability, head, w, j);
    if e > 0 {
      var at, k := Place(e - 1, size) + 4 * w, Turned(reachability, w, j);
      ElementsTurned(widths, reachability, size, tail, e - 1, w, j);
      Shifted(Swapped(widths, b), Swapped(widths, tail), b, size, at, j, k);
    }
  }

  lemma NextPlace(e: nat, size: nat)
    ensures Place(e, size) == if e == 0 then 0 else size + Place(e - 1, size)
  {
  }

  lemma {:induction false} PlaceIsProduct(e: nat, size: nat)
    ensures Place(e, size) == e * size && (e + 1) * size == e * size + size
  {
    if e > 0 {
      PlaceIsProduct(e - 1, size);
    }
  }

  lemma MadeOfSize(widths: seq<nat>, reachability: bool, size: nat)
    requires MadeOf(widths, reachability, size)
    ensures Sum(widths) == size > 0
  {
  }

  lemma Shifted(r: seq<Byte>, rest: seq<Byte>, b: seq<Byte>, size: nat, at: nat, j: nat, k: nat)
    requires size <= |r| == |b| && r[size..] == rest && |rest| == |b| - size && at + j < |rest| && at + k < |rest|
    requires rest[at + j] == b[size..][at + k]
    ensures r[size + at + j] == b[size + at + k]
  {
    assert r[size..][at + j] == r[size + at + j];
  }

  /** The sizes of the elements of the fourteen tables; only reachabilities are not made of words. */
  lemma TablesMadeOf()
    ensures MadeOf(FIELDS[0], false, 32) && MadeOf(FIELDS[1], false, 12) && MadeOf(FIELDS[2], false, 20)
    ensures MadeOf(FIELDS[3], false, 8) && MadeOf(FIELDS[4], false, 4) && MadeOf(FIELDS[5], false, 24)
    ensures MadeOf(FIELDS[6], false, 4) && MadeOf(FIELDS[7], false, 48) && MadeOf(FIELDS[8], false, 28)
    ensures MadeOf(FIELDS[9], true, 44) && MadeOf(FIELDS[10], false, 12) && MadeOf(FIELDS[11], false, 20)
    ensures MadeOf(FIELDS[12], false, 4) && MadeOf(FIELDS[13], false, 16)
  {
    hide Sum;
    WordsMadeOf(FIELDS[0]);
    WordsMadeOf(FIELDS[1]);
    WordsMadeOf(FIELDS[2]);
    WordsMadeOf(FIELDS[3]);
    WordsMadeOf(FIELDS[4]);
    WordsMadeOf(FIELDS[5]);
    WordsMadeOf(FIELDS[6]);
    WordsMadeOf(FIELDS[7]);
    WordsMadeOf(FIELDS[8]);
    WordsMadeOf(FIELDS[10]);
    WordsMadeOf(FIELDS[11]);
    WordsMadeOf(FIELDS[12]);
    WordsMadeOf(FIELDS[13]);
    FoursThen(FIELDS[9], 10);
    assert FIELDS[9][10..] == [2, 1, 1];
    TailTurned([0, 0, 0, 0]);
  }

  lemma WordsMadeOf(widths: seq<nat>)
    requires widths != [] && forall i :: 0 <= i < |widths| ==> widths[i] == 4
    ensures MadeOf(widths, false, 4 * |widths|)
  {
    hide Sum;
    FoursThen(widths, |widths|);
    assert widths[|widths|..] == [] && Sum([]) == 0 by { NoFields(); }
  }

  /** On a machine that keeps the highest byte first, byte j of word w of element e of a table lies on disk
      where the byte order of the file has it. */
  lemma WordOnDisk(l: nat, reachability: bool, size: nat, b: seq<Byte>, e: nat, w: nat, j: nat)
    requires l < 14 && MadeOf(FIELDS[l], reachability, size) && (e + 1) * size <= |b| && 4 * w < size && j < 4
    ensures 0 <= e * size && e * size + 4 * w + 4 <= |b|
    ensures InFileOrder(Big, FIELDS[l], b)[e * size + 4 * w + j] == b[e * size + 4 * w + Turned(reachability, w, j)]
    ensures InFileOrder(Little, FIELDS[l], b) == b
  {
    hide MadeOf, Turned, Swapped, Place;
    PlaceIsProduct(e, size);
    ElementsTurned(FIELDS[l], reachability, size, b, e, w, j);
  }
}
