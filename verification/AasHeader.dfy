/** The header of an AAS file: thirty-one words, hidden behind a fixed pattern from the third on. */
module AasHeader {
  import opened Bytes
  import opened AasTables

  const AASID: Word := 0x53414145
  const AASVERSION_OLD: Word := 4
  const AASVERSION: Word := 5
  const HEADER_WORDS := 3 + 2 * AAS_LUMPS
  const HEADER_SIZE := 4 * HEADER_WORDS

  // ----- words in a row

  function WordsBytes(words: seq<Word>): (b: seq<Byte>)
    ensures |b| == 4 * |words|
  {
    if words == [] then [] else LittleBytes(words[0]) + WordsBytes(words[1..])
  }

  lemma {:induction false} WordAt(words: seq<Word>, k: nat)
    requires k < |words|
    ensures WordsBytes(words)[4 * k..4 * k + 4] == LittleBytes(words[k])
  {
    var b := WordsBytes(words);
    if k > 0 {
      WordAt(words[1..], k - 1);
      assert b[4 * k..4 * k + 4] == b[4..][4 * (k - 1)..4 * (k - 1) + 4];
    }
  }

  lemma WordTells(words: seq<Word>, k: nat)
    requires k < |words|
    ensures LittleWord(WordsBytes(words)[4 * k..4 * k + 4]) == words[k]
  {
    WordAt(words, k);
    LittleWordOfBytes(words[k]);
  }

  lemma {:induction false} WordSet(words: seq<Word>, k: nat, w: Word)
    requires k < |words|
    ensures WordsBytes(words[k := w])
      == WordsBytes(words)[..4 * k] + LittleBytes(w) + WordsBytes(words)[4 * k + 4..]
  {
    var b := WordsBytes(words);
    if k == 0 {
      assert words[0 := w][1..] == words[1..];
    } else {
      WordSet(words[1..], k - 1, w);
      assert words[k := w][1..] == words[1..][k - 1 := w];
      assert b[..4 * k] == LittleBytes(words[0]) + WordsBytes(words[1..])[..4 * (k - 1)];
      assert b[4 * k + 4..] == WordsBytes(words[1..])[4 * (k - 1) + 4..];
    }
  }

  /** Stores a word of the header in the order of the file. */
  method PutWord(header: array<Byte>, k: nat, host: Host, w: Word, ghost words: seq<Word>)
    requires k < |words| && header[..] == WordsBytes(words)
    modifies header
    ensures header[..] == WordsBytes(words[k := w])
  {
    ghost var before := header[..];
    var b := HostBytes(host, LittleLong(host, w));
    StoredLittle(host, w);
    WordSet(words, k, w);
    header[4 * k] := b[0];
    header[4 * k + 1] := b[1];
    header[4 * k + 2] := b[2];
    header[4 * k + 3] := b[3];
    assert header[..] == before[..4 * k] + b + before[4 * k + 4..];
  }

  /** Reads a word of the header. */
  method GetWord(header: array<Byte>, k: nat, host: Host) returns (w: Word)
    requires 4 * k + 4 <= header.Length
    ensures w == LittleWord(header[4 * k..4 * k + 4])
  {
    var b := header[4 * k..4 * k + 4];
    ReadLittle(host, b);
    w := LittleLong(host, HostWord(host, b));
  }

  // ----- the pattern

  function Obfuscated(b: seq<Byte>): (r: seq<Byte>)
    ensures |r| == |b|
  {
    seq(|b|, i requires 0 <= i < |b| => Xor(b[i], i * 119 % 0x100))
  }

  lemma ObfuscatedTwice(b: seq<Byte>)
    ensures Obfuscated(Obfuscated(b)) == b
  {
    forall i | 0 <= i < |b|
      ensures Obfuscated(Obfuscated(b))[i] == b[i]
    {
      XorTwice(b[i], i * 119 % 0x100);
    }
  }

  /** Hides or uncovers all but the first bytes, in place. */
  method DData(data: array<Byte>, first: nat)
    requires first <= data.Length
    modifies data
    ensures data[..] == old(data[..first]) + Obfuscated(old(data[first..]))
  {
    ghost var s := data[..];
    var i, size := 0, data.Length - first;
    while i < size
      invariant 0 <= i <= size
      invariant data[..first] == s[..first] && data[first + i..] == s[first + i..]
      invariant data[first..first + i] == Obfuscated(s[first..])[..i]
    {
      assert s[first..][i] == s[first + i] == data[first + i];
      data[first + i] := Xor(data[first + i], i * 119 % 0x100);
      i := i + 1;
    }
  }

  // ----- what a header says

  /** The header with the pattern taken off, if its version says that there is one. */
  function Uncovered(raw: seq<Byte>): (r: seq<Byte>)
    requires |raw| == HEADER_SIZE
    ensures |r| == HEADER_SIZE
  {
    if LittleWord(raw[4..8]) == AASVERSION then raw[..8] + Obfuscated(raw[8..]) else raw
  }

  function LumpOffset(header: seq<Byte>, l: nat): int
    requires |header| == HEADER_SIZE && l < AAS_LUMPS
  {
    Signed(LittleWord(header[4 * (3 + 2 * l)..4 * (3 + 2 * l) + 4]))
  }

  function LumpLength(header: seq<Byte>, l: nat): int
    requires |header| == HEADER_SIZE && l < AAS_LUMPS
  {
    Signed(LittleWord(header[4 * (4 + 2 * l)..4 * (4 + 2 * l) + 4]))
  }

  // ----- the header of a file

  /** Where a table starts when the tables follow the header one after another. */
  function Start(tables: seq<seq<Byte>>, l: nat): nat
    requires l <= |tables|
  {
    if l == 0 then HEADER_SIZE else Start(tables, l - 1) + |tables[l - 1]|
  }

  ghost predicate FileFits(tables: seq<seq<Byte>>) {
    |tables| == AAS_LUMPS && Start(tables, AAS_LUMPS) < 0x8000_0000
  }

  lemma {:induction false} StartsFit(tables: seq<seq<Byte>>, l: nat, n: nat)
    requires l < n <= |tables| && Start(tables, n) < 0x8000_0000
    ensures HEADER_SIZE <= Start(tables, l) < 0x8000_0000 && |tables[l]| < 0x8000_0000
    ensures Start(tables, l) + |tables[l]| <= Start(tables, n)
    decreases n
  {
    if l + 1 < n {
      StartsFit(tables, l, n - 1);
    } else {
      StartsAfterHeader(tables, l);
    }
  }

  lemma {:induction false} StartsAfterHeader(tables: seq<seq<Byte>>, l: nat)
    requires l <= |tables|
    ensures HEADER_SIZE <= Start(tables, l)
    decreases l
  {
    if l > 0 {
      StartsAfterHeader(tables, l - 1);
    }
  }

  /** Word k of the header when the first n tables have been entered. */
  ghost function HeaderWord(checksum: Word, tables: seq<seq<Byte>>, n: nat, k: nat): Word
    requires FileFits(tables) && n <= AAS_LUMPS && k < HEADER_WORDS
  {
    if k < 3 then [AASID, AASVERSION, checksum][k]
    else if n <= (k - 3) / 2 then 0
    else
      StartsFit(tables, (k - 3) / 2, AAS_LUMPS);
      if k % 2 == 1 then Start(tables, (k - 3) / 2) else |tables[(k - 3) / 2]|
  }

  ghost function HeaderWords(checksum: Word, tables: seq<seq<Byte>>, n: nat): (w: seq<Word>)
    requires FileFits(tables) && n <= AAS_LUMPS
    ensures |w| == HEADER_WORDS
  {
    seq(HEADER_WORDS, k requires 0 <= k < HEADER_WORDS => HeaderWord(checksum, tables, n, k))
  }

  /** Entering a table sets its two words. */
  lemma HeaderWordsNext(checksum: Word, tables: seq<seq<Byte>>, n: nat)
    requires FileFits(tables) && n < AAS_LUMPS
    ensures 0 <= Start(tables, n) < 0x8000_0000 && |tables[n]| < 0x8000_0000
    ensures HeaderWords(checksum, tables, n + 1)
      == HeaderWords(checksum, tables, n)[3 + 2 * n := Start(tables, n)][4 + 2 * n := |tables[n]|]
  {
    StartsFit(tables, n, AAS_LUMPS);
    hide Start, FileFits;
    forall k | 0 <= k < HEADER_WORDS && k != 3 + 2 * n && k != 4 + 2 * n
      ensures HeaderWord(checksum, tables, n + 1, k) == HeaderWord(checksum, tables, n, k)
    {
      assert k < 3 || (k - 3) / 2 != n;
    }
  }

  /** The header bytes that a file begins with. */
  ghost function HeaderBytes(checksum: Word, tables: seq<seq<Byte>>): (b: seq<Byte>)
    requires FileFits(tables)
    ensures |b| == HEADER_SIZE
  {
    var plain := WordsBytes(HeaderWords(checksum, tables, AAS_LUMPS));
    plain[..8] + Obfuscated(plain[8..])
  }

  /** Uncovering the header of a file gives back its words. */
  lemma HeaderUncovered(checksum: Word, tables: seq<seq<Byte>>)
    requires FileFits(tables)
    ensures var raw := HeaderBytes(checksum, tables);
      && LittleWord(raw[..4]) == AASID && LittleWord(raw[4..8]) == AASVERSION
      && Uncovered(raw) == WordsBytes(HeaderWords(checksum, tables, AAS_LUMPS))
  {
    var words := HeaderWords(checksum, tables, AAS_LUMPS);
    var plain, raw := WordsBytes(words), HeaderBytes(checksum, tables);
    WordTells(words, 0);
    WordTells(words, 1);
    assert words[0] == AASID && words[1] == AASVERSION;
    hide WordsBytes, HeaderWords, Obfuscated, LittleWord;
    assert raw[..4] == plain[0..4] && raw[4..8] == plain[4..8];
    ObfuscatedTwice(plain[8..]);
    assert raw[..8] == plain[..8] && raw[8..] == Obfuscated(plain[8..]);
    assert plain == plain[..8] + plain[8..];
  }

  lemma LumpWords(checksum: Word, tables: seq<seq<Byte>>, l: nat)
    requires FileFits(tables) && l < AAS_LUMPS
    ensures HeaderWord(checksum, tables, AAS_LUMPS, 3 + 2 * l) == Start(tables, l) < 0x8000_0000
    ensures HeaderWord(checksum, tables, AAS_LUMPS, 4 + 2 * l) == |tables[l]| < 0x8000_0000
  {
    hide Start;
    StartsFit(tables, l, AAS_LUMPS);
    assert (3 + 2 * l - 3) / 2 == l && (4 + 2 * l - 3) / 2 == l;
  }

  /** The uncovered header tells the checksum, and where every table starts and how long it is. */
  lemma HeaderTells(checksum: Word, tables: seq<seq<Byte>>, l: nat)
    requires FileFits(tables) && l < AAS_LUMPS
    ensures var header := WordsBytes(HeaderWords(checksum, tables, AAS_LUMPS));
      && LittleWord(header[8..12]) == checksum
      && LumpOffset(header, l) == Start(tables, l) && LumpLength(header, l) == |tables[l]|
  {
    hide WordsBytes, LittleWord, Start, FileFits, HeaderWord;
    var words := HeaderWords(checksum, tables, AAS_LUMPS);
    ChecksumWord(checksum, tables);
    LumpWords(checksum, tables, l);
    WordTells(words, 2);
    WordTells(words, 3 + 2 * l);
    WordTells(words, 4 + 2 * l);
  }

  lemma ChecksumWord(checksum: Word, tables: seq<seq<Byte>>)
    requires FileFits(tables)
    ensures HeaderWord(checksum, tables, AAS_LUMPS, 2) == checksum
  {
  }
}
