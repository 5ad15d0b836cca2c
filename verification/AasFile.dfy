/** Writing a world to an AAS file and loading it back, on machines of either byte order. */
module AasFile {
  import opened Bytes
  import opened AasTables
  import opened AasHeader

  /** What n bytes of memory hold after a read at this place of a file: a read at its end is short. */
  function Over(stale: seq<Byte>, content: seq<Byte>, pos: nat): (r: seq<Byte>)
    ensures |r| == |stale|
  {
    seq(|stale|, k requires 0 <= k < |stale| => if pos + k < |content| then content[pos + k] else stale[k])
  }

  function Zeros(n: nat): seq<Byte> {
    seq(n, _ => 0)
  }

  /** An open file. */
  class File {
    var content: seq<Byte>
    var pos: nat

    constructor (content: seq<Byte>)
      ensures this.content == content && pos == 0
    {
      this.content, pos := content, 0;
    }

    method Read(buf: array<Byte>)
      modifies this`pos, buf
      ensures pos == old(pos) + buf.Length && buf[..] == Over(old(buf[..]), content, old(pos))
    {
      ghost var stale := buf[..];
      var k := 0;
      while k < buf.Length && pos + k < |content|
        invariant pos == old(pos) && 0 <= k <= buf.Length
        invariant (pos <= |content| ==> pos + k <= |content|) && (k > 0 ==> pos <= |content|)
        invariant buf[..k] == Over(stale, content, pos)[..k] && buf[k..] == stale[k..]
      {
        assert buf[k..][0] == buf[k];
        buf[k] := content[pos + k];
        k := k + 1;
      }
      assert buf[..] == buf[..k] + buf[k..];
      assert Over(stale, content, pos)[k..] == stale[k..];
      pos := pos + buf.Length;
    }

    /** Writes over what there is, and past the end. */
    method Write(data: array<Byte>)
      requires pos <= |content|
      modifies this
      ensures pos == old(pos) + data.Length
      ensures content == old(content[..pos]) + data[..]
        + (if pos < |old(content)| then old(content)[pos..] else [])
    {
      var after := pos + data.Length;
      content := content[..pos] + data[..] + (if after < |content| then content[after..] else []);
      pos := after;
    }

    /** Fails for a place before the file. */
    method Seek(offset: int) returns (failed: bool)
      modifies this`pos
      ensures failed == (offset < 0)
      ensures pos == if failed then old(pos) else offset
    {
      if offset < 0 { return true; }
      pos := offset;
      return false;
    }
  }

  /** The world as far as the file knows it. */
  class AasWorldTables {
    var tables: seq<array<Byte>>
    var bspchecksum: Word
    var loaded: bool

    ghost predicate Valid()
      reads this
    {
      |tables| == AAS_LUMPS && forall i, j :: 0 <= i < j < AAS_LUMPS ==> tables[i] != tables[j]
    }

    ghost function Contents(): (c: seq<seq<Byte>>)
      reads this, tables
    {
      seq(|tables|, l requires 0 <= l < |tables| reads this, tables => tables[l][..])
    }

    /** Swaps all fields of all tables. */
    method SwapAASData(host: Host)
      requires Valid()
      modifies tables
      ensures Contents() == AllInFileOrder(host, old(Contents()))
    {
      hide InFileOrder, Sum;
      ghost var s := Contents();
      var l := 0;
      while l < AAS_LUMPS
        invariant 0 <= l <= AAS_LUMPS
        invariant forall k :: 0 <= k < l ==> tables[k][..] == InFileOrder(host, FIELDS[k], s[k])
        invariant forall k :: l <= k < AAS_LUMPS ==> tables[k][..] == s[k]
      {
        assert Sum(FIELDS[l]) > 0 by { FieldsAreWide(l); }
        SwapTable(tables[l], FIELDS[l], host);
        l := l + 1;
      }
    }
  }

  lemma FieldsAreWide(l: nat)
    requires l < AAS_LUMPS
    ensures Sum(FIELDS[l]) > 0
  {
  }

  ghost function AllInFileOrder(host: Host, tables: seq<seq<Byte>>): (r: seq<seq<Byte>>)
    requires |tables| == AAS_LUMPS
    ensures |r| == AAS_LUMPS && forall l :: 0 <= l < AAS_LUMPS ==> |r[l]| == |tables[l]|
  {
    seq(AAS_LUMPS, l requires 0 <= l < AAS_LUMPS => InFileOrder(host, FIELDS[l], tables[l]))
  }

  // ----- writing

  /** The first n tables in a row. */
  function Joined(tables: seq<seq<Byte>>, n: nat): seq<Byte>
    requires n <= |tables|
  {
    if n == 0 then [] else Joined(tables, n - 1) + tables[n - 1]
  }

  lemma {:induction false} JoinedLength(tables: seq<seq<Byte>>, n: nat)
    requires n <= |tables|
    ensures HEADER_SIZE + |Joined(tables, n)| == Start(tables, n)
    decreases n
  {
    if n > 0 {
      JoinedLength(tables, n - 1);
    }
  }

  /** The whole file: the covered header, and the tables in a row. */
  ghost function FileOf(checksum: Word, tables: seq<seq<Byte>>): seq<Byte>
    requires FileFits(tables)
  {
    HeaderBytes(checksum, tables) + Joined(tables, AAS_LUMPS)
  }

  /** Appends a table and enters it in the header. */
  method WriteAASLump(fp: File, header: array<Byte>, l: nat, data: array<Byte>, host: Host, offset: nat,
                      ghost checksum: Word, ghost tables: seq<seq<Byte>>) returns (next: nat)
    requires FileFits(tables) && l < AAS_LUMPS && data[..] == tables[l] && offset == Start(tables, l)
    requires fp.pos == |fp.content| && header != data
    requires header[..] == WordsBytes(HeaderWords(checksum, tables, l))
    modifies fp, header
    ensures header[..] == WordsBytes(HeaderWords(checksum, tables, l + 1))
    ensures fp.content == old(fp.content) + tables[l] && fp.pos == |fp.content|
    ensures next == Start(tables, l + 1)
  {
    hide HeaderWord, WordsBytes;
    ghost var words := HeaderWords(checksum, tables, l);
    HeaderWordsNext(checksum, tables, l);
    PutWord(header, 3 + 2 * l, host, offset, words);
    PutWord(header, 4 + 2 * l, host, data.Length, words[3 + 2 * l := offset]);
    if data.Length > 0 {
      fp.Write(data);
    }
    next := offset + data.Length;
  }

  /** Writes the world to a file. Afterwards the tables in memory are in the order of the file. */
  method WriteAASFile(w: AasWorldTables, fp: File, canOpen: bool, host: Host) returns (ok: bool)
    requires w.Valid() && fp.content == [] && fp.pos == 0 && FileFits(w.Contents())
    modifies fp, w.tables
    ensures ok == canOpen
    ensures w.Contents() == AllInFileOrder(host, old(w.Contents()))
    ensures FileFits(w.Contents())
    ensures fp.content == if ok then FileOf(w.bspchecksum, w.Contents()) else []
  {
    hide HeaderWord, WordsBytes, FileFits, Start, AllInFileOrder, Joined, HeaderBytes, HeaderWords;
    ghost var was := w.Contents();
    w.SwapAASData(host);
    ghost var tables := w.Contents();
    assert FileFits(tables) by { SwappingKeepsSizes(was, tables, host); }
    if !canOpen { return false; }
    var header := new Byte[HEADER_SIZE](_ => 0);
    var checksum := w.bspchecksum;
    StartHeader(header, checksum, host, tables);
    fp.Write(header);
    ghost var first := fp.content;
    assert first == header[..];
    WriteLumps(w, fp, header, host, checksum);
    RewriteHeader(fp, header, checksum, tables, Joined(tables, AAS_LUMPS));
    return true;
  }

  /** Covers the finished header and writes it over the first one. */
  method RewriteHeader(fp: File, header: array<Byte>, ghost checksum: Word, ghost tables: seq<seq<Byte>>,
                       ghost rest: seq<Byte>)
    requires FileFits(tables) && header[..] == WordsBytes(HeaderWords(checksum, tables, AAS_LUMPS))
    requires |fp.content| == HEADER_SIZE + |rest| && fp.content[HEADER_SIZE..] == rest
    modifies fp, header
    ensures fp.content == HeaderBytes(checksum, tables) + rest
  {
    hide HeaderWord, WordsBytes, FileFits, Obfuscated;
    ghost var before := fp.content;
    var failed := fp.Seek(0);
    DData(header, 8);
    assert header[..] == HeaderBytes(checksum, tables);
    fp.Write(header);
    assert fp.content == HeaderBytes(checksum, tables) + rest by {
      if rest == [] {
        assert before[..0] + header[..] + [] == header[..] + rest;
      } else {
        assert before[..0] + header[..] + before[HEADER_SIZE..] == header[..] + rest;
      }
    }
  }

  /** Appends all tables in turn. */
  method WriteLumps(w: AasWorldTables, fp: File, header: array<Byte>, host: Host, checksum: Word)
    requires w.Valid() && FileFits(w.Contents()) && header !in w.tables
    requires fp.pos == |fp.content| && header[..] == WordsBytes(HeaderWords(checksum, w.Contents(), 0))
    modifies fp, header
    ensures header[..] == WordsBytes(HeaderWords(checksum, w.Contents(), AAS_LUMPS))
    ensures fp.content == old(fp.content) + Joined(w.Contents(), AAS_LUMPS)
  {
    hide HeaderWord, WordsBytes, FileFits, Start, Joined;
    ghost var tables, first := w.Contents(), fp.content;
    var offset, l := HEADER_SIZE, 0;
    assert offset == Start(tables, 0) && Joined(tables, 0) == [] by { NothingJoined(tables); }
    while l < AAS_LUMPS
      invariant 0 <= l <= AAS_LUMPS && offset == Start(tables, l) && w.Contents() == tables
      invariant header[..] == WordsBytes(HeaderWords(checksum, tables, l))
      invariant fp.content == first + Joined(tables, l) && fp.pos == |fp.content|
    {
      assert tables[l] == w.tables[l][..];
      ghost var before := fp.content;
      offset := WriteAASLump(fp, header, l, w.tables[l], host, offset, checksum, tables);
      assert fp.content == first + Joined(tables, l + 1) by {
        NextJoined(tables, l);
        assert before + tables[l] == first + (Joined(tables, l) + tables[l]);
      }
      l := l + 1;
    }
  }

  lemma NothingJoined(tables: seq<seq<Byte>>)
    ensures Start(tables, 0) == HEADER_SIZE && Joined(tables, 0) == []
  {
  }

  lemma NextJoined(tables: seq<seq<Byte>>, l: nat)
    requires l < |tables|
    ensures Joined(tables, l + 1) == Joined(tables, l) + tables[l]
  {
  }

  lemma {:induction false} SameSizesStart(s: seq<seq<Byte>>, t: seq<seq<Byte>>, l: nat)
    requires |s| == |t| && l <= |s| && forall k :: 0 <= k < |s| ==> |t[k]| == |s[k]|
    ensures Start(t, l) == Start(s, l)
    decreases l
  {
    if l > 0 {
      SameSizesStart(s, t, l - 1);
    }
  }

  lemma SwappingKeepsSizes(s: seq<seq<Byte>>, t: seq<seq<Byte>>, host: Host)
    requires FileFits(s) && t == AllInFileOrder(host, s)
    ensures FileFits(t)
  {
    SameSizesStart(s, t, AAS_LUMPS);
  }

  /** Enters identification, version and checksum in a cleared header. */
  method StartHeader(header: array<Byte>, checksum: Word, host: Host, ghost tables: seq<seq<Byte>>)
    requires FileFits(tables) && header[..] == Zeros(HEADER_SIZE)
    modifies header
    ensures header[..] == WordsBytes(HeaderWords(checksum, tables, 0))
  {
    ghost var words: seq<Word> := seq(HEADER_WORDS, _ => 0);
    assert header[..] == WordsBytes(words) by { ZeroWords(HEADER_WORDS); }
    hide WordsBytes;
    PutWord(header, 0, host, AASID, words);
    PutWord(header, 1, host, AASVERSION, words[0 := AASID]);
    PutWord(header, 2, host, checksum, words[0 := AASID][1 := AASVERSION]);
    assert words[0 := AASID][1 := AASVERSION][2 := checksum] == HeaderWords(checksum, tables, 0);
  }

  lemma {:induction false} ZeroWords(n: nat)
    ensures WordsBytes(seq(n, _ => 0)) == Zeros(4 * n)
  {
    if n > 0 {
      ZeroWords(n - 1);
      assert seq(n, _ => 0)[1..] == seq(n - 1, _ => 0);
    }
  }
}
