/** Writing an image to a PNG file and reading it back. Compression and checksums are parameters. */
module PngFile {
  import opened Bytes
  import opened PngFilter
  import opened PngScanlines

  const PNG_SIGNATURE: seq<Byte> := [0x89, 0x50, 0x4E, 0x47, 0x0D, 0x0A, 0x1A, 0x0A]
  const IHDR: seq<Byte> := [0x49, 0x48, 0x44, 0x52]
  const PLTE: seq<Byte> := [0x50, 0x4C, 0x54, 0x45]
  const TRNS: seq<Byte> := [0x74, 0x52, 0x4E, 0x53]
  const IDAT: seq<Byte> := [0x49, 0x44, 0x41, 0x54]
  const IEND: seq<Byte> := [0x49, 0x45, 0x4E, 0x44]

  datatype Option<T> = None | Some(value: T)

  /** The compression and the checksum of the platform. */
  datatype Codec = Codec(
    deflate: seq<Byte> -> seq<Byte>, inflate: seq<Byte> -> Result<seq<Byte>>, crc: seq<Byte> -> Word)

  ghost predicate Inverts(codec: Codec) {
    forall x :: codec.inflate(codec.deflate(x)) == Ok(x)
  }

  datatype Header = Header(
    width: Word, height: Word, depth: Byte, color: Byte, compression: Byte, filterMethod: Byte, interlace: Byte)

  datatype Image = Image(width: nat, height: nat, pixels: seq<Byte>)

  // ----- numbers, highest byte first

  function BigBytes(w: Word): (b: seq<Byte>)
    ensures |b| == 4
  {
    Reversed(LittleBytes(w))
  }

  function BigWord(b: seq<Byte>): Word
    requires |b| == 4
  {
    LittleWord(Reversed(b))
  }

  lemma BigWordOfBytes(w: Word)
    ensures BigWord(BigBytes(w)) == w
  {
    ReversedTwice(LittleBytes(w));
    LittleWordOfBytes(w);
  }

  /** A slice as the script takes it: what lies past the end is left out. */
  function Slice(data: seq<Byte>, from: nat, to: nat): seq<Byte> {
    if |data| <= from || to <= from then [] else if |data| <= to then data[from..] else data[from..to]
  }

  // ----- writing

  /** The unfiltered rows of an image, each after a filter byte 0. */
  function NoneRows(pixels: seq<Byte>, stride: nat, height: nat): seq<Byte>
    decreases height
  {
    if height == 0 then [] else [0] + Slice(pixels, 0, stride) + NoneRows(Slice(pixels, stride, |pixels|), stride, height - 1)
  }

  lemma NoneRowsNext(pixels: seq<Byte>, stride: nat, height: nat)
    requires height > 0
    ensures NoneRows(pixels, stride, height)
      == [0] + Slice(pixels, 0, stride) + NoneRows(Slice(pixels, stride, |pixels|), stride, height - 1)
  {
  }

  lemma NoNoneRows(pixels: seq<Byte>, stride: nat)
    ensures NoneRows(pixels, stride, 0) == []
  {
  }

  lemma RowAppended(rows: seq<Byte>, row: seq<Byte>, rest: seq<Byte>)
    ensures rows + ([0] + row + rest) == rows + [0] + row + rest
  {
  }

  method PngFilterNoneRows(width: nat, height: nat, pixels: seq<Byte>) returns (rows: seq<Byte>)
    ensures rows == NoneRows(pixels, width * 4, height)
  {
    hide NoneRows, Slice;
    var stride := width * 4;
    rows := [];
    assert Slice(pixels, 0, |pixels|) == pixels by { WholeSlice(pixels); }
    ghost var goal := NoneRows(pixels, stride, height);
    var start := 0;
    for rowIndex := 0 to height
      invariant start == rowIndex * stride
      invariant goal == rows + NoneRows(Slice(pixels, start, |pixels|), stride, height - rowIndex)
    {
      ghost var rest := Slice(pixels, start, |pixels|);
      SliceOfSlice(pixels, start, stride);
      NoneRowsNext(rest, stride, height - rowIndex);
      RowAppended(rows, Slice(rest, 0, stride), NoneRows(Slice(rest, stride, |rest|), stride, height - rowIndex - 1));
      rows := rows + [0];
      rows := rows + Slice(pixels, start, start + stride);
      Times(rowIndex, stride);
      start := (rowIndex + 1) * stride;
    }
    NoNoneRows(Slice(pixels, start, |pixels|), stride);
  }

  lemma Times(n: nat, k: nat)
    ensures (n + 1) * k == n * k + k && 0 <= n * k
  {
  }

  lemma WholeSlice(data: seq<Byte>)
    ensures Slice(data, 0, |data|) == data
  {
  }

  lemma SliceOfSlice(data: seq<Byte>, from: nat, n: nat)
    ensures var rest := Slice(data, from, |data|);
      Slice(rest, 0, n) == Slice(data, from, from + n) && Slice(rest, n, |rest|) == Slice(data, from + n, |data|)
  {
  }

  function Chunk(kind: seq<Byte>, payload: seq<Byte>, codec: Codec): (c: seq<Byte>)
    requires |payload| < 0x1_0000_0000
    ensures |c| == 8 + |kind| + |payload|
  {
    BigBytes(|payload|) + kind + payload + BigBytes(codec.crc(kind + payload))
  }

  function HeaderBytes(h: Header): (b: seq<Byte>)
    ensures |b| == 13
  {
    BigBytes(h.width) + BigBytes(h.height) + [h.depth, h.color, h.compression, h.filterMethod, h.interlace]
  }

  function FileBytes(width: Word, height: Word, pixels: seq<Byte>, codec: Codec): seq<Byte>
    requires |codec.deflate(NoneRows(pixels, width * 4, height))| < 0x1_0000_0000
  {
    PNG_SIGNATURE
    + Chunk(IHDR, HeaderBytes(Header(width, height, 8, 6, 0, 0, 0)), codec)
    + Chunk(IDAT, codec.deflate(NoneRows(pixels, width * 4, height)), codec)
    + Chunk(IEND, [], codec)
  }

  /** Writes an image. A dimension or a payload that does not fit in four bytes cannot be packed. */
  method WritePng(width: int, height: int, pixels: seq<Byte>, codec: Codec) returns (r: Result<seq<Byte>>)
    ensures width <= 0 || height <= 0 ==> r == Err(BadDimensions)
    ensures width > 0 && height > 0 && |pixels| != width * height * 4 ==> r == Err(BadPixels)
    ensures width > 0 && height > 0 && |pixels| == width * height * 4 ==>
      r == if width < 0x1_0000_0000 && height < 0x1_0000_0000
              && |codec.deflate(NoneRows(pixels, width * 4, height))| < 0x1_0000_0000
           then Ok(FileBytes(width, height, pixels, codec)) else Err(TooLong)
  {
    if width <= 0 || height <= 0 { return Err(BadDimensions); }
    if |pixels| != width * height * 4 { return Err(BadPixels); }
    var raw := PngFilterNoneRows(width, height, pixels);
    var encoded := PNG_SIGNATURE;
    if width >= 0x1_0000_0000 || height >= 0x1_0000_0000 { return Err(TooLong); }
    encoded := encoded + Chunk(IHDR, HeaderBytes(Header(width, height, 8, 6, 0, 0, 0)), codec);
    var compressed := codec.deflate(raw);
    if |compressed| >= 0x1_0000_0000 { return Err(TooLong); }
    encoded := encoded + Chunk(IDAT, compressed, codec);
    encoded := encoded + Chunk(IEND, [], codec);
    return Ok(encoded);
  }

  // ----- collecting the chunks

  /** What has been collected from the chunks of a file. */
  datatype Parts = Parts(
    header: Option<Header>, palette: Option<seq<Byte>>, transparency: Option<seq<Byte>>, compressed: seq<Byte>)

  function ParsedHeader(b: seq<Byte>): Header
    requires |b| == 13
  {
    Header(BigWord(b[..4]), BigWord(b[4..8]), b[8], b[9], b[10], b[11], b[12])
  }

  lemma HeaderParsed(h: Header)
    ensures ParsedHeader(HeaderBytes(h)) == h
  {
    var b := HeaderBytes(h);
    assert b[..4] == BigBytes(h.width) && b[4..8] == BigBytes(h.height);
    hide BigBytes, BigWord;
    BigWordOfBytes(h.width);
    BigWordOfBytes(h.height);
  }

  /** What a chunk adds to the collected parts. */
  function Collect(parts: Parts, kind: seq<Byte>, payload: seq<Byte>): Result<Parts> {
    if kind == IHDR then
      if |payload| == 13 then Ok(parts.(header := Some(ParsedHeader(payload)))) else Err(BadHeader)
    else if kind == PLTE then Ok(parts.(palette := Some(payload)))
    else if kind == TRNS then Ok(parts.(transparency := Some(payload)))
    else if kind == IDAT then Ok(parts.(compressed := parts.compressed + payload))
    else Ok(parts)
  }

  /** Goes through the chunks from an offset on, up to the end chunk or to less than a chunk. */
  function Collected(data: seq<Byte>, offset: nat, parts: Parts): Result<Parts>
    decreases |data| - offset
  {
    if |data| < offset + 12 then Ok(parts)
    else
      var length, kind := BigWord(data[offset..offset + 4]), data[offset + 4..offset + 8];
      if kind == IEND then Ok(parts)
      else
        var next := Collect(parts, kind, Slice(data, offset + 8, offset + 8 + length));
        if next.Err? then next else Collected(data, offset + 12 + length, next.value)
  }

  lemma CollectedNext(data: seq<Byte>, offset: nat, parts: Parts)
    requires offset + 12 <= |data|
    ensures var length, kind := BigWord(data[offset..offset + 4]), data[offset + 4..offset + 8];
      var next := Collect(parts, kind, Slice(data, offset + 8, offset + 8 + length));
      Collected(data, offset, parts)
      == if kind == IEND then Ok(parts) else if next.Err? then next else Collected(data, offset + 12 + length, next.value)
  {
  }

  lemma KindsDiffer()
    ensures IEND != IHDR && IEND != PLTE && IEND != TRNS && IEND != IDAT
  {
  }

  lemma AllCollected(data: seq<Byte>, offset: nat, parts: Parts)
    requires |data| < offset + 12
    ensures Collected(data, offset, parts) == Ok(parts)
  {
  }

  method CollectChunks(data: seq<Byte>) returns (r: Result<Parts>)
    ensures r == Collected(data, |PNG_SIGNATURE|, Parts(None, None, None, []))
  {
    hide Collected, BigWord, Slice, ParsedHeader;
    var offset, parts := |PNG_SIGNATURE|, Parts(None, None, None, []);
    ghost var goal := Collected(data, offset, parts);
    while offset + 12 <= |data|
      invariant goal == Collected(data, offset, parts)
      decreases |data| - offset
    {
      CollectedNext(data, offset, parts);
      KindsDiffer();
      var length := BigWord(data[offset..offset + 4]);
      var kind := data[offset + 4..offset + 8];
      var payload := Slice(data, offset + 8, offset + 8 + length);
      offset := offset + 12 + length;
      if kind == IHDR {
        if |payload| != 13 { return Err(BadHeader); }
        parts := parts.(header := Some(ParsedHeader(payload)));
      } else if kind == PLTE {
        parts := parts.(palette := Some(payload));
      } else if kind == TRNS {
        parts := parts.(transparency := Some(payload));
      } else if kind == IDAT {
        parts := parts.(compressed := parts.compressed + payload);
      } else if kind == IEND {
        return Ok(parts);
      }
    }
    AllCollected(data, offset, parts);
    return Ok(parts);
  }

  // ----- pixels

  function Channels(color: Byte): (n: Option<nat>)
    ensures n.Some? ==> 1 <= n.value <= 4
  {
    match color
    case 0 => Some(1)
    case 2 => Some(3)
    case 3 => Some(1)
    case 4 => Some(2)
    case 6 => Some(4)
    case _ => None
  }

  /** Four bytes for pixel k of a row. */
  function Pixel(color: Byte, row: Row, k: nat, parts: Parts): (r: Result<seq<Byte>>)
    requires Channels(color).Some? && (k + 1) * Channels(color).value <= |row|
    ensures r.Ok? ==> |r.value| == 4
  {
    match color
    case 0 => Ok([row[k], row[k], row[k], 255])
    case 2 => Ok(row[k * 3..k * 3 + 3] + [255])
    case 3 =>
      var index := row[k];
      if parts.palette.None? then Err(MissingPalette)
      else if |parts.palette.value| < index * 3 + 3 then Err(PaletteIndex)
      else
        var alpha :=
          if parts.transparency.Some? && index < |parts.transparency.value| then parts.transparency.value[index] else 255;
        Ok(parts.palette.value[index * 3..index * 3 + 3] + [alpha])
    case 4 => Ok([row[k * 2], row[k * 2], row[k * 2], row[k * 2 + 1]])
    case _ => Ok(row[k * 4..k * 4 + 4])
  }

  /** The first n pixels of a row. */
  function RowPixels(color: Byte, row: Row, parts: Parts, n: nat): (r: Result<seq<Byte>>)
    requires Channels(color).Some? && n * Channels(color).value <= |row|
    ensures r.Ok? ==> |r.value| == 4 * n
    decreases n
  {
    if n == 0 then Ok([])
    else
      var c := Channels(color).value;
      assert (n - 1) * c <= n * c;
      var before, last := RowPixels(color, row, parts, n - 1), Pixel(color, row, n - 1, parts);
      if before.Err? then before else if last.Err? then last else Ok(before.value + last.value)
  }

  /** All pixels of the rows, in four bytes each. */
  function RowsPixels(color: Byte, rows: seq<Row>, parts: Parts, width: nat, n: nat): (r: Result<seq<Byte>>)
    requires Channels(color).Some? && n <= |rows|
    requires forall k :: 0 <= k < |rows| ==> |rows[k]| == width * Channels(color).value
    ensures r.Ok? ==> |r.value| == n * (4 * width)
    decreases n
  {
    if n == 0 then Ok([])
    else
      Times(n - 1, 4 * width);
      var before := RowsPixels(color, rows, parts, width, n - 1);
      if before.Err? then before
      else if color == 3 && parts.palette.None? then Err(MissingPalette)
      else
        var last := RowPixels(color, rows[n - 1], parts, width);
        if last.Err? then last else Ok(before.value + last.value)
  }

  /** Expands one row. */
  method ExpandRow(color: Byte, row: Row, parts: Parts, width: nat) returns (r: Result<seq<Byte>>)
    requires Channels(color).Some? && |row| == width * Channels(color).value
    requires color == 3 ==> parts.palette.Some?
    ensures r == RowPixels(color, row, parts, width)
  {
    if color == 6 {
      WholeRow(row, parts, width);
      assert row[..width * 4] == row;
      return Ok(row);
    }
    hide RowPixels;
    var pixels: seq<Byte> := [];
    assert RowPixels(color, row, parts, 0) == Ok(pixels) by { RowPixelsStart(color, row, parts); }
    for k := 0 to width
      invariant RowPixels(color, row, parts, k) == Ok(pixels)
    {
      FitsRow(k, width, Channels(color).value);
      var pixel := Pixel(color, row, k, parts);
      RowPixelsNext(color, row, parts, k);
      if pixel.Err? {
        RowPixelsStop(color, row, parts, k + 1, width);
        return pixel;
      }
      pixels := pixels + pixel.value;
    }
    return Ok(pixels);
  }

  lemma FitsRow(k: nat, n: nat, c: nat)
    requires k < n
    ensures (k + 1) * c <= n * c && k * c <= n * c
  {
  }

  lemma RowPixelsStart(color: Byte, row: Row, parts: Parts)
    requires Channels(color).Some?
    ensures RowPixels(color, row, parts, 0) == Ok([])
  {
  }

  lemma RowPixelsNext(color: Byte, row: Row, parts: Parts, k: nat)
    requires Channels(color).Some? && k * Channels(color).value <= (k + 1) * Channels(color).value <= |row|
    ensures var before, last := RowPixels(color, row, parts, k), Pixel(color, row, k, parts);
      RowPixels(color, row, parts, k + 1)
      == if before.Err? then before else if last.Err? then last else Ok(before.value + last.value)
  {
  }

  lemma {:induction false} RowPixelsStop(color: Byte, row: Row, parts: Parts, k: nat, n: nat)
    requires Channels(color).Some? && k <= n && n * Channels(color).value <= |row|
    requires k * Channels(color).value <= |row| && RowPixels(color, row, parts, k).Err?
    ensures RowPixels(color, row, parts, n) == RowPixels(color, row, parts, k)
    decreases n
  {
    if k < n {
      FitsRow(n - 1, n, Channels(color).value);
      RowPixelsStop(color, row, parts, k, n - 1);
      RowPixelsNext(color, row, parts, n - 1);
    }
  }

  lemma {:induction false} WholeRow(row: Row, parts: Parts, n: nat)
    requires n * 4 <= |row|
    ensures RowPixels(6, row, parts, n) == Ok(row[..n * 4])
    decreases n
  {
    if n > 0 {
      WholeRow(row, parts, n - 1);
      assert row[..n * 4] == row[..(n - 1) * 4] + row[(n - 1) * 4..n * 4];
    }
  }
}
