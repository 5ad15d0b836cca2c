/** Reading a PNG file: what is accepted, and that a written image comes back. */
module PngRoundTrip {
  import opened Bytes
  import opened PngFilter
  import opened PngScanlines
  import opened PngFile

  /** The complaint about a header, if any. */
  function HeaderError(header: Option<Header>): Option<PngError> {
    if header.None? then Some(MissingHeader)
    else if header.value.depth != 8 then Some(UnsupportedDepth)
    else if header.value.interlace != 0 then Some(Interlaced)
    else if Channels(header.value.color).None? then Some(UnsupportedColor)
    else None
  }

  /** The image that the collected parts stand for. */
  function Decoded(parts: Parts, codec: Codec): Result<Image> {
    var error := HeaderError(parts.header);
    if error.Some? then Err(error.value)
    else
      var h := parts.header.value;
      var raw := codec.inflate(parts.compressed);
      if raw.Err? then Err(raw.error)
      else
        var channels := Channels(h.color).value;
        var rows := Scanlines(raw.value, ZeroRow(h.width * channels), channels, h.height);
        if rows.Err? then Err(rows.error)
        else
          var pixels := RowsPixels(h.color, rows.value, parts, h.width, h.height);
          if pixels.Err? then Err(pixels.error) else Ok(Image(h.width, h.height, pixels.value))
  }

  function Read(data: seq<Byte>, codec: Codec): Result<Image> {
    if !(PNG_SIGNATURE <= data) then Err(NotPng)
    else
      var parts := Collected(data, |PNG_SIGNATURE|, Parts(None, None, None, []));
      if parts.Err? then Err(parts.error) else Decoded(parts.value, codec)
  }

  method ReadPng(data: seq<Byte>, codec: Codec) returns (r: Result<Image>)
    ensures r == Read(data, codec)
  {
    hide Collected, Scanlines;
    if !(PNG_SIGNATURE <= data) { return Err(NotPng); }
    var collected := CollectChunks(data);
    if collected.Err? { return Err(collected.error); }
    var parts := collected.value;
    if parts.header.None? { return Err(MissingHeader); }
    var h := parts.header.value;
    if h.depth != 8 { return Err(UnsupportedDepth); }
    if h.interlace != 0 { return Err(Interlaced); }
    if Channels(h.color).None? { return Err(UnsupportedColor); }
    var raw := codec.inflate(parts.compressed);
    if raw.Err? { return Err(raw.error); }
    var channels := Channels(h.color).value;
    var rows := SourceRows(raw.value, h.width * channels, channels, h.height);
    if rows.Err? { return Err(rows.error); }
    var pixels := ExpandRows(h.color, rows.value, parts, h.width);
    if pixels.Err? { return Err(pixels.error); }
    return Ok(Image(h.width, h.height, pixels.value));
  }

  /** Expands the rows in turn. */
  method ExpandRows(color: Byte, rows: seq<Row>, parts: Parts, width: nat) returns (r: Result<seq<Byte>>)
    requires Channels(color).Some?
    requires forall k :: 0 <= k < |rows| ==> |rows[k]| == width * Channels(color).value
    ensures r == RowsPixels(color, rows, parts, width, |rows|)
  {
    hide RowsPixels, RowPixels;
    var pixels: seq<Byte> := [];
    assert RowsPixels(color, rows, parts, width, 0) == Ok(pixels) by { RowsStart(color, rows, parts, width); }
    for n := 0 to |rows|
      invariant RowsPixels(color, rows, parts, width, n) == Ok(pixels)
    {
      RowsNext(color, rows, parts, width, n);
      if color == 3 && parts.palette.None? {
        RowsStop(color, rows, parts, width, n + 1, |rows|);
        return Err(MissingPalette);
      }
      var row := ExpandRow(color, rows[n], parts, width);
      if row.Err? {
        RowsStop(color, rows, parts, width, n + 1, |rows|);
        return row;
      }
      pixels := pixels + row.value;
    }
    return Ok(pixels);
  }

  lemma RowsStart(color: Byte, rows: seq<Row>, parts: Parts, width: nat)
    requires Channels(color).Some?
    requires forall k :: 0 <= k < |rows| ==> |rows[k]| == width * Channels(color).value
    ensures RowsPixels(color, rows, parts, width, 0) == Ok([])
  {
  }

  lemma RowsNext(color: Byte, rows: seq<Row>, parts: Parts, width: nat, n: nat)
    requires Channels(color).Some? && n < |rows|
    requires forall k :: 0 <= k < |rows| ==> |rows[k]| == width * Channels(color).value
    ensures var before := RowsPixels(color, rows, parts, width, n);
      RowsPixels(color, rows, parts, width, n + 1)
      == if before.Err? then before
         else if color == 3 && parts.palette.None? then Err(MissingPalette)
         else
           var last := RowPixels(color, rows[n], parts, width);
           if last.Err? then last else Ok(before.value + last.value)
  {
  }

  lemma {:induction false} RowsStop(color: Byte, rows: seq<Row>, parts: Parts, width: nat, k: nat, n: nat)
    requires Channels(color).Some? && k <= n <= |rows|
    requires forall k :: 0 <= k < |rows| ==> |rows[k]| == width * Channels(color).value
    requires RowsPixels(color, rows, parts, width, k).Err?
    ensures RowsPixels(color, rows, parts, width, n) == RowsPixels(color, rows, parts, width, k)
    decreases n
  {
    if k < n {
      RowsStop(color, rows, parts, width, k, n - 1);
      RowsNext(color, rows, parts, width, n - 1);
    }
  }

  /** An image that is read has four bytes for each of its pixels: the buffer is filled exactly. */
  lemma ReadFillsImage(data: seq<Byte>, codec: Codec)
    requires Read(data, codec).Ok?
    ensures var image := Read(data, codec).value; |image.pixels| == image.height * (4 * image.width)
  {
    hide Collected, Scanlines, RowsPixels;
  }

  // ----- a written image comes back

  /** The rows of an image. */
  ghost function ImageRows(pixels: seq<Byte>, stride: nat, height: nat): (r: seq<Row>)
    requires |pixels| == height * stride
    ensures |r| == height && forall k :: 0 <= k < height ==> |r[k]| == stride
    decreases height
  {
    if height == 0 then []
    else
      Times(height - 1, stride);
      [pixels[..stride]] + ImageRows(pixels[stride..], stride, height - 1)
  }

  lemma {:induction false} NoneRowsDecode(pixels: seq<Byte>, prior: Row, height: nat)
    requires |pixels| == height * |prior|
    ensures Scanlines(NoneRows(pixels, |prior|, height), prior, 4, height) == Ok(ImageRows(pixels, |prior|, height))
    decreases height
  {
    hide Restored;
    if height > 0 {
      var stride := |prior|;
      Times(height - 1, stride);
      var row, rest := pixels[..stride], pixels[stride..];
      var raw := NoneRows(pixels, stride, height);
      assert Slice(pixels, 0, stride) == row && Slice(pixels, stride, |pixels|) == rest;
      assert raw[0] == 0 && raw[1..1 + stride] == row && raw[1 + stride..] == NoneRows(rest, stride, height - 1);
      RestoredNone(row, prior, 4, stride);
      assert row[..stride] == row;
      NoneRowsDecode(rest, row, height - 1);
    }
  }

  /** The pixels of the rows are the pixels of the image. */
  lemma {:induction false} RowsOfImage(pixels: seq<Byte>, parts: Parts, width: nat, height: nat, n: nat)
    requires |pixels| == height * (width * 4) && n <= height
    ensures n * (width * 4) <= |pixels|
    ensures RowsPixels(6, ImageRows(pixels, width * 4, height), parts, width, n) == Ok(pixels[..n * (width * 4)])
    decreases n
  {
    hide RowsPixels, ImageRows, RowPixels;
    var stride, rows := width * 4, ImageRows(pixels, width * 4, height);
    if n == 0 {
      NoRowsPixels(rows, parts, width);
    } else {
      RowsOfImage(pixels, parts, width, height, n - 1);
      RowOfImage(pixels, stride, height, n - 1);
      RowsNext(6, rows, parts, width, n - 1);
      WholeRow(rows[n - 1], parts, width);
      RowJoins(pixels, stride, height, n);
      assert rows[n - 1][..stride] == rows[n - 1];
    }
  }

  lemma NoRowsPixels(rows: seq<Row>, parts: Parts, width: nat)
    requires forall k :: 0 <= k < |rows| ==> |rows[k]| == width * 4
    ensures RowsPixels(6, rows, parts, width, 0) == Ok([])
  {
  }

  lemma RowJoins(pixels: seq<Byte>, stride: nat, height: nat, n: nat)
    requires |pixels| == height * stride && 0 < n <= height
    ensures 0 <= (n - 1) * stride <= n * stride <= |pixels|
    ensures pixels[..n * stride] == pixels[..(n - 1) * stride] + pixels[(n - 1) * stride..n * stride]
  {
    FitsRow(n - 1, height, stride);
    Times(n - 1, stride);
  }

  lemma {:induction false} RowOfImage(pixels: seq<Byte>, stride: nat, height: nat, k: nat)
    requires |pixels| == height * stride && k < height
    ensures k * stride <= (k + 1) * stride <= |pixels|
    ensures ImageRows(pixels, stride, height)[k] == pixels[k * stride..(k + 1) * stride]
    decreases k
  {
    FitsRow(k, height, stride);
    Times(k, stride);
    Times(height - 1, stride);
    if k > 0 {
      RowOfImage(pixels[stride..], stride, height - 1, k - 1);
      Times(k - 1, stride);
      assert pixels[stride..][(k - 1) * stride..k * stride] == pixels[k * stride..(k + 1) * stride];
    }
  }

  /** A chunk that lies at an offset of the data is collected from there. */
  lemma ChunkCollected(data: seq<Byte>, before: seq<Byte>, kind: seq<Byte>, payload: seq<Byte>, after: seq<Byte>,
                       codec: Codec, parts: Parts)
    requires |kind| == 4 && |payload| < 0x1_0000_0000
    requires data == before + Chunk(kind, payload, codec) + after
    ensures var next := Collect(parts, kind, payload);
      Collected(data, |before|, parts)
      == if kind == IEND then Ok(parts) else if next.Err? then next
         else Collected(data, |before + Chunk(kind, payload, codec)|, next.value)
  {
    hide Collected, Collect, BigWord, BigBytes;
    var offset := |before|;
    CollectedNext(data, offset, parts);
    BigWordOfBytes(|payload|);
    assert data[offset..offset + 4] == BigBytes(|payload|);
    assert data[offset + 4..offset + 8] == kind;
    assert Slice(data, offset + 8, offset + 8 + |payload|) == payload;
  }

  lemma PartsOfFile(width: Word, height: Word, pixels: seq<Byte>, codec: Codec)
    requires |codec.deflate(NoneRows(pixels, width * 4, height))| < 0x1_0000_0000
    ensures Collected(FileBytes(width, height, pixels, codec), |PNG_SIGNATURE|, Parts(None, None, None, []))
      == Ok(Parts(Some(Header(width, height, 8, 6, 0, 0, 0)), None, None,
                  codec.deflate(NoneRows(pixels, width * 4, height))))
  {
    hide Collected, NoneRows, Chunk, ParsedHeader, HeaderBytes;
    var data, h := FileBytes(width, height, pixels, codec), Header(width, height, 8, 6, 0, 0, 0);
    var stream := codec.deflate(NoneRows(pixels, width * 4, height));
    var first, second, third := Chunk(IHDR, HeaderBytes(h), codec), Chunk(IDAT, stream, codec), Chunk(IEND, [], codec);
    assert data == PNG_SIGNATURE + first + (second + third);
    ChunkCollected(data, PNG_SIGNATURE, IHDR, HeaderBytes(h), second + third, codec, Parts(None, None, None, []));
    HeaderParsed(h);
    assert data == (PNG_SIGNATURE + first) + second + third;
    ChunkCollected(data, PNG_SIGNATURE + first, IDAT, stream, third, codec, Parts(Some(h), None, None, []));
    assert [] + stream == stream;
    assert data == (PNG_SIGNATURE + first + second) + third + [];
    ChunkCollected(data, PNG_SIGNATURE + first + second, IEND, [], [], codec, Parts(Some(h), None, None, stream));
  }

  /** Reading what was written gives back the image, of any size and content. */
  lemma ImageComesBack(width: Word, height: Word, pixels: seq<Byte>, codec: Codec)
    requires Inverts(codec) && width > 0 && height > 0 && |pixels| == width * height * 4
    requires |codec.deflate(NoneRows(pixels, width * 4, height))| < 0x1_0000_0000
    ensures Read(FileBytes(width, height, pixels, codec), codec) == Ok(Image(width, height, pixels))
  {
    hide Collected, Scanlines, RowsPixels, NoneRows, Chunk, ImageRows;
    var data := FileBytes(width, height, pixels, codec);
    PartsOfFile(width, height, pixels, codec);
    SameArea(width, height);
    var prior := ZeroRow(width * 4);
    NoneRowsDecode(pixels, prior, height);
    var parts := Parts(Some(Header(width, height, 8, 6, 0, 0, 0)), None, None,
                       codec.deflate(NoneRows(pixels, width * 4, height)));
    RowsOfImage(pixels, parts, width, height, height);
    assert pixels[..height * (width * 4)] == pixels;
    assert Decoded(parts, codec) == Ok(Image(width, height, pixels));
    assert PNG_SIGNATURE <= data;
  }

  lemma SameArea(width: int, height: int)
    ensures width * height * 4 == height * (width * 4)
  {
  }
}
