/** PNG files byte by byte: predictions, scanlines, pixels of every color type, and the bytes that a
    written file has (sections 3, 4 and 6 of RFC 2083). */
module PngMeaning {
  import opened Bytes
  import opened PngFilter
  import opened PngScanlines
  import opened PngFile
  import opened PngRoundTrip

  // ----- predictions

  function Distance(x: int, y: int): int {
    if x <= y then y - x else x - y
  }

  /** The prediction of each filter: nothing, the left byte, the byte above, the mean of both rounded
      down, or the one of three neighbours that is nearest to left + above - upper left. */
  ghost predicate Predicts(filter: int, left: int, up: int, upLeft: int, p: int) {
    && (filter == 0 ==> p == 0)
    && (filter == 1 ==> p == left)
    && (filter == 2 ==> p == up)
    && (filter == 3 ==> 2 * p <= left + up <= 2 * p + 1)
    && (filter == 4 ==> Nearest(left, up, upLeft, p))
  }

  /** Ties go to the left byte, and then to the one above. */
  ghost predicate Nearest(left: int, up: int, upLeft: int, p: int) {
    var e := left + up - upLeft;
    && (p == left || p == up || p == upLeft)
    && Distance(e, p) <= Distance(e, left) && Distance(e, p) <= Distance(e, up) && Distance(e, p) <= Distance(e, upLeft)
    && (Distance(e, p) == Distance(e, left) ==> p == left)
    && (p != left && Distance(e, p) == Distance(e, up) ==> p == up)
  }

  lemma PredictorPredicts(filter: nat, left: Byte, up: Byte, upLeft: Byte)
    requires filter <= 4
    ensures Predicts(filter, left, up, upLeft, Predictor(filter, left, up, upLeft))
  {
    PaethIsNearest(left, up, upLeft);
  }

  /** A byte of a restored row, from the byte in the file and the neighbours before it and above. */
  ghost predicate RestoresByte(filter: int, value: int, row: Row, prior: Row, bpp: nat, i: nat)
    requires i < |row| == |prior|
  {
    exists p :: PredictsAt(filter, row, prior, bpp, i, p) && row[i] == (value + p) % 256
  }

  ghost predicate PredictsAt(filter: int, row: Row, prior: Row, bpp: nat, i: nat, p: int)
    requires i < |row| == |prior|
  {
    Predicts(filter, if bpp <= i then row[i - bpp] else 0, prior[i], if bpp <= i then prior[i - bpp] else 0, p)
  }

  lemma RestoredBytes(filter: nat, row: Row, prior: Row, bpp: nat, i: nat)
    requires filter <= 4 && bpp > 0 && i < |row| == |prior|
    ensures RestoresByte(filter, row[i], Restored(filter, row, prior, bpp, |row|), prior, bpp, i)
  {
    hide Restored, Predictor, Predicts;
    var r := Restored(filter, row, prior, bpp, |row|);
    RestoredPrefix(filter, row, prior, bpp, i, |row|);
    RestoredPrefix(filter, row, prior, bpp, i + 1, |row|);
    RestoredNext(filter, row, prior, bpp, i);
    var left: Byte, upLeft: Byte := Before(r[..i], i, bpp), Before(prior, i, bpp);
    var p := Predictor(filter, left, prior[i], upLeft);
    PredictorPredicts(filter, left, prior[i], upLeft);
    assert r[i] == r[..i + 1][i];
    assert PredictsAt(filter, r, prior, bpp, i, p);
  }

  // ----- scanlines

  /** Byte i of row y, from the stream: a filter byte and the bytes of the row, row after row. */
  ghost predicate RowByte(raw: seq<Byte>, rows: seq<Row>, first: Row, bpp: nat, y: nat, i: nat)
    requires y < |rows| && i < |rows[y]|
  {
    var stride := |first|;
    var at := y * (stride + 1);
    var prior := if y == 0 then first else rows[y - 1];
    && |rows[y]| == stride == |prior| && 0 <= at && at + 1 + i < |raw| && raw[at] <= 4
    && RestoresByte(raw[at], raw[at + 1 + i], rows[y], prior, bpp, i)
  }

  /** The first row, and the rest of the stream. */
  lemma FirstScanline(raw: seq<Byte>, first: Row, bpp: nat, height: nat)
    requires bpp > 0 && height > 0 && |first| > 0 && Scanlines(raw, first, bpp, height).Ok?
    ensures |raw| >= 1 + |first| && raw[0] <= 4
    ensures var row := Restored(raw[0], raw[1..1 + |first|], first, bpp, |first|);
      var later := Scanlines(raw[1 + |first|..], row, bpp, height - 1);
      later.Ok? && Scanlines(raw, first, bpp, height).value == [row] + later.value
  {
    hide Restored;
  }

  lemma LaterRowByte(raw: seq<Byte>, rows: seq<Row>, first: Row, bpp: nat, y: nat, i: nat, row: Row, later: seq<Row>)
    requires |raw| >= 1 + |first| && rows == [row] + later && |row| == |first| && 0 < y < |rows| && i < |first|
    requires |later[y - 1]| == |first| && RowByte(raw[1 + |first|..], later, row, bpp, y - 1, i)
    ensures RowByte(raw, rows, first, bpp, y, i)
  {
    hide RestoresByte;
    var at := (y - 1) * (|first| + 1);
    Times(y - 1, |first| + 1);
    var rest := raw[1 + |first|..];
    assert rest[at] == raw[|first| + 1 + at] && rest[at + 1 + i] == raw[|first| + 1 + at + 1 + i];
    assert rows[y] == later[y - 1] && rows[y - 1] == if y == 1 then row else later[y - 2];
  }

  lemma {:induction false} ScanlineBytes(raw: seq<Byte>, first: Row, bpp: nat, height: nat, y: nat, i: nat)
    requires bpp > 0 && y < height && i < |first| && Scanlines(raw, first, bpp, height).Ok?
    ensures var rows := Scanlines(raw, first, bpp, height).value;
      |rows| == height && |rows[y]| == |first| && RowByte(raw, rows, first, bpp, y, i)
    decreases y
  {
    hide Restored, RestoresByte, Scanlines;
    FirstScanline(raw, first, bpp, height);
    var row := Restored(raw[0], raw[1..1 + |first|], first, bpp, |first|);
    var rows, later := Scanlines(raw, first, bpp, height).value, Scanlines(raw[1 + |first|..], row, bpp, height - 1).value;
    if y == 0 {
      RestoredBytes(raw[0], raw[1..1 + |first|], first, bpp, i);
      assert raw[1..1 + |first|][i] == raw[1 + i];
    } else {
      ScanlineBytes(raw[1 + |first|..], row, bpp, height - 1, y - 1, i);
      LaterRowByte(raw, rows, first, bpp, y, i, row, later);
    }
  }

  // ----- pixels

  /** The four bytes of a pixel, from the samples of its row: gray, red green blue, an index into the
      palette, gray and alpha, or red green blue and alpha. What a palette or no alpha leaves open is 255. */
  ghost predicate PixelIs(color: int, row: Row, x: nat, parts: Parts, r: int, g: int, b: int, a: int) {
    && (color == 0 ==> x < |row| && r == g == b == row[x] && a == 255)
    && (color == 2 ==> 3 * x + 2 < |row| && r == row[3 * x] && g == row[3 * x + 1] && b == row[3 * x + 2] && a == 255)
    && (color == 3 ==>
          x < |row| && parts.palette.Some? && InPalette(row[x], parts.palette.value, r, g, b)
          && a == AlphaOf(row[x], parts.transparency))
    && (color == 4 ==> 2 * x + 1 < |row| && r == g == b == row[2 * x] && a == row[2 * x + 1])
    && (color == 6 ==>
          4 * x + 3 < |row| && r == row[4 * x] && g == row[4 * x + 1] && b == row[4 * x + 2] && a == row[4 * x + 3])
  }

  predicate InPalette(index: int, palette: seq<Byte>, r: int, g: int, b: int) {
    && 0 <= index && 3 * index + 2 < |palette|
    && r == palette[3 * index] && g == palette[3 * index + 1] && b == palette[3 * index + 2]
  }

  function AlphaOf(index: nat, transparency: Option<seq<Byte>>): int {
    if transparency.Some? && index < |transparency.value| then transparency.value[index] else 255
  }

  lemma PixelBytes(color: Byte, row: Row, x: nat, parts: Parts)
    requires Channels(color).Some? && (x + 1) * Channels(color).value <= |row| && Pixel(color, row, x, parts).Ok?
    ensures var p := Pixel(color, row, x, parts).value; PixelIs(color, row, x, parts, p[0], p[1], p[2], p[3])
  {
  }

  lemma {:induction false} RowPixelBytes(color: Byte, row: Row, parts: Parts, n: nat, x: nat)
    requires Channels(color).Some? && n * Channels(color).value <= |row| && x < n
    requires RowPixels(color, row, parts, n).Ok?
    ensures var p := RowPixels(color, row, parts, n).value;
      PixelIs(color, row, x, parts, p[4 * x], p[4 * x + 1], p[4 * x + 2], p[4 * x + 3])
    decreases n
  {
    hide PixelIs, Channels, Pixel;
    FitsRow(n - 1, n, Channels(color).value);
    assert RowPixels(color, row, parts, n).value
      == RowPixels(color, row, parts, n - 1).value + Pixel(color, row, n - 1, parts).value;
    if x < n - 1 {
      RowPixelBytes(color, row, parts, n - 1, x);
    } else {
      PixelBytes(color, row, x, parts);
    }
  }

  lemma {:induction false} RowsPixelBytes(color: Byte, rows: seq<Row>, parts: Parts, width: nat, n: nat, y: nat, x: nat)
    requires Channels(color).Some? && n <= |rows| && y < n && x < width
    requires forall k :: 0 <= k < |rows| ==> |rows[k]| == width * Channels(color).value
    requires RowsPixels(color, rows, parts, width, n).Ok?
    ensures var p, at := RowsPixels(color, rows, parts, width, n).value, y * (4 * width) + 4 * x;
      && 0 <= at && at + 3 < |p|
      && PixelIs(color, rows[y], x, parts, p[at], p[at + 1], p[at + 2], p[at + 3])
    decreases n
  {
    hide PixelIs, RowPixels, RowsPixels;
    RowsNext(color, rows, parts, width, n - 1);
    var before := RowsPixels(color, rows, parts, width, n - 1).value;
    var last := RowPixels(color, rows[n - 1], parts, width).value;
    assert RowsPixels(color, rows, parts, width, n).value == before + last;
    if y < n - 1 {
      RowsPixelBytes(color, rows, parts, width, n - 1, y, x);
    } else {
      RowPixelBytes(color, rows[y], parts, width, x);
      var at := 4 * x;
      assert (before + last)[|before| + at] == last[at] && (before + last)[|before| + at + 1] == last[at + 1];
      assert (before + last)[|before| + at + 2] == last[at + 2] && (before + last)[|before| + at + 3] == last[at + 3];
    }
  }

  /** How many samples a pixel has: 1, 3, 1, 2 and 4 for the color types 0, 2, 3, 4 and 6. */
  lemma SamplesOf(color: Byte)
    ensures Channels(color) == if color == 0 || color == 3 then Some(1) else if color == 2 then Some(3)
                               else if color == 4 then Some(2) else if color == 6 then Some(4) else None
  {
  }

  /** What the chunks of a file have been collected into, and the rows that its data inflates to. */
  ghost predicate ReadFrom(data: seq<Byte>, codec: Codec, h: Header, parts: Parts, raw: seq<Byte>, rows: seq<Row>) {
    && Collected(data, 8, Parts(None, None, None, [])) == Ok(parts) && parts.header == Some(h)
    && codec.inflate(parts.compressed) == Ok(raw)
    && h.depth == 8 && h.interlace == 0 && Channels(h.color).Some?
    && Scanlines(raw, ZeroRow(h.width * Channels(h.color).value), Channels(h.color).value, h.height) == Ok(rows)
  }

  /** The size of an image that is read, and the four bytes of its pixel at row y and column x, from the
      rows; and the bytes of the rows, from the inflated data. Above the first row all bytes are 0. */
  lemma ReadPixels(data: seq<Byte>, codec: Codec)
    returns (h: Header, parts: Parts, raw: seq<Byte>, rows: seq<Row>, above: Row)
    requires Read(data, codec).Ok?
    ensures forall i :: 0 <= i < |above| ==> above[i] == 0
    ensures data[..8] == [137, 80, 78, 71, 13, 10, 26, 10] && ReadFrom(data, codec, h, parts, raw, rows)
    ensures var image := Read(data, codec).value;
      && image.width == h.width && image.height == h.height == |rows|
      && (forall y, x :: 0 <= y < h.height && 0 <= x < h.width ==> PixelOfImage(image, h, parts, rows, y, x))
    ensures forall y, i :: 0 <= y < |rows| && 0 <= i < |rows[y]| ==>
      RowByte(raw, rows, above, Channels(h.color).value, y, i)
  {
    hide Collected, Scanlines, RowsPixels, PixelIs, RowByte;
    parts := Collected(data, |PNG_SIGNATURE|, Parts(None, None, None, [])).value;
    h := parts.header.value;
    raw := codec.inflate(parts.compressed).value;
    var c := Channels(h.color).value;
    above := ZeroRow(h.width * c);
    rows := Scanlines(raw, above, c, h.height).value;
    var image := Read(data, codec).value;
    forall y, x | 0 <= y < h.height && 0 <= x < h.width
      ensures PixelOfImage(image, h, parts, rows, y, x)
    {
      RowsPixelBytes(h.color, rows, parts, h.width, h.height, y, x);
      PlaceOfPixel(h.width, y, x);
    }
    forall y, i | 0 <= y < |rows| && 0 <= i < |rows[y]|
      ensures RowByte(raw, rows, above, c, y, i)
    {
      ScanlineBytes(raw, above, c, h.height, y, i);
    }
  }

  lemma PlaceOfPixel(width: nat, y: nat, x: nat)
    ensures 4 * (y * width + x) == y * (4 * width) + 4 * x
  {
  }

  // ----- when an image is not read

  /** A row is missing or cut off, or its filter is unknown; one without bytes needs no filter. */
  ghost predicate FailsAt(raw: seq<Byte>, stride: nat, at: int, error: PngError) {
    || (|raw| <= at && error == MissingRows)
    || (at < |raw| < at + 1 + stride && error == TruncatedRow)
    || (0 <= at && at + 1 + stride <= |raw| && raw[at] > 4 && stride > 0 && error == UnsupportedFilter)
  }

  ghost predicate GoodAt(raw: seq<Byte>, stride: nat, at: int) {
    0 <= at && at + 1 + stride <= |raw| && (stride > 0 ==> raw[at] <= 4)
  }

  ghost predicate RowFails(raw: seq<Byte>, stride: nat, y: nat, error: PngError) {
    FailsAt(raw, stride, y * (stride + 1), error)
  }

  ghost predicate RowGood(raw: seq<Byte>, stride: nat, y: nat) {
    GoodAt(raw, stride, y * (stride + 1))
  }

  /** Rows are restored up to the first one that fails, and the complaint is about that one. */
  ghost predicate FirstFailure(raw: seq<Byte>, stride: nat, height: nat, y: nat, error: PngError) {
    y < height && RowFails(raw, stride, y, error) && forall k :: 0 <= k < y ==> RowGood(raw, stride, k)
  }

  lemma {:induction false} ScanlinesFail(raw: seq<Byte>, first: Row, bpp: nat, height: nat)
    returns (y: nat)
    requires bpp > 0
    ensures Scanlines(raw, first, bpp, height).Ok? ==> forall k :: 0 <= k < height ==> RowGood(raw, |first|, k)
    ensures Scanlines(raw, first, bpp, height).Err? ==>
      FirstFailure(raw, |first|, height, y, Scanlines(raw, first, bpp, height).error)
    decreases height
  {
    hide Restored;
    y := 0;
    var stride := |first|;
    if height > 0 && |raw| >= 1 + stride && (stride > 0 ==> raw[0] <= 4) {
      var row := if stride == 0 then [] else Restored(raw[0], raw[1..1 + stride], first, bpp, stride);
      var rest := raw[1 + stride..];
      var before := ScanlinesFail(rest, row, bpp, height - 1);
      y := before + 1;
      RowsShift(raw, rest, stride);
      assert RowGood(raw, stride, 0);
      forall k | 0 < k < height && RowGood(rest, stride, k - 1)
        ensures RowGood(raw, stride, k)
      {
      }
    }
  }

  lemma RowsShift(raw: seq<Byte>, rest: seq<Byte>, stride: nat)
    requires |raw| >= 1 + stride && rest == raw[1 + stride..]
    ensures forall k :: 0 < k ==> (RowGood(rest, stride, k - 1) <==> RowGood(raw, stride, k))
    ensures forall k, e :: 0 < k ==> (RowFails(rest, stride, k - 1, e) <==> RowFails(raw, stride, k, e))
  {
    hide FailsAt, GoodAt;
    forall k: nat | 0 < k
      ensures RowGood(rest, stride, k - 1) <==> RowGood(raw, stride, k)
    {
      Times(k - 1, stride + 1);
      AtShift(raw, rest, stride, (k - 1) * (stride + 1), MissingRows);
    }
    forall k: nat, e | 0 < k
      ensures RowFails(rest, stride, k - 1, e) <==> RowFails(raw, stride, k, e)
    {
      Times(k - 1, stride + 1);
      AtShift(raw, rest, stride, (k - 1) * (stride + 1), e);
    }
  }

  lemma AtShift(raw: seq<Byte>, rest: seq<Byte>, stride: nat, at: nat, e: PngError)
    requires |raw| >= 1 + stride && rest == raw[1 + stride..]
    ensures GoodAt(rest, stride, at) <==> GoodAt(raw, stride, at + (stride + 1))
    ensures FailsAt(rest, stride, at, e) <==> FailsAt(raw, stride, at + (stride + 1), e)
  {
    assert at < |rest| ==> rest[at] == raw[at + (stride + 1)];
  }

  /** There is no palette, or none of its colors has this number. */
  predicate SampleFails(palette: Option<seq<Byte>>, sample: int) {
    palette.None? || |palette.value| <= 3 * sample + 2
  }

  /** A row with samples of a palette fails if there is none, or if it has no color for a sample. */
  ghost predicate PaletteFails(rows: seq<Row>, palette: Option<seq<Byte>>) {
    rows != []
    && (palette.None? || exists y, x :: 0 <= y < |rows| && 0 <= x < |rows[y]| && SampleFails(palette, rows[y][x]))
  }

  lemma PixelFails(color: Byte, row: Row, x: nat, parts: Parts)
    requires Channels(color).Some? && (x + 1) * Channels(color).value <= |row|
    ensures Pixel(color, row, x, parts).Err? <==>
      color == 3 && x < |row| && SampleFails(parts.palette, row[x])
    ensures Pixel(color, row, x, parts).Err? ==>
      Pixel(color, row, x, parts).error == if parts.palette.None? then MissingPalette else PaletteIndex
  {
  }

  lemma {:induction false} RowPixelsFail(color: Byte, row: Row, parts: Parts, n: nat)
    requires Channels(color).Some? && n * Channels(color).value <= |row|
    ensures RowPixels(color, row, parts, n).Err? <==>
      color == 3 && n <= |row| && exists x :: 0 <= x < n && SampleFails(parts.palette, row[x])
    ensures RowPixels(color, row, parts, n).Err? ==>
      RowPixels(color, row, parts, n).error == if parts.palette.None? then MissingPalette else PaletteIndex
    decreases n
  {
    hide Pixel, SampleFails;
    if n > 0 {
      FitsRow(n - 1, n, Channels(color).value);
      assert n <= |row|;
      RowPixelsFail(color, row, parts, n - 1);
      PixelFails(color, row, n - 1, parts);
      RowPixelsNext(color, row, parts, n - 1);
    }
  }

  /** Rows become pixels unless they need a palette that is missing or too short. */
  lemma {:induction false} RowsPixelsFail(color: Byte, rows: seq<Row>, parts: Parts, width: nat, n: nat)
    requires Channels(color).Some? && n <= |rows|
    requires forall k :: 0 <= k < |rows| ==> |rows[k]| == width * Channels(color).value
    ensures RowsPixels(color, rows, parts, width, n).Err? <==> color == 3 && PaletteFails(rows[..n], parts.palette)
    ensures RowsPixels(color, rows, parts, width, n).Err? ==>
      RowsPixels(color, rows, parts, width, n).error == if parts.palette.None? then MissingPalette else PaletteIndex
    decreases n
  {
    hide RowPixels;
    if n > 0 {
      Times(n - 1, 4 * width);
      RowsPixelsFail(color, rows, parts, width, n - 1);
      RowPixelsFail(color, rows[n - 1], parts, width);
      assert rows[..n] == rows[..n - 1] + [rows[n - 1]];
    }
  }

  /** When a file is not read although its header is good and its data inflates: a row fails, or the rows
      need a palette that fails them. */
  lemma ReadFails(data: seq<Byte>, codec: Codec, h: Header, parts: Parts, raw: seq<Byte>)
    requires [137, 80, 78, 71, 13, 10, 26, 10] <= data && Collected(data, 8, Parts(None, None, None, [])) == Ok(parts)
    requires parts.header == Some(h) && h.depth == 8 && h.interlace == 0 && Channels(h.color).Some?
    requires codec.inflate(parts.compressed) == Ok(raw)
    ensures var stride := h.width * Channels(h.color).value;
      if exists y :: 0 <= y < h.height && !RowGood(raw, stride, y) then
        Read(data, codec).Err? && exists y :: FirstFailure(raw, stride, h.height, y, Read(data, codec).error)
      else
        exists rows :: ReadFrom(data, codec, h, parts, raw, rows)
          && (Read(data, codec).Err? <==> h.color == 3 && PaletteFails(rows, parts.palette))
          && (Read(data, codec).Err? ==>
                Read(data, codec).error == if parts.palette.None? then MissingPalette else PaletteIndex)
  {
    hide Collected, Scanlines, RowsPixels, RowGood, RowFails;
    var c := Channels(h.color).value;
    var first := ZeroRow(h.width * c);
    var y := ScanlinesFail(raw, first, c, h.height);
    if Scanlines(raw, first, c, h.height).Ok? {
      var rows := Scanlines(raw, first, c, h.height).value;
      RowsPixelsFail(h.color, rows, parts, h.width, h.height);
      assert rows[..h.height] == rows;
      assert ReadFrom(data, codec, h, parts, raw, rows);
    } else {
      assert FirstFailure(raw, h.width * c, h.height, y, Scanlines(raw, first, c, h.height).error);
      GoodOrNot(raw, h.width * c, y, Scanlines(raw, first, c, h.height).error);
    }
  }

  lemma GoodOrNot(raw: seq<Byte>, stride: nat, y: nat, error: PngError)
    requires RowFails(raw, stride, y, error)
    ensures !RowGood(raw, stride, y)
  {
  }

  // ----- pixels of an image

  /** The pixel at row y and column x lies at 4 * (y * width + x). */
  ghost predicate PixelOfImage(image: Image, h: Header, parts: Parts, rows: seq<Row>, y: nat, x: nat) {
    var p := 4 * (y * image.width + x);
    && 0 <= p && p + 3 < |image.pixels| && y < |rows|
    && PixelIs(h.color, rows[y], x, parts, image.pixels[p], image.pixels[p + 1], image.pixels[p + 2], image.pixels[p + 3])
  }
}
