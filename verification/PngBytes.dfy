/** The chunks of PNG files byte by byte: what a written file holds, and which files the strict reader
    accepts (sections 2 to 4 of RFC 2083). */
module PngBytes {
  import opened Bytes
  import opened PngFilter
  import opened PngScanlines
  import opened PngFile
  import opened PngRoundTrip
  import opened PngCheck

  // ----- numbers and kinds

  /** The number in four bytes, highest first. */
  function NumberAt(data: seq<Byte>, at: nat): int
    requires at + 4 <= |data|
  {
    var b0: int, b1: int, b2: int, b3: int := data[at], data[at + 1], data[at + 2], data[at + 3];
    16777216 * b0 + 65536 * b1 + 256 * b2 + b3
  }

  lemma BigWordIs(data: seq<Byte>, at: nat)
    requires at + 4 <= |data|
    ensures BigWord(data[at..at + 4]) == NumberAt(data, at)
  {
    var b := data[at..at + 4];
    assert Reversed(b) == [b[3], b[2], b[1], b[0]];
  }

  /** What the lenient reader makes of a chunk, by the letters of its kind. */
  lemma CollectSpelled(parts: Parts, kind: seq<Byte>, payload: seq<Byte>)
    ensures Collect(parts, kind, payload) ==
      if kind == [73, 72, 68, 82] then
        (if |payload| == 13 then Ok(parts.(header := Some(HeaderFrom(payload)))) else Err(BadHeader))
      else if kind == [80, 76, 84, 69] then Ok(parts.(palette := Some(payload)))
      else if kind == [116, 82, 78, 83] then Ok(parts.(transparency := Some(payload)))
      else if kind == [73, 68, 65, 84] then Ok(parts.(compressed := parts.compressed + payload))
      else Ok(parts)
  {
    hide BigWord, NumberAt;
    if |payload| == 13 {
      BigWordIs(payload, 0);
      BigWordIs(payload, 4);
      assert payload[..4] == payload[0..4];
    }
  }

  /** Width and height in four bytes each, and five single bytes. */
  function HeaderFrom(payload: seq<Byte>): Header
    requires |payload| == 13
  {
    NumbersFit(payload);
    Header(NumberAt(payload, 0), NumberAt(payload, 4), payload[8], payload[9], payload[10], payload[11], payload[12])
  }

  lemma NumbersFit(data: seq<Byte>)
    ensures forall at :: 0 <= at && at + 4 <= |data| ==> 0 <= NumberAt(data, at) < 0x1_0000_0000
  {
  }

  lemma HeaderIsFrom(payload: seq<Byte>)
    requires |payload| == 13
    ensures ParsedHeader(payload) == HeaderFrom(payload)
  {
    hide BigWord, NumberAt;
    BigWordIs(payload, 0);
    BigWordIs(payload, 4);
    assert payload[..4] == payload[0..4];
  }

  // ----- chunks in their places

  predicate IsLetter(b: int) {
    65 <= b <= 90 || 97 <= b <= 122
  }

  /** A chunk at an offset: its length, four letters, its payload, and a checksum of the last two. */
  ghost predicate LiesAt(data: seq<Byte>, at: nat, p: Piece, codec: Codec) {
    var n := |p.payload|;
    && |p.kind| == 4 && (forall j :: 0 <= j < 4 ==> IsLetter(p.kind[j]))
    && at + 12 + n <= |data| && NumberAt(data, at) == n
    && data[at + 4..at + 8] == p.kind && data[at + 8..at + 8 + n] == p.payload
    && NumberAt(data, at + 8 + n) == codec.crc(p.kind + p.payload)
  }

  lemma LiesIfHas(data: seq<Byte>, at: nat, p: Piece, codec: Codec)
    ensures HasPiece(data, at, p, codec) <==> LiesAt(data, at, p, codec)
  {
    hide BigWord, BigBytes, NumberAt;
    var n := |p.payload|;
    if at + 12 + n <= |data| {
      BigWordIs(data, at);
      BigWordIs(data, at + 8 + n);
    }
    if HasPiece(data, at, p, codec) {
      PieceFields(data, at, p, codec);
    }
    if LiesAt(data, at, p, codec) {
      assert IsLetter(p.kind[0]) && IsLetter(p.kind[1]) && IsLetter(p.kind[2]) && IsLetter(p.kind[3]);
      FieldsMakePiece(data, at, n, codec);
    }
  }

  /** Where chunk k begins when chunks follow the signature without a gap. */
  function PlaceOf(pieces: seq<Piece>, k: nat): nat
    requires k <= |pieces|
  {
    if k == 0 then 8 else PlaceOf(pieces, k - 1) + 12 + |pieces[k - 1].payload|
  }

  lemma NextPlace(pieces: seq<Piece>, k: nat)
    requires k <= |pieces|
    ensures PlaceOf(pieces, k) == if k == 0 then 8 else PlaceOf(pieces, k - 1) + 12 + |pieces[k - 1].payload|
  {
  }

  lemma SignatureOnly(data: seq<Byte>, codec: Codec)
    requires |data| >= 8
    ensures TiledTo(data, [], 8, codec) <==> data[..8] == [137, 80, 78, 71, 13, 10, 26, 10]
  {
  }

  lemma {:induction false} TilesLie(data: seq<Byte>, all: seq<Piece>, k: nat, codec: Codec)
    requires Tiles(data, all, codec) && k <= |all|
    ensures TiledTo(data, all[..k], PlaceOf(all, k), codec)
    ensures k < |all| ==> HasPiece(data, PlaceOf(all, k), all[k], codec)
    decreases k
  {
    hide HasPiece, TiledTo, Tiles;
    if k == 0 {
      assert TiledTo(data, all[..0], 8, codec) by { TilesBegin(data, all, codec); }
    } else {
      TilesLie(data, all, k - 1, codec);
      TiledOn(data, all[..k - 1], PlaceOf(all, k - 1), all[k - 1], codec);
      assert all[..k] == all[..k - 1] + [all[k - 1]];
    }
    if k < |all| {
      NextPiece(data, all[..k], PlaceOf(all, k), all, codec);
    }
  }

  lemma TilesBegin(data: seq<Byte>, all: seq<Piece>, codec: Codec)
    requires Tiles(data, all, codec)
    ensures |data| >= 8 && TiledTo(data, all[..0], 8, codec)
  {
    hide PieceFits;
    assert data[..8] == PNG_SIGNATURE + [];
  }

  lemma {:induction false} LyingTiles(data: seq<Byte>, all: seq<Piece>, k: nat, codec: Codec)
    requires k <= |all| && TiledTo(data, [], 8, codec)
    requires forall j :: 0 <= j < |all| ==> LiesAt(data, PlaceOf(all, j), all[j], codec)
    ensures TiledTo(data, all[..k], PlaceOf(all, k), codec)
    decreases k
  {
    hide LiesAt, TiledTo, HasPiece, PlaceOf;
    NextPlace(all, k);
    if k == 0 {
      assert all[..0] == [];
    } else {
      LyingTiles(data, all, k - 1, codec);
      LiesIfHas(data, PlaceOf(all, k - 1), all[k - 1], codec);
      TiledOn(data, all[..k - 1], PlaceOf(all, k - 1), all[k - 1], codec);
      assert all[..k] == all[..k - 1] + [all[k - 1]];
    }
  }

  /** A file is tiled by chunks if and only if it begins with the eight bytes of the signature, each
      chunk lies where the one before ends, and the last one ends with the file. */
  lemma TilesInBytes(data: seq<Byte>, all: seq<Piece>, codec: Codec)
    ensures Tiles(data, all, codec) <==>
      && |data| >= 8 && data[..8] == [137, 80, 78, 71, 13, 10, 26, 10]
      && (forall k :: 0 <= k < |all| ==> LiesAt(data, PlaceOf(all, k), all[k], codec))
      && PlaceOf(all, |all|) == |data|
  {
    hide LiesAt, HasPiece, TiledTo, Tiles, PlaceOf;
    assert all[..|all|] == all;
    if Tiles(data, all, codec) {
      TilesBegin(data, all, codec);
      assert all[..0] == [];
      SignatureOnly(data, codec);
      forall k | 0 <= k < |all|
        ensures LiesAt(data, PlaceOf(all, k), all[k], codec)
      {
        TilesLie(data, all, k, codec);
        LiesIfHas(data, PlaceOf(all, k), all[k], codec);
      }
      TilesLie(data, all, |all|, codec);
      NextPiece(data, all, PlaceOf(all, |all|), all, codec);
    }
    if && |data| >= 8 && data[..8] == [137, 80, 78, 71, 13, 10, 26, 10]
       && (forall k :: 0 <= k < |all| ==> LiesAt(data, PlaceOf(all, k), all[k], codec))
       && PlaceOf(all, |all|) == |data| {
      SignatureOnly(data, codec);
      LyingTiles(data, all, |all|, codec);
      WholeIsTiled(data, all, codec);
    }
  }

  lemma WholeIsTiled(data: seq<Byte>, all: seq<Piece>, codec: Codec)
    requires TiledTo(data, all, |data|, codec)
    ensures Tiles(data, all, codec)
  {
    hide PieceFits, Encoded;
    assert data[..|data|] == data;
  }

  // ----- which chunks are complete, and what they must hold

  /** The chunks by the letters of their kinds: IHDR of 13 bytes first and only there, an empty IEND last and
      only there, at least one IDAT and all of them in a row, and else only PLTE or chunks whose
      first letter has bit 5; at most 4096. */
  ghost predicate Spelled(all: seq<Piece>) {
    var last := |all| - 1;
    && 2 <= |all| <= 4096
    && all[0].kind == [73, 72, 68, 82] && |all[0].payload| == 13
    && all[last] == Piece([73, 69, 78, 68], [])
    && (forall i :: 0 <= i < last ==> |all[i].kind| == 4 && all[i].kind != [73, 69, 78, 68])
    && (forall i :: 0 < i < last ==>
          && all[i].kind != [73, 72, 68, 82]
          && (all[i].kind == [73, 68, 65, 84] || all[i].kind == [80, 76, 84, 69] || all[i].kind[0] / 32 % 2 == 1))
    && (exists i :: 0 <= i < last && all[i].kind == [73, 68, 65, 84])
    && (forall i, j, k :: 0 <= i < j < k < last && all[i].kind == all[k].kind == [73, 68, 65, 84] ==>
          all[j].kind == [73, 68, 65, 84])
  }

  lemma CompleteIsSpelled(all: seq<Piece>)
    ensures Complete(all) <==> Spelled(all)
  {
    hide Complete, Spelled;
    if Complete(all) { SpelledIfComplete(all); }
    if Spelled(all) { CompleteIfSpelled(all); }
  }

  lemma SpelledIfComplete(all: seq<Piece>)
    requires Complete(all)
    ensures Spelled(all)
  {
    hide MaySkip;
    var body := all[..|all| - 1];
    assert forall i :: 0 <= i < |body| ==> body[i] == all[i];
    var d :| 0 <= d < |body| && body[d].kind == IDAT;
    assert all[d].kind == [73, 68, 65, 84];
    assert body[0].kind == IHDR;
    forall i | 0 < i < |body|
      ensures all[i].kind == [73, 68, 65, 84] || all[i].kind == [80, 76, 84, 69] || all[i].kind[0] / 32 % 2 == 1
    {
      assert body[i].kind == IDAT || MaySkip(body[i].kind);
      SkipLetter(body[i].kind);
    }
  }

  lemma SkipLetter(kind: seq<Byte>)
    requires |kind| == 4
    ensures MaySkip(kind) <==> kind == [80, 76, 84, 69] || kind[0] / 32 % 2 == 1
  {
  }

  lemma CompleteIfSpelled(all: seq<Piece>)
    requires Spelled(all)
    ensures Complete(all)
  {
    hide MaySkip;
    var body := all[..|all| - 1];
    assert forall i :: 0 <= i < |body| ==> body[i] == all[i];
    var d :| 0 <= d < |all| - 1 && all[d].kind == [73, 68, 65, 84];
    assert body[d].kind == IDAT;
    forall i | 0 < i < |body|
      ensures body[i].kind == IDAT || MaySkip(body[i].kind)
    {
      SkipLetter(body[i].kind);
    }
  }

  /** How many samples a pixel has in the color types that the strict reader takes. */
  function SamplesIn(color: int): int {
    if color == 0 then 1 else if color == 2 then 3 else if color == 4 then 2 else if color == 6 then 4 else 0
  }

  /** A supported header, in the bytes of its chunk: a size of 1 to 64 * 1024 * 1024 pixels, depth 8, no
      palette, and zero for the methods and the interlace. */
  ghost predicate Supported(header: seq<Byte>)
    requires |header| == 13
  {
    var width, height := NumberAt(header, 0), NumberAt(header, 4);
    && width > 0 && height > 0 && width * height <= 67108864
    && header[8] == 8 && SamplesIn(header[9]) > 0
    && header[10] == 0 && header[11] == 0 && header[12] == 0
  }

  /** Just the rows of an image, each behind a byte of at most 4. */
  ghost predicate JustRows(raw: seq<Byte>, stride: int, height: int) {
    && |raw| == height * (stride + 1)
    && forall y :: 0 <= y < height ==> FilterAt(raw, stride, y)
  }

  ghost predicate FilterAt(raw: seq<Byte>, stride: int, y: int) {
    0 <= y * (stride + 1) < |raw| && raw[y * (stride + 1)] <= 4
  }

  lemma SupportedHeader(header: seq<Byte>)
    requires |header| == 13
    ensures HeaderAccepted(ParsedHeader(header)) <==> Supported(header)
    ensures var h := ParsedHeader(header);
      h.width == NumberAt(header, 0) && h.height == NumberAt(header, 4)
      && (HeaderAccepted(h) ==> ColorChannels(h.color) == Some(SamplesIn(header[9])))
  {
    hide NumberAt;
    HeaderIsFrom(header);
  }

  lemma {:induction false} KnownFilters(raw: seq<Byte>, stride: nat, height: nat)
    requires |raw| == height * (stride + 1)
    ensures FiltersKnown(raw, stride, height) <==> JustRows(raw, stride, height)
    decreases height
  {
    if height > 0 {
      var rest := raw[1 + stride..];
      Times(height - 1, stride + 1);
      KnownFilters(rest, stride, height - 1);
      if JustRows(raw, stride, height) {
        assert FilterAt(raw, stride, 0);
        forall y | 0 <= y < height - 1
          ensures FilterAt(rest, stride, y)
        {
          Times(y, stride + 1);
          FitsRow(y, height - 1, stride + 1);
          assert FilterAt(raw, stride, y + 1);
        }
      }
      if FiltersKnown(raw, stride, height) {
        forall y | 0 <= y < height
          ensures FilterAt(raw, stride, y)
        {
          FitsRow(y, height, stride + 1);
          Times(y, stride + 1);
          if y > 0 {
            Times(y - 1, stride + 1);
            assert FilterAt(rest, stride, y - 1);
          }
        }
      }
    }
  }

  /** Complete chunks are sound if and only if the header is supported and the data inflates to just the
      rows of an image of that size. */
  lemma SoundInBytes(all: seq<Piece>, codec: Codec)
    requires Complete(all)
    ensures |all| > 0 && |all[0].payload| == 13
    ensures Sound(all, codec) <==>
      && Supported(all[0].payload)
      && codec.inflate(DataOf(all)).Ok?
      && JustRows(codec.inflate(DataOf(all)).value,
                  NumberAt(all[0].payload, 0) * SamplesIn(all[0].payload[9]), NumberAt(all[0].payload, 4))
  {
    hide Complete, Supported, NumberAt, JustRows, FiltersKnown, ParsedHeader, HeaderAccepted, DataOf;
    CompleteHeader(all);
    var header := all[0].payload;
    SupportedHeader(header);
    var raw := codec.inflate(DataOf(all));
    if Supported(header) {
      var h := ParsedHeader(header);
      var stride := h.width * ColorChannels(h.color).value;
      if raw.Ok? {
        if |raw.value| == h.height * (stride + 1) {
          KnownFilters(raw.value, stride, h.height);
        } else {
          assert !JustRows(raw.value, stride, h.height) by { RowsHaveLength(raw.value, stride, h.height); }
        }
      }
    }
  }

  lemma RowsHaveLength(raw: seq<Byte>, stride: int, height: int)
    ensures JustRows(raw, stride, height) ==> |raw| == height * (stride + 1)
  {
  }

  /** The data of chunks is that of their IDAT chunks, one after another. */
  lemma {:induction false} DataJoins(x: seq<Piece>, y: seq<Piece>)
    ensures DataOf(x + y) == DataOf(x) + DataOf(y)
    decreases |y|
  {
    if y == [] {
      assert x + y == x;
    } else {
      var before, last := y[..|y| - 1], y[|y| - 1];
      DataJoins(x, before);
      assert (x + y)[..|x + y| - 1] == x + before && (x + y)[|x + y| - 1] == last;
      var d := if last.kind == IDAT then last.payload else [];
      assert DataOf(x + y) == DataOf(x + before) + d && DataOf(y) == DataOf(before) + d;
    }
  }

  lemma DataOfOne(p: Piece)
    ensures DataOf([p]) == if p.kind == [73, 68, 65, 84] then p.payload else []
  {
    assert [p][..0] == [];
  }

  // ----- what a written file holds

  /** Byte i of row y, behind a filter byte 0. */
  ghost predicate UnfilteredByte(raw: seq<Byte>, pixels: seq<Byte>, stride: nat, y: nat, i: nat) {
    var at := y * (stride + 1);
    && 0 <= at && at + 1 + i < |raw| && raw[at] == 0
    && 0 <= y * stride + i < |pixels| && raw[at + 1 + i] == pixels[y * stride + i]
  }

  lemma {:induction false} UnfilteredLength(pixels: seq<Byte>, stride: nat, height: nat)
    requires |pixels| == height * stride
    ensures |NoneRows(pixels, stride, height)| == height * (stride + 1)
    decreases height
  {
    hide Slice;
    if height > 0 {
      Times(height - 1, stride);
      Times(height - 1, stride + 1);
      FirstSlices(pixels, stride);
      UnfilteredLength(pixels[stride..], stride, height - 1);
    }
  }

  lemma FirstSlices(pixels: seq<Byte>, stride: nat)
    requires stride <= |pixels|
    ensures Slice(pixels, 0, stride) == pixels[..stride] && Slice(pixels, stride, |pixels|) == pixels[stride..]
  {
  }

  lemma LaterUnfiltered(raw: seq<Byte>, later: seq<Byte>, pixels: seq<Byte>, stride: nat, y: nat, i: nat)
    requires stride <= |pixels| && raw == [0] + pixels[..stride] + later && y > 0
    requires UnfilteredByte(later, pixels[stride..], stride, y - 1, i)
    ensures UnfilteredByte(raw, pixels, stride, y, i)
  {
    var at, from := (y - 1) * (stride + 1), (y - 1) * stride;
    Times(y - 1, stride);
    Times(y - 1, stride + 1);
    assert raw[stride + 1 + at] == later[at] && raw[stride + 1 + at + 1 + i] == later[at + 1 + i];
    assert pixels[stride..][from + i] == pixels[stride + from + i];
  }

  lemma {:induction false} UnfilteredRows(pixels: seq<Byte>, stride: nat, height: nat, y: nat, i: nat)
    requires |pixels| == height * stride && y < height && i < stride
    ensures |NoneRows(pixels, stride, height)| == height * (stride + 1)
    ensures UnfilteredByte(NoneRows(pixels, stride, height), pixels, stride, y, i)
    decreases height
  {
    hide Slice, NoneRows, UnfilteredByte;
    UnfilteredLength(pixels, stride, height);
    Times(height - 1, stride);
    FirstSlices(pixels, stride);
    NoneRowsNext(pixels, stride, height);
    var raw, later := NoneRows(pixels, stride, height), NoneRows(pixels[stride..], stride, height - 1);
    if y > 0 {
      UnfilteredRows(pixels[stride..], stride, height - 1, y - 1, i);
      LaterUnfiltered(raw, later, pixels, stride, y, i);
    } else {
      FirstUnfiltered(raw, later, pixels, stride, i);
    }
  }

  lemma FirstUnfiltered(raw: seq<Byte>, later: seq<Byte>, pixels: seq<Byte>, stride: nat, i: nat)
    requires i < stride <= |pixels| && raw == [0] + pixels[..stride] + later
    ensures UnfilteredByte(raw, pixels, stride, 0, i)
  {
    assert raw[0] == 0 && raw[1 + i] == pixels[..stride][i];
  }

  /** The three chunks of a written file. */
  function WrittenPieces(width: Word, height: Word, data: seq<Byte>): seq<Piece> {
    [Piece([73, 72, 68, 82], HeaderBytes(Header(width, height, 8, 6, 0, 0, 0))), Piece([73, 68, 65, 84], data),
     Piece([73, 69, 78, 68], [])]
  }

  lemma BigBytesAt(w: Word, b: seq<Byte>, at: nat)
    requires at + 4 <= |b| && b[at..at + 4] == BigBytes(w)
    ensures NumberAt(b, at) == w
  {
    hide BigBytes, BigWord, NumberAt;
    BigWordOfBytes(w);
    BigWordIs(b, at);
  }

  /** The header chunk says the size, depth 8, color type 6, and zero three times. */
  lemma WrittenHeader(width: Word, height: Word)
    ensures var b := HeaderBytes(Header(width, height, 8, 6, 0, 0, 0));
      && NumberAt(b, 0) == width && NumberAt(b, 4) == height && b[8..] == [8, 6, 0, 0, 0]
  {
    hide BigBytes, NumberAt;
    var b := HeaderBytes(Header(width, height, 8, 6, 0, 0, 0));
    assert b[0..4] == BigBytes(width) && b[4..8] == BigBytes(height);
    BigBytesAt(width, b, 0);
    BigBytesAt(height, b, 4);
  }

  /** A written file is the signature and three chunks in a row: header, data and end. */
  lemma WrittenFile(width: Word, height: Word, pixels: seq<Byte>, codec: Codec)
    requires |codec.deflate(NoneRows(pixels, width * 4, height))| < 0x1_0000_0000
    ensures var all, data := WrittenPieces(width, height, codec.deflate(NoneRows(pixels, width * 4, height))),
                             FileBytes(width, height, pixels, codec);
      && |data| == 57 + |all[1].payload| && data[..8] == [137, 80, 78, 71, 13, 10, 26, 10]
      && LiesAt(data, 8, all[0], codec) && LiesAt(data, 33, all[1], codec)
      && LiesAt(data, 45 + |all[1].payload|, all[2], codec)
  {
    hide LiesAt, Chunk, HeaderBytes, NoneRows;
    var z := codec.deflate(NoneRows(pixels, width * 4, height));
    var all, data := WrittenPieces(width, height, z), FileBytes(width, height, pixels, codec);
    forall k | 0 <= k < |all|
      ensures PieceFits(all[k])
    {
    }
    EncodedThree(all[0], all[1], all[2], codec);
    assert data == PNG_SIGNATURE + Encoded(all, codec);
    assert Tiles(data, all, codec);
    TilesInBytes(data, all, codec);
    assert PlaceOf(all, 0) == 8 && PlaceOf(all, 1) == 33 && PlaceOf(all, 2) == 45 + |z| && PlaceOf(all, 3) == 57 + |z|;
  }

  lemma EncodedThree(p: Piece, q: Piece, r: Piece, codec: Codec)
    requires PieceFits(p) && PieceFits(q) && PieceFits(r)
    ensures forall i :: 0 <= i < 3 ==> PieceFits([p, q, r][i])
    ensures Encoded([p, q, r], codec)
      == Chunk(p.kind, p.payload, codec) + Chunk(q.kind, q.payload, codec) + Chunk(r.kind, r.payload, codec)
  {
    hide Chunk, PieceFits;
    assert [] + [p] == [p] && [p] + [q] == [p, q] && [p, q] + [r] == [p, q, r];
    EncodedNext([], p, codec);
    EncodedNext([p], q, codec);
    EncodedNext([p, q], r, codec);
    assert Encoded([], codec) == [];
  }

  // ----- what the lenient reader complains about

  /** The complaint about a header: its absence, then its depth, interlacing and color type. */
  lemma ReadComplains(data: seq<Byte>, codec: Codec, parts: Parts)
    requires [137, 80, 78, 71, 13, 10, 26, 10] <= data && Collected(data, 8, Parts(None, None, None, [])) == Ok(parts)
    ensures parts.header == None ==> Read(data, codec) == Err(MissingHeader)
    ensures parts.header.Some? ==>
      var h := parts.header.value;
      if h.depth != 8 then Read(data, codec) == Err(UnsupportedDepth)
      else if h.interlace != 0 then Read(data, codec) == Err(Interlaced)
      else if h.color !in {0, 2, 3, 4, 6} then Read(data, codec) == Err(UnsupportedColor)
      else codec.inflate(parts.compressed).Err? ==> Read(data, codec).Err?
  {
    hide Collected, Scanlines, RowsPixels;
  }
}
