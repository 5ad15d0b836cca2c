/** The two readers agree: what the strict one accepts, the lenient one reads, from the same rows. */
module PngAgree {
  import opened Bytes
  import opened PngFilter
  import opened PngScanlines
  import opened PngFile
  import opened PngRoundTrip
  import opened PngCheck

  /** What the lenient reader collects from chunks. */
  function PartsOf(pieces: seq<Piece>): Result<Parts> {
    if pieces == [] then Ok(Parts(None, None, None, []))
    else
      var before, last := PartsOf(pieces[..|pieces| - 1]), pieces[|pieces| - 1];
      if before.Err? then before else Collect(before.value, last.kind, last.payload)
  }

  /** From ordered chunks it collects the one header and all data. */
  lemma {:induction false} OrderedParts(pieces: seq<Piece>)
    requires Ordered(pieces)
    ensures PartsOf(pieces).Ok? && PartsOf(pieces).value.compressed == DataOf(pieces)
    ensures pieces != [] ==>
      |pieces[0].payload| == 13 && PartsOf(pieces).value.header == Some(ParsedHeader(pieces[0].payload))
  {
    hide ParsedHeader;
    if pieces != [] {
      var before, last := pieces[..|pieces| - 1], pieces[|pieces| - 1];
      OrderedPrefix(pieces, |pieces| - 1);
      OrderedParts(before);
      assert IDAT != IHDR && IDAT != PLTE && IDAT != TRNS;
      if before != [] {
        assert before[0] == pieces[0] && last.kind != IHDR;
      }
    }
  }

  /** Where a chunk lies in data that is tiled. */
  lemma PieceInData(data: seq<Byte>, all: seq<Piece>, n: nat, codec: Codec) returns (after: seq<Byte>)
    requires Tiles(data, all, codec) && n < |all|
    ensures PieceFits(all[n]) && forall i :: 0 <= i < |all| ==> PieceFits(all[i])
    ensures data == (PNG_SIGNATURE + Encoded(all[..n], codec)) + Chunk(all[n].kind, all[n].payload, codec) + after
    ensures PNG_SIGNATURE + Encoded(all[..n + 1], codec)
      == (PNG_SIGNATURE + Encoded(all[..n], codec)) + Chunk(all[n].kind, all[n].payload, codec)
  {
    hide Encoded, Chunk, Letters;
    assert all[..n + 1] == all[..n] + [all[n]];
    EncodedNext(all[..n], all[n], codec);
    EncodedPrefix(all, n + 1, codec);
    var e := Encoded(all, codec);
    after := e[|Encoded(all[..n + 1], codec)|..];
    assert e == Encoded(all[..n + 1], codec) + after;
  }

  lemma PartsNext(pieces: seq<Piece>, n: nat)
    requires n < |pieces| && PartsOf(pieces[..n]).Ok?
    ensures PartsOf(pieces[..n + 1]) == Collect(PartsOf(pieces[..n]).value, pieces[n].kind, pieces[n].payload)
  {
    assert pieces[..n + 1][..n] == pieces[..n];
  }

  lemma NoParts()
    ensures PartsOf([]) == Ok(Parts(None, None, None, []))
  {
  }

  /** It goes through chunks that tile the data one after another. */
  lemma {:induction false} PiecesCollected(data: seq<Byte>, all: seq<Piece>, n: nat, codec: Codec)
    requires n < |all| && Tiles(data, all, codec) && Ordered(all[..|all| - 1])
    ensures (forall i :: 0 <= i < n ==> PieceFits(all[..n][i])) && PartsOf(all[..n]).Ok?
    ensures Collected(data, |PNG_SIGNATURE|, Parts(None, None, None, []))
      == Collected(data, |PNG_SIGNATURE + Encoded(all[..n], codec)|, PartsOf(all[..n]).value)
    decreases n
  {
    hide Collected, Collect, Chunk, Ordered, PartsOf, Letters;
    if n == 0 {
      NoParts();
    } else {
      var body := all[..|all| - 1];
      PiecesCollected(data, all, n - 1, codec);
      hide Encoded, Tiles;
      var after := PieceInData(data, all, n - 1, codec);
      var p, parts := all[n - 1], PartsOf(all[..n - 1]).value;
      assert p.kind != IEND by { assert body[n - 1] == p; NoEndInside(body, n - 1); }
      assert PartsOf(all[..n]).Ok? by {
        assert body[..n] == all[..n];
        OrderedPrefix(body, n);
        OrderedParts(all[..n]);
      }
      PartsNext(all, n - 1);
      FourLetters(p);
      ChunkCollected(data, PNG_SIGNATURE + Encoded(all[..n - 1], codec), p.kind, p.payload, after, codec, parts);
    }
  }

  /** The end chunk stops it. */
  lemma CompleteCollected(data: seq<Byte>, all: seq<Piece>, codec: Codec)
    requires Tiles(data, all, codec) && Complete(all)
    ensures PartsOf(all[..|all| - 1]).Ok?
    ensures Collected(data, |PNG_SIGNATURE|, Parts(None, None, None, [])) == PartsOf(all[..|all| - 1])
  {
    hide Collected, Collect, Chunk, Ordered, HasData, PartsOf;
    var n := |all| - 1;
    var before := all[..n];
    PiecesCollected(data, all, n, codec);
    var after := PieceInData(data, all, n, codec);
    var parts := PartsOf(before).value;
    ChunkCollected(data, PNG_SIGNATURE + Encoded(before, codec), IEND, [], after, codec, parts);
  }

  /** Without a palette to look up, expanding pixels does not fail. */
  lemma {:induction false} RowExpands(color: Byte, row: Row, parts: Parts, n: nat)
    requires Channels(color).Some? && color != 3 && n * Channels(color).value <= |row|
    ensures RowPixels(color, row, parts, n).Ok?
    decreases n
  {
    if n > 0 {
      FitsRow(n - 1, n, Channels(color).value);
      RowExpands(color, row, parts, n - 1);
      RowPixelsNext(color, row, parts, n - 1);
    }
  }

  lemma {:induction false} RowsExpand(color: Byte, rows: seq<Row>, parts: Parts, width: nat, n: nat)
    requires Channels(color).Some? && color != 3 && n <= |rows|
    requires forall k :: 0 <= k < |rows| ==> |rows[k]| == width * Channels(color).value
    ensures RowsPixels(color, rows, parts, width, n).Ok?
    decreases n
  {
    if n > 0 {
      RowsExpand(color, rows, parts, width, n - 1);
      RowsNext(color, rows, parts, width, n - 1);
      RowExpands(color, rows[n - 1], parts, width);
    }
  }

  /** A file that the smoke script accepts is read by the sweep script, as an image of the size that the
      header tells and with the pixels of the rows that the smoke script has reconstructed. */
  lemma AcceptedIsRead(data: seq<Byte>, codec: Codec, e: Evidence)
    requires Tiles(data, e.pieces, codec) && Complete(e.pieces) && Sound(e.pieces, codec) && ShowsRows(e, codec)
    ensures Channels(e.header.color).Some? && PartsOf(e.pieces[..|e.pieces| - 1]).Ok?
    ensures |e.rows| == e.header.height
    ensures forall k :: 0 <= k < |e.rows| ==> |e.rows[k]| == e.header.width * Channels(e.header.color).value
    ensures var parts := PartsOf(e.pieces[..|e.pieces| - 1]).value;
      var pixels := RowsPixels(e.header.color, e.rows, parts, e.header.width, e.header.height);
      pixels.Ok? && Read(data, codec) == Ok(Image(e.header.width, e.header.height, pixels.value))
  {
    hide Collected, Scanlines, RowsPixels, FiltersKnown, Encoded, ParsedHeader, PartsOf, DataOf, Ordered, HasData;
    var body := e.pieces[..|e.pieces| - 1];
    CompleteHeader(e.pieces);
    assert body[0] == e.pieces[0];
    OrderedParts(body);
    assert DataOf(body) == DataOf(e.pieces) by { NoDataAtEnd(e.pieces); }
    CompleteCollected(data, e.pieces, codec);
    RowsExpand(e.header.color, e.rows, PartsOf(body).value, e.header.width, e.header.height);
    assert PNG_SIGNATURE <= data;
  }

  lemma NoDataAtEnd(pieces: seq<Piece>)
    requires Complete(pieces)
    ensures DataOf(pieces) == DataOf(pieces[..|pieces| - 1])
  {
    assert IEND != IDAT;
  }
}
