/** The strict reader of the smoke script: which files it accepts. */
module PngCheck {
  import opened Bytes
  import opened PngFilter
  import opened PngScanlines
  import opened PngFile

  const PNG_MAX_CHUNKS := 4096
  const PNG_MAX_PIXELS := 64 * 1024 * 1024

  datatype Piece = Piece(kind: seq<Byte>, payload: seq<Byte>)

  predicate Letter(b: Byte) {
    65 <= b <= 90 || 97 <= b <= 122
  }

  predicate Letters(kind: seq<Byte>) {
    |kind| == 4 && Letter(kind[0]) && Letter(kind[1]) && Letter(kind[2]) && Letter(kind[3])
  }

  /** Bit 5 of the first letter tells that a chunk may be skipped. */
  predicate MaySkip(kind: seq<Byte>)
    requires |kind| == 4
  {
    kind[0] / 0x20 % 2 == 1 || kind == PLTE
  }

  predicate PieceFits(p: Piece) {
    Letters(p.kind) && |p.payload| < 0x1_0000_0000
  }

  // ----- what a file should look like

  /** The chunks one after another, each with its length and its checksum. */
  ghost function Encoded(pieces: seq<Piece>, codec: Codec): seq<Byte>
    requires forall i :: 0 <= i < |pieces| ==> PieceFits(pieces[i])
  {
    if pieces == [] then []
    else
      var last := pieces[|pieces| - 1];
      assert PieceFits(last);
      Encoded(pieces[..|pieces| - 1], codec) + Chunk(last.kind, last.payload, codec)
  }

  /** The file is the signature followed by these chunks, and nothing else. */
  ghost predicate Tiles(data: seq<Byte>, pieces: seq<Piece>, codec: Codec) {
    && (forall i :: 0 <= i < |pieces| ==> PieceFits(pieces[i]))
    && data == PNG_SIGNATURE + Encoded(pieces, codec)
  }

  /** A header chunk is first and only first, and chunks in the middle are data or may be skipped. */
  ghost predicate Ordered(pieces: seq<Piece>) {
    && (forall i :: 0 <= i < |pieces| ==> |pieces[i].kind| == 4 && pieces[i].kind != IEND)
    && (forall i :: 0 <= i < |pieces| ==> (pieces[i].kind == IHDR <==> i == 0))
    && (pieces != [] ==> |pieces[0].payload| == 13)
    && (forall i :: 0 < i < |pieces| ==> pieces[i].kind == IDAT || MaySkip(pieces[i].kind))
    && (forall i, j, k :: 0 <= i < j < k < |pieces| && pieces[i].kind == IDAT && pieces[k].kind == IDAT ==>
          pieces[j].kind == IDAT)
  }

  ghost predicate HasData(pieces: seq<Piece>) {
    exists i :: 0 <= i < |pieces| && pieces[i].kind == IDAT
  }

  /** The data ended: a chunk of another kind comes after a data chunk. */
  ghost predicate DataEnded(pieces: seq<Piece>) {
    exists i, j :: 0 <= i < j < |pieces| && pieces[i].kind == IDAT && pieces[j].kind != IDAT
  }

  /** All chunks but the last are ordered and hold data; the last is an empty end chunk. */
  ghost predicate Complete(pieces: seq<Piece>) {
    && 0 < |pieces| <= PNG_MAX_CHUNKS
    && Ordered(pieces[..|pieces| - 1]) && HasData(pieces[..|pieces| - 1])
    && pieces[|pieces| - 1] == Piece(IEND, [])
  }

  function DataOf(pieces: seq<Piece>): seq<Byte> {
    if pieces == [] then []
    else
      var last := pieces[|pieces| - 1];
      DataOf(pieces[..|pieces| - 1]) + (if last.kind == IDAT then last.payload else [])
  }

  // ----- reading chunks

  lemma {:induction false} EncodedPrefix(pieces: seq<Piece>, n: nat, codec: Codec)
    requires n <= |pieces| && forall i :: 0 <= i < |pieces| ==> PieceFits(pieces[i])
    ensures Encoded(pieces[..n], codec) <= Encoded(pieces, codec)
    decreases |pieces|
  {
    if n < |pieces| {
      EncodedPrefix(pieces[..|pieces| - 1], n, codec);
      assert pieces[..|pieces| - 1][..n] == pieces[..n];
    } else {
      assert pieces[..n] == pieces;
    }
  }

  lemma EncodedNext(pieces: seq<Piece>, p: Piece, codec: Codec)
    requires PieceFits(p) && forall i :: 0 <= i < |pieces| ==> PieceFits(pieces[i])
    ensures Encoded(pieces + [p], codec) == Encoded(pieces, codec) + Chunk(p.kind, p.payload, codec)
  {
    assert (pieces + [p])[..|pieces|] == pieces;
  }

  lemma BigBytesOfWord(b: seq<Byte>)
    requires |b| == 4
    ensures BigBytes(BigWord(b)) == b
  {
    LittleBytesOfWord(Reversed(b));
    ReversedTwice(b);
  }

  /** The data has this chunk at this offset. */
  ghost predicate HasPiece(data: seq<Byte>, offset: nat, p: Piece, codec: Codec) {
    && PieceFits(p) && offset + 12 + |p.payload| <= |data|
    && data[offset..offset + 12 + |p.payload|] == Chunk(p.kind, p.payload, codec)
  }

  /** The fields of a chunk as they lie in the data. */
  lemma PieceFields(data: seq<Byte>, offset: nat, p: Piece, codec: Codec)
    requires HasPiece(data, offset, p, codec)
    ensures BigWord(data[offset..offset + 4]) == |p.payload|
    ensures data[offset + 4..offset + 8] == p.kind
    ensures data[offset + 8..offset + 8 + |p.payload|] == p.payload
    ensures BigWord(data[offset + 8 + |p.payload|..offset + 12 + |p.payload|]) == codec.crc(p.kind + p.payload)
  {
    hide BigBytes, BigWord, Letter;
    var n := |p.payload|;
    var c := data[offset..offset + 12 + n];
    BigWordOfBytes(n);
    BigWordOfBytes(codec.crc(p.kind + p.payload));
    assert data[offset..offset + 4] == c[..4] == BigBytes(n);
    assert data[offset + 4..offset + 8] == c[4..8];
    assert data[offset + 8..offset + 8 + n] == c[8..8 + n];
    assert data[offset + 8 + n..offset + 12 + n] == c[8 + n..12 + n] == BigBytes(codec.crc(p.kind + p.payload));
  }

  /** Fields that fit together make a chunk. */
  lemma FieldsMakePiece(data: seq<Byte>, offset: nat, length: nat, codec: Codec)
    requires offset + 12 + length <= |data| && BigWord(data[offset..offset + 4]) == length
    requires Letters(data[offset + 4..offset + 8])
    requires BigWord(data[offset + 8 + length..offset + 12 + length])
      == codec.crc(data[offset + 4..offset + 8] + data[offset + 8..offset + 8 + length])
    ensures HasPiece(data, offset, Piece(data[offset + 4..offset + 8], data[offset + 8..offset + 8 + length]), codec)
  {
    hide BigBytes, BigWord, Letters;
    BigBytesOfWord(data[offset..offset + 4]);
    BigBytesOfWord(data[offset + 8 + length..offset + 12 + length]);
    assert data[offset..offset + 12 + length] == data[offset..offset + 4] + data[offset + 4..offset + 8]
      + data[offset + 8..offset + 8 + length] + data[offset + 8 + length..offset + 12 + length];
  }

  /** The data begins with the signature and these chunks, and ends with them at the offset. */
  ghost predicate TiledTo(data: seq<Byte>, pieces: seq<Piece>, offset: nat, codec: Codec) {
    && (forall i :: 0 <= i < |pieces| ==> PieceFits(pieces[i]))
    && offset <= |data| && data[..offset] == PNG_SIGNATURE + Encoded(pieces, codec)
  }

  lemma TiledOn(data: seq<Byte>, pieces: seq<Piece>, offset: nat, p: Piece, codec: Codec)
    requires TiledTo(data, pieces, offset, codec) && HasPiece(data, offset, p, codec)
    ensures TiledTo(data, pieces + [p], offset + 12 + |p.payload|, codec)
  {
    hide Chunk, PieceFits, Encoded;
    EncodedNext(pieces, p, codec);
    assert data[..offset + 12 + |p.payload|] == data[..offset] + data[offset..offset + 12 + |p.payload|];
  }

  /** Chunks that tile the data and begin with the chunks read so far go on with one at the offset. */
  lemma NextPiece(data: seq<Byte>, pieces: seq<Piece>, offset: nat, all: seq<Piece>, codec: Codec)
    requires TiledTo(data, pieces, offset, codec) && Tiles(data, all, codec) && pieces <= all
    ensures |pieces| == |all| <==> offset == |data|
    ensures |pieces| < |all| ==> HasPiece(data, offset, all[|pieces|], codec)
  {
    hide Encoded, Letters;
    var n := |pieces|;
    assert all[..n] == pieces;
    if n < |all| {
      assert PieceFits(all[n]);
      FourLetters(all[n]);
      assert all[..n + 1] == pieces + [all[n]];
      EncodedNext(pieces, all[n], codec);
      EncodedPrefix(all, n + 1, codec);
      var e, c := Encoded(all, codec), Chunk(all[n].kind, all[n].payload, codec);
      assert e[..|Encoded(pieces, codec)| + |c|] == Encoded(pieces, codec) + c;
      assert |PNG_SIGNATURE| + |Encoded(pieces, codec)| == offset;
      assert data[offset..offset + |c|] == e[offset - |PNG_SIGNATURE|..offset - |PNG_SIGNATURE| + |c|] == c;
    } else {
      assert all == pieces;
    }
  }

  lemma FourLetters(p: Piece)
    requires PieceFits(p)
    ensures |p.kind| == 4
  {
  }

  /** Two readings of the same place are the same chunk. */
  lemma SamePiece(data: seq<Byte>, offset: nat, p: Piece, q: Piece, codec: Codec)
    requires HasPiece(data, offset, p, codec) && HasPiece(data, offset, q, codec)
    ensures p == q
  {
    PieceFields(data, offset, p, codec);
    PieceFields(data, offset, q, codec);
  }

  // ----- which chunk may come next

  /** The chunk that may come next in a file that will be complete. */
  ghost predicate MayFollow(pieces: seq<Piece>, p: Piece) {
    && |pieces| < PNG_MAX_CHUNKS
    && if p.kind == IEND then p.payload == [] && HasData(pieces) else Ordered(pieces + [p])
  }

  lemma OrderedPrefix(pieces: seq<Piece>, n: nat)
    requires n <= |pieces| && Ordered(pieces)
    ensures Ordered(pieces[..n])
  {
  }

  lemma CompleteGoesOn(all: seq<Piece>, pieces: seq<Piece>)
    requires Complete(all) && pieces < all
    ensures MayFollow(pieces, all[|pieces|])
    ensures all[|pieces|].kind == IEND <==> |all| == |pieces| + 1
  {
    hide Ordered, HasData;
    var n, body := |pieces|, all[..|all| - 1];
    if n < |body| {
      assert body[..n + 1] == pieces + [all[n]];
      OrderedPrefix(body, n + 1);
      assert body[n].kind != IEND by { NoEndInside(body, n); }
    } else {
      assert pieces == body;
    }
  }

  lemma NoEndInside(pieces: seq<Piece>, i: nat)
    requires Ordered(pieces) && i < |pieces|
    ensures pieces[i].kind != IEND
  {
  }

  /** Whether a chunk keeps the order can be told from three facts about the chunks before it. */
  lemma OrderedNext(pieces: seq<Piece>, p: Piece)
    requires Ordered(pieces) && |p.kind| == 4 && p.kind != IEND
    ensures Ordered(pieces + [p]) <==>
      if pieces == [] then p.kind == IHDR && |p.payload| == 13
      else p.kind != IHDR && (if p.kind == IDAT then !DataEnded(pieces) else MaySkip(p.kind))
    ensures HasData(pieces + [p]) <==> HasData(pieces) || p.kind == IDAT
    ensures DataEnded(pieces + [p]) <==> DataEnded(pieces) || (HasData(pieces) && p.kind != IDAT)
  {
    hide MaySkip;
    var more := pieces + [p];
    assert HasData(pieces) ==> HasData(more) by {
      if i :| 0 <= i < |pieces| && pieces[i].kind == IDAT { assert more[i].kind == IDAT; }
    }
    assert p.kind == IDAT ==> HasData(more) by { assert more[|pieces|] == p; }
    EndedNext(pieces, p);
    assert IDAT != IHDR;
    if Ordered(more) {
      assert more[|pieces|] == p && more[0].kind == IHDR;
      forall i, j | 0 <= i < j < |pieces| && pieces[i].kind == p.kind == IDAT
        ensures pieces[j].kind == IDAT
      {
        assert more[i] == pieces[i] && more[j] == pieces[j];
      }
    }
  }

  lemma EndedNext(pieces: seq<Piece>, p: Piece)
    ensures DataEnded(pieces + [p]) <==> DataEnded(pieces) || (HasData(pieces) && p.kind != IDAT)
  {
    var more := pieces + [p];
    if DataEnded(pieces) {
      var i, j :| 0 <= i < j < |pieces| && pieces[i].kind == IDAT && pieces[j].kind != IDAT;
      assert more[i].kind == IDAT && more[j].kind != IDAT;
    }
    if HasData(pieces) && p.kind != IDAT {
      var i :| 0 <= i < |pieces| && pieces[i].kind == IDAT;
      assert more[i].kind == IDAT && more[|pieces|].kind != IDAT;
    }
  }

  /** Whatever completes the data begins with the chunks read so far, and goes on. */
  ghost predicate Leads(data: seq<Byte>, pieces: seq<Piece>, codec: Codec) {
    forall all :: Tiles(data, all, codec) && Complete(all) ==> pieces < all
  }

  /** The data is tiled by complete chunks. */
  ghost predicate Tiled(data: seq<Byte>, codec: Codec) {
    exists all :: Tiles(data, all, codec) && Complete(all)
  }

  lemma LeadsOn(data: seq<Byte>, pieces: seq<Piece>, offset: nat, p: Piece, codec: Codec)
    requires TiledTo(data, pieces, offset, codec) && Leads(data, pieces, codec)
    requires HasPiece(data, offset, p, codec) && p.kind != IEND
    ensures Leads(data, pieces + [p], codec)
  {
    hide Tiles, Complete, HasPiece, TiledTo, MayFollow;
    forall all | Tiles(data, all, codec) && Complete(all)
      ensures pieces + [p] < all
    {
      NextPiece(data, pieces, offset, all, codec);
      SamePiece(data, offset, p, all[|pieces|], codec);
      CompleteGoesOn(all, pieces);
    }
  }

  /** When no chunk that may follow lies at the offset, nothing completes the data. */
  lemma NoWayOn(data: seq<Byte>, pieces: seq<Piece>, offset: nat, codec: Codec)
    requires TiledTo(data, pieces, offset, codec) && Leads(data, pieces, codec)
    requires forall p :: HasPiece(data, offset, p, codec) && MayFollow(pieces, p) ==>
      p.kind == IEND && offset + 12 + |p.payload| != |data|
    ensures !Tiled(data, codec)
  {
    hide Tiles, Complete, HasPiece, TiledTo, MayFollow;
    forall all | Tiles(data, all, codec) && Complete(all)
      ensures false
    {
      NextPiece(data, pieces, offset, all, codec);
      CompleteGoesOn(all, pieces);
      var p := all[|pieces|];
      assert HasPiece(data, offset, p, codec) && MayFollow(pieces, p);
      assert all == pieces + [p];
      LastPieceEnds(data, pieces, offset, p, codec);
    }
  }

  lemma LastPieceEnds(data: seq<Byte>, pieces: seq<Piece>, offset: nat, p: Piece, codec: Codec)
    requires TiledTo(data, pieces, offset, codec) && HasPiece(data, offset, p, codec)
    ensures Tiles(data, pieces + [p], codec) <==> offset + 12 + |p.payload| == |data|
  {
    hide Encoded, Chunk;
    TiledOn(data, pieces, offset, p, codec);
    assert data[..|data|] == data;
  }

  // ----- the automaton

  datatype Check<T> = Accepted(value: T) | Rejected

  /** What the chunks of a file say. */
  datatype Contents = Contents(pieces: seq<Piece>, header: Header, compressed: seq<Byte>)

  /** What holds between two chunks. */
  ghost predicate Reading(data: seq<Byte>, pieces: seq<Piece>, offset: nat, header: Option<Header>,
                          compressed: seq<Byte>, codec: Codec) {
    && TiledTo(data, pieces, offset, codec) && Leads(data, pieces, codec) && Ordered(pieces)
    && |pieces| <= PNG_MAX_CHUNKS && compressed == DataOf(pieces)
    && header == if pieces == [] then None else Some(ParsedHeader(pieces[0].payload))
  }

  lemma ReadingStarts(data: seq<Byte>, codec: Codec)
    requires PNG_SIGNATURE <= data
    ensures Reading(data, [], |PNG_SIGNATURE|, None, [], codec)
  {
  }

  lemma ReadingGoesOn(data: seq<Byte>, pieces: seq<Piece>, offset: nat, header: Option<Header>,
                      compressed: seq<Byte>, codec: Codec, p: Piece)
    requires Reading(data, pieces, offset, header, compressed, codec)
    requires HasPiece(data, offset, p, codec) && p.kind != IEND && MayFollow(pieces, p)
    ensures |pieces + [p]| > 0 && Ordered(pieces + [p])
    ensures Reading(data, pieces + [p], offset + 12 + |p.payload|, Some(ParsedHeader((pieces + [p])[0].payload)),
                    if p.kind == IDAT then compressed + p.payload else compressed, codec)
  {
    hide HasPiece, TiledTo, Leads, Ordered, ParsedHeader;
    TiledOn(data, pieces, offset, p, codec);
    LeadsOn(data, pieces, offset, p, codec);
    assert (pieces + [p])[..|pieces|] == pieces;
    assert DataOf(pieces + [p]) == compressed + (if p.kind == IDAT then p.payload else []);
  }

  lemma OnlyTheseTile(data: seq<Byte>, pieces: seq<Piece>, offset: nat, p: Piece, codec: Codec)
    requires TiledTo(data, pieces, offset, codec) && Leads(data, pieces, codec)
    requires HasPiece(data, offset, p, codec) && p.kind == IEND
    ensures forall all :: Tiles(data, all, codec) && Complete(all) ==> all == pieces + [p]
  {
    hide Tiles, Complete, HasPiece, TiledTo, MayFollow;
    forall all | Tiles(data, all, codec) && Complete(all)
      ensures all == pieces + [p]
    {
      NextPiece(data, pieces, offset, all, codec);
      SamePiece(data, offset, p, all[|pieces|], codec);
      CompleteGoesOn(all, pieces);
    }
  }

  lemma ReadingEnds(data: seq<Byte>, pieces: seq<Piece>, offset: nat, header: Option<Header>,
                    compressed: seq<Byte>, codec: Codec, p: Piece)
    requires Reading(data, pieces, offset, header, compressed, codec)
    requires HasPiece(data, offset, p, codec) && p.kind == IEND && MayFollow(pieces, p)
    requires offset + 12 + |p.payload| == |data|
    ensures Tiles(data, pieces + [p], codec) && Complete(pieces + [p])
    ensures pieces != [] && header == Some(ParsedHeader(pieces[0].payload)) && DataOf(pieces + [p]) == compressed
    ensures forall all :: Tiles(data, all, codec) && Complete(all) ==> all == pieces + [p]
  {
    hide HasPiece, TiledTo, Leads, ParsedHeader, Ordered, Tiles;
    LastPieceEnds(data, pieces, offset, p, codec);
    OnlyTheseTile(data, pieces, offset, p, codec);
    assert (pieces + [p])[..|pieces|] == pieces;
    assert pieces != [] && IEND != IDAT;
  }

  lemma NoPieceHere(data: seq<Byte>, pieces: seq<Piece>, offset: nat, codec: Codec)
    requires offset <= |data|
    requires |pieces| >= PNG_MAX_CHUNKS || |data| - offset < 12
      || |data| < offset + 12 + BigWord(data[offset..offset + 4])
      || !Letters(data[offset + 4..offset + 8])
      || var length := BigWord(data[offset..offset + 4]);
         BigWord(data[offset + 8 + length..offset + 12 + length])
         != codec.crc(data[offset + 4..offset + 8] + data[offset + 8..offset + 8 + length])
    ensures forall p :: HasPiece(data, offset, p, codec) ==> !MayFollow(pieces, p)
  {
    hide Ordered, HasData, Chunk, Letter;
    forall p | HasPiece(data, offset, p, codec)
      ensures !MayFollow(pieces, p)
    {
      PieceFields(data, offset, p, codec);
    }
  }

  lemma OnlyThisPiece(data: seq<Byte>, pieces: seq<Piece>, offset: nat, codec: Codec, p: Piece)
    requires HasPiece(data, offset, p, codec)
    requires !MayFollow(pieces, p) || (p.kind == IEND && offset + 12 + |p.payload| != |data|)
    ensures forall q :: HasPiece(data, offset, q, codec) && MayFollow(pieces, q) ==>
      q.kind == IEND && offset + 12 + |q.payload| != |data|
  {
    hide MayFollow, HasPiece;
    forall q | HasPiece(data, offset, q, codec)
      ensures p == q
    {
      SamePiece(data, offset, p, q, codec);
    }
  }

  lemma ReadingOrders(data: seq<Byte>, pieces: seq<Piece>, offset: nat, header: Option<Header>,
                      compressed: seq<Byte>, codec: Codec)
    requires Reading(data, pieces, offset, header, compressed, codec)
    ensures Ordered(pieces) && offset <= |data|
    ensures if pieces == [] then header == None
            else |pieces[0].payload| == 13 && header == Some(ParsedHeader(pieces[0].payload))
    ensures TiledTo(data, pieces, offset, codec) && Leads(data, pieces, codec) && |pieces| <= PNG_MAX_CHUNKS
  {
  }

  /** Reads the chunk at an offset, if its framing, its letters and its checksum are right. */
  method ReadPiece(data: seq<Byte>, offset: nat, codec: Codec, ghost pieces: seq<Piece>) returns (r: Check<Piece>)
    requires offset <= |data| && |pieces| < PNG_MAX_CHUNKS
    ensures r.Accepted? ==> HasPiece(data, offset, r.value, codec)
    ensures r.Rejected? ==> forall p :: HasPiece(data, offset, p, codec) ==> !MayFollow(pieces, p)
  {
    hide HasPiece, BigWord, Letter, Ordered, HasData;
    if |data| - offset < 12 {
      NoPieceHere(data, pieces, offset, codec);
      return Rejected;
    }
    var length := BigWord(data[offset..offset + 4]);
    var kind := data[offset + 4..offset + 8];
    if offset + 12 + length > |data| {
      NoPieceHere(data, pieces, offset, codec);
      return Rejected;
    }
    if !Letters(kind) {
      NoPieceHere(data, pieces, offset, codec);
      return Rejected;
    }
    var payload := data[offset + 8..offset + 8 + length];
    var stored := BigWord(data[offset + 8 + length..offset + 12 + length]);
    if stored != codec.crc(kind + payload) {
      NoPieceHere(data, pieces, offset, codec);
      return Rejected;
    }
    FieldsMakePiece(data, offset, length, codec);
    return Accepted(Piece(kind, payload));
  }

  /** Goes through the chunks of a file; accepts it exactly if complete chunks tile it. */
  method ReadPieces(data: seq<Byte>, codec: Codec) returns (r: Check<Contents>)
    requires PNG_SIGNATURE <= data
    ensures r.Accepted? <==> Tiled(data, codec)
    ensures r.Accepted? ==>
      && Tiles(data, r.value.pieces, codec) && Complete(r.value.pieces)
      && |r.value.pieces[0].payload| == 13 && r.value.header == ParsedHeader(r.value.pieces[0].payload)
      && r.value.compressed == DataOf(r.value.pieces)
      && forall all :: Tiles(data, all, codec) && Complete(all) ==> all == r.value.pieces
  {
    hide Reading, Tiled, Leads, HasPiece, TiledTo, Tiles, Complete, ParsedHeader, Ordered, HasData, DataEnded, MaySkip, DataOf;
    var offset, pieces: seq<Piece>, header: Option<Header>, compressed := |PNG_SIGNATURE|, [], None, [];
    var sawIdat, endedIdat := false, false;
    ReadingStarts(data, codec);
    NoDataYet();
    while offset < |data|
      invariant offset <= |data| && Reading(data, pieces, offset, header, compressed, codec)
      invariant (sawIdat <==> HasData(pieces)) && (endedIdat <==> DataEnded(pieces))
      decreases |data| - offset
    {
      ReadingOrders(data, pieces, offset, header, compressed, codec);
      if |pieces| >= PNG_MAX_CHUNKS {
        NoPieceHere(data, pieces, offset, codec);
        NoWayOn(data, pieces, offset, codec);
        return Rejected;
      }
      var piece := ReadPiece(data, offset, codec, pieces);
      if piece.Rejected? {
        NoWayOn(data, pieces, offset, codec);
        return Rejected;
      }
      var p := piece.value;
      FourLettersHere(data, offset, p, codec);
      if p.kind == IEND {
        if p.payload != [] || !sawIdat || offset + 12 + |p.payload| != |data| {
          OnlyThisPiece(data, pieces, offset, codec, p);
          NoWayOn(data, pieces, offset, codec);
          return Rejected;
        }
        ReadingEnds(data, pieces, offset, header, compressed, codec, p);
        assert Tiled(data, codec) by { TiledByThese(data, pieces + [p], codec); }
        CompleteHeader(pieces + [p]);
        return Accepted(Contents(pieces + [p], header.value, compressed));
      }
      OrderedNext(pieces, p);
      var ok;
      if header == None {
        ok := p.kind == IHDR && |p.payload| == 13;
      } else if p.kind == IHDR {
        ok := false;
      } else if p.kind == IDAT {
        ok := !endedIdat;
      } else {
        ok := MaySkip(p.kind);
      }
      if !ok {
        OnlyThisPiece(data, pieces, offset, codec, p);
        NoWayOn(data, pieces, offset, codec);
        return Rejected;
      }
      ReadingGoesOn(data, pieces, offset, header, compressed, codec, p);
      if p.kind == IHDR {
        header := Some(ParsedHeader(p.payload));
      } else if p.kind == IDAT {
        sawIdat := true;
        compressed := compressed + p.payload;
      } else if sawIdat {
        endedIdat := true;
      }
      pieces := pieces + [p];
      offset := offset + 12 + |p.payload|;
    }
    ReadingOrders(data, pieces, offset, header, compressed, codec);
    NothingLeft(data, pieces, offset, codec);
    NoWayOn(data, pieces, offset, codec);
    return Rejected;
  }

  lemma NoDataYet()
    ensures !HasData([]) && !DataEnded([])
  {
  }

  lemma FourLettersHere(data: seq<Byte>, offset: nat, p: Piece, codec: Codec)
    requires HasPiece(data, offset, p, codec)
    ensures |p.kind| == 4 && offset + 12 + |p.payload| <= |data|
  {
  }

  lemma TiledByThese(data: seq<Byte>, pieces: seq<Piece>, codec: Codec)
    requires Tiles(data, pieces, codec) && Complete(pieces)
    ensures Tiled(data, codec)
  {
  }

  lemma CompleteHeader(pieces: seq<Piece>)
    requires Complete(pieces)
    ensures |pieces| > 1 && |pieces[0].payload| == 13
  {
    var body := pieces[..|pieces| - 1];
    assert body != [] ==> body[0] == pieces[0];
  }

  lemma NothingLeft(data: seq<Byte>, pieces: seq<Piece>, offset: nat, codec: Codec)
    requires offset == |data|
    ensures forall p :: !HasPiece(data, offset, p, codec)
  {
  }

  // ----- the whole file

  function ColorChannels(color: Byte): (n: Option<nat>)
    ensures n.Some? ==> Channels(color) == n && 1 <= n.value <= 4 && color != 3
  {
    match color
    case 0 => Some(1)
    case 2 => Some(3)
    case 4 => Some(2)
    case 6 => Some(4)
    case _ => None
  }

  predicate HeaderAccepted(h: Header) {
    && h.width > 0 && h.height > 0 && h.width * h.height <= PNG_MAX_PIXELS
    && h.depth == 8 && ColorChannels(h.color).Some?
    && h.compression == 0 && h.filterMethod == 0 && h.interlace == 0
  }

  /** The header is supported, and the data inflates to just the rows of the image, each with a known filter. */
  ghost predicate Sound(pieces: seq<Piece>, codec: Codec)
    requires Complete(pieces)
  {
    CompleteHeader(pieces);
    var h := ParsedHeader(pieces[0].payload);
    HeaderAccepted(h)
    && var stride := h.width * ColorChannels(h.color).value;
    var raw := codec.inflate(DataOf(pieces));
    raw.Ok? && |raw.value| == h.height * (stride + 1) && FiltersKnown(raw.value, stride, h.height)
  }

  ghost predicate Acceptable(data: seq<Byte>, codec: Codec) {
    exists all :: Tiles(data, all, codec) && Complete(all) && Sound(all, codec)
  }

  datatype Evidence = Evidence(header: Header, pieces: seq<Piece>, rows: seq<Row>)

  /** The header and the rows are those of the chunks. */
  ghost predicate ShowsRows(e: Evidence, codec: Codec) {
    && |e.pieces| > 0 && |e.pieces[0].payload| == 13 && e.header == ParsedHeader(e.pieces[0].payload)
    && RowsInflate(e.header, codec.inflate(DataOf(e.pieces)), e.rows)
  }

  ghost predicate RowsInflate(h: Header, raw: Result<seq<Byte>>, rows: seq<Row>) {
    && ColorChannels(h.color).Some? && raw.Ok?
    && var channels := ColorChannels(h.color).value;
    Scanlines(raw.value, ZeroRow(h.width * channels), channels, h.height) == Ok(rows)
  }

  /** Decodes a file, and accepts it exactly if complete chunks tile it and what they hold is sound. */
  method DecodePng(data: seq<Byte>, codec: Codec) returns (r: Check<Evidence>)
    ensures r.Accepted? <==> Acceptable(data, codec)
    ensures r.Accepted? ==>
      && Tiles(data, r.value.pieces, codec) && Complete(r.value.pieces) && Sound(r.value.pieces, codec)
      && ShowsRows(r.value, codec)
  {
    hide Tiles, Complete, Tiled, ParsedHeader, Scanlines, FiltersKnown, DataOf;
    if !(PNG_SIGNATURE <= data) {
      assert forall all :: !Tiles(data, all, codec) by { NoSignature(data, codec); }
      return Rejected;
    }
    var read := ReadPieces(data, codec);
    if read.Rejected? {
      assert !Acceptable(data, codec) by { NotTiled(data, codec); }
      return Rejected;
    }
    var pieces, h := read.value.pieces, read.value.header;
    CompleteHeader(pieces);
    assert Acceptable(data, codec) <==> Sound(pieces, codec);
    if h.width <= 0 || h.height <= 0 { return Rejected; }
    if h.width * h.height > PNG_MAX_PIXELS { return Rejected; }
    if h.depth != 8 { return Rejected; }
    if ColorChannels(h.color).None? { return Rejected; }
    if h.compression != 0 || h.filterMethod != 0 || h.interlace != 0 { return Rejected; }
    var channels := ColorChannels(h.color).value;
    var stride := h.width * channels;
    Positive(h.width, channels);
    var raw := codec.inflate(read.value.compressed);
    if raw.Err? || |raw.value| != h.height * (stride + 1) { return Rejected; }
    ExactStreamFails(raw.value, ZeroRow(stride), channels, h.height);
    var rows := ReconstructRows(raw.value, stride, channels, h.height);
    if rows.Err? { return Rejected; }
    return Accepted(Evidence(h, pieces, rows.value));
  }

  lemma Positive(n: int, k: int)
    requires n > 0 && k > 0
    ensures n * k > 0
  {
  }

  lemma NoSignature(data: seq<Byte>, codec: Codec)
    requires !(PNG_SIGNATURE <= data)
    ensures forall all :: !Tiles(data, all, codec)
  {
  }

  lemma NotTiled(data: seq<Byte>, codec: Codec)
    requires !Tiled(data, codec)
    ensures !Acceptable(data, codec)
  {
  }
}
