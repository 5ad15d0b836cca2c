/** Reconstructing the scanlines of an image: two separately written loops with the same outcome. */
module PngScanlines {
  import opened Bytes
  import opened PngFilter

  function Following<T>(rows: seq<T>, r: Result<seq<T>>): Result<seq<T>> {
    if r.Ok? then Ok(rows + r.value) else r
  }

  /** The rows that a stream of filter bytes and differences stands for. */
  function Scanlines(raw: seq<Byte>, prior: Row, bpp: nat, height: nat): (r: Result<seq<Row>>)
    requires bpp > 0
    ensures r.Ok? ==> |r.value| == height && forall k :: 0 <= k < height ==> |r.value[k]| == |prior|
    decreases height
  {
    var stride := |prior|;
    if height == 0 then Ok([])
    else if raw == [] then Err(MissingRows)
    else if |raw| < 1 + stride then Err(TruncatedRow)
    else if raw[0] > 4 && stride > 0 then Err(UnsupportedFilter)
    else
      var row := if stride == 0 then [] else Restored(raw[0], raw[1..1 + stride], prior, bpp, stride);
      Following([row], Scanlines(raw[1 + stride..], row, bpp, height - 1))
  }

  lemma FollowingTwice<T>(rows: seq<T>, more: seq<T>, r: Result<seq<T>>)
    ensures Following(rows, Following(more, r)) == Following(rows + more, r)
  {
    if r.Ok? {
      assert rows + (more + r.value) == rows + more + r.value;
    }
  }

  lemma FollowingNothing<T>(r: Result<seq<T>>)
    ensures Following([], r) == r
  {
    if r.Ok? {
      assert [] + r.value == r.value;
    }
  }

  lemma NextScanline(raw: seq<Byte>, prior: Row, bpp: nat, height: nat, row: Row)
    requires bpp > 0 && height > 0 && |raw| >= 1 + |prior| && (|prior| > 0 ==> raw[0] <= 4)
    requires row == if |prior| == 0 then [] else Restored(raw[0], raw[1..1 + |prior|], prior, bpp, |prior|)
    ensures Scanlines(raw, prior, bpp, height)
      == Following([row], Scanlines(raw[1 + |prior|..], row, bpp, height - 1))
  {
  }

  /** The loop of the sweep script: each row is cut out and its filter undone. */
  method SourceRows(raw: seq<Byte>, stride: nat, channels: nat, height: nat) returns (r: Result<seq<Row>>)
    requires channels > 0
    ensures r == Scanlines(raw, ZeroRow(stride), channels, height)
  {
    hide Restored, Scanlines;
    var sourceRows: seq<Row>, previous: Row := [], [];
    var sourceOffset := 0;
    ghost var goal := Scanlines(raw, ZeroRow(stride), channels, height);
    assert raw[0..] == raw;
    FollowingNothing(goal);
    for rowIndex := 0 to height
      invariant 0 <= sourceOffset <= |raw| && (previous == [] || |previous| == stride)
      invariant goal
        == Following(sourceRows, Scanlines(raw[sourceOffset..], Prior(previous, stride), channels, height - rowIndex))
    {
      ghost var rest, prior := raw[sourceOffset..], Prior(previous, stride);
      assert rest == [] ==> Scanlines(rest, prior, channels, height - rowIndex) == Err(MissingRows) by {
        BadScanline(rest, prior, channels, height - rowIndex);
      }
      if sourceOffset >= |raw| { return Err(MissingRows); }
      var filter := raw[sourceOffset];
      assert filter == rest[0];
      sourceOffset := sourceOffset + 1;
      var row :=
        if sourceOffset + stride <= |raw| then raw[sourceOffset..sourceOffset + stride] else raw[sourceOffset..];
      assert |row| != stride ==> Scanlines(rest, prior, channels, height - rowIndex) == Err(TruncatedRow) by {
        BadScanline(rest, prior, channels, height - rowIndex);
      }
      if |row| != stride { return Err(TruncatedRow); }
      sourceOffset := sourceOffset + stride;
      assert row == rest[1..1 + stride] && raw[sourceOffset..] == rest[1 + stride..];
      var decoded := PngUnfilter(filter, row, previous, channels);
      assert decoded.Err? ==> Scanlines(rest, prior, channels, height - rowIndex) == Err(UnsupportedFilter) by {
        BadScanline(rest, prior, channels, height - rowIndex);
      }
      if decoded.Err? { return Err(decoded.error); }
      assert Scanlines(rest, prior, channels, height - rowIndex)
        == Following([decoded.value], Scanlines(raw[sourceOffset..], decoded.value, channels, height - rowIndex - 1)) by {
        NoBytes(row, prior, channels);
        NextScanline(rest, prior, channels, height - rowIndex, decoded.value);
      }
      FollowingTwice(sourceRows, [decoded.value],
                     Scanlines(raw[sourceOffset..], decoded.value, channels, height - rowIndex - 1));
      assert Prior(decoded.value, stride) == decoded.value;
      sourceRows := sourceRows + [decoded.value];
      previous := decoded.value;
    }
    assert Scanlines(raw[sourceOffset..], Prior(previous, stride), channels, 0) == Ok([]) by {
      NoScanlines(raw[sourceOffset..], Prior(previous, stride), channels);
    }
    assert sourceRows + [] == sourceRows;
    return Ok(sourceRows);
  }

  lemma NoBytes(row: Row, prior: Row, bpp: nat)
    requires bpp > 0 && |row| == |prior|
    ensures row == [] ==> forall filter: nat :: filter <= 4 ==> Restored(filter, row, prior, bpp, |row|) == []
  {
  }

  lemma NoScanlines(raw: seq<Byte>, prior: Row, bpp: nat)
    requires bpp > 0
    ensures Scanlines(raw, prior, bpp, 0) == Ok([])
  {
  }

  lemma BadScanline(raw: seq<Byte>, prior: Row, bpp: nat, height: nat)
    requires bpp > 0 && height > 0
    ensures raw == [] ==> Scanlines(raw, prior, bpp, height) == Err(MissingRows)
    ensures 0 < |raw| < 1 + |prior| ==> Scanlines(raw, prior, bpp, height) == Err(TruncatedRow)
    ensures 1 + |prior| <= |raw| && raw[0] > 4 && |prior| > 0 ==> Scanlines(raw, prior, bpp, height) == Err(UnsupportedFilter)
  {
  }

  // ----- the other loop

  /** Reconstructs one row into a fresh buffer. */
  method ReconstructRow(filter: nat, filtered: Row, previous: Row, channels: nat) returns (reconstructed: Row)
    requires filter <= 4 && channels > 0 && |filtered| == |previous|
    ensures reconstructed == Restored(filter, filtered, previous, channels, |filtered|)
  {
    hide Restored, Paeth;
    var buffer := new Byte[|filtered|](_ => 0);
    assert Restored(filter, filtered, previous, channels, 0) == [];
    for index := 0 to |filtered|
      invariant buffer[..index] == Restored(filter, filtered, previous, channels, index)
    {
      var left := if channels <= index then buffer[index - channels] else 0;
      var above := previous[index];
      var upperLeft := if channels <= index then previous[index - channels] else 0;
      var predictor;
      if filter == 0 {
        predictor := 0;
      } else if filter == 1 {
        predictor := left;
      } else if filter == 2 {
        predictor := above;
      } else if filter == 3 {
        predictor := (left as int + above as int) / 2;
      } else {
        predictor := Paeth(left, above, upperLeft);
      }
      ghost var done := buffer[..index];
      assert predictor == Prediction(filter, done, previous, channels, index);
      assert Restored(filter, filtered, previous, channels, index + 1) == done + [(filtered[index] + predictor) % 0x100] by {
        RestoredNext(filter, filtered, previous, channels, index);
      }
      buffer[index] := (filtered[index] + predictor) % 0x100;
      assert buffer[..index + 1] == done + [buffer[index]];
    }
    reconstructed := buffer[..];
    assert reconstructed == buffer[..|filtered|];
  }

  /** The loop of the smoke script, for a stream of just the expected length. */
  method ReconstructRows(decoded: seq<Byte>, stride: nat, channels: nat, height: nat) returns (r: Result<seq<Row>>)
    requires channels > 0 && stride > 0 && |decoded| == height * (stride + 1)
    ensures r == Scanlines(decoded, ZeroRow(stride), channels, height)
  {
    hide Restored, Scanlines;
    var rows: seq<Row>, previous := [], ZeroRow(stride);
    var decodedOffset := 0;
    ghost var goal := Scanlines(decoded, ZeroRow(stride), channels, height);
    assert decoded[0..] == decoded;
    FollowingNothing(goal);
    for i := 0 to height
      invariant 0 <= decodedOffset <= |decoded| && |decoded| - decodedOffset == (height - i) * (stride + 1)
      invariant |previous| == stride
      invariant goal == Following(rows, Scanlines(decoded[decodedOffset..], previous, channels, height - i))
    {
      ghost var rest := decoded[decodedOffset..];
      assert |rest| == (stride + 1) + (height - i - 1) * (stride + 1) && |rest| >= stride + 1 by {
        Distribute(height - i - 1, stride + 1);
      }
      var filter := decoded[decodedOffset];
      assert filter == rest[0];
      decodedOffset := decodedOffset + 1;
      assert filter > 4 ==> Scanlines(rest, previous, channels, height - i) == Err(UnsupportedFilter) by {
        BadScanline(rest, previous, channels, height - i);
      }
      if filter > 4 { return Err(UnsupportedFilter); }
      var filtered := decoded[decodedOffset..decodedOffset + stride];
      decodedOffset := decodedOffset + stride;
      assert filtered == rest[1..1 + stride] && decoded[decodedOffset..] == rest[1 + stride..];
      var row := ReconstructRow(filter, filtered, previous, channels);
      assert Scanlines(rest, previous, channels, height - i)
        == Following([row], Scanlines(decoded[decodedOffset..], row, channels, height - i - 1)) by {
        NextScanline(rest, previous, channels, height - i, row);
      }
      FollowingTwice(rows, [row], Scanlines(decoded[decodedOffset..], row, channels, height - i - 1));
      rows := rows + [row];
      previous := row;
    }
    assert Scanlines(decoded[decodedOffset..], previous, channels, 0) == Ok([]) by {
      NoScanlines(decoded[decodedOffset..], previous, channels);
    }
    assert rows + [] == rows;
    return Ok(rows);
  }

  lemma Distribute(n: nat, k: nat)
    ensures (n + 1) * k == k + n * k && n * k >= 0
  {
  }

  /** The rows of a stream all begin with the number of a filter. */
  predicate FiltersKnown(raw: seq<Byte>, stride: nat, height: nat) {
    height == 0 || (1 + stride <= |raw| && raw[0] <= 4 && FiltersKnown(raw[1 + stride..], stride, height - 1))
  }

  /** When the stream has just the expected length, only an unknown filter stops the reconstruction. */
  lemma {:induction false} ExactStreamFails(raw: seq<Byte>, prior: Row, bpp: nat, height: nat)
    requires bpp > 0 && |prior| > 0 && |raw| == height * (|prior| + 1)
    ensures Scanlines(raw, prior, bpp, height).Ok? <==> FiltersKnown(raw, |prior|, height)
    ensures Scanlines(raw, prior, bpp, height).Err? ==> Scanlines(raw, prior, bpp, height).error == UnsupportedFilter
    decreases height
  {
    hide Restored;
    if height > 0 {
      Distribute(height - 1, |prior| + 1);
      if raw[0] <= 4 {
        ExactStreamFails(raw[1 + |prior|..], Restored(raw[0], raw[1..1 + |prior|], prior, bpp, |prior|), bpp, height - 1);
      }
    }
  }
}
