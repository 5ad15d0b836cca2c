/** The scanline filters of PNG (section 6 of RFC 2083), and the two programs that undo them. */
module PngFilter {
  import opened Bytes

  type Row = seq<Byte>

  function Abs(x: int): nat {
    if x < 0 then -x else x
  }

  function Paeth(left: int, up: int, upLeft: int): int {
    var p := left + up - upLeft;
    var pa, pb, pc := Abs(p - left), Abs(p - up), Abs(p - upLeft);
    if pa <= pb && pa <= pc then left else if pb <= pc then up else upLeft
  }

  /** The Paeth predictor is the neighbour that is nearest to the estimate, and among those that are
      equally near the first of left, up and upper left. */
  lemma PaethIsNearest(left: int, up: int, upLeft: int)
    ensures var p, r := left + up - upLeft, Paeth(left, up, upLeft);
      && r in {left, up, upLeft}
      && Abs(p - r) <= Abs(p - left) && Abs(p - r) <= Abs(p - up) && Abs(p - r) <= Abs(p - upLeft)
      && (Abs(p - r) == Abs(p - left) ==> r == left)
      && (Abs(p - r) == Abs(p - up) && r != left ==> r == up)
  {
  }

  /** The prediction that a filter makes from the neighbours of a byte. */
  function Predictor(filter: nat, left: Byte, up: Byte, upLeft: Byte): int
    requires filter <= 4
  {
    match filter
    case 0 => 0
    case 1 => left
    case 2 => up
    case 3 => (left as int + up as int) / 2
    case _ => Paeth(left, up, upLeft)
  }

  /** The byte bpp places before place i, or 0 at the beginning of a row. */
  function Before(row: Row, i: nat, bpp: nat): Byte
    requires i <= |row| && bpp > 0
  {
    if bpp <= i then row[i - bpp] else 0
  }

  function Prediction(filter: nat, row: Row, prior: Row, bpp: nat, i: nat): int
    requires filter <= 4 && bpp > 0 && i <= |row| && i < |prior|
  {
    Predictor(filter, Before(row, i, bpp), prior[i], Before(prior, i, bpp))
  }

  /** What an encoder writes for a row: the differences from the predictions. */
  function Filtered(filter: nat, raw: Row, prior: Row, bpp: nat): Row
    requires filter <= 4 && bpp > 0 && |prior| == |raw|
  {
    seq(|raw|, i requires 0 <= i < |raw| => (raw[i] - Prediction(filter, raw, prior, bpp, i)) % 0x100)
  }

  /** The first n bytes of the row that these differences stand for. */
  function Restored(filter: nat, row: Row, prior: Row, bpp: nat, n: nat): (r: Row)
    requires filter <= 4 && bpp > 0 && n <= |row| == |prior|
    ensures |r| == n
    decreases n
  {
    if n == 0 then []
    else
      var done := Restored(filter, row, prior, bpp, n - 1);
      done + [(row[n - 1] + Prediction(filter, done, prior, bpp, n - 1)) % 0x100]
  }

  lemma RestoredNext(filter: nat, row: Row, prior: Row, bpp: nat, i: nat)
    requires filter <= 4 && bpp > 0 && i < |row| == |prior|
    ensures var done := Restored(filter, row, prior, bpp, i);
      Restored(filter, row, prior, bpp, i + 1) == done + [(row[i] + Prediction(filter, done, prior, bpp, i)) % 0x100]
  {
  }

  lemma PredictionOfPrefix(filter: nat, row: Row, prior: Row, bpp: nat, i: nat)
    requires filter <= 4 && bpp > 0 && i < |row| == |prior|
    ensures Prediction(filter, row[..i], prior, bpp, i) == Prediction(filter, row, prior, bpp, i)
  {
  }

  lemma AddBack(x: Byte, p: int)
    ensures ((x - p) % 0x100 + p) % 0x100 == x
    ensures ((x + p) % 0x100 - p) % 0x100 == x
  {
    SameByte(x, (x - p) / 0x100);
    SameByte(x, (x + p) / 0x100);
    assert (x - p) % 0x100 + p == x - 0x100 * ((x - p) / 0x100);
    assert (x + p) % 0x100 - p == x - 0x100 * ((x + p) / 0x100);
  }

  lemma SameByte(x: Byte, k: int)
    ensures (x - 0x100 * k) % 0x100 == x
  {
  }

  /** Restoring undoes filtering. */
  lemma {:induction false} RestoredFiltered(filter: nat, raw: Row, prior: Row, bpp: nat, n: nat)
    requires filter <= 4 && bpp > 0 && n <= |raw| == |prior|
    ensures Restored(filter, Filtered(filter, raw, prior, bpp), prior, bpp, n) == raw[..n]
    decreases n
  {
    hide Prediction;
    if n > 0 {
      RestoredFiltered(filter, raw, prior, bpp, n - 1);
      PredictionOfPrefix(filter, raw, prior, bpp, n - 1);
      AddBack(raw[n - 1], Prediction(filter, raw, prior, bpp, n - 1));
      assert raw[..n] == raw[..n - 1] + [raw[n - 1]];
    }
  }

  lemma {:induction false} RestoredPrefix(filter: nat, row: Row, prior: Row, bpp: nat, n: nat, m: nat)
    requires filter <= 4 && bpp > 0 && n <= m <= |row| == |prior|
    ensures Restored(filter, row, prior, bpp, m)[..n] == Restored(filter, row, prior, bpp, n)
    decreases m
  {
    if n < m {
      RestoredPrefix(filter, row, prior, bpp, n, m - 1);
    }
  }

  /** Filtering undoes restoring: no two rows of differences stand for the same row. */
  lemma FilteredRestored(filter: nat, row: Row, prior: Row, bpp: nat)
    requires filter <= 4 && bpp > 0 && |row| == |prior|
    ensures Filtered(filter, Restored(filter, row, prior, bpp, |row|), prior, bpp) == row
  {
    hide Restored, Prediction;
    var raw := Restored(filter, row, prior, bpp, |row|);
    forall i | 0 <= i < |row|
      ensures Filtered(filter, raw, prior, bpp)[i] == row[i]
    {
      RestoredPrefix(filter, row, prior, bpp, i, |row|);
      RestoredPrefix(filter, row, prior, bpp, i + 1, |row|);
      PredictionOfPrefix(filter, raw, prior, bpp, i);
      RestoredNext(filter, row, prior, bpp, i);
      AddBack(row[i], Prediction(filter, raw, prior, bpp, i));
      assert raw[i] == raw[..i + 1][i];
    }
  }

  // ----- one row

  datatype PngError =
    | NotPng | BadHeader | MissingHeader | UnsupportedDepth | Interlaced | UnsupportedColor | BadStream
    | MissingRows | TruncatedRow | UnsupportedFilter | MissingPalette | PaletteIndex
    | BadDimensions | BadPixels | TooLong

  datatype Result<T> = Ok(value: T) | Err(error: PngError)

  function ZeroRow(n: nat): Row {
    seq(n, _ => 0)
  }

  /** The row above: before the first row there is none, and all its bytes count as 0. */
  function Prior(previous: Row, n: nat): (r: Row)
    requires previous == [] || |previous| == n
    ensures |r| == n
  {
    if previous == [] then ZeroRow(n) else previous
  }

  /** Undoes the filter of a row, in place in a copy of the row. */
  method PngUnfilter(filter: nat, row: Row, previous: Row, bpp: nat) returns (r: Result<Row>)
    requires bpp > 0 && (previous == [] || |previous| == |row|)
    ensures r == if filter <= 4 then Ok(Restored(filter, row, Prior(previous, |row|), bpp, |row|))
                 else if row == [] then Ok([]) else Err(UnsupportedFilter)
  {
    hide Restored, Paeth;
    ghost var prior := Prior(previous, |row|);
    if filter == 0 {
      assert row[..|row|] == row;
      assert Restored(0, row, prior, bpp, |row|) == row by { RestoredNone(row, prior, bpp, |row|); }
      return Ok(row);
    }
    var out := new Byte[|row|](i requires 0 <= i < |row| => row[i]);
    assert out[..] == row;
    assert filter <= 4 ==> Restored(filter, row, prior, bpp, 0) == [];
    var i := 0;
    while i < |row|
      invariant 0 <= i <= |row| && (i > 0 ==> filter <= 4)
      invariant out[i..] == row[i..]
      invariant filter <= 4 ==> out[..i] == Restored(filter, row, prior, bpp, i)
    {
      var value := row[i];
      var left := if bpp <= i then out[i - bpp] else 0;
      var up := if previous != [] then previous[i] else 0;
      var upLeft := if previous != [] && bpp <= i then previous[i - bpp] else 0;
      var predictor;
      if filter == 1 {
        predictor := left;
      } else if filter == 2 {
        predictor := up;
      } else if filter == 3 {
        predictor := (left as int + up as int) / 2;
      } else if filter == 4 {
        predictor := Paeth(left, up, upLeft);
      } else {
        return Err(UnsupportedFilter);
      }
      ghost var done := out[..i];
      assert predictor == Prediction(filter, done, prior, bpp, i);
      assert Restored(filter, row, prior, bpp, i + 1) == done + [(value + predictor) % 0x100] by {
        RestoredNext(filter, row, prior, bpp, i);
      }
      out[i] := (value + predictor) % 0x100;
      assert out[..i + 1] == done + [out[i]];
      i := i + 1;
    }
    assert out[..] == out[..i];
    return Ok(out[..]);
  }

  lemma {:induction false} RestoredNone(row: Row, prior: Row, bpp: nat, n: nat)
    requires bpp > 0 && n <= |row| == |prior|
    ensures Restored(0, row, prior, bpp, n) == row[..n]
    decreases n
  {
    if n > 0 {
      RestoredNone(row, prior, bpp, n - 1);
    }
  }
}
