/** Which rows of the resized image become lines of text. All three
  * renderers walk the rows top to bottom; in their compact mode they skip
  * every row with an odd index (the row is dropped, not blanked). */
module Frames {
  import opened Text
  import opened Arith

  /** Row `y` is written out unless odd rows are skipped and `y` is odd. */
  predicate Emitted(y: nat, skipOdd: bool)
  {
    !(skipOdd && y % 2 == 1)
  }

  /** Number of lines written for an image `height` rows tall. */
  function RowCount(height: nat, skipOdd: bool): nat
  {
    if skipOdd then (height + 1) / 2 else height
  }

  /** The image row that the `i`-th written line comes from. */
  function SourceRow(i: nat, skipOdd: bool): nat
  {
    if skipOdd then 2 * i else i
  }

  /** The rows that are written out, in order: line `i` of the output
    * comes from row `SourceRow(i)`. */
  function Keep<T>(rows: seq<T>, skipOdd: bool): (kept: seq<T>)
    ensures |kept| == RowCount(|rows|, skipOdd)
  {
    seq(RowCount(|rows|, skipOdd), i requires 0 <= i < RowCount(|rows|, skipOdd) => rows[SourceRow(i, skipOdd)])
  }

  /** The layout above is what the renderers' loops build: going from
    * `n` rows to `n + 1`, the new row is appended exactly when it is
    * emitted (the `continue` on odd rows skips it otherwise). */
  lemma KeepSnoc<T>(rows: seq<T>, row: T, skipOdd: bool)
    ensures Keep(rows + [row], skipOdd)
      == Keep(rows, skipOdd) + (if Emitted(|rows|, skipOdd) then [row] else [])
  {
    var n := |rows|;
    var longer, shorter := Keep(rows + [row], skipOdd), Keep(rows, skipOdd);
    var tail := if Emitted(n, skipOdd) then [row] else [];
    assert RowCount(n + 1, skipOdd) == RowCount(n, skipOdd) + |tail|;
    forall i | 0 <= i < |longer|
      ensures longer[i] == (shorter + tail)[i]
    {
      if i < |shorter| {
        assert SourceRow(i, skipOdd) < n;
      } else {
        assert SourceRow(i, skipOdd) == n;
      }
    }
  }

  /** The text written after one more row: the row and a newline are
    * appended exactly when the row is emitted. */
  lemma KeptTextSnoc(rows: seq<string>, row: string, skipOdd: bool)
    ensures Unlines(Keep(rows + [row], skipOdd))
      == if Emitted(|rows|, skipOdd) then Unlines(Keep(rows, skipOdd)) + row + "\n"
         else Unlines(Keep(rows, skipOdd))
  {
    KeepSnoc(rows, row, skipOdd);
    if Emitted(|rows|, skipOdd) {
      UnlinesSnoc(Keep(rows, skipOdd), row);
    } else {
      assert Keep(rows + [row], skipOdd) == Keep(rows, skipOdd);
    }
  }

  /** `Keep` writes exactly the emitted rows, in order: every line comes
    * from an emitted row, later lines from later rows, and every emitted
    * row becomes some line. */
  lemma KeepsExactlyEmitted<T>(rows: seq<T>, skipOdd: bool)
    ensures var kept := Keep(rows, skipOdd);
      (forall i :: 0 <= i < |kept| ==>
        SourceRow(i, skipOdd) < |rows| && Emitted(SourceRow(i, skipOdd), skipOdd) &&
        kept[i] == rows[SourceRow(i, skipOdd)]) &&
      (forall i, j :: 0 <= i < j < |kept| ==> SourceRow(i, skipOdd) < SourceRow(j, skipOdd)) &&
      (forall y :: 0 <= y < |rows| && Emitted(y, skipOdd) ==>
        exists i :: 0 <= i < |kept| && SourceRow(i, skipOdd) == y)
  {
    var kept := Keep(rows, skipOdd);
    forall y | 0 <= y < |rows| && Emitted(y, skipOdd)
      ensures exists i :: 0 <= i < |kept| && SourceRow(i, skipOdd) == y
    {
      var i := if skipOdd then y / 2 else y;
      assert SourceRow(i, skipOdd) == y;
    }
  }

  /** Row `y` of a grid `width` cells wide starts `y * width` cells in and
    * ends inside a grid of `height` rows. */
  lemma {:induction false} RowInGrid(y: nat, height: nat, width: nat)
    requires y < height
    ensures y * width + width <= width * height
  {
    calc {
      y * width + width;
      (y + 1) * width;
    <= { MulMonotone(y + 1, height, width); }
      width * height;
    }
  }
}
