/** A text buffer seen as its lines. The flat text is the lines joined by
    newlines, so a buffer always has at least one (possibly empty) line.

    The host's `rowcol(point)` and `text_point(row, col)` become RowCol and
    TextPoint below. Modelling assumption: `text_point` CLAMPS the column to
    the length of its line, `Start(row) + min(col, |line|)`. The plugin code
    never clamps a column itself; it relies on the host for this, and it is
    what keeps every rectangle span inside its own line. */
module Lines {
  import opened Regions

  predicate NoNewline(s: string) { '\n' !in s }

  /** Lines as they come from splitting a text at its newlines. */
  predicate WellFormed(lines: seq<string>)
  {
    |lines| >= 1 && forall i :: 0 <= i < |lines| ==> NoNewline(lines[i])
  }

  /** The flat text of the buffer. */
  function Join(lines: seq<string>): string
    requires |lines| >= 1
    decreases |lines|
  {
    if |lines| == 1 then lines[0] else lines[0] + "\n" + Join(lines[1..])
  }

  /** Offset of the first character of line `row` in the flat text. */
  function Start(lines: seq<string>, row: nat): nat
    requires row < |lines|
    decreases row
  {
    if row == 0 then 0 else |lines[0]| + 1 + Start(lines[1..], row - 1)
  }

  /** The host's `text_point(row, col)`, with the column clamped to the line. */
  function TextPoint(lines: seq<string>, row: nat, col: nat): nat
    requires row < |lines|
  {
    Start(lines, row) + Min(col, |lines[row]|)
  }

  datatype Pos = Pos(row: nat, col: nat)

  /** The host's `rowcol(point)`: the line holding a point and its column.
      A point on a newline belongs to the line that the newline ends. */
  function RowCol(lines: seq<string>, p: nat): (r: Pos)
    requires |lines| >= 1 && p <= |Join(lines)|
    ensures r.row < |lines| && r.col <= |lines[r.row]|
    ensures TextPoint(lines, r.row, r.col) == p
    decreases |lines|
  {
    if |lines| == 1 || p <= |lines[0]| then Pos(0, p)
    else
      var q := RowCol(lines[1..], p - |lines[0]| - 1);
      Pos(q.row + 1, q.col)
  }

  /** Line `row` sits in the flat text at its Start offset. */
  lemma {:induction false} LineInText(lines: seq<string>, row: nat)
    requires row < |lines|
    ensures Start(lines, row) + |lines[row]| <= |Join(lines)|
    ensures Join(lines)[Start(lines, row)..Start(lines, row) + |lines[row]|] == lines[row]
    decreases row
  {
    if row > 0 {
      var rest := lines[1..];
      LineInText(rest, row - 1);
      var s := Start(rest, row - 1);
      var pre := lines[0] + "\n";
      assert Join(lines) == pre + Join(rest);
      assert Join(lines)[|pre| + s..|pre| + s + |rest[row - 1]|] == Join(rest)[s..s + |rest[row - 1]|];
    }
  }

  /** RowCol undoes TextPoint: the point `text_point(row, col)` lies on `row`,
      at the clamped column. */
  lemma {:induction false} RowColOfTextPoint(lines: seq<string>, row: nat, col: nat)
    requires row < |lines|
    ensures TextPoint(lines, row, col) <= |Join(lines)|
    ensures RowCol(lines, TextPoint(lines, row, col)) == Pos(row, Min(col, |lines[row]|))
    decreases row
  {
    LineInText(lines, row);
    if row > 0 {
      RowColOfTextPoint(lines[1..], row - 1, col);
    }
  }

  /** Later points never lie on earlier rows. */
  lemma {:induction false} RowColMonotone(lines: seq<string>, p: nat, q: nat)
    requires |lines| >= 1 && p <= q <= |Join(lines)|
    ensures RowCol(lines, p).row <= RowCol(lines, q).row
    decreases |lines|
  {
    if |lines| > 1 && p > |lines[0]| {
      RowColMonotone(lines[1..], p - |lines[0]| - 1, q - |lines[0]| - 1);
    }
  }

  /** Replacing the columns [i, j) of one line by `ins` is the same as
      replacing the flat-text span from TextPoint(row, i) to TextPoint(row, j):
      this is what the host's erase and insert do when both ends of the span
      are on one line. */
  lemma {:induction false} SpliceLine(lines: seq<string>, row: nat, i: nat, j: nat, ins: string)
    requires row < |lines| && i <= j <= |lines[row]|
    ensures Start(lines, row) + j <= |Join(lines)|
    ensures Join(lines[row := lines[row][..i] + ins + lines[row][j..]])
         == Join(lines)[..Start(lines, row) + i] + ins + Join(lines)[Start(lines, row) + j..]
    decreases row
  {
    LineInText(lines, row);
    var line' := lines[row][..i] + ins + lines[row][j..];
    var lines' := lines[row := line'];
    if row == 0 {
      if |lines| > 1 {
        assert lines'[1..] == lines[1..];
        var tail := "\n" + Join(lines[1..]);
        assert Join(lines) == lines[0] + tail;
        assert Join(lines)[..i] == lines[0][..i];
        assert Join(lines)[j..] == lines[0][j..] + tail;
      }
    } else {
      var rest := lines[1..];
      assert lines'[1..] == rest[row - 1 := line'];
      SpliceLine(rest, row - 1, i, j, ins);
      var pre := lines[0] + "\n";
      var s := Start(rest, row - 1);
      assert Join(lines) == pre + Join(rest);
      assert Join(lines)[..|pre| + s + i] == pre + Join(rest)[..s + i];
      assert Join(lines)[|pre| + s + j..] == Join(rest)[s + j..];
    }
  }

  /** Splicing a newline-free text into a line keeps the lines well formed. */
  lemma SpliceKeepsWellFormed(lines: seq<string>, row: nat, i: nat, j: nat, ins: string)
    requires WellFormed(lines) && NoNewline(ins)
    requires row < |lines| && i <= j <= |lines[row]|
    ensures WellFormed(lines[row := lines[row][..i] + ins + lines[row][j..]])
  {
  }
}
