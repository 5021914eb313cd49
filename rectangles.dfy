/** Emacs-style rectangles: the column range spanned by the first selection,
    applied to every line from the selection's first row to its last. */
module Rectangles {
  import opened Regions
  import opened Lines

  /** Rows top..bot inclusive, columns [left, right). */
  datatype Rect = Rect(top: nat, bot: nat, left: nat, right: nat)

  /** The rectangle with corners at the two endpoints of a selection:
      rows from the begin point's row to the end point's row, columns from
      the smaller of the two columns to the larger. */
  function Normalize(b: Pos, e: Pos): (r: Rect)
    ensures r.left <= r.right
    ensures r.left in {b.col, e.col} && r.right in {b.col, e.col}
    ensures r.left <= b.col && r.left <= e.col && b.col <= r.right && e.col <= r.right
    ensures r.top == b.row && r.bot == e.row
  {
    Rect(b.row, e.row, Min(b.col, e.col), Max(b.col, e.col))
  }

  /** Swapping the two endpoint columns gives the same rectangle. */
  lemma NormalizeSwapColumns(b: Pos, e: Pos)
    ensures Normalize(b, e) == Normalize(Pos(b.row, e.col), Pos(e.row, b.col))
  {
  }

  /** The rectangle of a selection, through the host's `rowcol`. */
  function Bounds(lines: seq<string>, sel: Region): (r: Rect)
    requires |lines| >= 1 && sel.End() <= |Join(lines)|
    ensures r.top <= r.bot < |lines|
    ensures r.top == RowCol(lines, sel.Begin()).row && r.bot == RowCol(lines, sel.End()).row
    ensures var bc, ec := RowCol(lines, sel.Begin()).col, RowCol(lines, sel.End()).col;
      && r.left <= r.right
      && r.left in {bc, ec} && r.right in {bc, ec}
      && r.left <= bc && r.left <= ec && bc <= r.right && ec <= r.right
    ensures TextPoint(lines, r.top, RowCol(lines, sel.Begin()).col) == sel.Begin()
    ensures TextPoint(lines, r.bot, RowCol(lines, sel.End()).col) == sel.End()
  {
    RowColMonotone(lines, sel.Begin(), sel.End());
    Normalize(RowCol(lines, sel.Begin()), RowCol(lines, sel.End()))
  }

  /** A selection made from either end gives the same rectangle. */
  lemma BoundsOrderInvariant(lines: seq<string>, a: nat, b: nat)
    requires |lines| >= 1 && a <= |Join(lines)| && b <= |Join(lines)|
    ensures Bounds(lines, Region(a, b)) == Bounds(lines, Region(b, a))
  {
  }

  /** A bare cursor gives a rectangle one row high and zero columns wide. */
  lemma BoundsOfCursor(lines: seq<string>, p: nat)
    requires |lines| >= 1 && p <= |Join(lines)|
    ensures Bounds(lines, Cursor(p)).top == Bounds(lines, Cursor(p)).bot
    ensures Bounds(lines, Cursor(p)).left == Bounds(lines, Cursor(p)).right
  {
  }

  /** One row after the rectangle's columns are erased. A row shorter than
      `left` has nothing in the range and keeps all its text. */
  function DeleteSpan(line: string, left: nat, right: nat): (r: string)
    requires left <= right
    ensures |line| <= left ==> r == line
    ensures left == right ==> r == line
    ensures |r| == |line| - (Min(right, |line|) - Min(left, |line|))
    ensures r[..Min(left, |line|)] == line[..Min(left, |line|)]
    ensures r[Min(left, |line|)..] == line[Min(right, |line|)..]
  {
    line[..Min(left, |line|)] + line[Min(right, |line|)..]
  }

  /** One row after the rectangle's columns are replaced by `content`.
      The content goes in even where nothing was erased, so a short row
      gets it at its end. */
  function InsertSpan(line: string, left: nat, right: nat, content: string): string
    requires left <= right
  {
    line[..Min(left, |line|)] + content + line[Min(right, |line|)..]
  }

  /** The replaced row keeps the text left of the rectangle, then holds
      `content`, then the text right of the rectangle; its length is the
      erased row's plus the content's. */
  lemma InsertSpanLayout(line: string, left: nat, right: nat, content: string)
    requires left <= right
    ensures var r, m := InsertSpan(line, left, right, content), Min(left, |line|);
      && |r| == |DeleteSpan(line, left, right)| + |content|
      && r[..m] == line[..m]
      && r[m..m + |content|] == content
      && r[m + |content|..] == line[Min(right, |line|)..]
  {
  }

  /** Insert-with-replace on a row is an erase followed by an insertion at
      the (re-clamped) left column of the shortened row, as the source
      performs it. */
  lemma InsertIsEraseThenInsert(line: string, left: nat, right: nat, content: string)
    requires left <= right
    ensures var d := DeleteSpan(line, left, right);
      InsertSpan(line, left, right, content) == d[..Min(left, |d|)] + content + d[Min(left, |d|)..]
  {
  }

  /** The lines after a rectangle delete. */
  function DeleteRect(lines: seq<string>, rect: Rect): (r: seq<string>)
    requires rect.left <= rect.right
    ensures |r| == |lines|
    ensures forall l :: 0 <= l < |lines| && (l < rect.top || rect.bot < l) ==> r[l] == lines[l]
    ensures forall l :: 0 <= l < |lines| && |lines[l]| <= rect.left ==> r[l] == lines[l]
    ensures forall l :: rect.top <= l <= rect.bot && l < |lines| ==>
      r[l] == DeleteSpan(lines[l], rect.left, rect.right)
  {
    seq(|lines|, l requires 0 <= l < |lines| =>
      if rect.top <= l <= rect.bot then DeleteSpan(lines[l], rect.left, rect.right) else lines[l])
  }

  /** The lines after a rectangle insert-with-replace. */
  function InsertRect(lines: seq<string>, rect: Rect, content: string): (r: seq<string>)
    requires rect.left <= rect.right
    ensures |r| == |lines|
    ensures forall l :: 0 <= l < |lines| && (l < rect.top || rect.bot < l) ==> r[l] == lines[l]
    ensures forall l :: rect.top <= l <= rect.bot && l < |lines| ==>
      r[l] == InsertSpan(lines[l], rect.left, rect.right, content)
  {
    seq(|lines|, l requires 0 <= l < |lines| =>
      if rect.top <= l <= rect.bot then InsertSpan(lines[l], rect.left, rect.right, content) else lines[l])
  }

  /** A zero-width rectangle deletes nothing. */
  lemma DeleteZeroWidth(lines: seq<string>, rect: Rect)
    requires rect.left == rect.right
    ensures DeleteRect(lines, rect) == lines
  {
  }

  /** A worked delete. The column range 1..4 is clamped on the short row
      "xy", so its second character is erased. */
  lemma DeleteExample()
    ensures DeleteRect(["abcdef", "xy", "qrstuv"], Rect(0, 2, 1, 4)) == ["aef", "x", "quv"]
  {
    var r := DeleteRect(["abcdef", "xy", "qrstuv"], Rect(0, 2, 1, 4));
    assert r[0] == "a" + "ef" == "aef";
    assert r[1] == "x" + "" == "x";
    assert r[2] == "q" + "uv" == "quv";
  }

  /** The same rows replaced by "Z". */
  lemma InsertExample()
    ensures InsertRect(["abcdef", "xy", "qrstuv"], Rect(0, 2, 1, 4), "Z") == ["aZef", "xZ", "qZuv"]
  {
    var r := InsertRect(["abcdef", "xy", "qrstuv"], Rect(0, 2, 1, 4), "Z");
    assert r[0] == "a" + "Z" + "ef" == "aZef";
    assert r[1] == "x" + "Z" + "" == "xZ";
    assert r[2] == "q" + "Z" + "uv" == "qZuv";
  }

  /** The host's view of the text, held as its lines, with the two host
      primitives the rectangle commands use (erase and insert, both on flat
      offsets) and the two commands themselves. */
  class Buffer {
    var lines: seq<string>

    ghost predicate Valid()
      reads this
    {
      WellFormed(lines)
    }

    function Text(): string
      reads this
      requires Valid()
    {
      Join(lines)
    }

    constructor (initial: seq<string>)
      requires WellFormed(initial)
      ensures Valid() && lines == initial
    {
      lines := initial;
    }

    /** The host's `erase(region)`, for a region whose two ends lie on one line. */
    method Erase(r: Region)
      requires Valid() && r.End() <= |Text()|
      requires RowCol(lines, r.Begin()).row == RowCol(lines, r.End()).row
      modifies this
      ensures Valid()
      ensures Text() == old(Text())[..r.Begin()] + old(Text())[r.End()..]
      ensures var b, e := RowCol(old(lines), r.Begin()), RowCol(old(lines), r.End());
        lines == old(lines)[b.row := old(lines)[b.row][..b.col] + old(lines)[b.row][e.col..]]
    {
      var b, e := RowCol(lines, r.Begin()), RowCol(lines, r.End());
      SpliceLine(lines, b.row, b.col, e.col, "");
      SpliceKeepsWellFormed(lines, b.row, b.col, e.col, "");
      assert lines[b.row][..b.col] + "" + lines[b.row][e.col..] == lines[b.row][..b.col] + lines[b.row][e.col..];
      lines := lines[b.row := lines[b.row][..b.col] + lines[b.row][e.col..]];
    }

    /** The host's `insert(point, text)`, for a text without a newline. */
    method Insert(p: nat, s: string)
      requires Valid() && p <= |Text()| && NoNewline(s)
      modifies this
      ensures Valid()
      ensures Text() == old(Text())[..p] + s + old(Text())[p..]
      ensures var q := RowCol(old(lines), p);
        lines == old(lines)[q.row := old(lines)[q.row][..q.col] + s + old(lines)[q.row][q.col..]]
    {
      var q := RowCol(lines, p);
      SpliceLine(lines, q.row, q.col, q.col, s);
      SpliceKeepsWellFormed(lines, q.row, q.col, q.col, s);
      lines := lines[q.row := lines[q.row][..q.col] + s + lines[q.row][q.col..]];
    }

    /** One pass of the delete loop: erase the span from `text_point(row, left)`
        to `text_point(row, right)` unless it is empty. */
    method DeleteRow(row: nat, left: nat, right: nat)
      requires Valid() && row < |lines| && left <= right
      modifies this
      ensures Valid()
      ensures lines == old(lines)[row := DeleteSpan(old(lines)[row], left, right)]
    {
      RowColOfTextPoint(lines, row, left);
      RowColOfTextPoint(lines, row, right);
      var r := Region(TextPoint(lines, row, left), TextPoint(lines, row, right));
      if !r.Empty() {
        Erase(r);
      } else {
        assert lines[row] == DeleteSpan(lines[row], left, right);
      }
    }

    /** One pass of the insert loop: the same erase, then `content` inserted
        at `text_point(row, left)`, measured on the row after the erase. */
    method InsertRow(row: nat, left: nat, right: nat, content: string)
      requires Valid() && row < |lines| && left <= right && NoNewline(content)
      modifies this
      ensures Valid()
      ensures lines == old(lines)[row := InsertSpan(old(lines)[row], left, right, content)]
    {
      ghost var line := lines[row];
      DeleteRow(row, left, right);
      RowColOfTextPoint(lines, row, left);
      InsertIsEraseThenInsert(line, left, right, content);
      Insert(TextPoint(lines, row, left), content);
    }

    /** Erase the columns [left, right) of every row of the rectangle of the
        first selection. Without a selection the source fails on `sel()[0]`
        before any edit, which leaves the buffer as it was. */
    method RectangleDelete(sels: seq<Region>)
      requires Valid() && InBuffer(sels, |Text()|)
      modifies this
      ensures Valid()
      ensures |sels| == 0 ==> lines == old(lines)
      ensures |sels| > 0 ==> lines == DeleteRect(old(lines), Bounds(old(lines), sels[0]))
    {
      if |sels| == 0 {
        return;
      }
      var rect := Bounds(lines, sels[0]);
      ghost var orig := lines;
      var l := rect.top;
      while l <= rect.bot
        invariant Valid()
        invariant rect.top <= l <= rect.bot + 1
        invariant |lines| == |orig|
        invariant forall i :: 0 <= i < |lines| ==>
          lines[i] == if rect.top <= i < l then DeleteSpan(orig[i], rect.left, rect.right) else orig[i]
        decreases rect.bot + 1 - l
      {
        DeleteRow(l, rect.left, rect.right);
        l := l + 1;
      }
    }

    /** Replace the columns [left, right) of every row of the rectangle of
        the first selection by `content`: erase the span when it is not
        empty, then insert `content` at the left column of the row. */
    method RectangleInsert(sels: seq<Region>, content: string)
      requires Valid() && InBuffer(sels, |Text()|) && NoNewline(content)
      modifies this
      ensures Valid()
      ensures |sels| == 0 ==> lines == old(lines)
      ensures |sels| > 0 ==> lines == InsertRect(old(lines), Bounds(old(lines), sels[0]), content)
    {
      if |sels| == 0 {
        return;
      }
      var rect := Bounds(lines, sels[0]);
      ghost var orig := lines;
      var l := rect.top;
      while l <= rect.bot
        invariant Valid()
        invariant rect.top <= l <= rect.bot + 1
        invariant |lines| == |orig|
        invariant forall i :: 0 <= i < |lines| ==>
          lines[i] == if rect.top <= i < l then InsertSpan(orig[i], rect.left, rect.right, content) else orig[i]
        decreases rect.bot + 1 - l
      {
        InsertRow(l, rect.left, rect.right, content);
        l := l + 1;
      }
    }
  }
}
