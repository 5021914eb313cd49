# Registers and rectangles of an Emacs-style editing plugin, in Dafny

This project models the two stateful cores of `sbp.py`, a plugin that adds
Emacs-style editing to a host text editor:

- **Registers.** A process-wide store maps register keys to text snapshots.
  Reading a key that was never stored gives the empty text, not an error.
  Two prompt handlers use the store. *Capture* copies the text under the single
  selection into a register. *Insert* replaces the single selection with a
  register's text. It then leaves a cursor just after that text, measured from
  the start the selection had before the replacement.
- **Rectangles.** The first selection's two endpoints are turned into a row
  range `top..bot` and a column range `[left, right)`. *Rectangle delete*
  erases that column range on every row of the range. *Rectangle insert*
  erases it and then inserts a given text at the left column of every row.
  A row shorter than the range loses only what it has. The content is still
  inserted on it, at its clamped column.

Files:

- `regions.dfy` (module `Regions`): the host's selection region and its `begin()`/`end()`.
- `registers.dfy` (module `Registers`): the store as a class over a
  `map<string, string>`, and the two handlers over a flat buffer (`string`).
- `lines.dfy` (module `Lines`): a buffer as its sequence of lines. It gives
  the flat text (`Join`) and the host's `rowcol` and `text_point` (`RowCol`,
  `TextPoint`). It also proves that editing within one line is the same as
  editing the flat text.
- `rectangles.dfy` (module `Rectangles`): the rectangle geometry, the row
  functions, and a `Buffer` class. Its commands loop over the rows and call
  the host's `erase` and `insert` on flat offsets, as the source does.

Modelling assumption: the host's `text_point(row, col)` clamps `col` to the
length of the line (`Start(row) + min(col, |line|)`). The source never clamps
a column itself and relies on the host for it. This is what keeps every span
the rectangle commands touch inside its own row.

The rectangle insert requires that the content contains no newline. A newline
would split a row and shift the rows that later passes of the loop address.

A row shorter than `right` is not left alone. Take rows `"abcdef"`, `"xy"`,
`"qrstuv"` and columns 1 to 4. The code passes the unclamped `right = 4` to
`text_point`, and under the clamping assumption `text_point(1, 4)` is the end
of `"xy"`. The span on that row is therefore `[1, 2)`: `"y"` is erased, giving
`"x"`. Only a row no longer than `left` is untouched.
The model follows the code (`Rectangles.DeleteExample`).

## Model

| member | source | states |
|---|---|---|
| `Registers.RegisterStore.constructor` | sbp.py:5-10 | the store starts empty: no key is contained and every key reads as "" |
| `Registers.RegisterStore.Get` | sbp.py:12-16 | a stored key reads its value; a key never stored reads as "" and never fails |
| `Registers.RegisterStore.Contains` | sbp.py:21-22 | a key that is not contained reads as "" through `Get`, and a contained key reads its stored value, so a miss is told apart from a stored "" only by `Contains` |
| `Registers.RegisterStore.Store` | sbp.py:18-22 | afterwards the key is contained and reads back the stored value; every other key keeps its membership and value, so the last write to a key wins |
| `Registers.Capture` | sbp.py:48-61 | with the prompt open and exactly one selection, the selected text is stored under the key and a mark cancel is requested; otherwise the store is unchanged and nothing is requested |
| `Registers.InsertFromRegister` | sbp.py:78-95 | with the prompt open, one selection and a contained key, the new buffer is the text before the selection, then the register's text, then the text after it, and the selection is one cursor at the old begin plus the text's length; otherwise buffer and selection are unchanged |
| `Registers.CaptureThenInsertRestores` | sbp.py:48-95 | capturing a selection and inserting the same register over it gives back the buffer, with the cursor at the selection's end |
| `Regions.Cursor` | sbp.py:95 | a point added to the selection is an empty region at that point |
| `Lines.RowCol` | sbp.py:130-131 | `rowcol` gives a row of the buffer and a column within that row, and `text_point` of that row and column is the point again |
| `Lines.RowColOfTextPoint` | sbp.py:144 | `text_point(row, col)` is inside the text, and `rowcol` of it is `row` with the column clamped to the row's length |
| `Lines.RowColMonotone` | sbp.py:130-134 | a later point is never on an earlier row, so the begin point's row is at most the end point's row |
| `Lines.LineInText` | sbp.py:144 | each row occupies the flat text from its start offset for its own length |
| `Lines.SpliceLine` | sbp.py:144-146 | replacing columns `[i, j)` of one row is the same as replacing the flat text between `text_point(row, i)` and `text_point(row, j)` |
| `Lines.SpliceKeepsWellFormed` | sbp.py:172-177 | splicing newline-free text into a row keeps every row newline-free |
| `Rectangles.Normalize` | sbp.py:133-138 | `top`/`bot` are the rows of the begin and end points; `left` is the minimum and `right` the maximum of the two endpoint columns (each is one of them, `left` is at most both and `right` at least both) |
| `Rectangles.NormalizeSwapColumns` | sbp.py:135-138 | swapping the two endpoint columns gives the same rectangle |
| `Rectangles.Bounds` | sbp.py:129-138 | `top` is the `rowcol` row of the selection's begin and `bot` that of its end, with `top <= bot` within the buffer; `left` and `right` are the minimum and maximum of the two `rowcol` columns; the begin point sits on the top row and the end point on the bottom row |
| `Rectangles.BoundsOrderInvariant` | sbp.py:129-138 | a selection made from either end gives the same rectangle |
| `Rectangles.BoundsOfCursor` | sbp.py:129-138 | a collapsed selection gives `top == bot` and `left == right` |
| `Rectangles.DeleteSpan` | sbp.py:144-146 | a row keeps its text left of the clamped `left` column and continues with its text from the clamped `right` column; a row no longer than `left`, or a zero-width range, leaves the row untouched |
| `Rectangles.InsertSpanLayout` | sbp.py:173-177 | a replaced row is the text left of the rectangle, then the content, then the text right of it, so short rows get the content at their end |
| `Rectangles.InsertIsEraseThenInsert` | sbp.py:173-177 | erasing the span and then inserting at the re-clamped left column of the shortened row gives the replaced row |
| `Rectangles.DeleteRect` | sbp.py:143-146 | the row count is kept, each row in `top..bot` is erased as `DeleteSpan` says, rows outside the range and rows no longer than `left` are unchanged |
| `Rectangles.InsertRect` | sbp.py:172-177 | the row count is kept, each row in `top..bot` is replaced as `InsertSpan` says, rows outside the range are unchanged |
| `Rectangles.DeleteZeroWidth` | sbp.py:143-146 | a zero-width rectangle deletes nothing |
| `Rectangles.DeleteExample` | sbp.py:143-146 | rows "abcdef", "xy", "qrstuv" with columns 1 to 4 become "aef", "x", "quv" |
| `Rectangles.InsertExample` | sbp.py:172-177 | the same rows with content "Z" become "aZef", "xZ", "qZuv" |
| `Rectangles.Buffer.Erase` | sbp.py:146 | the flat text loses exactly the region, and only the row holding it changes |
| `Rectangles.Buffer.Insert` | sbp.py:177 | the flat text gets the text at the point, and only the row holding the point changes |
| `Rectangles.Buffer.DeleteRow` | sbp.py:144-146 | one pass of the delete loop turns its row into `DeleteSpan` of it and changes no other row |
| `Rectangles.Buffer.InsertRow` | sbp.py:173-177 | one pass of the insert loop turns its row into `InsertSpan` of it and changes no other row |
| `Rectangles.Buffer.RectangleDelete` | sbp.py:128-149 | the lines become `DeleteRect` of the old lines and the first selection's rectangle; with no selection nothing changes |
| `Rectangles.Buffer.RectangleInsert` | sbp.py:156-179 | the lines become `InsertRect` of the old lines, the first selection's rectangle and the content; with no selection nothing changes |

The geometry at sbp.py:159-167 is the same
code as sbp.py:130-138, and both commands use `Rectangles.Bounds`.

## Left out

- The prompt plumbing: opening the input panel, `hide_panel`, and the empty `on_done`/`on_cancel` handlers. These are host UI calls. Each handler is modelled as its body given the typed key. Both handlers are wired to the prompt's change event: the capture directly, and the insert through `fu.partial(self.insert, edit)` in the change slot of the insert prompt. So in practice each one runs on the first typed character, with a one-character key. The `self.panel` check becomes the `prompted` parameter.
- `run_command("sbp_cancel_mark")`. This is a host command with no state in the plugin. Capture reports the request as its result. The rectangle commands always issue it, so their model omits it.
- `begin_edit`/`end_edit`. These group undo in the host and change no text.
- The `sel is None` test. A host selection is never absent in the model, because it is a sequence.
- `sel()[0]` on an empty selection raises an exception in the rectangle commands. That happens before any edit, so the model leaves the lines unchanged in that case.
- `Rectangles.Buffer.Erase`: requires that both ends of the region lie on one row. The host can erase across rows, but the rectangle commands only erase within a row, and only that case is modelled.
- `Rectangles.Buffer.Insert`: requires newline-free text. The host's `insert` accepts any text, but a newline would split a row of the line model. The only call passes the rectangle content, which is newline-free by the restriction on `RectangleInsert` below.
- `Rectangles.Buffer.RectangleInsert`: requires newline-free content. With a newline the source's later row indices would address shifted rows, and that case is not modelled.
- The real `rowcol`/`text_point` of the host are replaced by `Lines.RowCol` and `Lines.TextPoint` under the clamping assumption stated above.
- `SbpOpenLineCommand` and `SbpRecenterInView`. The first is a one-line insert followed by a host `move` command, and the second only moves the viewport.
