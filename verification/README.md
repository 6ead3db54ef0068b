# Grive text buffer, modelled in Dafny

This project models the in-memory text buffer of the Grive editor
(`src/editor.c`, types in `src/editor.h`) and proves properties of it. The
buffer has two layers:

- **Line layer** (`line.dfy`, module `LineBuffer`): a `Line` is a growable
  byte array (`cap`, and the used bytes `chars`, whose length is the C `len`).
  Its edits are insert-before-column, append, backspace and forward delete.
  Each edit clamps the column to `[0, len]` first, and returns the new column
  the C code writes back through its `size_t *col` argument.
- **Editor layer** (`editor.dfy`, module `EditorBuffer`): an `Editor` is a
  growable array of lines with one cursor `(row, col)`. It covers creating
  the first line, inserting an empty row, removing an empty row, the text
  edits delegated to the active line, the four cursor moves and the
  "char under cursor" query.

Supporting modules:

- `capacity.dfy` (`Capacity`) holds the doubling growth shared by
  `line_grow` (initial capacity 1024) and `editor_grow` (initial capacity 128).
- `persistence.dfy` (`Persistence`) holds the content transformation behind
  save and load. Save joins the rows, writing a line feed after each one.
  Load splits the bytes on line feeds into the rows of an empty editor.
- `base.dfy` (`Base`) defines bytes, `Option`, column clamping, the
  reference `Splice`, and `CString`. `CString` is the `strlen` view of a
  NUL-terminated buffer.

Every function is pure. Each takes the old state and returns the new one.
The predicate `EditorBuffer.Good` is the cursor invariant. With no rows, the
cursor sits at `(0, 0)`. Otherwise the row exists and the column is at most
that row's length. Every editor operation preserves `Good`, with two
exceptions. The as-written `RemoveLine` keeps it only when the slot past the
last row is itself a valid line. `MoveDownAsWritten` keeps it on every
non-empty editor. On the empty editor it reads a row that does not exist and
returns no state.

Where the code departs from what its comments and callers evidently intend,
the model follows the code:

- `editor_remove_line` never decrements the row count, although its comment
  (`src/editor.c:170`) says it is for removing an empty line.
- Loading resets the cursor column only as a side effect of opening a new
  row. When the loaded bytes contain no line feed, the incoming column is
  kept.
- `editor_tab_space` and `editor_move_cursor_right` index the cursor row
  without first creating a line. They therefore require an existing row.

## Model

| member | source | states |
|---|---|---|
| Base.CString | src/editor.c:62-65 | the text `strlen` passes on is exactly the bytes before the buffer's first NUL: it contains no NUL and the buffer has a NUL right after it |
| Capacity.Grown | src/editor.c:16-33 | the grown capacity leaves room for `n` more elements behind `len`, never shrinks, and stays the same when the room already exists |
| Capacity.GrowCapacity | src/editor.c:18-27 | the doubling loop (initial capacity when 0, otherwise times two, until `cap - len >= n`) terminates with the capacity `Grown` describes |
| Capacity.GrownIsLeastDoubling | src/editor.c:21-27 | when room is missing, the new capacity is the initial capacity (for an unallocated buffer) or twice the old one, times 2^k, for the least k that makes room |
| LineBuffer.Grow | src/editor.c:16-33 | `line_grow` keeps the bytes, makes `cap - len >= n`, leaves the line alone when the room exists, and otherwise sets `cap` to 1024·2^k or the old cap·2^(k+1); the new `cap` is `Capacity.Grown`'s, so the least such k |
| LineBuffer.InsertSizedBefore | src/editor.c:46-60 | with `c = min(col, len)`: bytes before `c` stay, `text` lands at `c`, bytes from `c` on move right by `|text|`; `len` grows by `|text|`; the column becomes `c + |text|`; empty text leaves the line unchanged |
| LineBuffer.InsertBefore | src/editor.c:62-65 | inserting a C string is splicing its bytes before the first NUL at the clamped column, and the column advances by their count |
| LineBuffer.AppendSized | src/editor.c:40-44 | appending adds `text` after the existing bytes |
| LineBuffer.Append | src/editor.c:35-38 | appending a C string adds its bytes before the first NUL to the end |
| LineBuffer.Backspace | src/editor.c:67-80 | with `c = min(col, len)` and `c > 0`, the byte at `c-1` is removed, the others keep their order, and the column becomes `c-1`; at `c = 0` nothing changes; `cap` is unchanged |
| LineBuffer.Delete | src/editor.c:82-94 | with `c = min(col, len)` and `c < len`, the byte at `c` is removed, the others keep their order, and the column stays `c`; at `c = len` nothing changes |
| LineBuffer.ShiftedCopyIsSplice | src/editor.c:54-59 | any byte sequence of length `len + |text|` that keeps the bytes before `c`, holds `text` at `c` and the old bytes from `c` on shifted right by `|text|` (the layout the `memmove` and `memcpy` leave) is the reference splice `s[..c] + text + s[c..]`; with `InsertSizedBefore`'s contract this fixes the inserted line |
| LineBuffer.InsertTwiceIsInsertConcat | src/editor.c:46-60 | inserting `a`, then `b` at the returned column, gives the same bytes and column as inserting `a + b` once |
| LineBuffer.BackspaceThenInsertRestores | src/editor.c:67-80 | backspace, then re-inserting the removed byte at the new column, restores the original line and column |
| LineBuffer.DeleteThenInsertRestores | src/editor.c:82-94 | delete, then re-inserting the removed byte at the column, restores the original line |
| LineBuffer.DeleteIsBackspaceOneRight | src/editor.c:67-94 | deleting at column `c < len` gives the same line as backspacing at column `c + 1` |
| EditorBuffer.Grow | src/editor.c:96-113 | `editor_grow` keeps every row and the cursor, makes `cap - len >= n`, changes nothing when the room exists, and otherwise sets `cap` to 128·2^k or the old cap·2^(k+1); the new `cap` is `Capacity.Grown`'s, so the least such k |
| EditorBuffer.CreateFirstNewLine | src/editor.c:133-144 | an empty editor gets exactly one empty row with the cursor row untouched; a cursor row at or past `len > 0` is clamped to `len-1`; otherwise nothing changes |
| EditorBuffer.InsertNewLine | src/editor.c:115-131 | for `row < len`, rows `0..row` are unchanged, an empty row appears at `row+1`, later rows move up one index, `len` grows by 1, the cursor becomes `(row+1, 0)`, and the invariant is kept |
| EditorBuffer.InsertText | src/editor.c:146-150 | after materialising the first row, only the active row changes; its bytes become the splice of the C string's bytes at the clamped column, and the column advances past them |
| EditorBuffer.Backspace | src/editor.c:152-156 | only the active row changes, by the line backspace at the cursor column; the row count is unchanged apart from the first-line creation; the invariant is kept |
| EditorBuffer.Delete | src/editor.c:158-162 | only the active row changes, by the line delete at the cursor column; the column stays at its clamped value; the invariant is kept |
| EditorBuffer.TabSpace | src/editor.c:164-167 | on an existing row, tab is inserting the C string of four spaces: the row gains four spaces at the clamped column |
| EditorBuffer.RemoveLine | src/editor.c:169-183 | acts only at column 0 of an empty row `r > 0`: rows before `r` stay, rows after `r` move down one index, the row count is NOT reduced (the last slot gets the stale value past the end), and the cursor goes to the end of row `r-1`; otherwise a no-op |
| EditorBuffer.RemoveEmptyLine | src/editor.c:169-183 | the corrected removal: under the same condition the empty row disappears, `len` drops by one, and the cursor goes to the end of the previous row; otherwise a no-op |
| EditorBuffer.CharUnderCursor | src/editor.c:185-193 | a byte is returned exactly when `row < len` and `col` is inside that row, and it is the byte at the cursor |
| EditorBuffer.MoveLeft | src/editor.c:253-257 | the column drops by one exactly when it is positive; rows and row are untouched; the column stays within the row |
| EditorBuffer.MoveRight | src/editor.c:259-263 | the column rises by one exactly when it is before the end of the row; rows and row are untouched; the column stays within the row |
| EditorBuffer.MoveUp | src/editor.c:265-274 | for `row > 0` the row drops by one and the column becomes `min(col, len(new row))`; at row 0 nothing changes; the cursor invariant is kept |
| EditorBuffer.MoveDown | src/editor.c:276-284 | when a row exists below, the row rises by one and the column becomes `min(col, len(new row))`; otherwise nothing changes, including on an empty editor; the cursor invariant is kept |
| EditorBuffer.MoveDownAsWritten | src/editor.c:276-284 | with `size_t` row and count and the guard `row < len - 1`, the move reads a row that does not exist exactly when the editor is empty and the row is below `SIZE_MAX`; on every non-empty editor it equals MoveDown and keeps `Good` |
| EditorBuffer.TypingIntoEmptyEditor | src/editor.c:146-150 | typing "hi" into an empty editor gives the single row "hi" with the cursor at (0, 2) |
| EditorBuffer.NewLineAfterHello | src/editor.c:115-131 | a new line at (0, 5) of "hello" gives rows "hello", "" and the cursor at (1, 0) |
| EditorBuffer.DeleteInsideRow | src/editor.c:158-162 | delete at (0, 1) of "abc" gives "ac" with the cursor still at (0, 1) |
| EditorBuffer.RemoveSecondEmptyRow | src/editor.c:169-183 | on rows "ab", "" at (1, 0), the as-written removal keeps 2 rows with the stale value last; the corrected one leaves only "ab"; both put the cursor at (0, 2) |
| EditorBuffer.RemoveLineCanBreakGood | src/editor.c:176-181 | on the same editor, moving in a stale slot whose length exceeds its capacity makes the as-written removal break the cursor invariant `Good` |
| Persistence.SaveRows | src/editor.c:204-207 | the save loop writes exactly each row's bytes followed by one line feed, in row order |
| Persistence.JoinInjective | src/editor.c:204-207 | for rows without line feeds, the saved bytes determine the rows |
| Persistence.ChopByDelim | src/editor.c:237-242 | a chop succeeds exactly when the delimiter occurs; then the input is the segment, the delimiter and the rest, and the segment contains no delimiter |
| Persistence.LoadLoop | src/editor.c:234-244 | the load loop keeps the cursor on the last row, and resets the column exactly when it opened a new row |
| Persistence.LoadLoopSaves | src/editor.c:234-244 | saving after the load loop gives the earlier rows, then the last row extended by the remaining bytes, then a line feed; no row gains a line feed |
| Persistence.Load | src/editor.c:212-250 | loading into an editor with no rows gives at least one row, none containing a line feed; saving them gives back the bytes plus one final line feed; the cursor row is 0 |
| Persistence.LoadAfterSave | src/editor.c:204-247 | loading the saved bytes of rows without line feeds gives back those rows plus one empty last row |
| Persistence.LoadTwoTerminatedRows | src/editor.c:234-244 | the bytes "a\nb\n" load as the rows "a", "b", "" |
| Persistence.RemoveEmptyLineDropsOneNewline | src/editor.c:169-183 | the corrected row removal deletes from the saved bytes exactly the line feed that ended the removed row |
| Persistence.RemoveLineKeepsStaleRow | src/editor.c:176-181 | after the as-written removal, the saved bytes still end with the stale slot's bytes and a line feed, because the row count is kept |

## Left out

- File I/O is not modelled. This covers `fopen`, `fread`, `fwrite`,
  `fclose`, the error message and `exit(1)` on a failed open, and the
  static 640 KiB read chunk. A file is one byte sequence. Chunking only ever
  appends to the last row, so it does not change the rows.
- The `assert(editor->lines == NULL)` in load is modelled as the
  precondition that the editor has no rows and its cursor row is 0.
- `realloc` failure is not modelled, and neither is memory ownership. That
  includes the `Line` storage that `editor_remove_line` leaks. Bytes past a
  line's `len` and row slots past the editor's `len` are not modelled
  either.
- `sv.h` is not among the modelled sources. `Persistence.ChopByDelim` is
  the behaviour of `sv_try_chop_by_delim` that the load loop relies on at
  `src/editor.c:237-242`.
- The SDL window, rendering, font loading and the key-to-operation mapping
  in `src/grive.c` are not modelled. Neither is the vector arithmetic in
  `src/la.c` or the macros in `src/common.h`. They only call into the buffer.
- Capacity.Grown: `size_t` overflow of the doubling, and of `len + n`, is
  not modelled, because integers are unbounded.
- LineBuffer.Grow: `size_t` overflow of the doubling is not modelled, for
  the same reason.
- EditorBuffer.Grow: `size_t` overflow of the doubling is not modelled, for
  the same reason.
- LineBuffer.Delete: the C `memmove` reads one byte past `len`. Only the
  bytes below the new length are modelled.
- EditorBuffer.InsertNewLine: requires `row < len`. With `row == len` the C
  code leaves `lines[len]` uninitialised and zeroes `lines[len+1]`. Under
  this precondition the code's clamp of a row past `len` never fires.
- EditorBuffer.TabSpace: requires an existing cursor row, because the code
  indexes `lines[row]` without creating the first line.
- EditorBuffer.MoveRight: requires an existing cursor row, for the same
  reason.
- EditorBuffer.MoveUp: requires `row <= len`, because only row `row-1` is
  read.
- EditorBuffer.InsertText: requires `len > 0` or `row == 0`, because
  creating the first line does not clamp the cursor row. The same holds for
  EditorBuffer.Backspace and EditorBuffer.Delete.
- EditorBuffer.RemoveLine: the stale row is passed in as a parameter. The
  model does not predict what memory held past the last row.

## Findings

| source | as written | input that shows it | evidently intended | confidence | as-written member | corrected member |
|---|---|---|---|---|---|---|
| src/editor.c:176-181 | the rows after the removed one move down, but `editor->len` is never decremented, so the last used slot receives the unused slot past the last row (`lines[len]`: uninitialised, and out of bounds when `len == cap`), which can break the invariant `Good` | rows "ab", "" with the cursor at (1, 0): the row count stays 2 and row 1 holds the stale slot | the empty row disappears: rows "ab", row count 1, cursor (0, 2) | high; not executed | EditorBuffer.RemoveLine | EditorBuffer.RemoveEmptyLine |
| src/editor.c:277 | the guard `cursor_row < len - 1` is computed on `size_t`, so with `len == 0` it wraps to 2^64-1 and admits the move; the next line reads `lines[1]` of an empty array | a zero-initialised editor with no text, then the down-arrow key | no move when no row lies below (`row + 1 < len`) | high; not executed | EditorBuffer.MoveDownAsWritten | EditorBuffer.MoveDown |
