/** The editor layer: a growable array of lines and one cursor. Text edits
    go to the line under the cursor row; row edits (a new line, removing an
    empty line) and cursor moves are handled here. */
module EditorBuffer {
  import opened Base
  import Capacity
  import L = LineBuffer

  const EDITOR_INIT_CAPACITY: nat := 128

  /** `lines` are the `len` used rows; `cap` is the allocated row count. */
  datatype Editor = Editor(cap: nat, lines: seq<L.Line>, row: nat, col: nat) {
    predicate Valid() {
      |lines| <= cap && forall i :: 0 <= i < |lines| ==> lines[i].Valid()
    }
  }

  /** A zero-initialised editor, as the program declares it. */
  const Fresh: Editor := Editor(0, [], 0, 0)

  /** The cursor invariant every operation keeps: with no rows the cursor is
      at the origin, otherwise it points into an existing row, at most at its
      end. */
  predicate Good(e: Editor) {
    && e.Valid()
    && (|e.lines| == 0 ==> e.row == 0 && e.col == 0)
    && (|e.lines| > 0 ==> e.row < |e.lines| && e.col <= |e.lines[e.row].chars|)
  }

  /** The row a text edit lands on, once the first row exists. */
  function ActiveRow(e: Editor): nat {
    if |e.lines| == 0 then 0 else Clamp(e.row, |e.lines| - 1)
  }

  /** The line a text edit starts from: an empty one on an empty editor. */
  function ActiveLine(e: Editor): L.Line {
    if |e.lines| == 0 then L.EmptyLine else e.lines[ActiveRow(e)]
  }

  /** Make room for `n` more rows, keeping every row and the cursor. */
  function Grow(e: Editor, n: nat): (r: Editor)
    requires |e.lines| <= e.cap
    ensures r.lines == e.lines && r.row == e.row && r.col == e.col
    ensures r.cap - |r.lines| >= n
    ensures e.cap - |e.lines| >= n ==> r == e
    ensures e.cap - |e.lines| < n ==>
              exists k: nat :: r.cap == Capacity.Next(e.cap, EDITOR_INIT_CAPACITY) * Capacity.Pow2(k)
    ensures r.cap == Capacity.Grown(e.cap, |e.lines|, n, EDITOR_INIT_CAPACITY)
  {
    var c := Capacity.Grown(e.cap, |e.lines|, n, EDITOR_INIT_CAPACITY);
    if e.cap - |e.lines| < n then
      Capacity.GrownIsLeastDoubling(e.cap, |e.lines|, n, EDITOR_INIT_CAPACITY);
      e.(cap := c)
    else
      e.(cap := c)
  }

  /** Make sure there is a row to edit: an empty editor gets exactly one
      empty row; a cursor row past the end is pulled back to the last row. */
  function CreateFirstNewLine(e: Editor): (r: Editor)
    ensures |r.lines| > 0 && r.col == e.col
    ensures |e.lines| == 0 ==> r.lines == [L.EmptyLine] && r.row == e.row && r.cap >= 1
    ensures |e.lines| > 0 ==> r.lines == e.lines && r.cap == e.cap && r.row == ActiveRow(e)
    ensures e.Valid() ==> r.Valid()
    ensures (|e.lines| > 0 || e.row == 0) ==> r.row == ActiveRow(e) < |r.lines|
    ensures Good(e) ==> Good(r)
  {
    if e.row >= |e.lines| then
      if |e.lines| > 0 then
        e.(row := |e.lines| - 1)
      else
        var g := Grow(e, 1);
        g.(lines := [L.EmptyLine])
    else
      e
  }

  /** Open an empty row below the cursor row and move to its start. The
      current row is not split at the cursor column. */
  function InsertNewLine(e: Editor): (r: Editor)
    requires e.row < |e.lines| && |e.lines| <= e.cap
    ensures |r.lines| == |e.lines| + 1 && |r.lines| <= r.cap && r.cap >= e.cap
    ensures forall i :: 0 <= i <= e.row ==> r.lines[i] == e.lines[i]
    ensures r.lines[e.row + 1] == L.EmptyLine
    ensures forall i :: e.row < i < |e.lines| ==> r.lines[i + 1] == e.lines[i]
    ensures r.row == e.row + 1 && r.col == 0
    ensures e.Valid() ==> r.Valid()
    ensures Good(e) ==> Good(r)
  {
    var g := Grow(e, 1);
    Editor(g.cap, e.lines[..e.row + 1] + [L.EmptyLine] + e.lines[e.row + 1..], e.row + 1, 0)
  }

  /** Put the edited active line back and move the column. */
  function SetActive(a: Editor, l: L.Line, col: nat): Editor
    requires a.row < |a.lines|
  {
    a.(lines := a.lines[a.row := l], col := col)
  }

  /** Type the bytes of a NUL-terminated buffer before the cursor. Only the
      active row changes. */
  function InsertText(e: Editor, text: seq<byte>): (r: Editor)
    requires e.Valid() && NUL in text
    requires |e.lines| > 0 || e.row == 0
    ensures r.Valid() && r.row == ActiveRow(e)
    ensures |r.lines| == if |e.lines| == 0 then 1 else |e.lines|
    ensures forall i :: 0 <= i < |e.lines| && i != r.row ==> r.lines[i] == e.lines[i]
    ensures var old_text := ActiveLine(e).chars;
            && r.lines[r.row].chars == Splice(old_text, Clamp(e.col, |old_text|), CString(text))
            && r.col == Clamp(e.col, |old_text|) + |CString(text)|
    ensures Good(e) ==> Good(r)
  {
    var a := CreateFirstNewLine(e);
    var (l, c) := L.InsertBefore(a.lines[a.row], text, a.col);
    SetActive(a, l, c)
  }

  /** Backspace on the active row. */
  function Backspace(e: Editor): (r: Editor)
    requires e.Valid()
    requires |e.lines| > 0 || e.row == 0
    ensures r.Valid() && r.row == ActiveRow(e)
    ensures |r.lines| == if |e.lines| == 0 then 1 else |e.lines|
    ensures forall i :: 0 <= i < |e.lines| && i != r.row ==> r.lines[i] == e.lines[i]
    ensures (r.lines[r.row], r.col) == L.Backspace(ActiveLine(e), e.col)
    ensures Good(e) ==> Good(r)
  {
    var a := CreateFirstNewLine(e);
    var (l, c) := L.Backspace(a.lines[a.row], a.col);
    SetActive(a, l, c)
  }

  /** Forward delete on the active row. */
  function Delete(e: Editor): (r: Editor)
    requires e.Valid()
    requires |e.lines| > 0 || e.row == 0
    ensures r.Valid() && r.row == ActiveRow(e)
    ensures |r.lines| == if |e.lines| == 0 then 1 else |e.lines|
    ensures forall i :: 0 <= i < |e.lines| && i != r.row ==> r.lines[i] == e.lines[i]
    ensures (r.lines[r.row], r.col) == L.Delete(ActiveLine(e), e.col)
    ensures r.col == Clamp(e.col, |ActiveLine(e).chars|)
    ensures Good(e) ==> Good(r)
  {
    var a := CreateFirstNewLine(e);
    var (l, c) := L.Delete(a.lines[a.row], a.col);
    SetActive(a, l, c)
  }

  /** The C string literal of four spaces, terminator included. */
  const TAB_TEXT: seq<byte> := [SPACE, SPACE, SPACE, SPACE, NUL]

  /** Insert four spaces before the cursor. Unlike the other text edits this
      does not first create a row, so a row must exist under the cursor. */
  function TabSpace(e: Editor): (r: Editor)
    requires e.Valid() && e.row < |e.lines|
    ensures r == InsertText(e, TAB_TEXT)
    ensures r.lines[e.row].chars ==
              Splice(e.lines[e.row].chars, Clamp(e.col, |e.lines[e.row].chars|), [SPACE, SPACE, SPACE, SPACE])
  {
    assert CString(TAB_TEXT) == [SPACE, SPACE, SPACE, SPACE] by {
      assert TAB_TEXT[4] == NUL && NUL !in TAB_TEXT[..4];
      CStringStopsAtFirstNul(TAB_TEXT, 4);
    }
    var (l, c) := L.InsertBefore(e.lines[e.row], TAB_TEXT, e.col);
    SetActive(e, l, c)
  }

  /** When removing a row is allowed: the cursor is at column 0 of an empty
      row that is not the first. */
  predicate RemovesLine(e: Editor) {
    e.col == 0 && 0 < e.row < |e.lines| && |e.lines[e.row].chars| == 0
  }

  /** The row removal as the C code performs it: later rows move down one
      slot, but the row count is never decremented, so the last used slot
      receives whatever was stored just past the end (`stale`). The cursor
      lands at the end of the previous row. */
  function RemoveLine(e: Editor, stale: L.Line): (r: Editor)
    requires e.col == 0 && e.row > 0 ==> e.row < |e.lines|
    ensures !RemovesLine(e) ==> r == e
    ensures RemovesLine(e) ==>
              && r.cap == e.cap && |r.lines| == |e.lines|
              && (forall i :: 0 <= i < e.row ==> r.lines[i] == e.lines[i])
              && (forall i :: e.row <= i < |e.lines| - 1 ==> r.lines[i] == e.lines[i + 1])
              && r.lines[|e.lines| - 1] == stale
              && r.row == e.row - 1 && r.col == |e.lines[e.row - 1].chars|
    ensures Good(e) && stale.Valid() ==> Good(r)
  {
    if e.col == 0 && e.row > 0 && |e.lines[e.row].chars| == 0 then
      Editor(e.cap, e.lines[..e.row] + e.lines[e.row + 1..] + [stale], e.row - 1, |e.lines[e.row - 1].chars|)
    else
      e
  }

  /** The row removal as evidently intended: the empty row disappears and the
      row count drops by one. */
  function RemoveEmptyLine(e: Editor): (r: Editor)
    requires e.col == 0 && e.row > 0 ==> e.row < |e.lines|
    ensures !RemovesLine(e) ==> r == e
    ensures RemovesLine(e) ==>
              && r.cap == e.cap && |r.lines| == |e.lines| - 1
              && (forall i :: 0 <= i < e.row ==> r.lines[i] == e.lines[i])
              && (forall i :: e.row <= i < |r.lines| ==> r.lines[i] == e.lines[i + 1])
              && r.row == e.row - 1 && r.col == |e.lines[e.row - 1].chars|
    ensures Good(e) ==> Good(r)
  {
    if e.col == 0 && e.row > 0 && |e.lines[e.row].chars| == 0 then
      Editor(e.cap, e.lines[..e.row] + e.lines[e.row + 1..], e.row - 1, |e.lines[e.row - 1].chars|)
    else
      e
  }

  /** The byte under the cursor, if the cursor is on one. */
  function CharUnderCursor(e: Editor): (r: Option<byte>)
    ensures r.Some? <==> e.row < |e.lines| && e.col < |e.lines[e.row].chars|
    ensures r.Some? ==> r.value == e.lines[e.row].chars[e.col]
  {
    if e.row < |e.lines| && e.col < |e.lines[e.row].chars| then
      Some(e.lines[e.row].chars[e.col])
    else
      None
  }

  /** One column left, stopping at column 0. */
  function MoveLeft(e: Editor): (r: Editor)
    ensures r.lines == e.lines && r.cap == e.cap && r.row == e.row
    ensures r.col <= e.col <= r.col + 1
    ensures r.col == e.col <==> e.col == 0
    ensures Good(e) ==> Good(r)
  {
    if e.col > 0 then e.(col := e.col - 1) else e
  }

  /** One column right, stopping at the end of the row. */
  function MoveRight(e: Editor): (r: Editor)
    requires e.row < |e.lines|
    ensures r.lines == e.lines && r.cap == e.cap && r.row == e.row
    ensures r.col == e.col || r.col == e.col + 1
    ensures r.col == e.col + 1 <==> e.col < |e.lines[e.row].chars|
    ensures Good(e) ==> Good(r)
  {
    if e.col < |e.lines[e.row].chars| then e.(col := e.col + 1) else e
  }

  /** One row up, snapping the column to the end of a shorter row. Only the
      row above is read, so the cursor row may be at most the row count. */
  function MoveUp(e: Editor): (r: Editor)
    requires e.row <= |e.lines|
    ensures r.lines == e.lines && r.cap == e.cap
    ensures e.row == 0 ==> r == e
    ensures e.row > 0 ==> r.row == e.row - 1 && r.col == Clamp(e.col, |e.lines[r.row].chars|)
    ensures Good(e) ==> Good(r)
  {
    if e.row > 0 then
      var up := e.row - 1;
      if |e.lines[up].chars| < e.col then e.(row := up, col := |e.lines[up].chars|)
      else e.(row := up)
    else
      e
  }

  /** One row down, snapping the column to the end of a shorter row. The
      guard compares `row + 1` with the row count, so an empty editor is left
      alone (see MoveDownAsWritten for the C guard). */
  function MoveDown(e: Editor): (r: Editor)
    ensures r.lines == e.lines && r.cap == e.cap
    ensures e.row + 1 >= |e.lines| ==> r == e
    ensures e.row + 1 < |e.lines| ==>
              r.row == e.row + 1 && r.col == Clamp(e.col, |e.lines[r.row].chars|)
    ensures Good(e) ==> Good(r)
  {
    if e.row + 1 < |e.lines| then
      var down := e.row + 1;
      if |e.lines[down].chars| < e.col then e.(row := down, col := |e.lines[down].chars|)
      else e.(row := down)
    else
      e
  }

  /** `size_t` arithmetic wraps modulo 2^64. */
  const SIZE_MODULUS: nat := 0x1_0000_0000_0000_0000

  /** The C guard `row < len - 1` on `size_t` values. */
  function SizeSub(a: nat, b: nat): nat {
    (a - b) % SIZE_MODULUS
  }

  /** `editor_move_cursor_down` as written: the guard subtracts 1 from the
      row count in `size_t`. `None` stands for the out-of-bounds row read that
      follows when the guard lets a move through to a row that does not exist.
      Row and count are `size_t` values. It fails exactly on the empty
      editor whose row is below `SIZE_MAX` (at `SIZE_MAX` the guard is false;
      `Good` rules that row out anyway), and agrees with MoveDown on every
      non-empty one. */
  function MoveDownAsWritten(e: Editor): (r: Option<Editor>)
    requires e.row < SIZE_MODULUS && |e.lines| < SIZE_MODULUS
    ensures r.None? <==> |e.lines| == 0 && e.row + 1 < SIZE_MODULUS
    ensures |e.lines| > 0 ==> r == Some(MoveDown(e))
    ensures Good(e) && |e.lines| > 0 ==> r.Some? && Good(r.value)
  {
    if e.row < SizeSub(|e.lines|, 1) then
      var down := e.row + 1;
      if down < |e.lines| then
        if |e.lines[down].chars| < e.col then Some(e.(row := down, col := |e.lines[down].chars|))
        else Some(e.(row := down))
      else
        None
    else
      Some(e)
  }

  // Concrete behaviours of the editor.

  function Text(s: seq<L.Line>): seq<seq<byte>> {
    seq(|s|, i requires 0 <= i < |s| => s[i].chars)
  }

  /** Typing "hi" into an empty editor gives one row "hi" with the cursor
      at column 2. */
  lemma TypingIntoEmptyEditor()
    ensures var r := InsertText(Fresh, [104, 105, NUL]);
            Text(r.lines) == [[104, 105]] && r.row == 0 && r.col == 2
  {
    var r := InsertText(Fresh, [104, 105, NUL]);
    CStringStopsAtFirstNul([104, 105, NUL], 2);
    assert r.lines[0].chars == [104, 105];
  }

  /** A new line at the end of "hello" adds an empty row below it. */
  lemma NewLineAfterHello()
    ensures var e := Editor(1, [L.Line(5, [104, 101, 108, 108, 111])], 0, 5);
            var r := InsertNewLine(e);
            Text(r.lines) == [[104, 101, 108, 108, 111], []] && r.row == 1 && r.col == 0
  {
  }

  /** Delete at column 1 of "abc" leaves "ac" and the column in place. */
  lemma DeleteInsideRow()
    ensures var e := Editor(1, [L.Line(3, [97, 98, 99])], 0, 1);
            var r := Delete(e);
            Text(r.lines) == [[97, 99]] && r.row == 0 && r.col == 1
  {
    var abc: seq<byte> := [97, 98, 99];
    assert abc[..1] + abc[2..] == [97, 99];
  }

  /** Removing the empty second row of ["ab", ""]: as written the row count
      stays 2 and the second slot holds the stale value; as intended only
      "ab" remains. Either way the cursor ends at (0, 2). */
  lemma RemoveSecondEmptyRow(stale: L.Line)
    ensures var e := Editor(2, [L.Line(2, [97, 98]), L.EmptyLine], 1, 0);
            var w := RemoveLine(e, stale);
            var f := RemoveEmptyLine(e);
            && |w.lines| == 2 && w.lines[1] == stale && w.row == 0 && w.col == 2
            && Text(f.lines) == [[97, 98]] && f.row == 0 && f.col == 2
  {
  }

  /** The as-written removal keeps `Good` only when the stale slot is itself
      a valid line: moving in a slot whose length exceeds its capacity breaks
      the invariant on the same ["ab", ""] editor. */
  lemma RemoveLineCanBreakGood()
    ensures var e := Editor(2, [L.Line(2, [97, 98]), L.EmptyLine], 1, 0);
            Good(e) && !Good(RemoveLine(e, L.Line(0, [1])))
  {
  }
}
