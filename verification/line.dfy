/** The line layer: one growable byte array and the edits made to it at a
    column. Every edit first clamps the column into `[0, len]`; the column is
    returned alongside the line, as the C code writes it back through its
    `size_t *col` argument. */
module LineBuffer {
  import opened Base
  import Capacity

  const LINE_INIT_CAPACITY: nat := 1024

  /** A line: `chars` are the `len` used bytes, `cap` the allocated size.
      Storage past `len` is uninitialised and is not modelled. */
  datatype Line = Line(cap: nat, chars: seq<byte>) {
    predicate Valid() {
      |chars| <= cap
    }
  }

  /** The zero-filled line a new row starts as. */
  const EmptyLine: Line := Line(0, [])

  /** Make room for `n` more bytes, keeping the contents. */
  function Grow(l: Line, n: nat): (r: Line)
    requires l.Valid()
    ensures r.Valid() && r.chars == l.chars
    ensures r.cap - |r.chars| >= n
    ensures l.cap - |l.chars| >= n ==> r == l
    ensures l.cap - |l.chars| < n ==>
              exists k: nat :: r.cap == Capacity.Next(l.cap, LINE_INIT_CAPACITY) * Capacity.Pow2(k)
    ensures r.cap == Capacity.Grown(l.cap, |l.chars|, n, LINE_INIT_CAPACITY)
  {
    var c := Capacity.Grown(l.cap, |l.chars|, n, LINE_INIT_CAPACITY);
    if l.cap - |l.chars| < n then
      Capacity.GrownIsLeastDoubling(l.cap, |l.chars|, n, LINE_INIT_CAPACITY);
      Line(c, l.chars)
    else
      Line(c, l.chars)
  }

  /** Insert `text` before the clamped column; the column ends up just after
      the inserted bytes. */
  function InsertSizedBefore(l: Line, text: seq<byte>, col: nat): (r: (Line, nat))
    requires l.Valid()
    ensures r.0.Valid() && r.0.cap >= l.cap
    ensures |r.0.chars| == |l.chars| + |text|
    ensures r.1 == Clamp(col, |l.chars|) + |text|
    ensures forall i :: 0 <= i < Clamp(col, |l.chars|) ==> r.0.chars[i] == l.chars[i]
    ensures forall i :: 0 <= i < |text| ==> r.0.chars[Clamp(col, |l.chars|) + i] == text[i]
    ensures forall i :: Clamp(col, |l.chars|) <= i < |l.chars| ==> r.0.chars[i + |text|] == l.chars[i]
    ensures |text| == 0 ==> r.0 == l
  {
    var c := Clamp(col, |l.chars|);
    var g := Grow(l, |text|);
    (Line(g.cap, l.chars[..c] + text + l.chars[c..]), c + |text|)
  }

  /** The C-string flavour: inserts the bytes before the buffer's first NUL. */
  function InsertBefore(l: Line, text: seq<byte>, col: nat): (r: (Line, nat))
    requires l.Valid() && NUL in text
    ensures r.0.Valid()
    ensures r.0.chars == Splice(l.chars, Clamp(col, |l.chars|), CString(text))
    ensures r.1 == Clamp(col, |l.chars|) + |CString(text)|
  {
    InsertSizedBeforeIsSplice(l, CString(text), col);
    InsertSizedBefore(l, CString(text), col)
  }

  /** Append at the end of the line. */
  function AppendSized(l: Line, text: seq<byte>): (r: Line)
    requires l.Valid()
    ensures r.Valid() && r.cap >= l.cap
    ensures r.chars == l.chars + text
  {
    InsertSizedBeforeIsSplice(l, text, |l.chars|);
    assert l.chars[|l.chars|..] == [];
    InsertSizedBefore(l, text, |l.chars|).0
  }

  /** Append the bytes before the buffer's first NUL. */
  function Append(l: Line, text: seq<byte>): (r: Line)
    requires l.Valid() && NUL in text
    ensures r.Valid()
    ensures r.chars == l.chars + CString(text)
  {
    AppendSized(l, CString(text))
  }

  /** Remove the byte before the clamped column and step the column back;
      nothing happens at column 0. */
  function Backspace(l: Line, col: nat): (r: (Line, nat))
    ensures r.0.cap == l.cap && (l.Valid() ==> r.0.Valid())
    ensures var c := Clamp(col, |l.chars|);
      if c > 0 then
        && |r.0.chars| == |l.chars| - 1
        && r.1 == c - 1
        && (forall i :: 0 <= i < c - 1 ==> r.0.chars[i] == l.chars[i])
        && (forall i :: c <= i < |l.chars| ==> r.0.chars[i - 1] == l.chars[i])
      else
        r.0 == l && r.1 == 0
  {
    var c := Clamp(col, |l.chars|);
    if c > 0 && |l.chars| > 0 then
      (Line(l.cap, l.chars[..c - 1] + l.chars[c..]), c - 1)
    else
      (l, c)
  }

  /** Remove the byte at the clamped column; the column stays. Nothing
      happens at the end of the line. The C code moves one byte more than it
      needs (it reads the slot at `len`); only the bytes below the new length
      are modelled. */
  function Delete(l: Line, col: nat): (r: (Line, nat))
    ensures r.0.cap == l.cap && (l.Valid() ==> r.0.Valid())
    ensures r.1 == Clamp(col, |l.chars|)
    ensures var c := Clamp(col, |l.chars|);
      if c < |l.chars| then
        && |r.0.chars| == |l.chars| - 1
        && (forall i :: 0 <= i < c ==> r.0.chars[i] == l.chars[i])
        && (forall i :: c < i < |l.chars| ==> r.0.chars[i - 1] == l.chars[i])
      else
        r.0 == l
  {
    var c := Clamp(col, |l.chars|);
    if c < |l.chars| && |l.chars| > 0 then
      (Line(l.cap, l.chars[..c] + l.chars[c + 1..]), c)
    else
      (l, c)
  }

  /** The memmove/memcpy description of an insertion is the reference
      splice: any sequence that keeps the prefix before `c`, holds `text` at
      `c` and the old suffix shifted right by `|text|` is `Splice(s, c, text)`. */
  lemma ShiftedCopyIsSplice(s: seq<byte>, c: nat, text: seq<byte>, r: seq<byte>)
    requires c <= |s| && |r| == |s| + |text|
    requires forall i :: 0 <= i < c ==> r[i] == s[i]
    requires forall i :: 0 <= i < |text| ==> r[c + i] == text[i]
    requires forall i :: c <= i < |s| ==> r[i + |text|] == s[i]
    ensures r == Splice(s, c, text)
  {
  }

  /** `InsertSizedBefore` is the splice at the clamped column. */
  lemma InsertSizedBeforeIsSplice(l: Line, text: seq<byte>, col: nat)
    requires l.Valid()
    ensures InsertSizedBefore(l, text, col).0.chars == Splice(l.chars, Clamp(col, |l.chars|), text)
  {
    ShiftedCopyIsSplice(l.chars, Clamp(col, |l.chars|), text, InsertSizedBefore(l, text, col).0.chars);
  }

  lemma SpliceTwice(s: seq<byte>, at: nat, a: seq<byte>, b: seq<byte>)
    requires at <= |s|
    ensures Splice(Splice(s, at, a), at + |a|, b) == Splice(s, at, a + b)
  {
    var t := Splice(s, at, a);
    assert t[..at + |a|] == s[..at] + a;
    assert t[at + |a|..] == s[at..];
  }

  lemma SpliceRestores(s: seq<byte>, k: nat)
    requires k < |s|
    ensures Splice(s[..k] + s[k + 1..], k, [s[k]]) == s
  {
    var t := s[..k] + s[k + 1..];
    assert t[..k] == s[..k];
    assert t[k..] == s[k + 1..];
  }

  /** Typing `a` and then `b` at the returned column is typing `a + b` once. */
  lemma InsertTwiceIsInsertConcat(l: Line, a: seq<byte>, b: seq<byte>, col: nat)
    requires l.Valid()
    ensures var (l1, c1) := InsertSizedBefore(l, a, col);
            var (l2, c2) := InsertSizedBefore(l1, b, c1);
            l2.chars == InsertSizedBefore(l, a + b, col).0.chars
            && c2 == InsertSizedBefore(l, a + b, col).1
  {
    var c := Clamp(col, |l.chars|);
    var (l1, c1) := InsertSizedBefore(l, a, col);
    assert l1.chars == Splice(l.chars, c, a) && c1 == c + |a| by {
      InsertSizedBeforeIsSplice(l, a, col);
    }
    assert InsertSizedBefore(l1, b, c1).0.chars == Splice(l1.chars, c1, b) by {
      InsertSizedBeforeIsSplice(l1, b, c1);
    }
    assert InsertSizedBefore(l, a + b, col).0.chars == Splice(l.chars, c, a + b) by {
      InsertSizedBeforeIsSplice(l, a + b, col);
    }
    SpliceTwice(l.chars, c, a, b);
  }

  /** Backspace followed by re-inserting the removed byte at the new column
      restores the line and the column. */
  lemma BackspaceThenInsertRestores(l: Line, col: nat)
    requires l.Valid() && Clamp(col, |l.chars|) > 0
    ensures var c := Clamp(col, |l.chars|);
            var (l1, c1) := Backspace(l, col);
            var (l2, c2) := InsertSizedBefore(l1, [l.chars[c - 1]], c1);
            l2.chars == l.chars && c2 == c
  {
    var c := Clamp(col, |l.chars|);
    var (l1, c1) := Backspace(l, col);
    assert l1.chars == l.chars[..c - 1] + l.chars[c..] && c1 == c - 1;
    assert InsertSizedBefore(l1, [l.chars[c - 1]], c1).0.chars == Splice(l1.chars, c1, [l.chars[c - 1]]) by {
      InsertSizedBeforeIsSplice(l1, [l.chars[c - 1]], c1);
    }
    SpliceRestores(l.chars, c - 1);
  }

  /** Delete followed by re-inserting the removed byte in front of the column
      restores the line. */
  lemma DeleteThenInsertRestores(l: Line, col: nat)
    requires l.Valid() && Clamp(col, |l.chars|) < |l.chars|
    ensures var c := Clamp(col, |l.chars|);
            var (l1, c1) := Delete(l, col);
            var (l2, c2) := InsertSizedBefore(l1, [l.chars[c]], c1);
            l2.chars == l.chars && c2 == c + 1
  {
    var c := Clamp(col, |l.chars|);
    var (l1, c1) := Delete(l, col);
    assert l1.chars == l.chars[..c] + l.chars[c + 1..] && c1 == c;
    assert InsertSizedBefore(l1, [l.chars[c]], c1).0.chars == Splice(l1.chars, c1, [l.chars[c]]) by {
      InsertSizedBeforeIsSplice(l1, [l.chars[c]], c1);
    }
    SpliceRestores(l.chars, c);
  }

  /** Deleting at a column removes the same byte as backspacing one column
      further right. */
  lemma DeleteIsBackspaceOneRight(l: Line, col: nat)
    requires Clamp(col, |l.chars|) < |l.chars|
    ensures Delete(l, col).0 == Backspace(l, Clamp(col, |l.chars|) + 1).0
  {
  }
}
