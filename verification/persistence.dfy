/** The content transformation behind saving and loading: saving writes each
    row followed by a line feed; loading splits the bytes on line feeds into
    rows of an empty editor. Opening, reading and writing files is not part of
    the model; the file is one byte sequence. */
module Persistence {
  import opened Base
  import L = LineBuffer
  import E = EditorBuffer

  /** Every row followed by one line feed, in row order. */
  function Join(rows: seq<seq<byte>>): seq<byte>
    decreases |rows|
  {
    if rows == [] then [] else rows[0] + [NEWLINE] + Join(rows[1..])
  }

  predicate NoNewlines(rows: seq<seq<byte>>) {
    forall i :: 0 <= i < |rows| ==> NEWLINE !in rows[i]
  }

  lemma {:induction false} JoinAppend(a: seq<seq<byte>>, b: seq<seq<byte>>)
    ensures Join(a + b) == Join(a) + Join(b)
    decreases |a|
  {
    if a == [] {
      assert a + b == b;
    } else {
      assert (a + b)[1..] == a[1..] + b;
      JoinAppend(a[1..], b);
    }
  }

  /** In a row followed by a line feed, that line feed is the first one. */
  lemma FirstNewlineAt(x: seq<byte>, rest: seq<byte>, k: nat)
    requires NEWLINE !in x && k <= |x|
    ensures (x + [NEWLINE] + rest)[k] == NEWLINE <==> k == |x|
  {
    if k < |x| {
      assert (x + [NEWLINE] + rest)[k] == x[k];
    }
  }

  /** Saving is injective on rows without line feeds: the saved bytes
      determine the rows. */
  lemma {:induction false} JoinInjective(a: seq<seq<byte>>, b: seq<seq<byte>>)
    requires NoNewlines(a) && NoNewlines(b)
    requires Join(a) == Join(b)
    ensures a == b
    decreases |a|
  {
    if a != [] && b != [] {
      var x, y := a[0], b[0];
      var ja, jb := Join(a), Join(b);
      assert ja == x + [NEWLINE] + Join(a[1..]);
      assert jb == y + [NEWLINE] + Join(b[1..]);
      if |x| < |y| {
        FirstNewlineAt(x, Join(a[1..]), |x|);
        assert false;
      } else if |y| < |x| {
        FirstNewlineAt(y, Join(b[1..]), |y|);
        assert false;
      } else {
        assert x == ja[..|x|] == jb[..|y|] == y;
        assert Join(a[1..]) == ja[|x| + 1..] == jb[|y| + 1..] == Join(b[1..]);
        JoinInjective(a[1..], b[1..]);
      }
    }
  }

  /** The save loop of `editor_save_to_file`: each row's bytes, then a line
      feed. */
  method SaveRows(e: E.Editor) returns (out: seq<byte>)
    ensures out == Join(E.Text(e.lines))
  {
    out := [];
    var row := 0;
    while row < |e.lines|
      invariant row <= |e.lines|
      invariant out == Join(E.Text(e.lines[..row]))
    {
      JoinAppend(E.Text(e.lines[..row]), [e.lines[row].chars]);
      assert E.Text(e.lines[..row + 1]) == E.Text(e.lines[..row]) + [e.lines[row].chars];
      assert Join([e.lines[row].chars]) == e.lines[row].chars + [NEWLINE];
      out := out + e.lines[row].chars + [NEWLINE];
      row := row + 1;
    }
    assert e.lines[..row] == e.lines;
  }

  /** Split off the bytes before the first delimiter and consume the
      delimiter; fail when there is none. */
  function ChopByDelim(s: seq<byte>, d: byte): (r: Option<(seq<byte>, seq<byte>)>)
    ensures r.Some? <==> d in s
    ensures r.Some? ==> s == r.value.0 + [d] + r.value.1 && d !in r.value.0
  {
    if |s| == 0 then None
    else if s[0] == d then Some(([], s[1..]))
    else match ChopByDelim(s[1..], d)
      case None => None
      case Some((seg, rest)) => Some(([s[0]] + seg, rest))
  }

  /** Append to the last row, as the load loop does through `lines[len - 1]`. */
  function AppendToLast(e: E.Editor, text: seq<byte>): (r: E.Editor)
    requires e.Valid() && |e.lines| > 0
    ensures r.Valid() && r.cap == e.cap && r.row == e.row && r.col == e.col
    ensures |r.lines| == |e.lines|
    ensures r.lines[..|r.lines| - 1] == e.lines[..|e.lines| - 1]
    ensures r.lines[|r.lines| - 1].chars == e.lines[|e.lines| - 1].chars + text
  {
    var last := |e.lines| - 1;
    e.(lines := e.lines[last := L.AppendSized(e.lines[last], text)])
  }

  /** The inner loop of `editor_load_from_file`: while bytes remain, chop a
      segment off at the next line feed, append it to the last row and open a
      new row; the final segment without a line feed is appended alone. The
      cursor stays on the last row throughout. */
  function LoadLoop(e: E.Editor, s: seq<byte>): (r: E.Editor)
    requires e.Valid() && |e.lines| > 0 && e.row == |e.lines| - 1
    ensures r.Valid() && |r.lines| > 0 && r.row == |r.lines| - 1
    ensures r.col == if NEWLINE in s then 0 else e.col
    decreases |s|
  {
    if |s| == 0 then
      e
    else
      match ChopByDelim(s, NEWLINE)
      case Some((seg, rest)) => LoadLoop(E.InsertNewLine(AppendToLast(e, seg)), rest)
      case None => AppendToLast(e, s)
  }

  /** What the load loop leaves behind: saving its rows gives the rows it
      started from with `s` added to the last one, and no row gains a line
      feed. */
  lemma {:induction false} LoadLoopSaves(e: E.Editor, s: seq<byte>)
    requires e.Valid() && |e.lines| > 0 && e.row == |e.lines| - 1
    ensures var r := LoadLoop(e, s);
            Join(E.Text(r.lines)) ==
              Join(E.Text(e.lines[..|e.lines| - 1])) + e.lines[|e.lines| - 1].chars + s + [NEWLINE]
    ensures NoNewlines(E.Text(e.lines)) ==> NoNewlines(E.Text(LoadLoop(e, s).lines))
    decreases |s|, 1
  {
    if |s| == 0 {
      LoadLoopEmpty(e, s);
    } else {
      match ChopByDelim(s, NEWLINE)
      case Some((seg, rest)) =>
        LoadRound(e, s, seg, rest);
      case None =>
        LoadLoopLastSegment(e, s);
    }
  }

  /** The load loop on no bytes leaves the editor as it is. */
  lemma LoadLoopEmpty(e: E.Editor, s: seq<byte>)
    requires e.Valid() && |e.lines| > 0 && e.row == |e.lines| - 1 && s == []
    ensures Join(E.Text(LoadLoop(e, s).lines)) ==
              Join(E.Text(e.lines[..|e.lines| - 1])) + e.lines[|e.lines| - 1].chars + s + [NEWLINE]
    ensures NoNewlines(E.Text(e.lines)) ==> NoNewlines(E.Text(LoadLoop(e, s).lines))
  {
    LastRowSplit(e.lines);
  }

  /** The load loop on bytes without a line feed appends them to the last
      row. */
  lemma LoadLoopLastSegment(e: E.Editor, s: seq<byte>)
    requires e.Valid() && |e.lines| > 0 && e.row == |e.lines| - 1
    requires |s| > 0 && NEWLINE !in s
    ensures Join(E.Text(LoadLoop(e, s).lines)) ==
              Join(E.Text(e.lines[..|e.lines| - 1])) + e.lines[|e.lines| - 1].chars + s + [NEWLINE]
    ensures NoNewlines(E.Text(e.lines)) ==> NoNewlines(E.Text(LoadLoop(e, s).lines))
  {
    var e1 := AppendToLast(e, s);
    assert LoadLoop(e, s) == e1;
    LastRowSplit(e1.lines);
    assert e1.lines[|e1.lines| - 1].chars == e.lines[|e.lines| - 1].chars + s;
    assert e1.lines[..|e1.lines| - 1] == e.lines[..|e.lines| - 1];
    AppendKeepsNoNewlines(e, e1, s);
  }

  /** One round of the load loop (a segment ended by a line feed) followed by
      the rest of the loop. */
  lemma {:induction false} LoadRound(e: E.Editor, s: seq<byte>, seg: seq<byte>, rest: seq<byte>)
    requires e.Valid() && |e.lines| > 0 && e.row == |e.lines| - 1
    requires ChopByDelim(s, NEWLINE) == Some((seg, rest))
    ensures var r := LoadLoop(e, s);
            Join(E.Text(r.lines)) ==
              Join(E.Text(e.lines[..|e.lines| - 1])) + e.lines[|e.lines| - 1].chars + s + [NEWLINE]
    ensures NoNewlines(E.Text(e.lines)) ==> NoNewlines(E.Text(LoadLoop(e, s).lines))
    decreases |s|, 0
  {
    LoadLoopSaves(E.InsertNewLine(AppendToLast(e, seg)), rest);
    var e1 := AppendToLast(e, seg);
    var e2 := E.InsertNewLine(e1);
    var r := LoadLoop(e2, rest);
    assert LoadLoop(e, s) == r;
    var before := Join(E.Text(e.lines[..|e.lines| - 1])) + e.lines[|e.lines| - 1].chars;
    var head := Join(E.Text(e2.lines[..|e2.lines| - 1]));
    assert head == before + seg + [NEWLINE]
        && (NoNewlines(E.Text(e.lines)) ==> NoNewlines(E.Text(e2.lines))) by {
      LoadStep(e, e1, e2, seg, rest);
    }
    assert Join(E.Text(r.lines)) == before + s + [NEWLINE] by {
      assert e2.lines[|e2.lines| - 1].chars == [] by {
        LoadStep(e, e1, e2, seg, rest);
      }
      assert Join(E.Text(r.lines)) == head + [] + rest + [NEWLINE];
      assert s == seg + [NEWLINE] + rest;
      Regroup(before, seg, rest);
    }
  }

  lemma Regroup(a: seq<byte>, b: seq<byte>, c: seq<byte>)
    ensures (a + b + [NEWLINE]) + [] + c + [NEWLINE] == a + (b + [NEWLINE] + c) + [NEWLINE]
  {
  }

  lemma LastRowSplit(lines: seq<L.Line>)
    requires |lines| > 0
    ensures Join(E.Text(lines)) ==
              Join(E.Text(lines[..|lines| - 1])) + lines[|lines| - 1].chars + [NEWLINE]
  {
    var n := |lines| - 1;
    assert E.Text(lines) == E.Text(lines[..n]) + [lines[n].chars];
    JoinAppend(E.Text(lines[..n]), [lines[n].chars]);
    assert Join([lines[n].chars]) == lines[n].chars + [NEWLINE];
  }

  lemma AppendKeepsNoNewlines(e: E.Editor, e1: E.Editor, s: seq<byte>)
    requires e.Valid() && |e.lines| > 0 && NEWLINE !in s
    requires e1 == AppendToLast(e, s)
    ensures NoNewlines(E.Text(e.lines)) ==> NoNewlines(E.Text(e1.lines))
  {
    if NoNewlines(E.Text(e.lines)) {
      var n := |e.lines| - 1;
      forall i | 0 <= i < |e1.lines| ensures NEWLINE !in e1.lines[i].chars {
        if i < n {
          assert e1.lines[i] == e1.lines[..n][i] == e.lines[..n][i];
          assert E.Text(e.lines)[i] == e.lines[i].chars;
        } else {
          assert E.Text(e.lines)[n] == e.lines[n].chars;
        }
      }
    }
  }

  /** One round of the load loop: the chopped segment ends the last row and
      a fresh empty row becomes the last one. */
  lemma LoadStep(e: E.Editor, e1: E.Editor, e2: E.Editor, seg: seq<byte>, rest: seq<byte>)
    requires e.Valid() && |e.lines| > 0 && e.row == |e.lines| - 1
    requires NEWLINE !in seg
    requires e1 == AppendToLast(e, seg)
    requires e2 == E.InsertNewLine(e1)
    ensures e2.Valid() && |e2.lines| > 0 && e2.row == |e2.lines| - 1 && e2.col == 0
    ensures e2.lines[|e2.lines| - 1].chars == []
    ensures Join(E.Text(e2.lines[..|e2.lines| - 1])) ==
              Join(E.Text(e.lines[..|e.lines| - 1])) + e.lines[|e.lines| - 1].chars + seg + [NEWLINE]
    ensures NoNewlines(E.Text(e.lines)) ==> NoNewlines(E.Text(e2.lines))
  {
    var n := |e.lines|;
    assert e2.lines[..n] == e1.lines by {
      forall i | 0 <= i < n ensures e2.lines[i] == e1.lines[i] { }
    }
    assert Join(E.Text(e1.lines)) ==
             Join(E.Text(e.lines[..n - 1])) + e.lines[n - 1].chars + seg + [NEWLINE] by {
      LastRowSplit(e1.lines);
      assert e1.lines[..n - 1] == e.lines[..n - 1];
    }
    if NoNewlines(E.Text(e.lines)) {
      AppendKeepsNoNewlines(e, e1, seg);
      OpenRowKeepsNoNewlines(e1, e2);
    }
  }

  lemma OpenRowKeepsNoNewlines(e1: E.Editor, e2: E.Editor)
    requires e1.row < |e1.lines| && |e1.lines| <= e1.cap
    requires e2 == E.InsertNewLine(e1)
    requires NoNewlines(E.Text(e1.lines))
    ensures NoNewlines(E.Text(e2.lines))
  {
    forall i | 0 <= i < |e2.lines| ensures NEWLINE !in E.Text(e2.lines)[i] {
      if i <= e1.row {
        assert E.Text(e1.lines)[i] == e1.lines[i].chars;
      } else if i > e1.row + 1 {
        assert E.Text(e1.lines)[i - 1] == e1.lines[i - 1].chars;
      }
    }
  }

  /** `editor_load_from_file` on the bytes of a file, into an editor that has
      no rows yet: the rows hold no line feeds, saving them gives back the
      bytes plus one final line feed, and the cursor is on row 0. The column
      is reset only as a side effect of opening a new row, so content without
      a line feed keeps the incoming column. */
  function Load(e: E.Editor, bytes: seq<byte>): (r: E.Editor)
    requires e.lines == [] && e.row == 0
    ensures r.Valid() && |r.lines| > 0 && r.row == 0
    ensures NoNewlines(E.Text(r.lines))
    ensures Join(E.Text(r.lines)) == bytes + [NEWLINE]
    ensures r.col == if NEWLINE in bytes then 0 else e.col
    ensures E.Good(e) ==> E.Good(r)
  {
    var first := E.CreateFirstNewLine(e);
    assert E.Text(first.lines[..0]) == [];
    LoadLoopSaves(first, bytes);
    var r := LoadLoop(first, bytes);
    r.(row := 0)
  }

  /** Saving and loading back reproduces the rows, plus the empty row that
      the final line feed opens. */
  lemma LoadAfterSave(rows: seq<seq<byte>>)
    requires NoNewlines(rows)
    ensures E.Text(Load(E.Fresh, Join(rows)).lines) == rows + [[]]
  {
    var got := E.Text(Load(E.Fresh, Join(rows)).lines);
    JoinAppend(rows, [[]]);
    assert Join([[]]) == [NEWLINE];
    JoinInjective(got, rows + [[]]);
  }

  /** "a\nb\n" loads as the rows "a", "b" and an empty last row. */
  lemma LoadTwoTerminatedRows()
    ensures E.Text(Load(E.Fresh, [97, NEWLINE, 98, NEWLINE]).lines) == [[97], [98], []]
  {
    assert Join([[97], [98]]) == [97, NEWLINE, 98, NEWLINE];
    LoadAfterSave([[97], [98]]);
  }

  /** The corrected row removal deletes exactly one line feed from the saved
      bytes: the one that ended the removed empty row. */
  lemma RemoveEmptyLineDropsOneNewline(e: E.Editor)
    requires E.RemovesLine(e)
    ensures var before := Join(E.Text(e.lines));
            var after := Join(E.Text(E.RemoveEmptyLine(e).lines));
            var p := |Join(E.Text(e.lines[..e.row]))|;
            p < |before| && before[p] == NEWLINE && p <= |after| && before == after[..p] + [NEWLINE] + after[p..]
  {
    var r := e.row;
    var pre, post := E.Text(e.lines[..r]), E.Text(e.lines[r + 1..]);
    assert E.Text(e.lines) == pre + [[]] + post;
    assert E.Text(E.RemoveEmptyLine(e).lines) == pre + post;
    JoinAppend(pre + [[]], post);
    JoinAppend(pre, [[]]);
    JoinAppend(pre, post);
    assert Join([[]]) == [NEWLINE];
  }

  /** As written, removing a row keeps the row count, so the saved bytes
      still end with the slot past the end that moved into the last row. */
  lemma RemoveLineKeepsStaleRow(e: E.Editor, stale: L.Line)
    requires E.RemovesLine(e)
    ensures var w := E.RemoveLine(e, stale);
            var saved := Join(E.Text(w.lines));
            |w.lines| == |e.lines| && |saved| > |stale.chars| && saved[|saved| - |stale.chars| - 1..] == stale.chars + [NEWLINE]
  {
    var w := E.RemoveLine(e, stale);
    LastRowSplit(w.lines);
  }
}
