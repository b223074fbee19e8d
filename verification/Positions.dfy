/** Where printed characters appear: a text on a cleared screen, read line by line as on
    paper, against the rows scrolled off and the rows on the screen. */
module Positions {
  import opened Prelude
  import opened Display

  /** The lines of a text; a newline ends one and begins another. */
  function Lines(text: seq<nat>): (lines: seq<seq<nat>>)
    ensures |lines| >= 1
  {
    if text == [] then [[]]
    else
      var lines, ch := Lines(text[..|text| - 1]), text[|text| - 1];
      if ch == 10 then lines + [[]]
      else lines[..|lines| - 1] + [lines[|lines| - 1] + [ch]]
  }

  /** The columns of a line: a tab leaves four blank ones, any other character fills one. */
  function Columns(color: nat, line: seq<nat>): seq<nat>
    requires forall i :: 0 <= i < |line| ==> line[i] < 256
  {
    if line == [] then []
    else
      Columns(color, line[..|line| - 1])
      + if line[|line| - 1] == 9 then [0, 0, 0, 0] else [CellOf(color, line[|line| - 1])]
  }

  /** A row of 80 cells with the line at its left. */
  function Row(color: nat, line: seq<nat>): (row: seq<nat>)
    requires forall i :: 0 <= i < |line| ==> line[i] < 256
    requires |Columns(color, line)| <= 80
    ensures |row| == 80
  {
    Columns(color, line) + Blanks(80 - |Columns(color, line)|)
  }

  /** The lines are bytes, at most 79 columns wide. */
  predicate Narrow(color: nat, lines: seq<seq<nat>>) {
    forall r :: 0 <= r < |lines| ==>
      (forall i :: 0 <= i < |lines[r]| ==> lines[r][i] < 256) && |Columns(color, lines[r])| <= 79
  }

  /** From line 25 on a line begins with a character that fills a column; only the last one
      may be empty. Otherwise several newlines share one scroll, or leading tabs are lost. */
  predicate Steady(lines: seq<seq<nat>>) {
    forall r :: 25 <= r < |lines| ==>
      (lines[r] == [] ==> r == |lines| - 1) && (lines[r] != [] ==> lines[r][0] != 9)
  }

  /** The rows of all lines, one below the other. */
  function Sheet(color: nat, lines: seq<seq<nat>>): (cells: seq<nat>)
    requires Narrow(color, lines)
    ensures |cells| == 80 * |lines|
  {
    if lines == [] then []
    else Sheet(color, lines[..|lines| - 1]) + Row(color, lines[|lines| - 1])
  }

  /** Rows scrolled off and rows on the screen. */
  function AllCells(s: Screen): seq<nat> { s.off + s.cells }

  // ---------- the cursor follows the text ----------

  /** The screen shows the finished lines, the open line up to the cursor, and blank cells. */
  ghost predicate Shows(s: Screen, color: nat, done: seq<seq<nat>>, line: seq<nat>)
    requires Sized(s)
  {
    Narrow(color, done) && Narrow(color, done + [line])
    && (forall i :: 0 <= i < |line| ==> line[i] < 256)
    && s.x == |Columns(color, line)|
    && if |done| >= 25 && line == [] then
         s.y == 25 && |s.off| == 80 * (|done| - 25) && AllCells(s) == Sheet(color, done)
       else
         s.y == (if |done| < 25 then |done| else 24)
         && |s.off| == (if |done| < 25 then 0 else 80 * (|done| - 24))
         && AllCells(s) == Sheet(color, done + [line]) + Blanks(if |done| < 25 then 80 * (24 - |done|) else 0)
  }

  lemma SheetSnoc(color: nat, done: seq<seq<nat>>, line: seq<nat>)
    requires Narrow(color, done + [line])
    ensures Narrow(color, done)
    ensures forall i :: 0 <= i < |line| ==> line[i] < 256
    ensures |Columns(color, line)| <= 79
    ensures Sheet(color, done + [line]) == Sheet(color, done) + Row(color, line)
  {
    assert (done + [line])[..|done|] == done;
    assert (done + [line])[|done|] == line;
    forall r | 0 <= r < |done|
      ensures (forall i :: 0 <= i < |done[r]| ==> done[r][i] < 256) && |Columns(color, done[r])| <= 79
    {
      assert (done + [line])[r] == done[r];
    }
  }

  lemma ColumnsSnoc(color: nat, line: seq<nat>, ch: nat)
    requires ch < 256 && forall i :: 0 <= i < |line| ==> line[i] < 256
    ensures forall i :: 0 <= i < |line + [ch]| ==> (line + [ch])[i] < 256
    ensures Columns(color, line + [ch])
         == Columns(color, line) + if ch == 9 then [0, 0, 0, 0] else [CellOf(color, ch)]
  {
    hide CellOf;
    assert (line + [ch])[..|line|] == line;
  }

  /** A tab leaves the row as it is. */
  lemma RowTab(color: nat, line: seq<nat>)
    requires forall i :: 0 <= i < |line| ==> line[i] < 256
    requires |Columns(color, line + [9])| <= 79
    ensures |Columns(color, line)| + 4 == |Columns(color, line + [9])|
    ensures Row(color, line + [9]) == Row(color, line)
  {
    hide CellOf;
    ColumnsSnoc(color, line, 9);
  }

  /** A glyph fills the cell behind the columns so far. */
  lemma RowGlyph(color: nat, line: seq<nat>, ch: nat)
    requires ch < 256 && ch != 9 && forall i :: 0 <= i < |line| ==> line[i] < 256
    requires |Columns(color, line + [ch])| <= 79
    ensures |Columns(color, line)| + 1 == |Columns(color, line + [ch])|
    ensures Row(color, line + [ch]) == Row(color, line)[|Columns(color, line)| := CellOf(color, ch)]
  {
    hide CellOf;
    ColumnsSnoc(color, line, ch);
  }

  lemma RowEmpty(color: nat)
    ensures Columns(color, []) == [] && Row(color, []) == Blanks(80)
  {}

  lemma ShowsTab(s: Screen, color: nat, done: seq<seq<nat>>, line: seq<nat>)
    requires Sized(s) && Shows(s, color, done, line) && Narrow(color, done + [line + [9]])
    requires |done| >= 25 ==> line != []
    ensures Shows(Put(s, color, 9), color, done, line + [9])
  {
    hide Sheet, Row, Columns, Narrow;
    SheetSnoc(color, done, line);
    SheetSnoc(color, done, line + [9]);
    RowTab(color, line);
  }

  lemma ShowsNewline(s: Screen, color: nat, done: seq<seq<nat>>, line: seq<nat>)
    requires Sized(s) && Shows(s, color, done, line) && Narrow(color, done + [line] + [[]])
    requires |done| >= 25 ==> line != []
    ensures Shows(Put(s, color, 10), color, done + [line], [])
  {
    hide Sheet, Row, Columns, Narrow;
    RowEmpty(color);
    SheetSnoc(color, done + [line], []);
    var rest := Blanks(if |done| < 25 then 80 * (24 - |done|) else 0);
    if |done| < 24 {
      assert rest == Blanks(80) + Blanks(80 * (24 - |done + [line]|));
      Associate(Sheet(color, done + [line]), Blanks(80), Blanks(80 * (24 - |done + [line]|)));
    } else {
      assert Sheet(color, done + [line]) + rest == Sheet(color, done + [line]);
    }
  }

  /** The place of a glyph on a screen that shows the lines: behind the open line's columns. */
  lemma PlaceShows(s: Screen, color: nat, done: seq<seq<nat>>, line: seq<nat>)
    requires Sized(s) && Shows(s, color, done, line) && |Columns(color, line)| <= 78
    ensures var t := Place(s);
            t.x == |Columns(color, line)| && |t.off| + 80 * t.y == 80 * |done|
            && AllCells(t) == Sheet(color, done + [line]) + Blanks(if |done| < 25 then 80 * (24 - |done|) else 0)
            && t.y == (if |done| < 25 then |done| else 24)
  {
    hide Sheet, Row, Columns, Narrow;
    SheetSnoc(color, done, line);
    if |done| >= 25 && line == [] {
      RowEmpty(color);
      var t := Scroll(s);
      assert AllCells(t) == AllCells(s) + Blanks(80);
      assert Sheet(color, done + [line]) + Blanks(0) == Sheet(color, done + [line]);
    }
  }

  lemma ShowsGlyph(s: Screen, color: nat, done: seq<seq<nat>>, line: seq<nat>, ch: nat)
    requires Sized(s) && Shows(s, color, done, line) && Glyph(ch) && ch < 256
    requires Narrow(color, done + [line + [ch]])
    ensures Shows(Put(s, color, ch), color, done, line + [ch])
  {
    hide Sheet, Row, Columns, Narrow, CellOf, Place;
    SheetSnoc(color, done, line);
    SheetSnoc(color, done, line + [ch]);
    RowGlyph(color, line, ch);
    PlaceShows(s, color, done, line);
    var t := Place(s);
    var at := COLUMNS * t.y + t.x;
    var cell := CellOf(color, ch);
    assert t.off + t.cells[at := cell] == (t.off + t.cells)[|t.off| + at := cell];
    var sheet, row := Sheet(color, done), Row(color, line);
    assert (sheet + row + Blanks(if |done| < 25 then 80 * (24 - |done|) else 0))[|sheet| + t.x := cell]
        == sheet + row[t.x := cell] + Blanks(if |done| < 25 then 80 * (24 - |done|) else 0);
  }

  // ---------- whole texts ----------

  /** Lines so far, and the open one. */
  function Done(text: seq<nat>): seq<seq<nat>> { Lines(text)[..|Lines(text)| - 1] }

  function Open(text: seq<nat>): seq<nat> { Lines(text)[|Lines(text)| - 1] }

  lemma LinesSnoc(text: seq<nat>, ch: nat)
    ensures Lines(text) == Done(text) + [Open(text)]
    ensures ch == 10 ==> Done(text + [ch]) == Done(text) + [Open(text)] && Open(text + [ch]) == []
    ensures ch != 10 ==> Done(text + [ch]) == Done(text) && Open(text + [ch]) == Open(text) + [ch]
  {
    hide Lines;
    LinesStep(text, ch);
  }

  lemma LinesStep(text: seq<nat>, ch: nat)
    ensures Lines(text + [ch])
         == if ch == 10 then Lines(text) + [[]]
            else Lines(text)[..|Lines(text)| - 1] + [Lines(text)[|Lines(text)| - 1] + [ch]]
  {
    assert (text + [ch])[..|text|] == text;
  }

  /** A shorter open line, or none, is narrow and steady too. */
  lemma Shorter(color: nat, done: seq<seq<nat>>, line: seq<nat>, ch: nat)
    requires Narrow(color, done + [line + [ch]]) && Steady(done + [line + [ch]])
    ensures Narrow(color, done + [line]) && Steady(done + [line])
    ensures ch < 256 && (ch == 9 && |done| >= 25 ==> line != [])
  {
    hide Columns, CellOf;
    var longer, shorter := done + [line + [ch]], done + [line];
    assert forall r :: 0 <= r < |done| ==> shorter[r] == longer[r] == done[r];
    assert shorter[|done|] == line && longer[|done|] == line + [ch];
    assert (line + [ch])[|line|] == ch;
    assert forall i :: 0 <= i < |line| ==> (line + [ch])[i] == line[i];
    ColumnsSnoc(color, line, ch);
  }

  lemma Fewer(color: nat, done: seq<seq<nat>>, line: seq<nat>)
    requires Narrow(color, done + [line] + [[]]) && Steady(done + [line] + [[]])
    ensures Narrow(color, done + [line]) && Steady(done + [line])
    ensures |done| >= 25 ==> line != []
  {
    hide Columns;
    var all := done + [line] + [[]];
    assert forall r :: 0 <= r < |done| + 1 ==> (done + [line])[r] == all[r];
    assert all[|done|] == line;
  }

  lemma {:induction false} TextShows(color: nat, text: seq<nat>)
    requires Bytes(text) && Narrow(color, Lines(text)) && Steady(Lines(text))
    ensures Shows(PutAll(CLEARED, color, text), color, Done(text), Open(text))
    decreases |text|
  {
    hide Lines, Done, Open, Put, Shows, Narrow, Steady;
    if text == [] {
      NothingShown(color);
    } else {
      var init, ch := text[..|text| - 1], text[|text| - 1];
      assert text == init + [ch];
      var done, line := Done(init), Open(init);
      LinesSnoc(init, ch);
      LinesSnoc(text, 0);
      PutAllSnoc(CLEARED, color, init, ch);
      if ch == 10 {
        Fewer(color, done, line);
        TextShows(color, init);
        ShowsNewline(PutAll(CLEARED, color, init), color, done, line);
      } else {
        Shorter(color, done, line, ch);
        TextShows(color, init);
        if ch == 9 {
          ShowsTab(PutAll(CLEARED, color, init), color, done, line);
        } else {
          ShowsGlyph(PutAll(CLEARED, color, init), color, done, line, ch);
        }
      }
    }
  }

  lemma NothingShown(color: nat)
    ensures Lines([]) == [[]] && Done([]) == [] && Open([]) == []
    ensures Shows(PutAll(CLEARED, color, []), color, [], [])
  {
    RowEmpty(color);
    SheetSnoc(color, [], []);
    assert AllCells(CLEARED) == Sheet(color, [[]]) + Blanks(80 * 24);
  }

  /** Cell 80 * r + c of a sheet is column c of line r. */
  lemma {:induction false} SheetAt(color: nat, lines: seq<seq<nat>>, r: nat, c: nat)
    requires Narrow(color, lines) && r < |lines| && c < 80
    ensures (forall i :: 0 <= i < |lines[r]| ==> lines[r][i] < 256) && |Columns(color, lines[r])| <= 79
    ensures Sheet(color, lines)[80 * r + c] == if c < |Columns(color, lines[r])| then Columns(color, lines[r])[c] else 0
    decreases |lines|
  {
    hide Columns;
    var last := |lines| - 1;
    var init := lines[..last];
    assert lines == init + [lines[last]];
    SheetSnoc(color, init, lines[last]);
    if r < last {
      SheetAt(color, init, r, c);
    }
  }

  /** Column width of the characters before position k, and what stands there. */
  lemma {:induction false} ColumnAt(color: nat, line: seq<nat>, k: nat)
    requires k < |line| && line[k] != 9 && forall i :: 0 <= i < |line| ==> line[i] < 256
    ensures forall i :: 0 <= i < k ==> line[..k][i] < 256
    ensures |Columns(color, line[..k])| < |Columns(color, line)|
    ensures Columns(color, line)[|Columns(color, line[..k])|] == CellOf(color, line[k])
    decreases |line|
  {
    hide CellOf;
    var last := |line| - 1;
    var init := line[..last];
    assert line == init + [line[last]];
    ColumnsSnoc(color, init, line[last]);
    if k < last {
      ColumnAt(color, init, k);
      assert init[..k] == line[..k];
    } else {
      assert init == line[..k];
    }
  }

  /** Number of tabs. */
  function Tabs(line: seq<nat>): nat {
    if line == [] then 0 else Tabs(line[..|line| - 1]) + if line[|line| - 1] == 9 then 1 else 0
  }

  /** A tab counts for four columns and every other character for one. */
  lemma {:induction false} ColumnCount(color: nat, line: seq<nat>)
    requires forall i :: 0 <= i < |line| ==> line[i] < 256
    ensures |Columns(color, line)| == |line| + 3 * Tabs(line)
    decreases |line|
  {
    hide CellOf;
    if line != [] {
      ColumnCount(color, line[..|line| - 1]);
    }
  }

  lemma ShownCell(s: Screen, color: nat, done: seq<seq<nat>>, line: seq<nat>, r: nat, c: nat)
    requires Sized(s) && Shows(s, color, done, line) && r <= |done| && c < 80
    requires r == |done| ==> r < 25 || line != []
    ensures var l := (done + [line])[r];
            (forall i :: 0 <= i < |l| ==> l[i] < 256) && 80 * r + c < |AllCells(s)|
            && AllCells(s)[80 * r + c] == if c < |Columns(color, l)| then Columns(color, l)[c] else 0
  {
    hide Sheet, Columns, Narrow, Row;
    SheetAt(color, done + [line], r, c);
    if r < |done| {
      SheetAt(color, done, r, c);
      assert (done + [line])[r] == done[r];
    }
  }

  /** Where every character of a text appears: column c of line r is cell 80 * r + c of the rows
      scrolled off and the rows on the screen together. A line from 25 on scrolls when its first
      character comes. */
  lemma TextPlaced(color: nat, text: seq<nat>, r: nat, c: nat)
    requires Bytes(text) && Narrow(color, Lines(text)) && Steady(Lines(text))
    requires r < |Lines(text)| && c < 80 && (r < 25 || Lines(text)[r] != [])
    ensures var all, line := AllCells(PutAll(CLEARED, color, text)), Lines(text)[r];
            (forall i :: 0 <= i < |line| ==> line[i] < 256) && 80 * r + c < |all|
            && all[80 * r + c] == if c < |Columns(color, line)| then Columns(color, line)[c] else 0
  {
    hide Lines, Done, Open, PutAll, Shows, Narrow, Steady, Columns;
    TextShows(color, text);
    LinesSnoc(text, 0);
    assert Lines(text)[r] == (Done(text) + [Open(text)])[r];
    ShownCell(PutAll(CLEARED, color, text), color, Done(text), Open(text), r, c);
  }

  /** Nothing else is on the screen, and the cursor stands behind the last line. */
  lemma TextEnds(color: nat, text: seq<nat>)
    requires Bytes(text) && Narrow(color, Lines(text)) && Steady(Lines(text))
    ensures var t, lines := PutAll(CLEARED, color, text), Lines(text);
            var last := lines[|lines| - 1];
            (forall i :: 0 <= i < |last| ==> last[i] < 256) && t.x == |Columns(color, last)|
            && |t.off| + 80 * t.y == 80 * (|lines| - 1)
            && |AllCells(t)| == 80 * (if |lines| <= 25 then 25 else if last == [] then |lines| - 1 else |lines|)
            && forall i :: 80 * |lines| <= i < |AllCells(t)| ==> AllCells(t)[i] == 0
  {
    hide Lines, PutAll, Narrow, Steady, Columns, Sheet;
    TextShows(color, text);
    LinesSnoc(text, 0);
  }

  /** The place of one character, from the text alone: character k of line r is k columns in, and
      three more for each tab before it. */
  lemma GlyphPlaced(color: nat, text: seq<nat>, r: nat, k: nat)
    requires Bytes(text) && Narrow(color, Lines(text)) && Steady(Lines(text))
    requires r < |Lines(text)| && k < |Lines(text)[r]| && Lines(text)[r][k] != 9
    ensures Lines(text)[r][k] < 256
    ensures var all, at := AllCells(PutAll(CLEARED, color, text)), 80 * r + k + 3 * Tabs(Lines(text)[r][..k]);
            at < |all| && all[at] == CellOf(color, Lines(text)[r][k])
  {
    hide Lines, PutAll, Steady, Columns, CellOf, AllCells;
    var line := Lines(text)[r];
    ColumnAt(color, line, k);
    ColumnCount(color, line[..k]);
    TextPlaced(color, text, r, |Columns(color, line[..k])|);
  }

  /** Below the last row a glyph takes the first cell of the bottom row after a single scroll,
      however far below and in whatever column the cursor was. */
  lemma ScrollOnce(s: Screen, color: nat, ch: nat)
    requires Sized(s) && ch < 256 && Glyph(ch) && s.x < 79 && s.y >= 25
    ensures var t := Put(s, color, ch);
            t.x == 1 && t.y == 24 && t.off == s.off + s.cells[..80]
            && t.cells == s.cells[80..] + [CellOf(color, ch)] + Blanks(79)
  {
    hide CellOf;
  }

  /** Past column 78 a glyph goes to the next row, exactly as after a newline. */
  lemma WrapIsNewline(s: Screen, color: nat, ch: nat)
    requires Sized(s) && ch < 256 && Glyph(ch) && s.x >= 79
    ensures Put(s, color, ch) == Put(Put(s, color, 10), color, ch)
  {}
}
