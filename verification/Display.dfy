/** The text console as a value: 25 rows of 80 cells, a cursor, and everything that has
    scrolled off the top. Which printed characters are kept, in order, and when one is lost. */
module Display {
  import opened Prelude

  const ROWS := 25
  const COLUMNS := 80
  const CELLS := 2000

  /** cells is row-major; off holds the cells of the rows scrolled away, oldest first. */
  datatype Screen = Screen(cells: seq<nat>, x: nat, y: nat, off: seq<nat>)

  predicate Sized(s: Screen) { |s.cells| == CELLS && s.x < TWO_32 && s.y < TWO_32 }

  function U32(x: nat): nat { x % TWO_32 }

  function Blanks(n: nat): (z: seq<nat>)
    ensures |z| == n && forall i :: 0 <= i < n ==> z[i] == 0
  {
    seq(n, _ => 0)
  }

  /** (uint16_t)(color << 8) + ch, with ch a signed char. */
  function CellOf(color: nat, ch: nat): (cell: nat)
    requires ch < 256
    ensures cell < 0x1_0000
  {
    (color * 256 % 0x1_0000 + (if ch < 128 then ch else ch - 256)) % 0x1_0000
  }

  /** The character is always stored intact; the color is, exactly for ASCII. */
  lemma CellKeeps(color: nat, ch: nat)
    requires ch < 256
    ensures CellOf(color, ch) % 256 == ch
    ensures CellOf(color, ch) / 256 == color % 256 <==> ch < 128
  {
    assert color * 256 % 0x1_0000 == color % 256 * 256;
  }

  /** A character that print puts into a cell. */
  predicate Glyph(ch: nat) { ch != 10 && ch != 9 }

  function Scroll(s: Screen): Screen
    requires Sized(s)
  {
    Screen(s.cells[COLUMNS..] + Blanks(COLUMNS), 0, ROWS - 1, s.off + s.cells[..COLUMNS])
  }

  /** Where a glyph goes: past column 78 to the next row, past the last row by scrolling. */
  function Place(s: Screen): (t: Screen)
    requires Sized(s)
    ensures Sized(t) && t.x < COLUMNS - 1 && t.y < ROWS
  {
    var w := if s.x >= COLUMNS - 1 then s.(x := 0, y := U32(s.y + 1)) else s;
    if w.y >= ROWS then Scroll(w) else w
  }

  /** One character of print. */
  function Put(s: Screen, color: nat, ch: nat): (t: Screen)
    requires Sized(s) && ch < 256
    ensures Sized(t)
  {
    if ch == 10 then s.(x := 0, y := U32(s.y + 1))
    else if ch == 9 then s.(x := U32(s.x + 4))
    else
      var t := Place(s);
      t.(cells := t.cells[COLUMNS * t.y + t.x := CellOf(color, ch)], x := t.x + 1)
  }

  predicate Bytes(text: seq<nat>) { forall i :: 0 <= i < |text| ==> text[i] < 256 && text[i] != 0 }

  function PutAll(s: Screen, color: nat, text: seq<nat>): (t: Screen)
    requires Sized(s) && Bytes(text)
    ensures Sized(t)
    decreases |text|
  {
    if text == [] then s else PutAll(Put(s, color, text[0]), color, text[1..])
  }

  lemma {:induction false} PutAllSnoc(s: Screen, color: nat, text: seq<nat>, ch: nat)
    requires Sized(s) && Bytes(text) && 0 < ch < 256
    ensures Bytes(text + [ch]) && PutAll(s, color, text + [ch]) == Put(PutAll(s, color, text), color, ch)
    decreases |text|
  {
    hide Put;
    if text == [] {
      assert text + [ch] == [ch] && [ch][1..] == [];
    } else {
      assert (text + [ch])[1..] == text[1..] + [ch];
      PutAllSnoc(Put(s, color, text[0]), color, text[1..], ch);
    }
  }

  // ---------- the conservation law ----------

  /** All cells ever filled, in reading order, blank ones dropped. */
  function DropBlank(cells: seq<nat>): seq<nat> {
    if cells == [] then []
    else DropBlank(cells[..|cells| - 1]) + if cells[|cells| - 1] == 0 then [] else [cells[|cells| - 1]]
  }

  function Content(s: Screen): seq<nat> { DropBlank(s.off + s.cells) }

  /** The cells a text asks for. */
  function Glyphs(color: nat, text: seq<nat>): seq<nat>
    requires Bytes(text)
  {
    if text == [] then []
    else (if Glyph(text[0]) then [CellOf(color, text[0])] else []) + Glyphs(color, text[1..])
  }

  /** Every cell at or after the cursor is blank. */
  predicate BlankAhead(s: Screen)
    requires Sized(s)
  {
    forall i :: 0 <= i < CELLS && (i / COLUMNS > s.y || (i / COLUMNS == s.y && i % COLUMNS >= s.x))
      ==> s.cells[i] == 0
  }

  predicate Good(s: Screen) { Sized(s) && BlankAhead(s) }

  /** The character does not wrap a 32-bit cursor field. */
  predicate NoWrapStep(s: Screen, ch: nat) {
    if ch == 10 then s.y + 1 < TWO_32
    else if ch == 9 then s.x + 4 < TWO_32
    else s.x >= COLUMNS - 1 ==> s.y + 1 < TWO_32
  }

  /** No character of the text does. */
  predicate NoWrap(s: Screen, color: nat, text: seq<nat>)
    requires Sized(s) && Bytes(text)
    decreases |text|
  {
    text == [] || (NoWrapStep(s, text[0]) && NoWrap(Put(s, color, text[0]), color, text[1..]))
  }

  /** Every glyph of the text finds blank cells from its place on. */
  predicate BlankRun(s: Screen, color: nat, text: seq<nat>)
    requires Sized(s) && Bytes(text)
    decreases |text|
  {
    text == []
    || ((Glyph(text[0]) ==> BlankAhead(Place(s))) && BlankRun(Put(s, color, text[0]), color, text[1..]))
  }

  /** How many glyphs of the text land on a cell that is in use. */
  function Overwrites(s: Screen, color: nat, text: seq<nat>): nat
    requires Sized(s) && Bytes(text)
    decreases |text|
  {
    if text == [] then 0
    else (if Glyph(text[0]) && PlaceCell(s) != 0 then 1 else 0)
         + Overwrites(Put(s, color, text[0]), color, text[1..])
  }

  /** The cell that the next glyph replaces. */
  function PlaceCell(s: Screen): nat
    requires Sized(s)
  {
    Place(s).cells[COLUMNS * Place(s).y + Place(s).x]
  }

  lemma {:induction false} DropBlankConcat(a: seq<nat>, b: seq<nat>)
    ensures DropBlank(a + b) == DropBlank(a) + DropBlank(b)
    decreases |b|
  {
    if b == [] {
      assert a + b == a;
    } else {
      var last := |b| - 1;
      assert (a + b)[..|a + b| - 1] == a + b[..last];
      DropBlankConcat(a, b[..last]);
    }
  }

  lemma {:induction false} DropBlankNoneIff(z: seq<nat>)
    ensures DropBlank(z) == [] <==> forall i :: 0 <= i < |z| ==> z[i] == 0
    decreases |z|
  {
    if z != [] {
      DropBlankNoneIff(z[..|z| - 1]);
      assert forall i :: 0 <= i < |z| - 1 ==> z[i] == z[..|z| - 1][i];
    }
  }

  lemma DropBlankNone(z: seq<nat>)
    requires forall i :: 0 <= i < |z| ==> z[i] == 0
    ensures DropBlank(z) == []
  {
    DropBlankNoneIff(z);
  }

  /** Wrapping and scrolling lose no content, wherever the cursor is. */
  lemma PlaceContent(s: Screen)
    requires Sized(s)
    ensures Content(Place(s)) == Content(s)
  {
    hide DropBlank;
    var w := if s.x >= COLUMNS - 1 then s.(x := 0, y := U32(s.y + 1)) else s;
    if w.y >= ROWS {
      var t := Scroll(w);
      assert t.off + t.cells == (w.off + w.cells) + Blanks(COLUMNS);
      DropBlankConcat(w.off + w.cells, Blanks(COLUMNS));
      DropBlankNone(Blanks(COLUMNS));
      assert DropBlank(w.off + w.cells) + [] == DropBlank(w.off + w.cells);
    }
  }

  /** As long as the cursor does not wrap they keep every cell ahead of it blank. */
  lemma PlaceKeeps(s: Screen)
    requires Good(s) && (s.x >= COLUMNS - 1 ==> s.y + 1 < TWO_32)
    ensures Good(Place(s))
  {
    var w := if s.x >= COLUMNS - 1 then s.(x := 0, y := U32(s.y + 1)) else s;
    assert Good(w);
  }

  function At(s: Screen): (at: nat)
    requires Sized(s) && s.x < COLUMNS - 1 && s.y < ROWS
    ensures at < CELLS
  {
    COLUMNS * s.y + s.x
  }

  /** The content around the cursor, when the cell there holds c. */
  lemma ContentWith(s: Screen, c: nat)
    requires Sized(s) && s.x < COLUMNS - 1 && s.y < ROWS
    ensures Content(s.(cells := s.cells[At(s) := c]))
         == DropBlank(s.off + s.cells[..At(s)]) + (if c == 0 then [] else [c]) + DropBlank(s.cells[At(s) + 1..])
  {
    hide DropBlank;
    var at := At(s);
    var before, after := s.off + s.cells[..at], s.cells[at + 1..];
    assert s.off + s.cells[at := c] == (before + [c]) + after;
    DropBlankConcat(before + [c], after);
    DropBlankConcat(before, [c]);
    DropBlankOne(c);
  }

  lemma ContentAround(s: Screen)
    requires Sized(s) && s.x < COLUMNS - 1 && s.y < ROWS
    ensures Content(s)
         == DropBlank(s.off + s.cells[..At(s)]) + (if s.cells[At(s)] == 0 then [] else [s.cells[At(s)]])
            + DropBlank(s.cells[At(s) + 1..])
  {
    hide DropBlank, Content;
    ContentWith(s, s.cells[At(s)]);
    assert s.cells[At(s) := s.cells[At(s)]] == s.cells;
  }

  /** Blank cells ahead, seen from the cell at the cursor. */
  lemma BlankAheadIff(s: Screen)
    requires Sized(s) && s.x < COLUMNS - 1 && s.y < ROWS
    ensures BlankAhead(s) <==> s.cells[At(s)] == 0 && DropBlank(s.cells[At(s) + 1..]) == []
  {
    hide DropBlank;
    var after := s.cells[At(s) + 1..];
    DropBlankNoneIff(after);
    assert forall i :: 0 <= i < |after| ==> after[i] == s.cells[At(s) + 1 + i];
    assert forall i :: At(s) < i < CELLS ==> s.cells[i] == after[i - At(s) - 1];
    forall i | 0 <= i < CELLS
      ensures (i / COLUMNS > s.y || (i / COLUMNS == s.y && i % COLUMNS >= s.x)) <==> i >= At(s)
    {
      AheadOf(i, s.x, s.y);
    }
  }

  lemma AheadOf(i: nat, x: nat, y: nat)
    requires x < COLUMNS
    ensures (i / COLUMNS > y || (i / COLUMNS == y && i % COLUMNS >= x)) <==> i >= COLUMNS * y + x
  {}

  /** Writing at the cursor appends to the content when all cells ahead are blank. */
  lemma WriteAppends(s: Screen, cell: nat)
    requires Good(s) && s.y < ROWS && s.x < COLUMNS - 1 && cell != 0
    ensures var t := s.(cells := s.cells[COLUMNS * s.y + s.x := cell], x := s.x + 1);
            Good(t) && Content(t) == Content(s) + [cell]
  {
    hide DropBlank;
    ContentWith(s, cell);
    ContentAround(s);
    BlankAheadIff(s);
  }

  /** A write that appends replaces a blank cell and lands in front of no other cell. */
  lemma AppendedBefore(s: Screen, c: nat)
    requires Sized(s) && s.y < ROWS && s.x < COLUMNS - 1 && c != 0
    requires Content(s.(cells := s.cells[At(s) := c])) == Content(s) + [c]
    ensures s.cells[At(s)] == 0
    ensures var b := DropBlank(s.cells[At(s) + 1..]); b == [] || b[0] == c
  {
    hide DropBlank, Content;
    ContentWith(s, c);
    ContentAround(s);
    var a, b := DropBlank(s.off + s.cells[..At(s)]), DropBlank(s.cells[At(s) + 1..]);
    if s.cells[At(s)] == 0 && b != [] {
      assert (a + [c] + b)[|a|] == c;
      assert (a + [] + b + [c])[|a|] == b[0];
    }
  }

  lemma DropBlankOne(cell: nat)
    ensures DropBlank([cell]) == if cell == 0 then [] else [cell]
  {
    assert [cell][..0] == [];
  }

  /** The next glyph is appended to the content, whichever it is, exactly when every cell from
      its place on is blank. */
  lemma GlyphAppendsIff(s: Screen)
    requires Sized(s)
    ensures (forall color, ch :: 0 < ch < 256 && Glyph(ch) ==>
               Content(Put(s, color, ch)) == Content(s) + [CellOf(color, ch)])
       <==> BlankAhead(Place(s))
  {
    hide DropBlank, Content, BlankAhead, Place;
    PlaceContent(s);
    if BlankAhead(Place(s)) {
      forall color, ch | 0 < ch < 256 && Glyph(ch)
        ensures Content(Put(s, color, ch)) == Content(s) + [CellOf(color, ch)]
      {
        GlyphAppends(s, color, ch);
      }
    } else if forall color, ch :: 0 < ch < 256 && Glyph(ch) ==>
                Content(Put(s, color, ch)) == Content(s) + [CellOf(color, ch)] {
      PutContent(s, 1, 65);
      PutContent(s, 2, 65);
      AppendedBefore(Place(s), CellOf(1, 65));
      AppendedBefore(Place(s), CellOf(2, 65));
      BlankAheadIff(Place(s));
    }
  }

  lemma GlyphAppends(s: Screen, color: nat, ch: nat)
    requires Sized(s) && 0 < ch < 256 && Glyph(ch) && BlankAhead(Place(s))
    ensures Good(Put(s, color, ch)) && Content(Put(s, color, ch)) == Content(s) + [CellOf(color, ch)]
  {
    hide DropBlank, Content, BlankAhead, Place, CellOf;
    PlaceContent(s);
    CellKeeps(color, ch);
    WriteAppends(Place(s), CellOf(color, ch));
  }

  /** The cursor's step behind the glyph does not matter for the content. */
  lemma PutContent(s: Screen, color: nat, ch: nat)
    requires Sized(s) && 0 < ch < 256 && Glyph(ch)
    ensures var t := Place(s);
            Content(Put(s, color, ch)) == Content(t.(cells := t.cells[At(t) := CellOf(color, ch)]))
  {
    hide DropBlank, Place, CellOf;
  }

  /** One character that wraps no cursor field keeps the blank region ahead of the cursor and
      appends its own cell. */
  lemma PutKeeps(s: Screen, color: nat, ch: nat)
    requires Good(s) && 0 < ch < 256 && NoWrapStep(s, ch)
    ensures Glyph(ch) ==> BlankAhead(Place(s))
    ensures var t := Put(s, color, ch);
            Good(t) && Content(t) == Content(s) + if Glyph(ch) then [CellOf(color, ch)] else []
  {
    hide DropBlank, CellOf, Place;
    if Glyph(ch) {
      PlaceKeeps(s);
      GlyphAppends(s, color, ch);
    } else {
      assert Content(s) + [] == Content(s);
    }
  }

  /** No character is lost, duplicated or reordered: printing a text whose glyphs all find
      blank cells appends exactly its cells to the content, whatever scrolls meanwhile. */
  lemma {:induction false} PutAllConserves(s: Screen, color: nat, text: seq<nat>)
    requires Sized(s) && Bytes(text) && BlankRun(s, color, text)
    ensures Content(PutAll(s, color, text)) == Content(s) + Glyphs(color, text)
    decreases |text|
  {
    hide DropBlank, Place, CellOf, BlankAhead;
    if text == [] {
      assert Content(s) + [] == Content(s);
    } else {
      StepAppends(s, color, text[0]);
      PutAllConserves(Put(s, color, text[0]), color, text[1..]);
      Associate(Content(s), if Glyph(text[0]) then [CellOf(color, text[0])] else [], Glyphs(color, text[1..]));
    }
  }

  lemma StepAppends(s: Screen, color: nat, ch: nat)
    requires Sized(s) && 0 < ch < 256 && (Glyph(ch) ==> BlankAhead(Place(s)))
    ensures Content(Put(s, color, ch)) == Content(s) + if Glyph(ch) then [CellOf(color, ch)] else []
  {
    hide DropBlank, Place, CellOf, BlankAhead;
    if Glyph(ch) {
      GlyphAppends(s, color, ch);
    } else {
      assert Content(s) + [] == Content(s);
    }
  }

  /** They do as long as no cursor field wraps. */
  lemma {:induction false} NoWrapKeeps(s: Screen, color: nat, text: seq<nat>)
    requires Good(s) && Bytes(text) && NoWrap(s, color, text)
    ensures BlankRun(s, color, text) && Good(PutAll(s, color, text))
    decreases |text|
  {
    hide Put, Place, BlankAhead, Content, NoWrapStep, Glyph;
    if text != [] {
      PutKeeps(s, color, text[0]);
      NoWrapKeeps(Put(s, color, text[0]), color, text[1..]);
    }
  }

  /** Exactly as many cells are lost as glyphs land on a cell in use, on every screen. */
  lemma {:induction false} LostCount(s: Screen, color: nat, text: seq<nat>)
    requires Sized(s) && Bytes(text)
    ensures |Content(PutAll(s, color, text))| + Overwrites(s, color, text) == |Content(s)| + |Glyphs(color, text)|
    decreases |text|
  {
    hide Put, Place, Content, CellOf, PlaceCell;
    if text != [] {
      StepCount(s, color, text[0]);
      LostCount(Put(s, color, text[0]), color, text[1..]);
    }
  }

  lemma StepCount(s: Screen, color: nat, ch: nat)
    requires Sized(s) && 0 < ch < 256
    ensures |Content(Put(s, color, ch))| + (if Glyph(ch) && PlaceCell(s) != 0 then 1 else 0)
         == |Content(s)| + if Glyph(ch) then 1 else 0
  {
    hide DropBlank, Place, CellOf;
    if Glyph(ch) {
      PlaceContent(s);
      PutContent(s, color, ch);
      CellKeeps(color, ch);
      ContentWith(Place(s), CellOf(color, ch));
      ContentAround(Place(s));
    }
  }

  // ---------- sequences of calls ----------

  datatype Call = Call(color: nat, text: seq<nat>)

  const CLEARED := Screen(Blanks(CELLS), 0, 0, [])

  function PrintAll(s: Screen, calls: seq<Call>): (t: Screen)
    requires Sized(s) && forall k :: 0 <= k < |calls| ==> Bytes(calls[k].text)
    ensures Sized(t)
    decreases |calls|
  {
    if calls == [] then s else PrintAll(PutAll(s, calls[0].color, calls[0].text), calls[1..])
  }

  predicate NoWrapAll(s: Screen, calls: seq<Call>)
    requires Sized(s) && forall k :: 0 <= k < |calls| ==> Bytes(calls[k].text)
    decreases |calls|
  {
    calls == []
    || (NoWrap(s, calls[0].color, calls[0].text)
        && NoWrapAll(PutAll(s, calls[0].color, calls[0].text), calls[1..]))
  }

  function AllGlyphs(calls: seq<Call>): seq<nat>
    requires forall k :: 0 <= k < |calls| ==> Bytes(calls[k].text)
  {
    if calls == [] then [] else Glyphs(calls[0].color, calls[0].text) + AllGlyphs(calls[1..])
  }

  lemma {:induction false} PrintAllConserves(s: Screen, calls: seq<Call>)
    requires forall k :: 0 <= k < |calls| ==> Bytes(calls[k].text)
    requires Good(s) && NoWrapAll(s, calls)
    ensures Good(PrintAll(s, calls)) && Content(PrintAll(s, calls)) == Content(s) + AllGlyphs(calls)
    decreases |calls|
  {
    hide PutAll, Content, BlankAhead, Bytes, Glyphs, NoWrap, BlankRun;
    if calls == [] {
      assert Content(s) + [] == Content(s);
    } else {
      NoWrapKeeps(s, calls[0].color, calls[0].text);
      PutAllConserves(s, calls[0].color, calls[0].text);
      PrintAllConserves(PutAll(s, calls[0].color, calls[0].text), calls[1..]);
      Associate(Content(s), Glyphs(calls[0].color, calls[0].text), AllGlyphs(calls[1..]));
    }
  }

  /** From a cleared screen, over runs of any length that wrap no cursor field, the rows
      scrolled off followed by the visible rows, blank cells dropped, are exactly what was
      printed, in order. */
  lemma ConsoleConserves(calls: seq<Call>)
    requires forall k :: 0 <= k < |calls| ==> Bytes(calls[k].text)
    requires NoWrapAll(CLEARED, calls)
    ensures Content(PrintAll(CLEARED, calls)) == AllGlyphs(calls)
  {
    hide DropBlank, PrintAll, Bytes, AllGlyphs, NoWrapAll;
    PrintAllConserves(CLEARED, calls);
    assert CLEARED.off + CLEARED.cells == Blanks(CELLS);
    DropBlankNone(Blanks(CELLS));
    assert [] + AllGlyphs(calls) == AllGlyphs(calls);
  }

  // ---------- texts that wrap no field ----------

  /** So many tabs and newlines in a row cannot wrap the 32-bit cursor fields. */
  const MAX_GAP := 0x3fff_ffec

  /** The cursor, gap tabs and newlines after the last glyph. */
  predicate Near(s: Screen, gap: nat) { gap <= MAX_GAP && s.x <= 79 + 4 * gap && s.y <= 24 + gap }

  /** No stretch of tabs and newlines is longer than MAX_GAP, where gap of them came just
      before the text. */
  predicate GapsOk(text: seq<nat>, gap: nat) {
    if text == [] then true
    else if Glyph(text[0]) then GapsOk(text[1..], 0)
    else gap < MAX_GAP && GapsOk(text[1..], gap + 1)
  }

  /** The stretch that is still open at the end of the text. */
  function GapAfter(text: seq<nat>, gap: nat): nat {
    if text == [] then gap
    else GapAfter(text[1..], if Glyph(text[0]) then 0 else gap + 1)
  }

  predicate CallGapsOk(calls: seq<Call>, gap: nat) {
    if calls == [] then true
    else GapsOk(calls[0].text, gap) && CallGapsOk(calls[1..], GapAfter(calls[0].text, gap))
  }

  lemma NearStep(s: Screen, color: nat, ch: nat, gap: nat)
    requires Sized(s) && 0 < ch < 256 && Near(s, gap) && (Glyph(ch) || gap < MAX_GAP)
    ensures NoWrapStep(s, ch) && Near(Put(s, color, ch), if Glyph(ch) then 0 else gap + 1)
  {
    hide CellOf, Scroll;
  }

  lemma {:induction false} GapsWrapNothing(s: Screen, color: nat, text: seq<nat>, gap: nat)
    requires Sized(s) && Bytes(text) && Near(s, gap) && GapsOk(text, gap)
    ensures NoWrap(s, color, text) && Near(PutAll(s, color, text), GapAfter(text, gap))
    decreases |text|
  {
    hide Put, Glyph, NoWrapStep, Near;
    if text == [] {
    } else {
      NearStep(s, color, text[0], gap);
      GapsWrapNothing(Put(s, color, text[0]), color, text[1..], if Glyph(text[0]) then 0 else gap + 1);
    }
  }

  /** A check on the texts alone: calls without a stretch of more than 2^30 - 20 tabs and
      newlines wrap nothing, so that the console conserves them. */
  lemma {:induction false} ShortGapsWrapNothing(s: Screen, calls: seq<Call>, gap: nat)
    requires forall k :: 0 <= k < |calls| ==> Bytes(calls[k].text)
    requires Sized(s) && Near(s, gap) && CallGapsOk(calls, gap)
    ensures NoWrapAll(s, calls)
    decreases |calls|
  {
    hide PutAll, Bytes, NoWrap, GapsOk, GapAfter, Near;
    if calls != [] {
      GapsWrapNothing(s, calls[0].color, calls[0].text, gap);
      ShortGapsWrapNothing(PutAll(s, calls[0].color, calls[0].text), calls[1..], GapAfter(calls[0].text, gap));
    }
  }

  // ---------- where wrapping matters ----------

  lemma U32Add(a: nat, b: nat)
    ensures U32(U32(a) + b) == U32(a + b)
  {}

  lemma {:induction false} Tabs(s: Screen, color: nat, n: nat)
    requires Sized(s)
    ensures Bytes(seq(n, _ => 9)) && PutAll(s, color, seq(n, _ => 9)) == s.(x := U32(s.x + 4 * n))
    decreases n
  {
    hide U32, Place, CellOf;
    var text := seq(n, _ => 9);
    if n > 0 {
      assert text[1..] == seq(n - 1, _ => 9);
      U32Add(s.x + 4, 4 * (n - 1));
      Tabs(Put(s, color, 9), color, n - 1);
    } else {
      assert text == [] && U32(s.x) == s.x by { U32Small(s.x); }
    }
  }

  lemma U32Small(a: nat)
    requires a < TWO_32
    ensures U32(a) == a
  {}

  /** Tabs are not bounded by the row: 2^30 - 1 of them after five letters carry the cursor
      around to column 1, and the next letter overwrites the second. */
  lemma TabsWrapExample(s: Screen)
    requires s == Screen([321, 322, 323, 324, 325] + Blanks(CELLS - 5), 5, 0, [])
    ensures Good(s) && Bytes(seq(0x3fff_ffff, _ => 9))
    ensures var t := Put(PutAll(s, 1, seq(0x3fff_ffff, _ => 9)), 1, 70);
            t.cells == [321, 326, 323, 324, 325] + Blanks(CELLS - 5)
  {
    Tabs(s, 1, 0x3fff_ffff);
  }
}
