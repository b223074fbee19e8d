/** print over video memory: two bytes a cell, scrolled by the byte-wise copy and cleared by
    memset, proved against the screen as a value; and kprintf on top of it. */
module Console {
  import opened Prelude
  import opened KString
  import opened Display
  import Format
  import Vsprintf

  const WINDOW := 0x8000

  // ---------- cells in memory ----------

  function CellAt(m: seq<byte>, i: nat): nat
    requires 2 * i + 1 < |m|
  {
    (m[2 * i] as int) + 256 * (m[2 * i + 1] as int)
  }

  function CellsOf(m: seq<byte>): (cells: seq<nat>)
    requires |m| == WINDOW
    ensures |cells| == CELLS
  {
    seq(CELLS, i requires 0 <= i < CELLS => CellAt(m, i))
  }

  /** Copying 24 rows up by 160 bytes and clearing the last row moves every row up by
      exactly one. */
  lemma ScrollCells(m: seq<byte>)
    requires |m| == WINDOW
    ensures CellsOf(Filled(Copied(m, 0, 160, 3840), 3840, 0, 160)) == CellsOf(m)[COLUMNS..] + Blanks(COLUMNS)
  {
    var c := Copied(m, 0, 160, 3840);
    var f := Filled(c, 3840, 0, 160);
    forall i | 0 <= i < CELLS
      ensures CellsOf(f)[i] == (CellsOf(m)[COLUMNS..] + Blanks(COLUMNS))[i]
    {
      if i < CELLS - COLUMNS {
        assert f[2 * i] == c[2 * i] == m[2 * i + 160] && f[2 * i + 1] == c[2 * i + 1] == m[2 * i + 161];
      } else {
        assert f[2 * i] == 0 && f[2 * i + 1] == 0;
      }
    }
  }

  lemma WriteCells(m: seq<byte>, at: nat, cell: nat)
    requires |m| == WINDOW && at < CELLS && cell < 0x1_0000
    ensures CellsOf(m[2 * at := cell % 256][2 * at + 1 := cell / 256]) == CellsOf(m)[at := cell]
  {}

  // ---------- strings ----------

  /** The characters before the first NUL. */
  function UpToNul(s: string): (t: string)
    ensures |t| <= |s| && Format.CString(t)
  {
    if s == "" || s[0] == '\0' then "" else [s[0]] + UpToNul(s[1..])
  }

  predicate EightBit(s: string) { forall i :: 0 <= i < |s| ==> s[i] as int < 256 }

  function Codes(s: string): (text: seq<nat>)
    ensures |text| == |s| && forall i :: 0 <= i < |s| ==> text[i] == s[i] as int
  {
    seq(|s|, i requires 0 <= i < |s| => s[i] as int)
  }

  lemma {:induction false} UpToNulAt(s: string, n: nat)
    requires n < |s| && s[n] == '\0' && forall i :: 0 <= i < n ==> s[i] != '\0'
    ensures UpToNul(s) == s[..n]
    decreases |s|
  {
    if n > 0 {
      UpToNulAt(s[1..], n - 1);
      assert s[..n] == [s[0]] + s[1..][..n - 1];
    }
  }

  /** The NUL that vsprintf stores ends the string unless %c stored one before. */
  lemma {:induction false} UpToNulText(text: string, rest: string)
    ensures UpToNul(text + ['\0'] + rest) == UpToNul(text)
    decreases |text|
  {
    if text != "" && text[0] != '\0' {
      assert (text + ['\0'] + rest)[1..] == text[1..] + ['\0'] + rest;
      UpToNulText(text[1..], rest);
    } else if text == "" {
      assert (text + ['\0'] + rest)[0] == '\0';
    }
  }

  class Console {
    const vga: array<byte>
    var x: nat
    var y: nat
    ghost var off: seq<nat>

    ghost predicate Valid()
      reads this, vga
    {
      vga.Length == WINDOW && x < TWO_32 && y < TWO_32
    }

    ghost function View(): (s: Screen)
      reads this, vga
      requires Valid()
      ensures Sized(s)
    {
      Screen(CellsOf(vga[..]), x, y, off)
    }

    constructor ()
      ensures Valid() && fresh(vga) && View() == CLEARED
    {
      vga := new byte[WINDOW](_ => 0);
      x, y, off := 0, 0, [];
      new;
      assert CellsOf(vga[..]) == Blanks(CELLS);
    }

    /** clear_screen: one cell more than the screen has. What was printed is forgotten. */
    method ClearScreen()
      requires Valid()
      modifies this, vga
      ensures Valid() && View() == CLEARED
    {
      for i := 0 to CELLS + 1
        invariant vga.Length == WINDOW
        invariant forall k :: 0 <= k < 2 * i ==> vga[k] == 0
      {
        vga[2 * i], vga[2 * i + 1] := 0, 0;
      }
      x, y, off := 0, 0, [];
      assert CellsOf(vga[..]) == Blanks(CELLS);
    }

    method WriteCell(at: nat, cell: nat)
      requires Valid() && at < CELLS && cell < 0x1_0000
      modifies vga
      ensures Valid() && View() == old(View()).(cells := old(View()).cells[at := cell])
    {
      WriteCells(vga[..], at, cell);
      vga[2 * at] := cell % 256;
      vga[2 * at + 1] := cell / 256;
    }

    /** The block of print that runs when the cursor has left the last row. */
    method ScrollUp()
      requires Valid()
      modifies this, vga
      ensures Valid() && View() == Scroll(old(View()))
    {
      hide Filled, Copied, CellsOf;
      ScrollCells(vga[..]);
      ghost var gone := CellsOf(vga[..])[..COLUMNS];
      Strncpy(vga, 0, 160, 3840);
      x := 0;
      y := ROWS - 1;
      Memset(vga, 3840, 0, 160);
      off := off + gone;
    }

    /** One turn of the loop of print. */
    method PutChar(color: nat, ch: nat)
      requires Valid() && ch < 256
      modifies this, vga
      ensures Valid() && View() == Put(old(View()), color, ch)
    {
      hide CellsOf, CellOf, Scroll;
      if ch == 10 {
        x := 0;
        y := U32(y + 1);
      } else if ch == 9 {
        x := U32(x + 4);
      } else {
        if x >= COLUMNS - 1 {
          x := 0;
          y := U32(y + 1);
        }
        if y >= ROWS {
          ScrollUp();
        }
        assert View() == Place(old(View()));
        WriteCell(COLUMNS * y + x, CellOf(color, ch));
        x := x + 1;
      }
    }

    /** print: every character of buf before its NUL. */
    method Print(color: nat, buf: array<char>, ghost n: nat)
      requires Valid() && n < buf.Length && buf[n] == '\0'
      requires forall i :: 0 <= i < n ==> buf[i] != '\0' && buf[i] as int < 256
      modifies this, vga
      ensures Valid() && buf[..] == old(buf[..])
      ensures UpToNul(buf[..]) == buf[..n] && Bytes(Codes(buf[..n]))
      ensures View() == PutAll(old(View()), color, Codes(buf[..n]))
    {
      hide CellsOf, Put;
      UpToNulAt(buf[..], n);
      assert Bytes(Codes(buf[..n]));
      var i := 0;
      assert Codes(buf[..0]) == [];
      while buf[i] != '\0'
        invariant 0 <= i <= n && Valid() && buf[..] == old(buf[..])
        invariant Bytes(Codes(buf[..i]))
        invariant View() == PutAll(old(View()), color, Codes(buf[..i]))
        decreases n - i
      {
        PutAllSnoc(old(View()), color, Codes(buf[..i]), buf[i] as int);
        assert Codes(buf[..i + 1]) == Codes(buf[..i]) + [buf[i] as int];
        PutChar(color, buf[i] as int);
        i := i + 1;
      }
    }

    /** _printf: format into a 512-character buffer and print it. */
    method Printf(color: nat, f: string, args: seq<Format.Arg>) returns (stores: seq<Format.Store>)
      requires Valid() && Format.CString(f) && Format.Fits(f, args)
      requires |Format.Formatted(f, args)| < 512 && EightBit(Format.Formatted(f, args))
      modifies this, vga
      ensures Valid()
      ensures Bytes(Codes(UpToNul(Format.Formatted(f, args))))
      ensures View() == PutAll(old(View()), color, Codes(UpToNul(Format.Formatted(f, args))))
      ensures stores == Format.Stored(f, args)
    {
      hide CellsOf, PutAll, Format.Fits, Format.Formatted, Format.Stored;
      var buf := new char[512](_ => '\0');
      ghost var text, was := Format.Formatted(f, args), buf[..];
      stores := Vsprintf.Vsprintf(buf, f, args);
      ghost var rest := was[|text| + 1..];
      assert buf[..] == text + ['\0'] + rest;
      UpToNulText(text, rest);
      UpToNulPrefix(text);
      ghost var n := |UpToNul(text)|;
      UpToNulStop(text, rest);
      assert buf[..n] == UpToNul(text);
      Print(color, buf, n);
    }
  }

  lemma {:induction false} UpToNulPrefix(s: string)
    ensures UpToNul(s) <= s
    decreases |s|
  {
    if s != "" && s[0] != '\0' {
      UpToNulPrefix(s[1..]);
    }
  }

  lemma {:induction false} UpToNulStop(text: string, rest: string)
    ensures var n, all := |UpToNul(text)|, text + ['\0'] + rest;
            all[n] == '\0' && forall i :: 0 <= i < n ==> all[i] == UpToNul(text)[i] && all[i] != '\0'
    decreases |text|
  {
    if text != "" && text[0] != '\0' {
      UpToNulStop(text[1..], rest);
      var all := text + ['\0'] + rest;
      assert all[1..] == text[1..] + ['\0'] + rest;
      assert forall i :: 1 <= i < |all| ==> all[i] == all[1..][i - 1];
    }
  }

  /** What kprintf shows: the printed part of the formatted text is appended to the
      content of the screen, cell by cell, as long as it wraps no cursor field. */
  lemma PrintfConserves(s: Screen, color: nat, f: string, args: seq<Format.Arg>)
    requires Good(s) && Format.CString(f) && Format.Fits(f, args)
    requires |Format.Formatted(f, args)| < 512 && EightBit(Format.Formatted(f, args))
    requires Bytes(Codes(UpToNul(Format.Formatted(f, args))))
    requires NoWrap(s, color, Codes(UpToNul(Format.Formatted(f, args))))
    ensures var text := Codes(UpToNul(Format.Formatted(f, args)));
            Good(PutAll(s, color, text))
            && Content(PutAll(s, color, text)) == Content(s) + Glyphs(color, text)
  {
    hide PutAll, Content, Format.Fits, Format.Formatted, BlankAhead, NoWrap, BlankRun;
    var text := Codes(UpToNul(Format.Formatted(f, args)));
    NoWrapKeeps(s, color, text);
    PutAllConserves(s, color, text);
  }
}
