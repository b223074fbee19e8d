/** The format automaton of vsprintf, writing through the output pointer, proved against
    parse-then-render. */
module Vsprintf {
  import opened Prelude
  import opened Text
  import opened Number
  import opened Format

  method SkipAtoi(f: string, i: nat) returns (n: nat, next: nat)
    requires i <= |f|
    ensures (n, next) == ScanNumber(f, i, 0)
  {
    n, next := 0, i;
    while IsDigit(Char(f, next))
      invariant i <= next <= |f|
      invariant ScanNumber(f, next, n) == ScanNumber(f, i, 0)
      decreases |f| - next
    {
      n := n * 10 + Char(f, next) as int - '0' as int;
      next := next + 1;
    }
  }

  /** *str++ = *s++ for the characters of text. */
  method CopyText(buf: array<char>, at: nat, text: string) returns (next: nat)
    requires at + |text| <= buf.Length
    modifies buf
    ensures next == at + |text| && buf[..] == Written(old(buf[..]), at, text)
  {
    hide Written;
    WrittenNothing(buf[..], at);
    for i := 0 to |text|
      invariant buf[..] == Written(old(buf[..]), at, text[..i])
    {
      WrittenOne(old(buf[..]), at, text[..i], text[i]);
      assert text[..i + 1] == text[..i] + [text[i]];
      buf[at + i] := text[i];
    }
    assert text[..|text|] == text;
    next := at + |text|;
  }

  /** The %c and %s cases: pad, copy, pad. The second loop continues the count of the first. */
  method EmitField(buf: array<char>, at: nat, text: string, width: int, flags: bv8) returns (next: nat)
    requires at + |Field(text, width, flags)| <= buf.Length
    modifies buf
    ensures next == at + |Field(text, width, flags)|
    ensures buf[..] == Written(old(buf[..]), at, Field(text, width, flags))
  {
    hide Written, Repeat, Has;
    ghost var was := buf[..];
    var count := width - |text|;
    next := at;
    RepeatNone(' ', 0);
    WrittenNothing(was, at);
    ghost var left := Repeat(' ', if Has(flags, LEFT) then 0 else count);
    if !Has(flags, LEFT) {
      next, count := CountDown(buf, next, ' ', count);
      RepeatNone(' ', count);
    }
    assert next == at + |left| && buf[..] == Written(was, at, left);
    next := CopyText(buf, next, text);
    WrittenTwice(was, at, left, text);
    ghost var right := Repeat(' ', count);
    next, count := CountDown(buf, next, ' ', count);
    WrittenTwice(was, at, left + text, right);
  }

  /** Flags, width, precision and qualifier of the directive at i, up to its conversion
      character at p. Widths and precisions may take arguments, from the one at a on. */
  method ScanFields(f: string, i: nat, args: seq<Arg>, a: nat)
    returns (flags: bv8, width: int, precision: int, qualifier: Option<char>, p: nat, a': nat)
    requires i < |f| && a <= |args|
    requires Matches(args[a..], Needs(ScanDirective(f, i + 1).0))
    ensures var d := ScanDirective(f, i + 1).0;
            i < p <= |f| && Char(f, p) == d.conv && ScanDirective(f, i + 1).1 == (if p < |f| then p + 1 else p)
            && (width, flags) == Width(d, args[a..]) && precision == Precision(d, args[a..])
            && qualifier == d.qualifier
            && a' == a + |CountNeeds(d.width)| + |CountNeeds(d.precision)|
  {
    hide OrFlag, FlagOf, IsKind, ValueNeeds;
    ghost var d := ScanDirective(f, i + 1).0;
    flags, p := 0, i + 1;
    while IsFlag(Char(f, p))
      invariant i < p <= |f|
      invariant ScanFlags(f, p, flags) == ScanFlags(f, i + 1, 0)
      decreases |f| - p
    {
      flags := OrFlag(flags, FlagOf(Char(f, p)));
      p := p + 1;
    }
    width, p, flags, a' := ScanWidth(f, p, flags, args, a, d);
    precision, p, a' := ScanPrecisionField(f, p, args, a, a', d);
    qualifier := None;
    if IsQualifier(Char(f, p)) {
      qualifier := Some(Char(f, p));
      p := p + 1;
    }
  }

  /** get field width */
  method ScanWidth(f: string, i: nat, flags: bv8, args: seq<Arg>, a: nat, ghost d: Directive)
    returns (width: int, p: nat, flags': bv8, a': nat)
    requires i <= |f| && a <= |args| && Matches(args[a..], Needs(d))
    requires d.flags == flags && d.width == ScanCount(f, i).0
    ensures p == ScanCount(f, i).1
    ensures (width, flags') == Width(d, args[a..]) && a' == a + |CountNeeds(d.width)|
  {
    hide OrFlag, ValueNeeds;
    width, p, flags', a' := -1, i, flags, a;
    if IsDigit(Char(f, p)) {
      width, p := SkipAtoi(f, p);
    } else if Char(f, p) == '*' {
      p := p + 1;
      assert IsKind(args[a..][0], Needs(d)[0]);
      width := AsInt(args[a].w);
      a' := a + 1;
      if width < 0 {
        width := -width;
        flags' := OrFlag(flags, LEFT);
      }
    }
  }

  /** get the precision */
  method ScanPrecisionField(f: string, i: nat, args: seq<Arg>, ghost a: nat, b: nat, ghost d: Directive)
    returns (precision: int, p: nat, b': nat)
    requires i <= |f| && a <= b <= |args| && Matches(args[a..], Needs(d))
    requires b == a + |CountNeeds(d.width)| && d.precision == ScanPrecision(f, i).0
    ensures p == ScanPrecision(f, i).1
    ensures precision == Precision(d, args[a..]) && b' == b + |CountNeeds(d.precision)|
  {
    hide ValueNeeds;
    precision, p, b' := -1, i, b;
    if Char(f, p) == '.' {
      p := p + 1;
      if IsDigit(Char(f, p)) {
        precision, p := SkipAtoi(f, p);
      } else if Char(f, p) == '*' {
        p := p + 1;
        assert IsKind(args[a..][b - a], Needs(d)[b - a]);
        precision := AsInt(args[b].w);
        b' := b + 1;
      }
      if precision < 0 { precision := 0; }
    }
  }

  /** One directive, from its percent sign at i; a is the next argument. A format that ends
      inside the directive steps back so that the next turn meets the NUL. */
  method Convert(buf: array<char>, at: nat, f: string, i: nat, args: seq<Arg>, a: nat)
    returns (at': nat, next: nat, a': nat, stores: seq<Store>)
    requires CString(f) && i < |f| && a <= |args|
    requires Matches(args[a..], Needs(ScanDirective(f, i + 1).0))
    requires at + |RenderDirective(ScanDirective(f, i + 1).0, args[a..])| <= buf.Length
    modifies buf
    ensures var d := ScanDirective(f, i + 1).0;
            next == ScanDirective(f, i + 1).1
            && a' == a + |Needs(d)|
            && at' == at + |RenderDirective(d, args[a..])|
            && buf[..] == Written(old(buf[..]), at, RenderDirective(d, args[a..]))
            && stores == ItemStores(Conv(d), args[a..], at)
  {
    hide Written, ConversionText, ConversionStores, ScanDirective, Width, Precision, CountNeeds, ValueNeeds, IsKind;
    ghost var d := ScanDirective(f, i + 1).0;
    var flags, width, precision, qualifier, p;
    flags, width, precision, qualifier, p, a' := ScanFields(f, i, args, a);
    MatchesSplit(args[a..], CountNeeds(d.width) + CountNeeds(d.precision), ValueNeeds(d.conv));
    assert args[a..][a' - a..] == args[a'..];
    at', a', stores := Dispatch(buf, at, Char(f, p), qualifier, width, precision, flags, args, a');
    if Char(f, p) == '\0' { p := p - 1; }
    next := p + 1;
  }

  /** The switch over the conversion character. */
  method Dispatch(buf: array<char>, at: nat, conv: char, qualifier: Option<char>, width: int, precision: int,
                  flags: bv8, args: seq<Arg>, a: nat)
    returns (at': nat, a': nat, stores: seq<Store>)
    requires a <= |args| && Matches(args[a..], ValueNeeds(conv))
    requires at + |ConversionText(conv, qualifier, width, precision, flags, args[a..])| <= buf.Length
    modifies buf
    ensures a' == a + |ValueNeeds(conv)|
    ensures at' == at + |ConversionText(conv, qualifier, width, precision, flags, args[a..])|
    ensures buf[..] == Written(old(buf[..]), at, ConversionText(conv, qualifier, width, precision, flags, args[a..]))
    ensures stores == ConversionStores(conv, qualifier, args[a..], at)
  {
    hide Written, Field, IntegerText;
    a', stores := a + |ValueNeeds(conv)|, [];
    if ValueNeeds(conv) != [] { assert IsKind(args[a..][0], ValueNeeds(conv)[0]); }
    if conv == 'c' {
      at' := EmitField(buf, at, [(args[a].w % 256) as char], width, flags);
    } else if conv == 's' {
      var s, precision := args[a].s, precision;
      var len := |s|;
      ghost var text := Truncate(s, precision);
      if precision < 0 { precision := len; } else if len > precision { len := precision; }
      assert s[..len] == text;
      at' := EmitField(buf, at, s[..len], width, flags);
    } else if IsInteger(conv) {
      at' := EmitInteger(buf, at, conv, qualifier, width, precision, flags, args[a].w);
    } else if conv == 'n' {
      WrittenNothing(buf[..], at);
      at' := at;
      if qualifier == Some('l') {
        stores := [Store(args[a].p, true, at)];
      } else {
        stores := [Store(args[a].p, false, AsInt(at))];
      }
    } else if conv == '%' {
      at' := CopyText(buf, at, "%");
    } else {
      at' := CopyText(buf, at, if conv != '\0' then ['%', conv] else "%");
    }
  }

  /** The integer conversions, all through number. */
  method EmitInteger(buf: array<char>, at: nat, conv: char, qualifier: Option<char>, width: int, precision: int,
                     flags: bv8, w: nat)
    returns (next: nat)
    requires IsInteger(conv) && w < TWO_64
    requires at + |IntegerText(conv, qualifier, width, precision, flags, w)| <= buf.Length
    modifies buf
    ensures next == at + |IntegerText(conv, qualifier, width, precision, flags, w)|
    ensures buf[..] == Written(old(buf[..]), at, IntegerText(conv, qualifier, width, precision, flags, w))
  {
    hide Written, Layout, OrFlag;
    var width, flags := width, flags;
    var end;
    match conv {
      case 'o' =>
        end := Number.Number(buf, at, if qualifier == Some('l') then AsLong(w) else w % TWO_32, 8,
                             width, precision, flags);
      case 'p' =>
        if width == -1 {
          width := 16;
          flags := OrFlag(flags, ZEROPAD);
        }
        end := Number.Number(buf, at, AsLong(w), 16, width, precision, flags);
      case _ =>
        var base := 16;
        if conv == 'x' {
          flags := OrFlag(flags, SMALL);
        } else if conv == 'd' || conv == 'i' {
          flags := OrFlag(flags, SIGN);
          base := 10;
        } else if conv == 'u' {
          base := 10;
        }
        end := Number.Number(buf, at, if qualifier == Some('l') then AsLong(w) else w % TWO_32, base,
                             width, precision, flags);
    }
    next := end.value;
  }

  lemma MatchesLength(args: seq<Arg>, kinds: seq<Kind>)
    requires Matches(args, kinds)
    ensures |kinds| <= |args|
  {}

  lemma LiteralStores(c: char, args: seq<Arg>, at: nat)
    requires Matches(args, ItemNeeds(Lit(c)))
    ensures ItemStores(Lit(c), args, at) == []
  {}

  lemma ParseEnd(f: string, args: seq<Arg>, at: nat)
    ensures Parse(f, |f|) == [] && AllNeeds([]) == [] && Matches(args, [])
    ensures Render([], args) == "" && Stores([], args, at) == []
  {}

  /** vsprintf: the buffer receives the formatted text and a NUL; stores lists the counts that
      %n stores, in order. */
  method Vsprintf(buf: array<char>, f: string, args: seq<Arg>) returns (stores: seq<Store>)
    requires CString(f) && Fits(f, args) && |Formatted(f, args)| < buf.Length
    modifies buf
    ensures buf[..] == Written(old(buf[..]), 0, Formatted(f, args) + ['\0'])
    ensures stores == Stored(f, args)
  {
    hide Written, RenderDirective, ItemStores, ScanDirective, Render, Stores, AllNeeds, Matches, Needs, Parse;
    ghost var was, out := buf[..], "";
    var at: nat, a: nat, i: nat := 0, 0, 0;
    stores := [];
    WrittenNothing(was, 0);
    assert args[0..] == args;
    while Char(f, i) != '\0'
      invariant i <= |f| && a <= |args| && at == |out| <= |Formatted(f, args)|
      invariant Matches(args[a..], AllNeeds(Parse(f, i)))
      invariant out + Render(Parse(f, i), args[a..]) == Formatted(f, args)
      invariant stores + Stores(Parse(f, i), args[a..], at) == Stored(f, args)
      invariant buf[..] == Written(was, 0, out)
      decreases |f| - i
    {
      ParseStep(f, i);
      RenderStep(Parse(f, i), args[a..], at);
      ghost var (item, next) := ItemAt(f, i);
      MatchesLength(args[a..], ItemNeeds(item));
      ghost var piece, made := RenderItem(item, args[a..]), ItemStores(item, args[a..], at);
      ghost var a' := a + |ItemNeeds(item)|;
      assert args[a..][|ItemNeeds(item)|..] == args[a'..];
      Associate(out, piece, Render(Parse(f, next), args[a'..]));
      Associate(stores, made, Stores(Parse(f, next), args[a'..], at + |piece|));
      WrittenTwice(was, 0, out, piece);
      if Char(f, i) != '%' {
        LiteralStores(f[i], args[a..], at);
        at := CopyText(buf, at, [Char(f, i)]);
        i := i + 1;
        assert stores + [] == stores;
      } else {
        var more;
        at, i, a, more := Convert(buf, at, f, i, args, a);
        stores := stores + more;
      }
      out := out + piece;
    }
    ParseEnd(f, args[a..], at);
    assert out == Formatted(f, args);
    WrittenOne(was, 0, out, '\0');
    buf[at] := '\0';
    assert buf[..] == Written(was, 0, out)[at := '\0'];
  }
}
