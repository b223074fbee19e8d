/** What each conversion prints, in terms of its argument: the base, the letters and the sign of
    the integers, fields of characters and strings, and widths from the arguments. */
module Conversions {
  import opened Prelude
  import opened Text
  import opened Number
  import Reading
  import opened Format
  import opened Directives
  import opened Shape

  // ---------- arguments ----------

  /** A slot as an int or a long is the number of that size with the same low bits. */
  lemma SlotMeaning(w: nat)
    requires w < 0x1_0000_0000_0000_0000
    ensures -0x8000_0000 <= AsInt(w) < 0x8000_0000 && (w - AsInt(w)) % 0x1_0000_0000 == 0
    ensures -0x8000_0000_0000_0000 <= AsLong(w) < 0x8000_0000_0000_0000
    ensures (w - AsLong(w)) % 0x1_0000_0000_0000_0000 == 0
  {}

  // ---------- integers ----------

  /** 8 for %o, 10 for %d, %i and %u, 16 for %x, %X and %p. */
  function BaseOf(conv: char): nat {
    match conv
    case 'o' => 8
    case 'd' => 10
    case 'i' => 10
    case 'u' => 10
    case _ => 16
  }

  lemma BaseIs(conv: char)
    ensures IsInteger(conv) ==> Base(conv) == BaseOf(conv)
    ensures IsInteger(conv) <==> conv in ['d', 'i', 'u', 'o', 'x', 'X', 'p']
  {}

  /** Flag bits that the conversions add do not disturb the others. */
  lemma AddedFlags(flags: bv8)
    requires FormatFlags(flags)
    ensures flags & 2 == 0 && flags & 64 == 0
    ensures OrFlag(flags, SIGN) & 2 != 0 && OrFlag(flags, SIGN) & 64 == 0
    ensures OrFlag(flags, SMALL) & 2 == 0 && OrFlag(flags, SMALL) & 64 != 0
    ensures OrFlag(flags, SIGN) & 61 == flags & 61 && OrFlag(flags, SMALL) & 61 == flags & 61
  {}

  /** Sign, prefix and padding depend on the five flags of the format only. */
  lemma SameParts(f: bv8, g: bv8)
    requires f & 61 == g & 61
    ensures forall negative :: SignOf(negative, f) == SignOf(negative, g)
    ensures forall base, small :: PrefixOf(base, small, f) == PrefixOf(base, small, g)
    ensures f & 16 == g & 16 && f & 1 == g & 1 && f & 12 == g & 12 && f & 32 == g & 32
  {
    assert f & 4 == g & 4 && f & 8 == g & 8 && f & 32 == g & 32;
  }

  /** The size of the printed number. */
  function Abs(x: int): nat { if x < 0 then -x else x }

  lemma IntegerParts(conv: char, qualifier: Option<char>, width: int, flags: bv8, w: nat)
    requires IsInteger(conv) && w < TWO_64 && FormatFlags(flags) && !(conv == 'p' && width == -1)
    ensures var num, f := IntegerValue(conv, qualifier, w), IntegerFlags(conv, width, flags);
            var value := Meaning(conv, qualifier, w);
            f & 61 == flags & 61
            && (f & 64 != 0 <==> conv == 'x')
            && (f & 2 != 0 && num < 0 <==> value < 0)
            && Shown(num, f & 2 != 0) == Abs(value)
  {
    hide OrFlag, FormatFlags;
    AddedFlags(flags);
  }

  /** Without a field width an integer conversion prints sign, prefix, zeros up to the precision,
      and the numeral of its meaning: in base 8 for %o, 10 for %d, %i and %u, 16 for %x, %X and
      %p, with small letters for %x alone. */
  lemma IntegerBare(conv: char, qualifier: Option<char>, width: int, precision: int, flags: bv8, w: nat)
    returns (digits: string)
    requires IsInteger(conv) && w < TWO_64 && FormatFlags(flags) && width <= 0 && !(conv == 'p' && width == -1)
    ensures Numeral(digits, Abs(Meaning(conv, qualifier, w)), BaseOf(conv), conv == 'x')
    ensures IntegerText(conv, qualifier, width, precision, flags, w)
         == SignOf(Meaning(conv, qualifier, w) < 0, flags) + PrefixOf(BaseOf(conv), conv == 'x', flags)
            + Repeat('0', precision - |digits|) + digits
  {
    hide Layout, Numeral, SignOf, PrefixOf, Repeat, Shown, FormatFlags, IntegerFlags, IntegerValue, Meaning, Base;
    BaseIs(conv);
    IntegerParts(conv, qualifier, width, flags, w);
    SameParts(IntegerFlags(conv, width, flags), flags);
    digits := BareForm(IntegerValue(conv, qualifier, w), Base(conv), width, precision,
                       IntegerFlags(conv, width, flags));
  }

  /** A field width pads that text: spaces behind with flag 16, else zeros behind sign and prefix
      with flag 1, else spaces in front. */
  lemma IntegerPadded(conv: char, qualifier: Option<char>, width: int, precision: int, flags: bv8, w: nat)
    requires IsInteger(conv) && w < TWO_64 && FormatFlags(flags) && !(conv == 'p' && width == -1)
    ensures var text := IntegerText(conv, qualifier, width, precision, flags, w);
            var bare := IntegerText(conv, qualifier, 0, precision, flags, w);
            var head := |SignOf(Meaning(conv, qualifier, w) < 0, flags)| + |PrefixOf(BaseOf(conv), conv == 'x', flags)|;
            var pad := width - |bare|;
            head <= |bare|
            && (flags & 16 != 0 ==> text == bare + Repeat(' ', pad))
            && (flags & 16 == 0 && flags & 1 != 0 ==> text == bare[..head] + Repeat('0', pad) + bare[head..])
            && (flags & 16 == 0 && flags & 1 == 0 ==> text == Repeat(' ', pad) + bare)
  {
    hide Layout, SignOf, PrefixOf, Repeat, Shown, FormatFlags, IntegerFlags, IntegerValue, Meaning, Base, HeadLength;
    BaseIs(conv);
    IntegerParts(conv, qualifier, width, flags, w);
    IntegerParts(conv, qualifier, 0, flags, w);
    FlagsAnyWidth(conv, width, flags);
    var num, f := IntegerValue(conv, qualifier, w), IntegerFlags(conv, width, flags);
    SameParts(f, flags);
    PaddedForm(num, Base(conv), width, precision, f);
    HeadParts(num, Base(conv), f);
  }

  lemma FlagsAnyWidth(conv: char, width: int, flags: bv8)
    requires !(conv == 'p' && width == -1)
    ensures IntegerFlags(conv, width, flags) == IntegerFlags(conv, 0, flags)
  {}

  lemma HeadParts(num: int, base: nat, flags: bv8)
    ensures HeadLength(num, base, flags)
         == |SignOf(flags & 2 != 0 && num < 0, flags)| + |PrefixOf(base, flags & 64 != 0, flags)|
  {
    PlusOrSpace(flags);
  }

  /** %p without a width is padded to 16 places, with zeros unless flag 16 is set. */
  lemma PointerWidth(qualifier: Option<char>, precision: int, flags: bv8, w: nat)
    requires w < TWO_64
    ensures IntegerText('p', qualifier, -1, precision, flags, w)
         == IntegerText('p', qualifier, 16, precision, flags | 1, w)
  {}

  /** Reading back what an integer conversion printed, in base 8 for %o, 10 for %d, %i and %u, 16
      for %x, %X and %p, gives its meaning. */
  lemma IntegerReadsIn(conv: char, qualifier: Option<char>, width: int, precision: int, flags: bv8, w: nat)
    requires IsInteger(conv) && w < TWO_64 && FormatFlags(flags)
    ensures Reading.ReadNumber(IntegerText(conv, qualifier, width, precision, flags, w), BaseOf(conv))
         == Meaning(conv, qualifier, w)
  {
    hide IntegerText, Meaning, Base, Reading.ReadNumber;
    BaseIs(conv);
    IntegerReads(conv, qualifier, width, precision, flags, w);
  }

  // ---------- for instance ----------

  lemma NumeralTwo(a: char, b: char, base: nat, small: bool)
    requires 2 <= base && 0 < DigitWorth(a, small) < base && 0 <= DigitWorth(b, small) < base
    ensures Numeral([a, b], DigitWorth(a, small) * base + DigitWorth(b, small), base, small)
  {
    hide DigitWorth, Worth, AllDigits;
    assert [a, b] == [a] + [b] && [a] == "" + [a];
    WorthSnoc("", a, base, small);
    WorthSnoc([a], b, base, small);
    NoDigits(base, small);
    EmptyDigits(base, small);
    assert Worth([a], base, small) == 0 * base + DigitWorth(a, small) == DigitWorth(a, small);
    ZeroDigit(small);
  }

  lemma ZeroDigit(small: bool)
    ensures DigitWorth('0', small) == 0
  {}

  /** 45 is 2d, 2D, 55 and 45. */
  lemma IntegerExamples()
    ensures IntegerText('x', None, -1, -1, 0, 45) == "2d" && IntegerText('X', None, -1, -1, 0, 45) == "2D"
    ensures IntegerText('o', None, -1, -1, 0, 45) == "55" && IntegerText('u', None, -1, -1, 0, 45) == "45"
    ensures IntegerText('d', None, -1, -1, 0, 45) == "45" && IntegerText('i', None, -1, -1, 0, 45) == "45"
  {
    hide IntegerText, Numeral, Worth;
    TwoDigits('x', '2', 'd');
    TwoDigits('X', '2', 'D');
    TwoDigits('o', '5', '5');
    TwoDigits('u', '4', '5');
    TwoDigits('d', '4', '5');
    TwoDigits('i', '4', '5');
  }

  lemma TwoDigits(conv: char, a: char, b: char)
    requires IsInteger(conv) && conv != 'p'
    requires DigitWorth(a, conv == 'x') > 0 && DigitWorth(b, conv == 'x') >= 0
    requires DigitWorth(a, conv == 'x') < BaseOf(conv) && DigitWorth(b, conv == 'x') < BaseOf(conv)
    requires DigitWorth(a, conv == 'x') * BaseOf(conv) + DigitWorth(b, conv == 'x') == 45
    ensures IntegerText(conv, None, -1, -1, 0, 45) == [a, b]
  {
    hide IntegerText, Numeral, DigitWorth, Repeat;
    var digits := IntegerBare(conv, None, -1, -1, 0, 45);
    NumeralTwo(a, b, BaseOf(conv), conv == 'x');
    NumeralUnique(digits, [a, b], 45, BaseOf(conv), conv == 'x');
    RepeatNone('0', -1 - |digits|);
    assert "" + "" + "" + digits == digits;
  }

  // ---------- characters and strings ----------

  /** text with spaces up to the width, behind it with flag 16 and else in front. */
  function InField(text: string, width: int, flags: bv8): string {
    if flags & 16 != 0 then text + Repeat(' ', width - |text|) else Repeat(' ', width - |text|) + text
  }

  lemma FieldIs(text: string, width: int, flags: bv8)
    ensures Field(text, width, flags) == InField(text, width, flags)
  {
    hide Has, Repeat;
    FlagBits(flags);
    RepeatNone(' ', 0);
  }

  /** %s prints the string up to the precision, or all of it when there is none. */
  lemma StringText(qualifier: Option<char>, width: int, precision: int, flags: bv8, s: string)
    requires ArgOk(Str(s))
    ensures ConversionText('s', qualifier, width, precision, flags, [Str(s)])
         == InField(if 0 <= precision < |s| then s[..precision] else s, width, flags)
  {
    hide Field, InField;
    FieldIs(Truncate(s, precision), width, flags);
  }

  /** %c prints the low byte of its slot. */
  lemma CharText(qualifier: Option<char>, width: int, precision: int, flags: bv8, w: nat)
    requires w < TWO_64
    ensures ConversionText('c', qualifier, width, precision, flags, [Word(w)])
         == InField([(w % 256) as char], width, flags)
  {
    hide Field, InField;
    FieldIs([(w % 256) as char], width, flags);
  }

  /** %% prints a percent sign, %n nothing, and a directive that is none prints itself. */
  lemma OtherText(conv: char, qualifier: Option<char>, width: int, precision: int, flags: bv8, p: nat)
    requires conv !in ['c', 's', 'd', 'i', 'u', 'o', 'x', 'X', 'p', 'n', '%', '\0'] && p < TWO_64
    ensures ConversionText(conv, qualifier, width, precision, flags, []) == ['%', conv]
    ensures ConversionText('%', qualifier, width, precision, flags, []) == "%"
    ensures ConversionText('\0', qualifier, width, precision, flags, []) == "%"
    ensures ConversionText('n', qualifier, width, precision, flags, [Ptr(p)]) == ""
  {
    hide Field, Truncate, IntegerText, ArgOk;
  }

  // ---------- widths and precisions from the arguments ----------

  /** The number a count stands for when it is written out, -1 when there is none. */
  function Written(c: Count): int
    requires !c.Star?
  {
    if c.Num? then c.n else -1
  }

  /** A directive without stars hands its own width, precision and flags to its conversion. */
  lemma WrittenOut(d: Directive, args: seq<Arg>)
    requires !d.width.Star? && !d.precision.Star? && Matches(args, Needs(d))
    ensures Matches(args, ValueNeeds(d.conv))
    ensures RenderDirective(d, args)
         == ConversionText(d.conv, d.qualifier, Written(d.width), Written(d.precision), d.flags, args)
  {
    hide ConversionText, ValueNeeds, IsKind;
    assert Needs(d) == ValueNeeds(d.conv) && args[0..] == args;
  }

  /** A width from the arguments prints as the same width written out; a negative one as its
      size with flag 16. */
  lemma StarWidth(d: Directive, w: nat, args: seq<Arg>)
    requires d.width == Star && w < TWO_64
    requires Matches([Word(w)] + args, Needs(d))
    ensures var written := d.(width := Num(Abs(AsInt(w))), flags := if AsInt(w) < 0 then d.flags | 16 else d.flags);
            Matches(args, Needs(written))
            && RenderDirective(d, [Word(w)] + args) == RenderDirective(written, args)
  {
    hide ConversionText, ValueNeeds, IsKind, AsInt;
    var written := d.(width := Num(Abs(AsInt(w))), flags := if AsInt(w) < 0 then d.flags | 16 else d.flags);
    var all := [Word(w)] + args;
    assert Needs(d) == [KWord] + Needs(written);
    MatchesSplit(all, [KWord], Needs(written));
    assert all[1..] == args;
    PrecisionAfter(d, written, all, args);
    var counts := CountNeeds(d.precision);
    assert CountNeeds(d.width) + counts == [KWord] + counts && CountNeeds(written.width) + counts == counts;
    assert all[1 + |counts|..] == args[|counts|..];
    assert all[0] == Word(w);
  }

  lemma PrecisionAfter(d: Directive, written: Directive, all: seq<Arg>, args: seq<Arg>)
    requires d.width == Star && !written.width.Star? && written.precision == d.precision && written.conv == d.conv
    requires |all| >= 1 && all[1..] == args && Matches(all, Needs(d)) && Matches(args, Needs(written))
    ensures Precision(d, all) == Precision(written, args)
  {
    hide ValueNeeds, IsKind, AsInt;
    if d.precision.Star? {
      assert Needs(d)[1] == KWord && Needs(written)[0] == KWord;
      assert all[1] == args[0];
    }
  }

  /** A precision from the arguments prints as the same precision written out, a negative one as
      precision 0. */
  lemma StarPrecision(d: Directive, w: nat, args: seq<Arg>)
    requires !d.width.Star? && d.precision == Star && w < TWO_64
    requires Matches([Word(w)] + args, Needs(d))
    ensures var written := d.(precision := Num(if AsInt(w) < 0 then 0 else AsInt(w)));
            Matches(args, Needs(written))
            && RenderDirective(d, [Word(w)] + args) == RenderDirective(written, args)
  {
    hide ConversionText, ValueNeeds, IsKind, AsInt;
    var written := d.(precision := Num(if AsInt(w) < 0 then 0 else AsInt(w)));
    var all := [Word(w)] + args;
    assert Needs(d) == [KWord] + Needs(written);
    MatchesSplit(all, [KWord], Needs(written));
    assert all[1..] == args && args[0..] == args && all[0] == Word(w);
    assert Needs(d)[0] == KWord;
  }
}
