/** Directive syntax: writing a directive as text and scanning it recovers it, and the
    integer conversions print what can be read back. */
module Directives {
  import opened Prelude
  import opened Number
  import opened Reading
  import opened Format
  import opened FormatLaws

  // ---------- writing a directive ----------

  function FlagText(flags: bv8, flag: bv8, c: char): string {
    if Has(flags, flag) then [c] else ""
  }

  function FlagsText(flags: bv8): string {
    FlagText(flags, LEFT, '-') + (FlagText(flags, PLUS, '+') + (FlagText(flags, SPACE, ' ')
    + (FlagText(flags, SPECIAL, '#') + FlagText(flags, ZEROPAD, '0'))))
  }

  function CountText(c: Count): string {
    match c
    case Absent => ""
    case Num(n) => Digits(n, 10, LARGE_DIGITS)
    case Star => "*"
  }

  function PrecisionText(c: Count): string {
    if c.Absent? then "" else "." + CountText(c)
  }

  function QualifierText(q: Option<char>): string {
    if q.Some? then [q.value] else ""
  }

  /** The directive without its percent sign. */
  function DirectiveText(d: Directive): string {
    FlagsText(d.flags) + (CountText(d.width) + (PrecisionText(d.precision) + (QualifierText(d.qualifier) + [d.conv])))
  }

  /** The character is none of those that flags, counts and qualifiers are made of. */
  predicate IsConversion(c: char) {
    !('0' <= c <= '9') && c !in ['\0', '-', '+', ' ', '#', '*', '.', 'h', 'l', 'L', 'Z']
  }

  /** The flags a format can set. */
  predicate FormatFlags(flags: bv8) { flags & !(LEFT | PLUS | SPACE | SPECIAL | ZEROPAD) == 0 }

  predicate WellFormed(d: Directive) {
    FormatFlags(d.flags) && d.width != Num(0)
    && (d.qualifier.Some? ==> d.qualifier.value in ['h', 'l', 'L', 'Z'])
    && IsConversion(d.conv)
  }

  // ---------- scanning it back ----------

  function Collect(flags: bv8, flag: bv8, acc: bv8): bv8 {
    if Has(flags, flag) then OrFlag(acc, flag) else acc
  }

  /** Scanning reads flag characters in any order; here, one that may be absent. */
  lemma FlagScanned(flags: bv8, flag: bv8, c: char, rest: string, acc: bv8)
    requires IsFlag(c) && FlagOf(c) == flag
    ensures var t := FlagText(flags, flag, c);
            var acc' := Collect(flags, flag, acc);
            ScanFlags(t + rest, 0, acc) == (ScanFlags(rest, 0, acc').0, |t| + ScanFlags(rest, 0, acc').1)
  {
    hide Has, OrFlag, FlagOf;
    if Has(flags, flag) {
      FlagsShift([c], rest, 0, OrFlag(acc, flag));
    } else {
      assert FlagText(flags, flag, c) + rest == rest;
    }
  }

  lemma CollectedIsFlags(flags: bv8)
    requires FormatFlags(flags)
    ensures Collect(flags, ZEROPAD, Collect(flags, SPECIAL,
              Collect(flags, SPACE, Collect(flags, PLUS, Collect(flags, LEFT, 0))))) == flags
  {}

  lemma NoFlags(rest: string, acc: bv8)
    requires rest != "" ==> !IsFlag(rest[0])
    ensures ScanFlags(rest, 0, acc) == (acc, 0)
  {}

  lemma FlagsScanned(flags: bv8, rest: string)
    requires FormatFlags(flags) && (rest != "" ==> !IsFlag(rest[0]))
    ensures ScanFlags(FlagsText(flags) + rest, 0, 0) == (flags, |FlagsText(flags)|)
  {
    hide Collect, FormatFlags, ScanFlags, FlagText;
    CollectedIsFlags(flags);
    var a := Collect(flags, LEFT, 0);
    var b := Collect(flags, PLUS, a);
    var c := Collect(flags, SPACE, b);
    var d := Collect(flags, SPECIAL, c);
    var e := Collect(flags, ZEROPAD, d);
    var t1, t2, t3 := FlagText(flags, LEFT, '-'), FlagText(flags, PLUS, '+'), FlagText(flags, SPACE, ' ');
    var t4, t5 := FlagText(flags, SPECIAL, '#'), FlagText(flags, ZEROPAD, '0');
    var r5 := t5 + rest;
    var r4 := t4 + r5;
    var r3 := t3 + r4;
    var r2 := t2 + r3;
    FlagScanned(flags, LEFT, '-', r2, 0);
    FlagScanned(flags, PLUS, '+', r3, a);
    FlagScanned(flags, SPACE, ' ', r4, b);
    FlagScanned(flags, SPECIAL, '#', r5, c);
    FlagScanned(flags, ZEROPAD, '0', rest, d);
    NoFlags(rest, e);
    Nest(t1, t2, t3, t4, t5, rest);
  }

  lemma Nest(a: string, b: string, c: string, d: string, e: string, f: string)
    ensures a + (b + (c + (d + e))) + f == a + (b + (c + (d + (e + f))))
  {}

  lemma TableDigit(d: nat)
    requires d < 10
    ensures IsDigit(LARGE_DIGITS[d]) && LARGE_DIGITS[d] as int - '0' as int == d
    ensures d > 0 ==> !IsFlag(LARGE_DIGITS[d])
  {}

  /** skip_atoi reads the decimal digits of u first. */
  lemma {:induction false} PositiveScanned(u: nat, rest: string)
    ensures var t := PositiveDigits(u, 10, LARGE_DIGITS);
            ScanNumber(t + rest, 0, 0) == (ScanNumber(rest, 0, u).0, |t| + ScanNumber(rest, 0, u).1)
    decreases u
  {
    var t := PositiveDigits(u, 10, LARGE_DIGITS);
    if u == 0 {
      assert t + rest == rest;
    } else {
      var c := LARGE_DIGITS[u % 10];
      var q := PositiveDigits(u / 10, 10, LARGE_DIGITS);
      TableDigit(u % 10);
      PositiveScanned(u / 10, [c] + rest);
      DigitScanned(c, u % 10, rest, u / 10);
      assert t + rest == q + ([c] + rest);
    }
  }

  lemma DigitScanned(c: char, v: nat, rest: string, acc: nat)
    requires IsDigit(c) && c as int - '0' as int == v
    ensures ScanNumber([c] + rest, 0, acc)
         == (ScanNumber(rest, 0, acc * 10 + v).0, 1 + ScanNumber(rest, 0, acc * 10 + v).1)
  {
    NumberShift([c], rest, 0, acc * 10 + v);
  }

  /** skip_atoi of a number's decimal digits is the number. */
  lemma DigitsScanned(n: nat, rest: string)
    requires rest != "" ==> !IsDigit(rest[0])
    ensures ScanNumber(Digits(n, 10, LARGE_DIGITS) + rest, 0, 0) == (n, |Digits(n, 10, LARGE_DIGITS)|)
    ensures IsDigit(Digits(n, 10, LARGE_DIGITS)[0])
    ensures n > 0 ==> !IsFlag(Digits(n, 10, LARGE_DIGITS)[0])
  {
    assert ScanNumber(rest, 0, n) == (n, 0);
    if n == 0 {
      TableDigit(0);
      DigitScanned('0', 0, rest, 0);
    } else {
      PositiveScanned(n, rest);
      FirstDigit(n);
    }
  }

  lemma {:induction false} FirstDigit(u: nat)
    requires u > 0
    ensures PositiveDigits(u, 10, LARGE_DIGITS) != ""
    ensures IsDigit(PositiveDigits(u, 10, LARGE_DIGITS)[0]) && !IsFlag(PositiveDigits(u, 10, LARGE_DIGITS)[0])
    decreases u
  {
    TableDigit(u % 10);
    if u >= 10 {
      FirstDigit(u / 10);
    }
  }

  /** skip_atoi reads back what number prints unpadded in base 10; the int it returns is the
      value exactly when the value is below 2^31. */
  lemma UnpaddedScanned(n: nat, size: int, precision: int)
    requires n < TWO_63 && size <= 0 && precision <= 0
    ensures ScanNumber(Layout(n, 10, size, precision, 0), 0, 0) == (n, |Layout(n, 10, size, precision, 0)|)
    ensures AsInt(ScanNumber(Layout(n, 10, size, precision, 0), 0, 0).0) == n <==> n < TWO_31
  {
    hide Digits, ScanNumber;
    NoFlagsSet();
    var digits := Digits(n, 10, LARGE_DIGITS);
    DigitsScanned(n, "");
    assert Layout(n, 10, size, precision, 0) == digits + "";
  }

  lemma NoFlagsSet()
    ensures forall flag: bv8 :: !Has(0, flag)
  {}

  lemma CountScanned(c: Count, rest: string)
    requires rest != "" ==> !IsDigit(rest[0]) && rest[0] != '*'
    ensures ScanCount(CountText(c) + rest, 0) == (c, |CountText(c)|)
  {
    hide Digits;
    match c
    case Absent => assert CountText(c) + rest == rest;
    case Num(n) => DigitsScanned(n, rest);
    case Star =>
  }

  lemma PrecisionScanned(c: Count, rest: string)
    requires rest != "" ==> !IsDigit(rest[0]) && rest[0] != '*' && rest[0] != '.'
    ensures ScanPrecision(PrecisionText(c) + rest, 0) == (c, |PrecisionText(c)|)
  {
    hide ScanCount, CountText;
    if c.Absent? {
      assert PrecisionText(c) + rest == rest;
    } else {
      assert PrecisionText(c) + rest == "." + (CountText(c) + rest);
      CountShift(".", CountText(c) + rest, 0);
      CountScanned(c, rest);
    }
  }

  /** A dot without a number asks for precision 0. */
  lemma DotAlone(rest: string)
    requires rest != "" ==> !('0' <= rest[0] <= '9') && rest[0] != '*'
    ensures ScanPrecision("." + rest, 0) == (Num(0), 1)
  {}

  /** Writing a directive and scanning it gives back its flags, width, precision, qualifier
      and conversion, and stops right behind it. */
  lemma DirectiveRoundTrip(d: Directive, rest: string)
    requires WellFormed(d)
    ensures ScanDirective(DirectiveText(d) + rest, 0) == (d, |DirectiveText(d)|)
  {
    hide FormatFlags, FlagsText, CountText, PrecisionText, ScanFlags, ScanCount, ScanPrecision;
    var t1, t2 := FlagsText(d.flags), CountText(d.width);
    var t3, t4 := PrecisionText(d.precision), QualifierText(d.qualifier);
    var r4 := t4 + ([d.conv] + rest);
    var r3 := t3 + r4;
    var r2 := t2 + r3;
    var all := DirectiveText(d) + rest;
    assert all == t1 + r2;
    PrecisionHead(d.precision, r4);
    CountHead(d.width, r3);
    FlagsScanned(d.flags, r2);
    CountShift(t1, r2, 0);
    CountScanned(d.width, r3);
    assert all == (t1 + t2) + r3;
    PrecisionShift(t1 + t2, r3, 0);
    PrecisionScanned(d.precision, r4);
    assert all == (t1 + t2 + t3) + r4;
  }

  lemma PrecisionHead(c: Count, rest: string)
    requires rest != "" && !IsDigit(rest[0]) && rest[0] != '*' && !IsFlag(rest[0])
    ensures PrecisionText(c) + rest != ""
    ensures var h := (PrecisionText(c) + rest)[0]; !IsDigit(h) && h != '*' && !IsFlag(h)
  {}

  lemma CountHead(c: Count, rest: string)
    requires c != Num(0) && rest != "" && !IsFlag(rest[0])
    ensures !IsFlag((CountText(c) + rest)[0])
  {
    if c.Num? {
      DigitsScanned(c.n, "");
    }
  }

  // ---------- whole formats ----------

  predicate WellFormedItem(item: Item) {
    match item
    case Lit(c) => c != '%' && c != '\0'
    case Conv(d) => WellFormed(d)
  }

  function ItemText(item: Item): string {
    match item
    case Lit(c) => [c]
    case Conv(d) => "%" + DirectiveText(d)
  }

  function FormatText(items: seq<Item>): string {
    if items == [] then "" else ItemText(items[0]) + FormatText(items[1..])
  }

  /** Every list of literals and directives is what its own text parses to. */
  lemma {:induction false} FormatRoundTrip(items: seq<Item>)
    requires forall k :: 0 <= k < |items| ==> WellFormedItem(items[k])
    ensures Parse(FormatText(items), 0) == items
    decreases |items|
  {
    hide ScanDirective, DirectiveText, WellFormed;
    if items != [] {
      var text, rest := ItemText(items[0]), FormatText(items[1..]);
      FormatRoundTrip(items[1..]);
      ParseStep(text + rest, 0);
      if items[0].Conv? {
        var d := items[0].d;
        DirectiveRoundTrip(d, rest);
        DirectiveShift("%", DirectiveText(d) + rest, 0);
        assert text + rest == "%" + (DirectiveText(d) + rest);
      }
      assert ItemAt(text + rest, 0) == (items[0], |text|);
      ParseShift(text, rest, 0);
    }
  }

  // ---------- integer conversions ----------

  /** What each integer conversion means for the 64-bit slot it prints. */
  function Meaning(conv: char, qualifier: Option<char>, w: nat): int
    requires w < TWO_64
  {
    if qualifier == Some('l') || conv == 'p' then
      if conv == 'd' || conv == 'i' then AsLong(w) else w
    else w % TWO_32
  }

  lemma SignStays(flags: bv8)
    requires FormatFlags(flags)
    ensures !Has(flags, SIGN) && !Has(OrFlag(flags, ZEROPAD), SIGN) && !Has(OrFlag(flags, SMALL), SIGN)
    ensures Has(OrFlag(flags, SIGN), SIGN)
  {}

  /** Reading back what an integer conversion printed gives that meaning, for every field
      width, precision and flag combination. */
  lemma IntegerReads(conv: char, qualifier: Option<char>, width: int, precision: int, flags: bv8, w: nat)
    requires IsInteger(conv) && w < TWO_64 && FormatFlags(flags)
    ensures ReadNumber(IntegerText(conv, qualifier, width, precision, flags, w), Base(conv))
         == Meaning(conv, qualifier, w)
  {
    hide Layout, ReadNumber, Has, OrFlag;
    SignStays(flags);
    LayoutReads(IntegerValue(conv, qualifier, w), Base(conv),
                if conv == 'p' && width == -1 then 16 else width, precision, IntegerFlags(conv, width, flags));
  }

  /** A plain %d zero-extends its argument: it prints the int it was given exactly when
      that int is not negative. */
  lemma PlainDecimalIff(qualifier: Option<char>, width: int, precision: int, flags: bv8, w: nat)
    requires w < TWO_64 && FormatFlags(flags) && qualifier != Some('l')
    ensures ReadNumber(IntegerText('d', qualifier, width, precision, flags, w), 10) == AsInt(w) <==> AsInt(w) >= 0
  {
    hide IntegerText, ReadNumber, FormatFlags;
    IntegerReads('d', qualifier, width, precision, flags, w);
  }

  /** For instance -1 prints as 4294967295. */
  lemma PlainDecimalExample()
    ensures AsInt(0xffff_ffff) == -1
    ensures ReadNumber(IntegerText('d', None, -1, -1, 0, 0xffff_ffff), 10) == 4294967295
  {
    hide IntegerText, ReadNumber;
    IntegerReads('d', None, -1, -1, 0, 0xffff_ffff);
  }
}
