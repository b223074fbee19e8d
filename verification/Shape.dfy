/** What formatted arguments look like, character by character: numerals, signs, prefixes and
    where the padding goes. Flags are written as the bits of the format interface: 1 zero
    padding, 2 signed, 4 plus, 8 space, 16 left, 32 prefix, 64 small letters. */
module Shape {
  import opened Prelude
  import opened Text
  import opened Number

  // ---------- numerals ----------

  /** The worth of a digit, with small or with capital letters; -1 for any other character. */
  function DigitWorth(c: char, small: bool): int {
    if '0' <= c <= '9' then c as int - 48
    else if small && 'a' <= c <= 'z' then c as int - 97 + 10
    else if !small && 'A' <= c <= 'Z' then c as int - 65 + 10
    else -1
  }

  function Worth(s: string, base: nat, small: bool): int {
    if s == "" then 0 else Worth(s[..|s| - 1], base, small) * base + DigitWorth(s[|s| - 1], small)
  }

  /** The digits of s are digits of the base. */
  predicate AllDigits(s: string, base: nat, small: bool) {
    forall i :: 0 <= i < |s| ==> 0 <= DigitWorth(s[i], small) < base
  }

  /** s is the numeral of u in the base: digits of the base worth u, without a zero in front
      of others. */
  predicate Numeral(s: string, u: nat, base: nat, small: bool) {
    s != "" && AllDigits(s, base, small) && Worth(s, base, small) == u && (|s| > 1 ==> s[0] != '0')
  }

  lemma WorthSnoc(s: string, c: char, base: nat, small: bool)
    ensures Worth(s + [c], base, small) == Worth(s, base, small) * base + DigitWorth(c, small)
    ensures AllDigits(s + [c], base, small) <==> AllDigits(s, base, small) && 0 <= DigitWorth(c, small) < base
  {
    hide DigitWorth;
    assert (s + [c])[..|s|] == s;
    if AllDigits(s + [c], base, small) {
      assert (s + [c])[|s|] == c;
      assert forall i :: 0 <= i < |s| ==> (s + [c])[i] == s[i];
    }
  }

  /** Digits without a leading zero are worth something. */
  lemma {:induction false} WorthPositive(s: string, base: nat, small: bool)
    requires 2 <= base && AllDigits(s, base, small)
    ensures Worth(s, base, small) >= 0
    ensures s != "" && s[0] != '0' ==> Worth(s, base, small) > 0
    decreases |s|
  {
    hide DigitWorth, AllDigits, Worth;
    NoDigits(base, small);
    if s != "" {
      var init, c := s[..|s| - 1], s[|s| - 1];
      assert s == init + [c];
      WorthSnoc(init, c, base, small);
      WorthPositive(init, base, small);
      Grows(Worth(init, base, small), base, DigitWorth(c, small));
      if c != '0' { OnlyZero(c, small); }
    }
  }

  lemma Grows(w: nat, base: nat, d: nat)
    requires base >= 2
    ensures w * base + d >= 0 && (w > 0 || d > 0 ==> w * base + d > 0)
  {
    if w > 0 {
      assert w * base >= base;
    }
  }

  lemma OnlyZero(c: char, small: bool)
    requires DigitWorth(c, small) >= 0 && c != '0'
    ensures DigitWorth(c, small) > 0
  {}

  /** A number has one numeral. */
  lemma {:induction false} NumeralUnique(s: string, t: string, u: nat, base: nat, small: bool)
    requires 2 <= base && Numeral(s, u, base, small) && Numeral(t, u, base, small)
    ensures s == t
    decreases |s|
  {
    hide DigitWorth, AllDigits, Worth;
    var a, c := s[..|s| - 1], s[|s| - 1];
    var b, d := t[..|t| - 1], t[|t| - 1];
    assert s == a + [c] && t == b + [d];
    WorthSnoc(a, c, base, small);
    WorthSnoc(b, d, base, small);
    WorthPositive(a, base, small);
    WorthPositive(b, base, small);
    Quotient(u, base, Worth(a, base, small), DigitWorth(c, small));
    Quotient(u, base, Worth(b, base, small), DigitWorth(d, small));
    SameDigit(c, d, base, small);
    NoDigits(base, small);
    if a != "" && b != "" {
      NumeralUnique(a, b, u / base, base, small);
    }
  }

  lemma NoDigits(base: nat, small: bool)
    ensures Worth("", base, small) == 0
  {}

  lemma SameDigit(c: char, d: char, base: nat, small: bool)
    requires DigitWorth(c, small) == DigitWorth(d, small) >= 0
    ensures c == d
  {}

  lemma FlagBits(flags: bv8)
    ensures Has(flags, ZEROPAD) <==> flags & 1 != 0
    ensures Has(flags, SIGN) <==> flags & 2 != 0
    ensures Has(flags, PLUS) <==> flags & 4 != 0
    ensures Has(flags, SPACE) <==> flags & 8 != 0
    ensures Has(flags, LEFT) <==> flags & 16 != 0
    ensures Has(flags, SPECIAL) <==> flags & 32 != 0
    ensures Has(flags, SMALL) <==> flags & 64 != 0
  {}

  /** The digit tables list the digits by worth. */
  lemma TableWorth(flags: bv8, d: nat)
    requires d < 36
    ensures DigitWorth(DigitSet(flags)[d], flags & 64 != 0) == d
    ensures DigitSet(flags)[d] == '0' <==> d == 0
  {
    hide Has, DigitWorth;
    FlagBits(flags);
    if flags & 64 != 0 {
      SmallDigit(d);
    } else {
      LargeDigit(d);
    }
  }

  lemma SmallDigit(d: nat)
    requires d < 36
    ensures DigitWorth(SMALL_DIGITS[d], true) == d && (SMALL_DIGITS[d] == '0' <==> d == 0)
  {}

  lemma LargeDigit(d: nat)
    requires d < 36
    ensures DigitWorth(LARGE_DIGITS[d], false) == d && (LARGE_DIGITS[d] == '0' <==> d == 0)
  {}

  lemma {:induction false} PositiveNumeral(u: nat, base: nat, flags: bv8)
    requires u > 0 && 2 <= base <= 36
    ensures Numeral(PositiveDigits(u, base, DigitSet(flags)), u, base, flags & 64 != 0)
    ensures PositiveDigits(u, base, DigitSet(flags))[0] != '0'
    decreases u
  {
    hide DigitSet, PositiveDigits, DigitWorth, AllDigits, Worth;
    var digits, small := DigitSet(flags), flags & 64 != 0;
    DigitsStep(u, base, digits);
    TableWorth(flags, u % base);
    QuotientSmaller(u, base);
    WorthSnoc(PositiveDigits(u / base, base, digits), digits[u % base], base, small);
    assert u == u / base * base + u % base;
    if u / base > 0 {
      PositiveNumeral(u / base, base, flags);
    } else {
      PositiveDigitsZero(base, digits);
      NoDigits(base, small);
      EmptyDigits(base, small);
    }
  }

  lemma EmptyDigits(base: nat, small: bool)
    ensures AllDigits("", base, small)
  {}

  lemma DigitsNumeral(u: nat, base: nat, flags: bv8)
    requires 2 <= base <= 36
    ensures Numeral(Digits(u, base, DigitSet(flags)), u, base, flags & 64 != 0)
  {
    hide DigitSet, PositiveDigits, DigitWorth, Worth;
    if u > 0 {
      PositiveNumeral(u, base, flags);
    } else {
      TableWorth(flags, 0);
      WorthSnoc("", DigitSet(flags)[0], base, flags & 64 != 0);
      NoDigits(base, flags & 64 != 0);
      assert "" + [DigitSet(flags)[0]] == [DigitSet(flags)[0]];
    }
  }

  // ---------- number ----------

  /** The sign character, if any: a minus for negative values of signed conversions, else the
      plus or the space that the flags ask for. */
  function SignOf(negative: bool, flags: bv8): string {
    if negative then "-" else if flags & 4 != 0 then "+" else if flags & 8 != 0 then " " else ""
  }

  function PrefixOf(base: nat, small: bool, flags: bv8): string {
    if flags & 32 == 0 then ""
    else if base == 16 then (if small then "0x" else "0X")
    else if base == 8 then "0"
    else ""
  }

  lemma Letter(flags: bv8)
    ensures DigitSet(flags)[33] == if flags & 64 != 0 then 'x' else 'X'
  {}

  lemma SignIs(num: int, flags: bv8)
    ensures SignText(num, flags) == SignOf(flags & 2 != 0 && num < 0, flags)
  {
    hide Has;
    FlagBits(flags);
  }

  lemma PrefixIs(base: nat, flags: bv8)
    ensures PrefixText(base, flags) == PrefixOf(base, flags & 64 != 0, flags)
  {
    hide Has, DigitSet;
    FlagBits(flags);
    Letter(flags);
  }

  /** The value number prints: the size of a signed value, or the 64 bits as unsigned. */
  function Shown(num: int, signed: bool): int {
    if num >= 0 then num else if signed then -num else num + 0x1_0000_0000_0000_0000
  }

  lemma ShownIs(num: int, flags: bv8)
    requires IsLong(num)
    ensures Magnitude(num, flags) == Shown(num, flags & 2 != 0) && Shown(num, flags & 2 != 0) >= 0
  {
    hide Has;
    FlagBits(flags);
  }

  /** What number prints without a field size: sign, prefix, zeros up to the precision, and the
      numeral of the value. */
  lemma BareForm(num: int, base: nat, size: int, precision: int, flags: bv8) returns (digits: string)
    requires IsLong(num) && 2 <= base <= 36 && size <= 0
    ensures Shown(num, flags & 2 != 0) >= 0
    ensures Numeral(digits, Shown(num, flags & 2 != 0), base, flags & 64 != 0)
    ensures Layout(num, base, size, precision, flags)
         == SignOf(flags & 2 != 0 && num < 0, flags) + PrefixOf(base, flags & 64 != 0, flags)
            + Repeat('0', precision - |digits|) + digits
  {
    hide Has, Digits, DigitSet, SignText, PrefixText, SignOf, PrefixOf, Numeral, Magnitude, Shown, Repeat;
    ShownIs(num, flags);
    SignIs(num, flags);
    PrefixIs(base, flags);
    DigitsNumeral(Magnitude(num, flags), base, flags);
    digits := DigitText(num, base, flags);
    var pad := Padding(num, base, size, precision, flags);
    RepeatNone(' ', 0);
    RepeatNone('0', 0);
    RepeatNone(' ', pad);
    RepeatNone('0', pad);
    var sign, prefix, zeros := SignText(num, flags), PrefixText(base, flags), Repeat('0', precision - |digits|);
    assert "" + sign + prefix + "" + zeros + digits + "" == sign + prefix + zeros + digits;
  }

  /** How many characters of sign and prefix come before the digits. */
  function HeadLength(num: int, base: nat, flags: bv8): nat {
    (if (flags & 2 != 0 && num < 0) || flags & 12 != 0 then 1 else 0)
    + (if flags & 32 == 0 then 0 else if base == 16 then 2 else if base == 8 then 1 else 0)
  }

  lemma HeadIs(num: int, base: nat, flags: bv8)
    ensures HeadLength(num, base, flags) == |SignText(num, flags)| + |PrefixText(base, flags)|
  {
    hide Has;
    FlagBits(flags);
    PlusOrSpace(flags);
  }

  lemma PlusOrSpace(flags: bv8)
    ensures flags & 12 != 0 <==> flags & 4 != 0 || flags & 8 != 0
  {}

  /** Where a field size puts its padding: spaces behind with flag 16, else zeros between prefix
      and digits with flag 1, else spaces in front. */
  lemma PaddedForm(num: int, base: nat, size: int, precision: int, flags: bv8)
    requires IsLong(num) && 2 <= base <= 36
    ensures var text, bare := Layout(num, base, size, precision, flags), Layout(num, base, 0, precision, flags);
            var pad, head := size - |bare|, HeadLength(num, base, flags);
            head <= |bare|
            && (flags & 16 != 0 ==> text == bare + Repeat(' ', pad))
            && (flags & 16 == 0 && flags & 1 != 0 ==> text == bare[..head] + Repeat('0', pad) + bare[head..])
            && (flags & 16 == 0 && flags & 1 == 0 ==> text == Repeat(' ', pad) + bare)
  {
    hide Has, Digits, DigitSet, SignText, PrefixText, Magnitude, Repeat, HeadLength;
    FlagBits(flags);
    HeadIs(num, base, flags);
    var digits := DigitText(num, base, flags);
    var pad, none := Padding(num, base, size, precision, flags), Padding(num, base, 0, precision, flags);
    RepeatNone(' ', 0);
    RepeatNone('0', 0);
    RepeatNone(' ', none);
    RepeatNone('0', none);
    var sign, prefix, zeros := SignText(num, flags), PrefixText(base, flags), Repeat('0', precision - |digits|);
    var head, body := sign + prefix, zeros + digits;
    LengthOfZeros(precision, digits);
    Joined("", sign, prefix, "", zeros, digits, "");
    var bare := Layout(num, base, 0, precision, flags);
    assert bare == head + body;
    assert bare[..|head|] == head && bare[|head|..] == body;
    var spaces, nulls := Repeat(' ', pad), Repeat('0', pad);
    Joined("", sign, prefix, "", zeros, digits, spaces);
    Joined("", sign, prefix, nulls, zeros, digits, "");
    Joined(spaces, sign, prefix, "", zeros, digits, "");
  }

  lemma Joined(a: string, b: string, c: string, d: string, e: string, f: string, g: string)
    ensures a + b + c + d + e + f + g == a + (b + c + d + (e + f)) + g
    ensures d == "" ==> b + c + d + (e + f) == b + c + (e + f)
    ensures a == "" ==> a + (b + c + d + (e + f)) + g == b + c + d + (e + f) + g
    ensures g == "" ==> a + (b + c + d + (e + f)) + g == a + (b + c + d + (e + f))
    ensures a == "" && g == "" ==> a + (b + c + d + (e + f)) + g == b + c + d + (e + f)
  {}

  lemma LengthOfZeros(precision: int, digits: string)
    ensures |Repeat('0', precision - |digits|)| + |digits| == Number.Max(precision, |digits|)
  {}

  predicate Signless(s: string) { '-' !in s && '+' !in s }

  lemma DigitsSignless(s: string, base: nat, small: bool)
    requires AllDigits(s, base, small)
    ensures Signless(s)
  {
    forall i | 0 <= i < |s|
      ensures s[i] != '-' && s[i] != '+'
    {
      DigitNoSign(s[i], small);
    }
  }

  lemma DigitNoSign(c: char, small: bool)
    requires DigitWorth(c, small) >= 0
    ensures c != '-' && c != '+'
  {}

  lemma PrefixSignless(base: nat, small: bool, flags: bv8)
    ensures Signless(PrefixOf(base, small, flags))
  {}

  lemma BareSign(num: int, base: nat, precision: int, flags: bv8)
    requires IsLong(num) && 2 <= base <= 36
    ensures '-' in Layout(num, base, 0, precision, flags) <==> flags & 2 != 0 && num < 0
    ensures '+' in Layout(num, base, 0, precision, flags) <==> flags & 4 != 0 && !(flags & 2 != 0 && num < 0)
  {
    hide Layout, AllDigits, PrefixOf, SignOf, Repeat, Worth, Shown;
    var digits := BareForm(num, base, 0, precision, flags);
    DigitsSignless(digits, base, flags & 64 != 0);
    PrefixSignless(base, flags & 64 != 0, flags);
    PadSignless(precision - |digits|);
    PlusSign(flags & 2 != 0 && num < 0, flags);
  }

  /** A minus is printed exactly for a negative signed value, and a plus exactly with flag 4 and
      without a minus, whatever field size and precision. */
  lemma SignIff(num: int, base: nat, size: int, precision: int, flags: bv8)
    requires IsLong(num) && 2 <= base <= 36
    ensures '-' in Layout(num, base, size, precision, flags) <==> flags & 2 != 0 && num < 0
    ensures '+' in Layout(num, base, size, precision, flags) <==> flags & 4 != 0 && !(flags & 2 != 0 && num < 0)
  {
    hide Layout, HeadLength, Repeat;
    BareSign(num, base, precision, flags);
    PaddedForm(num, base, size, precision, flags);
    var bare := Layout(num, base, 0, precision, flags);
    PadSignless(size - |bare|);
    PadKeeps(bare, HeadLength(num, base, flags), Repeat(' ', size - |bare|));
    PadKeeps(bare, HeadLength(num, base, flags), Repeat('0', size - |bare|));
  }

  /** Padding without signs adds and hides none. */
  lemma PadKeeps(bare: string, head: nat, pad: string)
    requires head <= |bare| && Signless(pad)
    ensures forall c :: c == '-' || c == '+' ==>
              (c in bare + pad <==> c in bare) && (c in pad + bare <==> c in bare)
              && (c in bare[..head] + pad + bare[head..] <==> c in bare)
  {
    assert bare == bare[..head] + bare[head..];
  }

  lemma PlusSign(negative: bool, flags: bv8)
    ensures '-' in SignOf(negative, flags) <==> negative
    ensures '+' in SignOf(negative, flags) <==> flags & 4 != 0 && !negative
  {}

  lemma PadSignless(count: int)
    ensures Signless(Repeat(' ', count)) && Signless(Repeat('0', count))
  {}
}
