/** Reading a formatted integer back: padding, sign and prefix are stripped and the digits
    read in the base. */
module Reading {
  import opened Prelude
  import opened Text
  import opened Number

  function DigitValue(c: char): Option<nat> {
    if '0' <= c <= '9' then Some(c as int - '0' as int)
    else if 'A' <= c <= 'Z' then Some(c as int - 'A' as int + 10)
    else if 'a' <= c <= 'z' then Some(c as int - 'a' as int + 10)
    else None
  }

  predicate IsDigitIn(c: char, base: nat) {
    DigitValue(c).Some? && DigitValue(c).value < base
  }

  function SkipSpaces(s: string): string {
    if s != "" && s[0] == ' ' then SkipSpaces(s[1..]) else s
  }

  /** The value of the leading digits of s, after digits worth acc. */
  function ReadDigits(s: string, base: nat, acc: nat): nat {
    if s != "" && IsDigitIn(s[0], base) then ReadDigits(s[1..], base, acc * base + DigitValue(s[0]).value) else acc
  }

  function StripPrefix(s: string, base: nat): string {
    if base == 16 && |s| >= 2 && s[0] == '0' && (s[1] == 'x' || s[1] == 'X') then s[2..] else s
  }

  /** Spaces, an optional sign, an optional 0x in base 16, digits. */
  function ReadNumber(s: string, base: nat): int {
    var t := SkipSpaces(s);
    if t != "" && t[0] == '-' then 0 - ReadDigits(StripPrefix(t[1..], base), base, 0)
    else if t != "" && t[0] == '+' then ReadDigits(StripPrefix(t[1..], base), base, 0)
    else ReadDigits(StripPrefix(t, base), base, 0)
  }

  /** The digit tables are read back by DigitValue. */
  lemma TableValue(flags: bv8, d: nat)
    requires d < 36
    ensures DigitValue(DigitSet(flags)[d]) == Some(d)
  {}

  lemma {:induction false} SkipRepeat(count: int, s: string)
    ensures SkipSpaces(Repeat(' ', count) + s) == SkipSpaces(s)
    decreases if count > 0 then count else 0
  {
    if count <= 0 {
      assert Repeat(' ', count) + s == s;
    } else {
      RepeatHead(' ', count);
      assert (Repeat(' ', count) + s)[1..] == Repeat(' ', count - 1) + s;
      SkipRepeat(count - 1, s);
    }
  }

  lemma {:induction false} ReadZeros(count: int, s: string, base: nat)
    requires 2 <= base
    ensures ReadDigits(Repeat('0', count) + s, base, 0) == ReadDigits(s, base, 0)
    decreases if count > 0 then count else 0
  {
    if count <= 0 {
      assert Repeat('0', count) + s == s;
    } else {
      RepeatHead('0', count);
      assert (Repeat('0', count) + s)[1..] == Repeat('0', count - 1) + s;
      ReadZeros(count - 1, s, base);
    }
  }

  lemma ReadOne(c: char, v: nat, rest: string, base: nat, acc: nat)
    requires DigitValue(c) == Some(v) && v < base
    ensures ReadDigits([c] + rest, base, acc) == ReadDigits(rest, base, acc * base + v)
  {
    assert ([c] + rest)[1..] == rest;
  }

  lemma DivMod(u: nat, base: nat)
    requires base >= 1
    ensures u / base * base + u % base == u
  {}

  /** Reading the digits of u first leaves the rest to be read after u. */
  lemma {:induction false} ReadPositive(u: nat, base: nat, flags: bv8, rest: string)
    requires 2 <= base <= 36
    ensures ReadDigits(PositiveDigits(u, base, DigitSet(flags)) + rest, base, 0) == ReadDigits(rest, base, u)
    decreases u
  {
    var digits := DigitSet(flags);
    hide DigitSet, PositiveDigits, ReadDigits, DigitValue;
    if u == 0 {
      PositiveDigitsZero(base, digits);
      assert PositiveDigits(u, base, digits) + rest == rest;
    } else {
      DigitsStep(u, base, digits);
      QuotientSmaller(u, base);
      var d := digits[u % base];
      TableValue(flags, u % base);
      ReadPositive(u / base, base, flags, [d] + rest);
      assert PositiveDigits(u, base, digits) + rest == PositiveDigits(u / base, base, digits) + ([d] + rest);
      ReadOne(d, u % base, rest, base, u / base);
      DivMod(u, base);
    }
  }

  lemma {:induction false} PositiveAllDigits(u: nat, base: nat, flags: bv8)
    requires 2 <= base <= 36
    ensures forall i :: 0 <= i < |PositiveDigits(u, base, DigitSet(flags))| ==>
              IsDigitIn(PositiveDigits(u, base, DigitSet(flags))[i], base)
    decreases u
  {
    hide DigitSet, PositiveDigits, DigitValue;
    if u == 0 {
      PositiveDigitsZero(base, DigitSet(flags));
    } else {
      DigitsStep(u, base, DigitSet(flags));
      QuotientSmaller(u, base);
      TableValue(flags, u % base);
      PositiveAllDigits(u / base, base, flags);
    }
  }

  /** Digits followed by spaces read as their value. */
  lemma ReadDigitText(u: nat, base: nat, flags: bv8, spaces: int)
    requires 2 <= base <= 36
    ensures ReadDigits(Digits(u, base, DigitSet(flags)) + Repeat(' ', spaces), base, 0) == u
    ensures IsDigitIn(Digits(u, base, DigitSet(flags))[0], base)
    ensures forall i :: 0 <= i < |Digits(u, base, DigitSet(flags))| ==>
              IsDigitIn(Digits(u, base, DigitSet(flags))[i], base)
  {
    hide DigitSet, PositiveDigits;
    var digits, rest := DigitSet(flags), Repeat(' ', spaces);
    assert ReadDigits(rest, base, u) == u;
    if u == 0 {
      TableValue(flags, 0);
      assert ([digits[0]] + rest)[1..] == rest;
      assert ReadDigits(rest, base, 0) == 0;
    } else {
      ReadPositive(u, base, flags, rest);
      PositiveAllDigits(u, base, flags);
    }
  }

  /** A space or a digit of the base. */
  predicate Plain(s: string, base: nat) {
    forall i :: 0 <= i < |s| ==> s[i] == ' ' || IsDigitIn(s[i], base)
  }

  /** What follows sign and prefix: zeros, digits, spaces. */
  function Body(zeros: int, precisionZeros: int, digits: string, spaces: int): string {
    Repeat('0', zeros) + (Repeat('0', precisionZeros) + (digits + Repeat(' ', spaces)))
  }

  lemma BodyReads(u: nat, base: nat, flags: bv8, zeros: int, precisionZeros: int, spaces: int)
    requires 2 <= base <= 36
    ensures var body := Body(zeros, precisionZeros, Digits(u, base, DigitSet(flags)), spaces);
            ReadDigits(body, base, 0) == u && body != "" && body[0] != ' ' && Plain(body, base)
  {
    hide DigitSet, Digits, DigitValue, ReadDigits;
    var digits := Digits(u, base, DigitSet(flags));
    ReadDigitText(u, base, flags, spaces);
    ReadZeros(precisionZeros, digits + Repeat(' ', spaces), base);
    ReadZeros(zeros, Repeat('0', precisionZeros) + (digits + Repeat(' ', spaces)), base);
    ZeroAndSpace(base);
  }

  lemma ZeroAndSpace(base: nat)
    requires base >= 1
    ensures IsDigitIn('0', base) && !IsDigitIn(' ', base)
  {}

  /** In base 16 the prefix is recognised and nothing else is taken for one; in base 8 it
      is a leading zero. */
  lemma PrefixReads(base: nat, flags: bv8, body: string)
    requires 2 <= base <= 36 && body != "" && body[0] != ' ' && Plain(body, base)
    ensures var t := PrefixText(base, flags) + body;
            ReadDigits(StripPrefix(t, base), base, 0) == ReadDigits(body, base, 0)
            && t != "" && t[0] != ' ' && t[0] != '-' && t[0] != '+'
  {
    hide Has;
    var prefix := PrefixText(base, flags);
    var t := prefix + body;
    assert IsDigitIn(body[0], base);
    if |prefix| == 2 {
      assert t[2..] == body;
    } else if |prefix| == 1 {
      assert t == ['0'] + body;
      ReadOne('0', 0, body, base, 0);
    } else {
      assert t == body;
      NoPrefix(body, base);
    }
  }

  lemma NoPrefix(body: string, base: nat)
    requires Plain(body, base)
    ensures StripPrefix(body, base) == body
  {
    if base == 16 && |body| >= 2 {
      assert body[1] == ' ' || IsDigitIn(body[1], base);
    }
  }

  lemma SignReads(num: int, flags: bv8, base: nat, t: string)
    requires t != "" && t[0] != ' ' && t[0] != '-' && t[0] != '+'
    ensures ReadNumber(SignText(num, flags) + t, base) ==
            if Has(flags, SIGN) && num < 0 then 0 - ReadDigits(StripPrefix(t, base), base, 0)
            else ReadDigits(StripPrefix(t, base), base, 0)
  {
    hide Has, StripPrefix, ReadDigits;
    var sign := SignText(num, flags);
    if sign == "" {
      assert sign + t == t;
    } else {
      assert (sign + t)[1..] == t && SkipSpaces(t) == t;
      assert sign[0] == ' ' ==> SkipSpaces(sign + t) == SkipSpaces(t);
      assert sign[0] != ' ' ==> SkipSpaces(sign + t) == sign + t;
    }
  }

  lemma ReadSkips(count: int, s: string, base: nat)
    ensures ReadNumber(Repeat(' ', count) + s, base) == ReadNumber(s, base)
  {
    hide ReadDigits, StripPrefix, SkipSpaces, Repeat;
    SkipRepeat(count, s);
  }

  lemma Regroup(a: string, b: string, c: string, d: string, e: string, f: string, g: string)
    ensures a + b + c + d + e + f + g == a + (b + (c + (d + (e + (f + g)))))
  {}

  /** number is invertible: for every 64-bit value, base, field size, precision and flags,
      reading the output gives the value back, signed with SIGN and unsigned without. */
  lemma LayoutReads(num: int, base: nat, size: int, precision: int, flags: bv8)
    requires IsLong(num) && 2 <= base <= 36
    ensures ReadNumber(Layout(num, base, size, precision, flags), base)
         == if Has(flags, SIGN) then num else Unsigned(num)
  {
    hide Has, Digits, DigitSet, Repeat, SignText, PrefixText, ReadNumber, ReadDigits, StripPrefix, Plain, Body;
    var u := Magnitude(num, flags);
    var digits := DigitText(num, base, flags);
    var pad := Padding(num, base, size, precision, flags);
    var left, zero := Has(flags, LEFT), Has(flags, ZEROPAD);
    var spaces, zeros := if left || zero then 0 else pad, if !left && zero then pad else 0;
    var after := if left then pad else 0;
    var body := Body(zeros, precision - |digits|, digits, after);
    BodyReads(u, base, flags, zeros, precision - |digits|, after);
    PrefixReads(base, flags, body);
    var t := PrefixText(base, flags) + body;
    SignReads(num, flags, base, t);
    ReadSkips(spaces, SignText(num, flags) + t, base);
    Regroup(Repeat(' ', spaces), SignText(num, flags), PrefixText(base, flags), Repeat('0', zeros),
            Repeat('0', precision - |digits|), digits, Repeat(' ', after));
    BodyIs(zeros, precision - |digits|, digits, after);
    assert Layout(num, base, size, precision, flags) == Repeat(' ', spaces) + (SignText(num, flags) + t);
  }

  lemma BodyIs(zeros: int, precisionZeros: int, digits: string, spaces: int)
    ensures Body(zeros, precisionZeros, digits, spaces)
         == Repeat('0', zeros) + (Repeat('0', precisionZeros) + (digits + Repeat(' ', spaces)))
  {}

  /** Hence different values never print alike, whatever the two field sizes and
      precisions. */
  lemma LayoutInjective(a: int, b: int, base: nat, size: int, precision: int, size': int, precision': int, flags: bv8)
    requires IsLong(a) && IsLong(b) && 2 <= base <= 36
    requires Layout(a, base, size, precision, flags) == Layout(b, base, size', precision', flags)
    ensures a == b
  {
    hide Layout, ReadNumber, Has;
    LayoutReads(a, base, size, precision, flags);
    LayoutReads(b, base, size', precision', flags);
  }
}
