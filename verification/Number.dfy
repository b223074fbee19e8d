/** The integer formatter: digit extraction and layout. */
module Number {
  import opened Prelude
  import opened Text

  const ZEROPAD: bv8 := 1
  const SIGN: bv8 := 2
  const PLUS: bv8 := 4
  const SPACE: bv8 := 8
  const LEFT: bv8 := 16
  const SPECIAL: bv8 := 32
  const SMALL: bv8 := 64

  predicate Has(flags: bv8, flag: bv8) { flags & flag != 0 }

  const LARGE_DIGITS := "0123456789ABCDEFGHIJKLMNOPQRSTUVWXYZ"
  const SMALL_DIGITS := "0123456789abcdefghijklmnopqrstuvwxyz"

  function DigitSet(flags: bv8): (s: string)
    ensures |s| == 36
  {
    if Has(flags, SMALL) then SMALL_DIGITS else LARGE_DIGITS
  }

  // ---------- 64-bit values ----------

  /** A long holds this. */
  predicate IsLong(num: int) { -TWO_63 <= num < TWO_63 }

  /** The same 64 bits read as unsigned. */
  function Unsigned(num: int): nat
    requires IsLong(num)
  {
    if num < 0 then num + TWO_64 else num
  }

  /** -num on a long; the least long is its own negation. */
  function Negate(num: int): (r: int)
    requires IsLong(num)
    ensures IsLong(r)
  {
    if num == -TWO_63 then num else -num
  }

  // ---------- digits ----------

  /** Digits of a positive number, most significant first; none for zero. */
  function PositiveDigits(u: nat, base: nat, digits: string): string
    requires 2 <= base <= |digits|
    decreases u
  {
    if u == 0 then "" else PositiveDigits(u / base, base, digits) + [digits[u % base]]
  }

  function Digits(u: nat, base: nat, digits: string): (s: string)
    requires 2 <= base <= |digits|
    ensures |s| > 0
  {
    if u == 0 then [digits[0]] else PositiveDigits(u, base, digits)
  }

  function Power(base: nat, k: nat): nat {
    if k == 0 then 1 else base * Power(base, k - 1)
  }

  lemma Product(a: nat, b: nat, x: nat, y: nat)
    requires 1 <= a <= b && 1 <= x <= y
    ensures 1 <= a * x <= b * y
  {
    assert a * x <= a * y;
    assert a * y <= b * y;
  }

  lemma {:induction false} PowerMonotone(a: nat, b: nat, k: nat)
    requires 1 <= a <= b
    ensures 1 <= Power(a, k) <= Power(b, k)
  {
    if k > 0 {
      PowerMonotone(a, b, k - 1);
      Product(a, b, Power(a, k - 1), Power(b, k - 1));
    }
  }

  /** A number has at most k digits exactly when it is below base^k. */
  lemma {:induction false} DigitCount(u: nat, base: nat, digits: string, k: nat)
    requires 2 <= base <= |digits|
    ensures |PositiveDigits(u, base, digits)| <= k <==> u < Power(base, k)
    decreases u
  {
    if u != 0 {
      if k == 0 {
      } else {
        DigitCount(u / base, base, digits, k - 1);
        DivBelow(u, base, Power(base, k - 1));
      }
    } else {
      PowerMonotone(1, base, k);
      OnePower(k);
    }
  }

  lemma {:induction false} OnePower(k: nat)
    ensures Power(1, k) == 1
  {
    if k > 0 { OnePower(k - 1); }
  }

  lemma DivBelow(u: nat, base: nat, p: nat)
    requires base >= 1
    ensures u / base < p <==> u < base * p
  {
    assert u == base * (u / base) + u % base;
    if u / base < p {
      assert base * (u / base + 1) <= base * p;
    } else {
      assert base * (u / base) >= base * p;
    }
  }

  lemma {:induction false} PowerDouble(base: nat, a: nat, b: nat)
    ensures Power(base, a + b) == Power(base, a) * Power(base, b)
    decreases a
  {
    if a > 0 {
      PowerDouble(base, a - 1, b);
      Regroup(base, Power(base, a - 1), Power(base, b));
    }
  }

  lemma Regroup(x: nat, y: nat, z: nat)
    ensures x * (y * z) == (x * y) * z
  {}

  lemma PowerFive(base: nat)
    ensures Power(base, 5) == base * (base * (base * (base * base)))
  {
    assert Power(base, 1) == base;
    assert Power(base, 2) == base * base;
    assert Power(base, 3) == base * Power(base, 2);
    assert Power(base, 4) == base * Power(base, 3);
  }

  /** Power(base, 50) from Power(base, 5). */
  lemma PowerFifty(base: nat, p5: nat, p10: nat, p20: nat, p40: nat)
    requires p5 == base * (base * (base * (base * base)))
    requires p10 == p5 * p5 && p20 == p10 * p10 && p40 == p20 * p20
    ensures Power(base, 20) == p20 && Power(base, 50) == p40 * p10
  {
    hide Power;
    PowerFive(base);
    PowerDouble(base, 5, 5);
    PowerDouble(base, 10, 10);
    PowerDouble(base, 20, 20);
    PowerDouble(base, 40, 10);
  }

  lemma PowerValues()
    ensures Power(2, 50) == TWO_50
    ensures Power(3, 50) >= TWO_64
    ensures Power(8, 22) >= TWO_64
  {
    hide Power;
    PowerFifty(2, 32, 1024, 1048576, 1099511627776);
    PowerFifty(3, 243, 59049, 3486784401, 12157665459056928801);
    PowerFifty(8, 32768, 1073741824, 1152921504606846976, 1329227995784915872903807060280344576);
    PowerDouble(8, 20, 2);
    PowerTwo(8);
  }

  lemma PowerTwo(base: nat)
    ensures Power(base, 2) == base * base
  {
    assert Power(base, 1) == base;
  }

  /** Which values fit the 50 places of tmp: all 64-bit values in base 3 and above, and
      those below 2^50 in base 2. */
  lemma TmpFitsIff(u: nat, base: nat, digits: string)
    requires 2 <= base <= |digits| && u < TWO_64
    ensures |Digits(u, base, digits)| <= 50 <==> base >= 3 || u < TWO_50
  {
    hide Power, PositiveDigits;
    PowerValues();
    if u > 0 {
      DigitCount(u, base, digits, 50);
      if base >= 3 {
        PowerMonotone(3, base, 50);
      }
    }
  }

  /** vsprintf's bases use at most 22 of them. */
  lemma TmpUse(u: nat, base: nat, digits: string)
    requires 8 <= base <= |digits| && u < TWO_64
    ensures |Digits(u, base, digits)| <= 22
  {
    hide Power, PositiveDigits;
    PowerValues();
    DigitCount(u, base, digits, 22);
    PowerMonotone(8, base, 22);
  }

  // ---------- layout ----------

  /** The value whose digits are printed. */
  function Magnitude(num: int, flags: bv8): (u: nat)
    requires IsLong(num)
    ensures u < TWO_64
  {
    if Has(flags, SIGN) && num < 0 then -num else Unsigned(num)
  }

  function SignText(num: int, flags: bv8): (s: string)
    ensures |s| <= 1
  {
    if Has(flags, SIGN) && num < 0 then "-"
    else if Has(flags, PLUS) then "+"
    else if Has(flags, SPACE) then " "
    else ""
  }

  function PrefixText(base: nat, flags: bv8): (s: string)
    ensures |s| <= 2
  {
    if !Has(flags, SPECIAL) then ""
    else if base == 16 then ['0', DigitSet(flags)[33]]
    else if base == 8 then "0"
    else ""
  }

  function DigitText(num: int, base: nat, flags: bv8): string
    requires IsLong(num) && 2 <= base <= 36
  {
    Digits(Magnitude(num, flags), base, DigitSet(flags))
  }

  function Max(a: int, b: int): int { if a > b then a else b }

  /** Room that sign, prefix and digits leave in a field of the given size. */
  function Padding(num: int, base: nat, size: int, precision: int, flags: bv8): int
    requires IsLong(num) && 2 <= base <= 36
  {
    size - |SignText(num, flags)| - |PrefixText(base, flags)| - Max(precision, |DigitText(num, base, flags)|)
  }

  /** Left spaces, sign, base prefix, zero padding, precision zeros, digits, right spaces.
      LEFT overrides ZEROPAD. */
  function Layout(num: int, base: nat, size: int, precision: int, flags: bv8): string
    requires IsLong(num) && 2 <= base <= 36
  {
    var digits := DigitText(num, base, flags);
    var pad := Padding(num, base, size, precision, flags);
    var left, zero := Has(flags, LEFT), Has(flags, ZEROPAD);
    Repeat(' ', if left || zero then 0 else pad)
    + SignText(num, flags)
    + PrefixText(base, flags)
    + Repeat('0', if !left && zero then pad else 0)
    + Repeat('0', precision - |digits|)
    + digits
    + Repeat(' ', if left then pad else 0)
  }

  /** The field is filled exactly, or exceeded by what the number itself needs. */
  lemma LayoutLength(num: int, base: nat, size: int, precision: int, flags: bv8)
    requires IsLong(num) && 2 <= base <= 36
    ensures |Layout(num, base, size, precision, flags)|
         == Max(size, |SignText(num, flags)| + |PrefixText(base, flags)|
                      + Max(precision, |DigitText(num, base, flags)|))
  {}

  // ---------- the imperative formatter ----------

  lemma QuotientSmaller(n: nat, base: nat)
    requires n > 0 && base >= 2
    ensures n / base < n
  {}

  lemma PositiveDigitsZero(base: nat, digits: string)
    requires 2 <= base <= |digits|
    ensures PositiveDigits(0, base, digits) == ""
  {}

  lemma DigitsStep(u: nat, base: nat, digits: string)
    requires u > 0 && 2 <= base <= |digits|
    ensures u % base < base
    ensures PositiveDigits(u, base, digits) == PositiveDigits(u / base, base, digits) + [digits[u % base]]
  {}

  /** do_div: an unsigned 64-bit division that leaves the quotient in place of n, and from base
      2 on makes it smaller. */
  method DoDiv(n: nat, base: nat) returns (quotient: nat, remainder: nat)
    requires n < TWO_64 && 1 <= base
    ensures n == quotient * base + remainder && remainder < base
    ensures n > 0 && base >= 2 ==> quotient < n
  {
    quotient, remainder := n / base, n % base;
    if n > 0 && base >= 2 { QuotientSmaller(n, base); }
  }

  function Reversed(s: string): (r: string)
    ensures |r| == |s|
  {
    if s == "" then "" else Reversed(s[1..]) + [s[0]]
  }

  lemma {:induction false} ReversedSnoc(s: string, c: char)
    ensures Reversed(s + [c]) == [c] + Reversed(s)
  {
    if s == "" {
    } else {
      ReversedSnoc(s[1..], c);
      assert (s + [c])[1..] == s[1..] + [c];
    }
  }

  /** Digit extraction: tmp receives the digits, least significant first. */
  method FillTmp(tmp: array<char>, u: nat, base: nat, digits: string) returns (i: nat)
    requires tmp.Length == 50 && 2 <= base <= |digits| && u < TWO_64
    requires base >= 3 || u < TWO_50
    modifies tmp
    ensures i <= 50 && Reversed(tmp[..i]) == Digits(u, base, digits)
  {
    hide PositiveDigits, Power;
    TmpFitsIff(u, base, digits);
    PositiveDigitsZero(base, digits);
    i := 0;
    if u == 0 {
      tmp[0] := digits[0];
      i := 1;
      assert tmp[..1] == [digits[0]];
    } else {
      var num: nat := u;
      while num != 0
        invariant 0 <= i && i + |PositiveDigits(num, base, digits)| <= 50 && num <= u
        invariant PositiveDigits(u, base, digits) == PositiveDigits(num, base, digits) + Reversed(tmp[..i])
        decreases num
      {
        var d: nat;
        DigitsStep(num, base, digits);
        ghost var was := tmp[..i];
        ghost var before := num;
        num, d := DoDiv(num, base);
        Quotient(before, base, num, d);
        tmp[i] := digits[d];
        i := i + 1;
        ReversedSnoc(was, digits[d]);
        assert tmp[..i] == was + [digits[d]];
      }
    }
  }

  /** while (i-- > 0) *str++ = tmp[i]; */
  method EmitReversed(buf: array<char>, at: nat, tmp: array<char>, n: nat) returns (next: nat)
    requires buf != tmp && n <= tmp.Length && at + n <= buf.Length
    modifies buf
    ensures next == at + n
    ensures buf[..] == Written(old(buf[..]), at, Reversed(tmp[..n]))
  {
    next := at;
    WrittenNothing(buf[..], at);
    var i := n;
    assert tmp[n..n] == "";
    while i > 0
      invariant 0 <= i <= n && next == at + (n - i)
      invariant buf[..] == Written(old(buf[..]), at, Reversed(tmp[i..n]))
    {
      i := i - 1;
      assert tmp[i..n][1..] == tmp[i + 1..n];
      WrittenOne(old(buf[..]), at, Reversed(tmp[i + 1..n]), tmp[i]);
      buf[next] := tmp[i];
      next := next + 1;
    }
    assert tmp[0..n] == tmp[..n];
  }

  /** *str++ = each character of a text of at most two. */
  method EmitText(buf: array<char>, at: nat, text: string) returns (next: nat)
    requires |text| <= 2 && at + |text| <= buf.Length
    modifies buf
    ensures next == at + |text|
    ensures buf[..] == Written(old(buf[..]), at, text)
  {
    if |text| > 0 { buf[at] := text[0]; }
    if |text| > 1 { buf[at + 1] := text[1]; }
    next := at + |text|;
  }

  lemma ClearZeroPad(flags: bv8)
    ensures var f := if Has(flags, LEFT) then flags & !ZEROPAD else flags;
            (Has(f, ZEROPAD) <==> Has(flags, ZEROPAD) && !Has(flags, LEFT))
            && (Has(f, LEFT) <==> Has(flags, LEFT))
            && (f & (ZEROPAD + LEFT) == 0 <==> !Has(flags, ZEROPAD) && !Has(flags, LEFT))
            && (Has(f, SIGN) <==> Has(flags, SIGN)) && (Has(f, PLUS) <==> Has(flags, PLUS))
            && (Has(f, SPACE) <==> Has(flags, SPACE)) && (Has(f, SPECIAL) <==> Has(flags, SPECIAL))
            && (Has(f, SMALL) <==> Has(flags, SMALL))
  {}

  /** Left spaces, sign, prefix and zero padding for a given padding. */
  function Front(sign: string, prefix: string, pad: int, flags: bv8): string {
    var left, zero := Has(flags, LEFT), Has(flags, ZEROPAD) && !Has(flags, LEFT);
    Repeat(' ', if left || zero then 0 else pad) + sign + prefix + Repeat('0', if zero then pad else 0)
  }

  /** Precision zeros, digits and right spaces. */
  function Back(zeros: int, digits: string, pad: int, flags: bv8): string {
    Repeat('0', zeros) + digits + Repeat(' ', if Has(flags, LEFT) then pad else 0)
  }

  /** Everything before the digits; size is the padding still to be placed. */
  method EmitFront(buf: array<char>, str: nat, sign: string, prefix: string, size: int, flags: bv8)
    returns (at: nat, rest: int)
    requires |sign| <= 2 && |prefix| <= 2
    requires str + |sign| + |prefix| + |Repeat(' ', size)| <= buf.Length
    modifies buf
    ensures at == str + |Front(sign, prefix, size, flags)|
    ensures buf[..] == Written(old(buf[..]), str, Front(sign, prefix, size, flags))
    ensures Has(flags, LEFT) ==> rest == size
    ensures !Has(flags, LEFT) ==> rest <= 0
  {
    hide Has, Repeat, Written;
    ClearZeroPad(flags);
    ghost var was := buf[..];
    ghost var left, zero := Has(flags, LEFT), Has(flags, ZEROPAD) && !Has(flags, LEFT);
    ghost var p1, p2 := Repeat(' ', if left || zero then 0 else size), Repeat('0', if zero then size else 0);
    var type_ := if Has(flags, LEFT) then flags & !ZEROPAD else flags;
    var c := if Has(type_, ZEROPAD) then '0' else ' ';
    RepeatNone(' ', 0);
    RepeatNone('0', 0);
    at, rest := str, size;
    WrittenNothing(was, str);
    if type_ & (ZEROPAD + LEFT) == 0 {
      at, rest := CountDown(buf, at, ' ', rest);
    }
    at := EmitText(buf, at, sign);
    WrittenTwice(was, str, p1, sign);
    at := EmitText(buf, at, prefix);
    WrittenTwice(was, str, p1 + sign, prefix);
    ghost var out := p1 + sign + prefix;
    assert out + "" == out;
    if !Has(type_, LEFT) {
      if !Has(type_, ZEROPAD) { RepeatNone(' ', rest); }
      at, rest := CountDown(buf, at, c, rest);
      WrittenTwice(was, str, out, p2);
    }
  }

  /** Precision zeros, the digits in tmp, and the padding left over. */
  method EmitBack(buf: array<char>, str: nat, zeros: int, tmp: array<char>, i: nat, size: int) returns (at: nat)
    requires buf != tmp && i <= tmp.Length
    requires str + |Repeat('0', zeros)| + i + |Repeat(' ', size)| <= buf.Length
    modifies buf
    ensures var out := Repeat('0', zeros) + Reversed(tmp[..i]) + Repeat(' ', size);
            at == str + |out| && buf[..] == Written(old(buf[..]), str, out)
  {
    hide Repeat, Written;
    ghost var was := buf[..];
    var rest;
    at, rest := CountDown(buf, str, '0', zeros);
    at := EmitReversed(buf, at, tmp, i);
    WrittenTwice(was, str, Repeat('0', zeros), Reversed(tmp[..i]));
    at, rest := CountDown(buf, at, ' ', size);
    WrittenTwice(was, str, Repeat('0', zeros) + Reversed(tmp[..i]), Repeat(' ', size));
  }

  /** The two halves of number's output, written one after the other. */
  method EmitNumber(buf: array<char>, str: nat, sign: string, prefix: string, size: int, zeros: nat,
                    flags: bv8, tmp: array<char>, i: nat)
    returns (at: nat)
    requires |sign| <= 2 && |prefix| <= 2 && buf != tmp && i <= tmp.Length
    requires str + |sign| + |prefix| + |Repeat(' ', size)| + zeros + i <= buf.Length
    modifies buf
    ensures var out := Front(sign, prefix, size, flags) + Back(zeros, Reversed(tmp[..i]), size, flags);
            at == str + |out| && buf[..] == Written(old(buf[..]), str, out)
  {
    hide Written, Repeat, Has;
    ghost var was := buf[..];
    var rest;
    at, rest := EmitFront(buf, str, sign, prefix, size, flags);
    if !Has(flags, LEFT) { RepeatNone(' ', rest); }
    RepeatNone(' ', 0);
    at := EmitBack(buf, at, zeros, tmp, i, rest);
    WrittenTwice(was, str, Front(sign, prefix, size, flags), Back(zeros, Reversed(tmp[..i]), size, flags));
  }

  lemma Regroup7(a: string, b: string, c: string, d: string, e: string, f: string, g: string)
    ensures a + b + c + d + e + f + g == (a + b + c + d) + (e + f + g)
  {}

  /** The layout from the quantities number has at hand. */
  lemma LayoutSplit(num: int, base: nat, size: int, precision: int, flags: bv8)
    requires IsLong(num) && 2 <= base <= 36
    ensures var digits := DigitText(num, base, flags);
            var pad := Padding(num, base, size, precision, flags);
            Layout(num, base, size, precision, flags) ==
            Front(SignText(num, flags), PrefixText(base, flags), pad, flags)
            + Back(Max(precision, |digits|) - |digits|, digits, pad, flags)
  {
    hide Has, Digits, SignText, PrefixText, Repeat, DigitText, Padding;
    var digits := DigitText(num, base, flags);
    var pad := Padding(num, base, size, precision, flags);
    var left, zero := Has(flags, LEFT), Has(flags, ZEROPAD);
    if precision < |digits| {
      RepeatNone('0', precision - |digits|);
      RepeatNone('0', 0);
    }
    Regroup7(Repeat(' ', if left || zero then 0 else pad), SignText(num, flags), PrefixText(base, flags),
             Repeat('0', if !left && zero then pad else 0),
             Repeat('0', precision - |digits|), digits, Repeat(' ', if left then pad else 0));
  }

  /** number: writes the layout at str and returns the position after it, or nothing for a
      base it does not know. In base 2 the value must fit the 50 digits of tmp. */
  method Number(buf: array<char>, str: nat, num: int, base: int, size: int, precision: int, flags: bv8)
    returns (end: Option<nat>)
    requires IsLong(num)
    requires 2 <= base <= 36 ==> str + |Layout(num, base, size, precision, flags)| <= buf.Length
    requires base == 2 ==> Magnitude(num, flags) < TWO_50
    modifies buf
    ensures !(2 <= base <= 36) ==> end == None && buf[..] == old(buf[..])
    ensures 2 <= base <= 36 ==>
      end == Some(str + |Layout(num, base, size, precision, flags)|)
      && buf[..] == Written(old(buf[..]), str, Layout(num, base, size, precision, flags))
  {
    hide Has, Digits, Repeat, DigitSet, Written, Layout;
    if base < 2 || base > 36 { return None; }
    ghost var was, num0, size0, precision0 := buf[..], num, size, precision;
    LayoutSplit(num, base, size, precision, flags);
    var num, size, precision := num, size, precision;
    var digits := DigitSet(flags);
    var sign := "";
    if Has(flags, SIGN) && num < 0 {
      sign := "-";
      num := Negate(num);
    } else {
      sign := if Has(flags, PLUS) then "+" else if Has(flags, SPACE) then " " else "";
    }
    assert sign == SignText(num0, flags) && Unsigned(num) == Magnitude(num0, flags);
    if sign != "" { size := size - 1; }
    var prefix := "";
    if Has(flags, SPECIAL) {
      if base == 16 {
        size := size - 2;
        prefix := ['0', digits[33]];
      } else if base == 8 {
        size := size - 1;
        prefix := "0";
      }
    }
    assert prefix == PrefixText(base, flags) && size == size0 - |sign| - |prefix|;
    var tmp := new char[50];
    var i := FillTmp(tmp, Unsigned(num), base, digits);
    assert Reversed(tmp[..i]) == DigitText(num0, base, flags);
    if i > precision { precision := i; }
    size := size - precision;
    assert precision == Max(precision0, i) && size == Padding(num0, base, size0, precision0, flags);
    var at := EmitNumber(buf, str, sign, prefix, size, precision - i, flags, tmp, i);
    return Some(at);
  }
}
