/** printf formats: what a format string means. A format is parsed into literal characters
    and directives, and the items are rendered one after the other against the arguments. */
module Format {
  import opened Prelude
  import opened Text
  import opened Number

  // ---------- format strings ----------

  /** A C string is the characters before its NUL. */
  predicate CString(s: string) { '\0' !in s }

  /** *fmt at position i. The NUL may be read; nothing behind it may. */
  function Char(f: string, i: nat): char
    requires i <= |f|
  {
    if i < |f| then f[i] else '\0'
  }

  predicate IsDigit(c: char) { '0' <= c <= '9' }

  function FlagOf(c: char): bv8 {
    if c == '-' then LEFT
    else if c == '+' then PLUS
    else if c == ' ' then SPACE
    else if c == '#' then SPECIAL
    else if c == '0' then ZEROPAD
    else 0
  }

  predicate IsFlag(c: char) { c == '-' || c == '+' || c == ' ' || c == '#' || c == '0' }

  predicate IsQualifier(c: char) { c == 'h' || c == 'l' || c == 'L' || c == 'Z' }

  /** A field width or precision: missing, written out, or taken from the arguments. */
  datatype Count = Absent | Num(n: nat) | Star

  /** conv is NUL when the format ends inside the directive. */
  datatype Directive = Directive(flags: bv8, width: Count, precision: Count, qualifier: Option<char>, conv: char)

  datatype Item = Lit(c: char) | Conv(d: Directive)

  // ---------- parsing ----------

  function OrFlag(flags: bv8, flag: bv8): bv8 { flags | flag }

  function ScanFlags(f: string, i: nat, flags: bv8): (r: (bv8, nat))
    requires i <= |f|
    ensures i <= r.1 <= |f|
    decreases |f| - i
  {
    if i < |f| && IsFlag(f[i]) then ScanFlags(f, i + 1, OrFlag(flags, FlagOf(f[i]))) else (flags, i)
  }

  /** skip_atoi from position i with the value acc read so far. */
  function ScanNumber(f: string, i: nat, acc: nat): (r: (nat, nat))
    requires i <= |f|
    ensures i <= r.1 <= |f|
    decreases |f| - i
  {
    if i < |f| && IsDigit(f[i]) then ScanNumber(f, i + 1, acc * 10 + (f[i] as int - '0' as int)) else (acc, i)
  }

  function ScanCount(f: string, i: nat): (r: (Count, nat))
    requires i <= |f|
    ensures i <= r.1 <= |f|
  {
    if i < |f| && IsDigit(f[i]) then var n := ScanNumber(f, i, 0); (Num(n.0), n.1)
    else if i < |f| && f[i] == '*' then (Star, i + 1)
    else (Absent, i)
  }

  /** A dot without a number means precision 0. */
  function ScanPrecision(f: string, i: nat): (r: (Count, nat))
    requires i <= |f|
    ensures i <= r.1 <= |f|
  {
    if i < |f| && f[i] == '.' then
      var c := ScanCount(f, i + 1);
      (if c.0.Absent? then Num(0) else c.0, c.1)
    else (Absent, i)
  }

  function ScanQualifier(f: string, i: nat): (r: (Option<char>, nat))
    requires i <= |f|
    ensures i <= r.1 <= |f|
  {
    if i < |f| && IsQualifier(f[i]) then (Some(f[i]), i + 1) else (None, i)
  }

  /** The directive whose percent sign is before position i, and where scanning resumes. */
  function ScanDirective(f: string, i: nat): (r: (Directive, nat))
    requires i <= |f|
    ensures i <= r.1 <= |f|
  {
    var flags := ScanFlags(f, i, 0);
    var width := ScanCount(f, flags.1);
    var precision := ScanPrecision(f, width.1);
    var qualifier := ScanQualifier(f, precision.1);
    var j := qualifier.1;
    (Directive(flags.0, width.0, precision.0, qualifier.0, Char(f, j)), if j < |f| then j + 1 else j)
  }

  function Parse(f: string, i: nat): seq<Item>
    requires i <= |f|
    decreases |f| - i
  {
    if i == |f| then []
    else if f[i] != '%' then [Lit(f[i])] + Parse(f, i + 1)
    else
      var d := ScanDirective(f, i + 1);
      [Conv(d.0)] + Parse(f, d.1)
  }

  // ---------- arguments ----------

  /** A variadic argument: a 64-bit slot, a string, or the address that %n stores to. */
  datatype Arg = Word(w: nat) | Str(s: string) | Ptr(p: nat)

  datatype Kind = KWord | KStr | KPtr

  predicate ArgOk(a: Arg) {
    match a
    case Word(w) => w < TWO_64
    case Str(s) => CString(s) && |s| < TWO_31
    case Ptr(p) => p < TWO_64
  }

  predicate IsKind(a: Arg, k: Kind) {
    ArgOk(a) && match k
                case KWord => a.Word?
                case KStr => a.Str?
                case KPtr => a.Ptr?
  }

  /** The low 32 bits of a slot as an int. */
  function AsInt(w: nat): int { if w % TWO_32 < TWO_31 then w % TWO_32 else w % TWO_32 - TWO_32 }

  /** A slot as a long. */
  function AsLong(w: nat): int
    requires w < TWO_64
  {
    if w < TWO_63 then w else w - TWO_64
  }

  predicate IsInteger(c: char) {
    c == 'o' || c == 'p' || c == 'x' || c == 'X' || c == 'd' || c == 'i' || c == 'u'
  }

  function CountNeeds(c: Count): seq<Kind> { if c.Star? then [KWord] else [] }

  function ValueNeeds(conv: char): seq<Kind> {
    if conv == 's' then [KStr]
    else if conv == 'n' then [KPtr]
    else if conv == 'c' || IsInteger(conv) then [KWord]
    else []
  }

  /** Arguments a directive takes, in order. */
  function Needs(d: Directive): seq<Kind> {
    CountNeeds(d.width) + CountNeeds(d.precision) + ValueNeeds(d.conv)
  }

  function ItemNeeds(item: Item): seq<Kind> {
    match item
    case Lit(_) => []
    case Conv(d) => Needs(d)
  }

  function AllNeeds(items: seq<Item>): seq<Kind> {
    if items == [] then [] else ItemNeeds(items[0]) + AllNeeds(items[1..])
  }

  /** The arguments begin with values of these kinds. */
  predicate Matches(args: seq<Arg>, kinds: seq<Kind>) {
    |kinds| <= |args| && forall i :: 0 <= i < |kinds| ==> IsKind(args[i], kinds[i])
  }

  // ---------- rendering ----------

  /** Width and flags after a width from the arguments: a negative one means LEFT. */
  function Width(d: Directive, args: seq<Arg>): (int, bv8)
    requires Matches(args, Needs(d))
  {
    match d.width
    case Absent => (-1, d.flags)
    case Num(n) => (n, d.flags)
    case Star =>
      assert IsKind(args[0], Needs(d)[0]);
      var w := AsInt(args[0].w);
      if w < 0 then (-w, OrFlag(d.flags, LEFT)) else (w, d.flags)
  }

  function Precision(d: Directive, args: seq<Arg>): int
    requires Matches(args, Needs(d))
  {
    match d.precision
    case Absent => -1
    case Num(n) => n
    case Star =>
      var k := |CountNeeds(d.width)|;
      assert IsKind(args[k], Needs(d)[k]);
      Max(AsInt(args[k].w), 0)
  }

  /** text in a field: spaces on the left, or on the right with LEFT. */
  function Field(text: string, width: int, flags: bv8): string {
    Repeat(' ', if Has(flags, LEFT) then 0 else width - |text|)
    + text
    + Repeat(' ', if Has(flags, LEFT) then width - |text| else 0)
  }

  function Truncate(s: string, precision: int): (r: string)
    ensures r <= s
  {
    if 0 <= precision < |s| then s[..precision] else s
  }

  /** The bits an integer conversion prints: 64 for %l and %p, 32 zero-extended otherwise. */
  function IntegerValue(conv: char, qualifier: Option<char>, w: nat): (num: int)
    requires w < TWO_64
    ensures IsLong(num)
  {
    if qualifier == Some('l') || conv == 'p' then AsLong(w) else w % TWO_32
  }

  function Base(conv: char): nat {
    if conv == 'o' then 8 else if conv == 'd' || conv == 'i' || conv == 'u' then 10 else 16
  }

  /** Flags as the conversion hands them to number. */
  function IntegerFlags(conv: char, width: int, flags: bv8): bv8 {
    if conv == 'p' then (if width == -1 then OrFlag(flags, ZEROPAD) else flags)
    else if conv == 'x' then OrFlag(flags, SMALL)
    else if conv == 'd' || conv == 'i' then OrFlag(flags, SIGN)
    else flags
  }

  function IntegerText(conv: char, qualifier: Option<char>, width: int, precision: int, flags: bv8, w: nat): string
    requires w < TWO_64
  {
    Layout(IntegerValue(conv, qualifier, w), Base(conv),
           if conv == 'p' && width == -1 then 16 else width, precision,
           IntegerFlags(conv, width, flags))
  }

  /** What the conversion itself prints; args begins with its value if it takes one. */
  function ConversionText(conv: char, qualifier: Option<char>, width: int, precision: int, flags: bv8,
                          args: seq<Arg>): string
    requires Matches(args, ValueNeeds(conv))
  {
    if conv == 'c' then
      assert IsKind(args[0], ValueNeeds(conv)[0]);
      Field([(args[0].w % 256) as char], width, flags)
    else if conv == 's' then
      assert IsKind(args[0], ValueNeeds(conv)[0]);
      Field(Truncate(args[0].s, precision), width, flags)
    else if IsInteger(conv) then
      assert IsKind(args[0], ValueNeeds(conv)[0]);
      IntegerText(conv, qualifier, width, precision, flags, args[0].w)
    else if conv == 'n' then ""
    else if conv == '%' || conv == '\0' then "%"
    else ['%', conv]
  }

  function RenderDirective(d: Directive, args: seq<Arg>): string
    requires Matches(args, Needs(d))
  {
    var (width, flags) := Width(d, args);
    var counts := CountNeeds(d.width) + CountNeeds(d.precision);
    MatchesSplit(args, counts, ValueNeeds(d.conv));
    ConversionText(d.conv, d.qualifier, width, Precision(d, args), flags, args[|counts|..])
  }

  function RenderItem(item: Item, args: seq<Arg>): string
    requires Matches(args, ItemNeeds(item))
  {
    match item
    case Lit(c) => [c]
    case Conv(d) => RenderDirective(d, args)
  }

  function Render(items: seq<Item>, args: seq<Arg>): string
    requires Matches(args, AllNeeds(items))
  {
    if items == [] then ""
    else
      MatchesSplit(args, ItemNeeds(items[0]), AllNeeds(items[1..]));
      RenderItem(items[0], args) + Render(items[1..], args[|ItemNeeds(items[0])|..])
  }

  /** A count that %n stores: as a long with %ln, as an int otherwise. */
  datatype Store = Store(ptr: nat, wide: bool, count: int)

  /** What the conversion stores when at characters have been written before it. */
  function ConversionStores(conv: char, qualifier: Option<char>, args: seq<Arg>, at: nat): seq<Store>
    requires Matches(args, ValueNeeds(conv))
  {
    if conv == 'n' then
      assert IsKind(args[0], ValueNeeds(conv)[0]);
      var wide := qualifier == Some('l');
      [Store(args[0].p, wide, if wide then at else AsInt(at))]
    else []
  }

  function ItemStores(item: Item, args: seq<Arg>, at: nat): seq<Store>
    requires Matches(args, ItemNeeds(item))
  {
    match item
    case Lit(_) => []
    case Conv(d) =>
      var counts := CountNeeds(d.width) + CountNeeds(d.precision);
      MatchesSplit(args, counts, ValueNeeds(d.conv));
      ConversionStores(d.conv, d.qualifier, args[|counts|..], at)
  }

  /** All stores of the items, in order. */
  function Stores(items: seq<Item>, args: seq<Arg>, at: nat): seq<Store>
    requires Matches(args, AllNeeds(items))
    decreases |items|
  {
    if items == [] then []
    else
      MatchesSplit(args, ItemNeeds(items[0]), AllNeeds(items[1..]));
      ItemStores(items[0], args, at)
      + Stores(items[1..], args[|ItemNeeds(items[0])|..], at + |RenderItem(items[0], args)|)
  }

  lemma MatchesSplit(args: seq<Arg>, a: seq<Kind>, b: seq<Kind>)
    requires Matches(args, a + b)
    ensures Matches(args, a) && Matches(args[|a|..], b)
  {
    forall i | 0 <= i < |a|
      ensures IsKind(args[i], a[i])
    {
      assert (a + b)[i] == a[i];
    }
    forall i | 0 <= i < |b|
      ensures IsKind(args[|a|..][i], b[i])
    {
      assert (a + b)[|a| + i] == b[i];
    }
  }

  /** Rendering the first item, with at characters before it. */
  lemma RenderStep(items: seq<Item>, args: seq<Arg>, at: nat)
    requires items != [] && Matches(args, AllNeeds(items))
    ensures Matches(args, ItemNeeds(items[0]))
    ensures Matches(args[|ItemNeeds(items[0])|..], AllNeeds(items[1..]))
    ensures Render(items, args) == RenderItem(items[0], args) + Render(items[1..], args[|ItemNeeds(items[0])|..])
    ensures Stores(items, args, at)
         == ItemStores(items[0], args, at)
            + Stores(items[1..], args[|ItemNeeds(items[0])|..], at + |RenderItem(items[0], args)|)
  {
    MatchesSplit(args, ItemNeeds(items[0]), AllNeeds(items[1..]));
  }

  /** The item at position i of a format, and where the next one starts. */
  function ItemAt(f: string, i: nat): (r: (Item, nat))
    requires i < |f|
    ensures i < r.1 <= |f|
  {
    if f[i] != '%' then (Lit(f[i]), i + 1) else (Conv(ScanDirective(f, i + 1).0), ScanDirective(f, i + 1).1)
  }

  lemma ParseStep(f: string, i: nat)
    requires i < |f|
    ensures Parse(f, i) == [ItemAt(f, i).0] + Parse(f, ItemAt(f, i).1)
    ensures Parse(f, i) != [] && Parse(f, i)[0] == ItemAt(f, i).0 && Parse(f, i)[1..] == Parse(f, ItemAt(f, i).1)
  {}

  /** The format and its arguments go together. */
  predicate Fits(f: string, args: seq<Arg>) {
    Matches(args, AllNeeds(Parse(f, 0)))
  }

  function Formatted(f: string, args: seq<Arg>): string
    requires Fits(f, args)
  {
    Render(Parse(f, 0), args)
  }

  function Stored(f: string, args: seq<Arg>): seq<Store>
    requires Fits(f, args)
  {
    Stores(Parse(f, 0), args, 0)
  }
}
