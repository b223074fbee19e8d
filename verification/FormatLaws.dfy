/** Laws of formatting: formats compose, and doubled percent signs print themselves. */
module FormatLaws {
  import opened Prelude
  import opened Format

  // ---------- scanning behind a prefix ----------

  lemma {:induction false} FlagsShift(f: string, g: string, k: nat, flags: bv8)
    requires k <= |g|
    ensures ScanFlags(f + g, |f| + k, flags) == (ScanFlags(g, k, flags).0, |f| + ScanFlags(g, k, flags).1)
    decreases |g| - k
  {
    hide OrFlag, FlagOf;
    if k < |g| && IsFlag(g[k]) {
      assert (f + g)[|f| + k] == g[k];
      FlagsShift(f, g, k + 1, OrFlag(flags, FlagOf(g[k])));
    }
  }

  lemma {:induction false} NumberShift(f: string, g: string, k: nat, acc: nat)
    requires k <= |g|
    ensures ScanNumber(f + g, |f| + k, acc) == (ScanNumber(g, k, acc).0, |f| + ScanNumber(g, k, acc).1)
    decreases |g| - k
  {
    if k < |g| && IsDigit(g[k]) {
      assert (f + g)[|f| + k] == g[k];
      NumberShift(f, g, k + 1, acc * 10 + (g[k] as int - '0' as int));
    }
  }

  lemma CountShift(f: string, g: string, k: nat)
    requires k <= |g|
    ensures ScanCount(f + g, |f| + k) == (ScanCount(g, k).0, |f| + ScanCount(g, k).1)
  {
    NumberShift(f, g, k, 0);
  }

  lemma PrecisionShift(f: string, g: string, k: nat)
    requires k <= |g|
    ensures ScanPrecision(f + g, |f| + k) == (ScanPrecision(g, k).0, |f| + ScanPrecision(g, k).1)
  {
    hide ScanCount;
    if k < |g| {
      CountShift(f, g, k + 1);
    }
  }

  lemma DirectiveShift(f: string, g: string, k: nat)
    requires k <= |g|
    ensures ScanDirective(f + g, |f| + k) == (ScanDirective(g, k).0, |f| + ScanDirective(g, k).1)
  {
    hide ScanFlags, ScanCount, ScanPrecision;
    FlagsShift(f, g, k, 0);
    var i := ScanFlags(g, k, 0).1;
    CountShift(f, g, i);
    PrecisionShift(f, g, ScanCount(g, i).1);
  }

  lemma ItemShift(f: string, g: string, k: nat)
    requires k < |g|
    ensures ItemAt(f + g, |f| + k) == (ItemAt(g, k).0, |f| + ItemAt(g, k).1)
  {
    hide ScanDirective;
    DirectiveShift(f, g, k + 1);
  }

  /** What is in front of position |f| does not matter to parsing from there. */
  lemma {:induction false} ParseShift(f: string, g: string, k: nat)
    requires k <= |g|
    ensures Parse(f + g, |f| + k) == Parse(g, k)
    decreases |g| - k
  {
    hide Parse, ItemAt;
    if k < |g| {
      ParseStep(g, k);
      ParseStep(f + g, |f| + k);
      ItemShift(f, g, k);
      ParseShift(f, g, ItemAt(g, k).1);
    } else {
      ParseAtEnd(g);
      ParseAtEnd(f + g);
    }
  }

  lemma ParseAtEnd(f: string)
    ensures Parse(f, |f|) == []
  {}

  // ---------- scanning before a suffix ----------

  lemma {:induction false} FlagsLocal(f: string, g: string, i: nat, flags: bv8)
    requires i <= |f| && ScanFlags(f, i, flags).1 < |f|
    ensures ScanFlags(f + g, i, flags) == ScanFlags(f, i, flags)
    decreases |f| - i
  {
    hide OrFlag, FlagOf;
    if i < |f| && IsFlag(f[i]) {
      FlagsLocal(f, g, i + 1, OrFlag(flags, FlagOf(f[i])));
    }
  }

  lemma {:induction false} NumberLocal(f: string, g: string, i: nat, acc: nat)
    requires i <= |f| && ScanNumber(f, i, acc).1 < |f|
    ensures ScanNumber(f + g, i, acc) == ScanNumber(f, i, acc)
    decreases |f| - i
  {
    if i < |f| && IsDigit(f[i]) {
      NumberLocal(f, g, i + 1, acc * 10 + (f[i] as int - '0' as int));
    }
  }

  lemma CountLocal(f: string, g: string, i: nat)
    requires i <= |f| && ScanCount(f, i).1 < |f|
    ensures ScanCount(f + g, i) == ScanCount(f, i)
  {
    if i < |f| && IsDigit(f[i]) {
      NumberLocal(f, g, i, 0);
    }
  }

  lemma PrecisionLocal(f: string, g: string, i: nat)
    requires i <= |f| && ScanPrecision(f, i).1 < |f|
    ensures ScanPrecision(f + g, i) == ScanPrecision(f, i)
  {
    hide ScanCount;
    if i < |f| && f[i] == '.' {
      CountLocal(f, g, i + 1);
    }
  }

  /** A directive that ends inside f is scanned the same whatever follows f. */
  lemma DirectiveLocal(f: string, g: string, i: nat)
    requires i <= |f| && CString(f) && ScanDirective(f, i).0.conv != '\0'
    ensures ScanDirective(f + g, i) == ScanDirective(f, i)
  {
    hide ScanFlags, ScanCount, ScanPrecision, CString;
    FlagsLocal(f, g, i, 0);
    var w := ScanFlags(f, i, 0).1;
    CountLocal(f, g, w);
    PrecisionLocal(f, g, ScanCount(f, w).1);
  }

  // ---------- composition ----------

  /** No directive is cut off by the end of the format. */
  predicate Complete(items: seq<Item>) {
    forall k :: 0 <= k < |items| && items[k].Conv? ==> items[k].d.conv != '\0'
  }

  lemma {:induction false} ParseLocal(f: string, g: string, i: nat)
    requires i <= |f| && CString(f) && Complete(Parse(f, i))
    ensures Parse(f + g, i) == Parse(f, i) + Parse(g, 0)
    decreases |f| - i
  {
    hide ScanDirective, CString;
    if i == |f| {
      ParseShift(f, g, 0);
    } else {
      ParseStep(f, i);
      ParseStep(f + g, i);
      if f[i] == '%' {
        DirectiveLocal(f, g, i + 1);
      }
      var items := Parse(f, i);
      assert forall k :: 0 <= k < |items| - 1 ==> items[1..][k] == items[k + 1];
      ParseLocal(f, g, ItemAt(f, i).1);
    }
  }

  lemma CompleteCons(item: Item, rest: seq<Item>)
    ensures Complete([item] + rest) <==> (item.Conv? ==> item.d.conv != '\0') && Complete(rest)
  {
    if Complete([item] + rest) {
      forall k | 0 <= k < |rest| && rest[k].Conv?
        ensures rest[k].d.conv != '\0'
      {
        assert ([item] + rest)[k + 1] == rest[k];
      }
      assert ([item] + rest)[0] == item;
    }
  }

  // ---------- cut-off directives ----------

  lemma {:induction false} FlagsEnd(f: string, i: nat, flags: bv8)
    requires i <= |f|
    ensures ScanFlags(f + "%", i, flags) == ScanFlags(f, i, flags)
    decreases |f| - i
  {
    hide OrFlag, FlagOf;
    if i < |f| && IsFlag(f[i]) {
      FlagsEnd(f, i + 1, OrFlag(flags, FlagOf(f[i])));
    }
  }

  lemma {:induction false} NumberEnd(f: string, i: nat, acc: nat)
    requires i <= |f|
    ensures ScanNumber(f + "%", i, acc) == ScanNumber(f, i, acc)
    decreases |f| - i
  {
    if i < |f| && IsDigit(f[i]) {
      NumberEnd(f, i + 1, acc * 10 + (f[i] as int - '0' as int));
    }
  }

  lemma CountEnd(f: string, i: nat)
    requires i <= |f|
    ensures ScanCount(f + "%", i) == ScanCount(f, i)
  {
    NumberEnd(f, i, 0);
  }

  /** A percent sign behind a cut-off directive becomes its conversion. */
  lemma DirectiveEnd(f: string, i: nat)
    requires i <= |f| && CString(f) && ScanDirective(f, i).0.conv == '\0'
    ensures ScanDirective(f, i).1 == |f|
    ensures ScanDirective(f + "%", i) == (ScanDirective(f, i).0.(conv := '%'), |f| + 1)
  {
    hide ScanFlags, ScanCount, CString;
    NotNul(f);
    FlagsEnd(f, i, 0);
    var w := ScanFlags(f, i, 0).1;
    CountEnd(f, w);
    var p := ScanCount(f, w).1;
    if p < |f| {
      CountEnd(f, p + 1);
    }
  }

  lemma NotNul(f: string)
    requires CString(f)
    ensures forall i :: 0 <= i < |f| ==> f[i] != '\0'
  {}

  /** The directive with a percent sign for its conversion. */
  function Completed(d: Directive): Directive { d.(conv := '%') }

  /** items end in a cut-off directive, here d behind init. */
  predicate CutOff(items: seq<Item>, init: seq<Item>, d: Directive) {
    items == init + [Conv(d)] && d.conv == '\0'
  }

  /** A cut-off directive is the last item. The percent sign of what follows completes it. */
  lemma {:induction false} ParseCutOff(f: string, i: nat) returns (init: seq<Item>, d: Directive)
    requires i <= |f| && CString(f) && !Complete(Parse(f, i))
    ensures CutOff(Parse(f, i), init, d) && Parse(f + "%", i) == init + [Conv(Completed(d))]
    decreases |f| - i
  {
    hide ScanDirective, CString, Parse;
    ParseNonEmpty(f, i);
    ParseStep(f, i);
    ParseStep(f + "%", i);
    var item, next := ItemAt(f, i).0, ItemAt(f, i).1;
    if item.Conv? && item.d.conv == '\0' {
      DirectiveEnd(f, i + 1);
      ParseAtEnd(f);
      ParseAtEnd(f + "%");
      init, d := [], item.d;
    } else {
      if item.Conv? {
        DirectiveLocal(f, "%", i + 1);
      }
      CompleteCons(item, Parse(f, next));
      init, d := ParseCutOff(f, next);
      assert [item] + (init + [Conv(d)]) == ([item] + init) + [Conv(d)];
      assert [item] + (init + [Conv(Completed(d))]) == ([item] + init) + [Conv(Completed(d))];
      init := [item] + init;
    }
  }

  lemma ParseNonEmpty(f: string, i: nat)
    requires i <= |f| && !Complete(Parse(f, i))
    ensures i < |f|
  {
    ParseAtEnd(f);
  }

  /** Parsing distributes over concatenation for every continuation exactly when no
      directive of the first format is cut off. */
  lemma ParseComposesIff(f: string)
    requires CString(f)
    ensures Complete(Parse(f, 0)) <==> forall g: string :: Parse(f + g, 0) == Parse(f, 0) + Parse(g, 0)
  {
    if Complete(Parse(f, 0)) {
      forall g: string
        ensures Parse(f + g, 0) == Parse(f, 0) + Parse(g, 0)
      {
        ParseLocal(f, g, 0);
      }
    } else {
      var init, d := ParseCutOff(f, 0);
      PercentAlone();
    }
  }

  /** Rendering a single item. */
  lemma ItemAlone(item: Item, args: seq<Arg>, at: nat)
    requires Matches(args, ItemNeeds(item)) && |args| == |ItemNeeds(item)|
    ensures AllNeeds([item]) == ItemNeeds(item) && Matches(args, AllNeeds([item]))
    ensures Render([item], args) == RenderItem(item, args)
    ensures Stores([item], args, at) == ItemStores(item, args, at)
  {
    hide RenderItem, ItemStores, ItemNeeds, Matches;
    assert [item][1..] == [] && args[|args|..] == [];
    assert ItemNeeds(item) + [] == ItemNeeds(item);
    assert AllNeeds([item]) == ItemNeeds(item);
    RenderStep([item], args, at);
    assert RenderItem(item, args) + "" == RenderItem(item, args);
  }

  lemma PercentAlone()
    ensures CString("%") && Parse("%", 0) == [Conv(Directive(0, Absent, Absent, None, '\0'))]
    ensures Fits("%", []) && Formatted("%", []) == "%" && Stored("%", []) == []
  {
    hide Render, Stores, AllNeeds, Parse, ScanDirective;
    CutOffScanned("%");
    ParseStep("%", 0);
    ParseAtEnd("%");
    assert Parse("%", 0) == [ItemAt("%", 0).0];
    ItemAlone(ItemAt("%", 0).0, [], 0);
  }

  lemma CutOffScanned(f: string)
    requires f == "%"
    ensures ScanDirective(f, 1) == (Directive(0, Absent, Absent, None, '\0'), 1)
  {}

  lemma {:induction false} NeedsConcat(x: seq<Item>, y: seq<Item>)
    ensures AllNeeds(x + y) == AllNeeds(x) + AllNeeds(y)
    decreases |x|
  {
    hide ItemNeeds;
    if x == [] {
      assert x + y == y;
    } else {
      assert (x + y)[0] == x[0] && (x + y)[1..] == x[1..] + y;
      NeedsConcat(x[1..], y);
    }
  }

  lemma MatchesJoin(a: seq<Arg>, b: seq<Arg>, x: seq<Kind>, y: seq<Kind>)
    requires |a| == |x| && Matches(a, x) && Matches(b, y)
    ensures Matches(a + b, x + y)
  {
    hide IsKind;
  }

  /** Rendering distributes over concatenation of items and their arguments; the counts that
      the second part stores include what the first part printed. */
  lemma {:induction false} RenderConcat(x: seq<Item>, y: seq<Item>, a: seq<Arg>, b: seq<Arg>, at: nat)
    requires Matches(a, AllNeeds(x)) && |a| == |AllNeeds(x)| && Matches(b, AllNeeds(y))
    ensures Matches(a + b, AllNeeds(x + y))
    ensures Render(x + y, a + b) == Render(x, a) + Render(y, b)
    ensures Stores(x + y, a + b, at) == Stores(x, a, at) + Stores(y, b, at + |Render(x, a)|)
    decreases |x|
  {
    hide RenderItem, ItemStores, ItemNeeds, Matches, Render, Stores, AllNeeds;
    NeedsConcat(x, y);
    MatchesJoin(a, b, AllNeeds(x), AllNeeds(y));
    if x == [] {
      RenderNothing(a, at);
      assert x + y == y && a + b == b;
    } else {
      assert (x + y)[0] == x[0] && (x + y)[1..] == x[1..] + y;
      var k := |ItemNeeds(x[0])|;
      RenderStep(x, a, at);
      RenderStep(x + y, a + b, at);
      NeedsStep(x);
      assert (a + b)[k..] == a[k..] + b;
      var after := at + |RenderItem(x[0], a)|;
      RenderConcat(x[1..], y, a[k..], b, after);
      RenderItemLocal(x[0], a, b, at);
      Associate(RenderItem(x[0], a), Render(x[1..], a[k..]), Render(y, b));
      Associate(ItemStores(x[0], a, at), Stores(x[1..], a[k..], after), Stores(y, b, at + |Render(x, a)|));
    }
  }

  lemma RenderNothing(a: seq<Arg>, at: nat)
    ensures AllNeeds([]) == [] && Matches(a, []) && Render([], a) == "" && Stores([], a, at) == []
  {}

  lemma NeedsStep(x: seq<Item>)
    requires x != []
    ensures |AllNeeds(x)| == |ItemNeeds(x[0])| + |AllNeeds(x[1..])|
  {}

  /** An item prints the same whatever arguments follow its own. */
  lemma RenderItemLocal(item: Item, a: seq<Arg>, b: seq<Arg>, at: nat)
    requires Matches(a, ItemNeeds(item))
    ensures Matches(a + b, ItemNeeds(item)) && RenderItem(item, a + b) == RenderItem(item, a)
    ensures ItemStores(item, a + b, at) == ItemStores(item, a, at)
  {
    hide ConversionText, ConversionStores, Width, Precision, CountNeeds, ValueNeeds, IsKind;
    match item
    case Lit(_) =>
    case Conv(d) =>
      var counts := CountNeeds(d.width) + CountNeeds(d.precision);
      MatchesMore(a, b, Needs(d));
      MatchesSplit(a, counts, ValueNeeds(d.conv));
      CountsLocal(d, a, b);
      assert (a + b)[|counts|..] == a[|counts|..] + b;
      ConversionLocal(d.conv, d.qualifier, Width(d, a).0, Precision(d, a), Width(d, a).1, a[|counts|..], b, at);
  }

  lemma MatchesMore(a: seq<Arg>, b: seq<Arg>, kinds: seq<Kind>)
    requires Matches(a, kinds)
    ensures Matches(a + b, kinds)
  {
    hide IsKind;
  }

  lemma CountsLocal(d: Directive, a: seq<Arg>, b: seq<Arg>)
    requires Matches(a, Needs(d)) && Matches(a + b, Needs(d))
    ensures Width(d, a + b) == Width(d, a) && Precision(d, a + b) == Precision(d, a)
  {
    hide ValueNeeds, IsKind, AsInt, OrFlag;
    assert forall i :: 0 <= i < |a| ==> (a + b)[i] == a[i];
  }

  lemma ConversionLocal(conv: char, qualifier: Option<char>, width: int, precision: int, flags: bv8,
                        a: seq<Arg>, b: seq<Arg>, at: nat)
    requires Matches(a, ValueNeeds(conv))
    ensures Matches(a + b, ValueNeeds(conv))
    ensures ConversionText(conv, qualifier, width, precision, flags, a + b)
         == ConversionText(conv, qualifier, width, precision, flags, a)
    ensures ConversionStores(conv, qualifier, a + b, at) == ConversionStores(conv, qualifier, a, at)
  {
    hide Field, IntegerText, Truncate, IsKind, AsInt;
    MatchesMore(a, b, ValueNeeds(conv));
    assert forall i :: 0 <= i < |a| ==> (a + b)[i] == a[i];
  }

  /** vsprintf is compositional: formatting f + g with the arguments of f followed by
      those of g prints what the two print one after the other, and stores the counts of f
      and then those of g with what f printed added. */
  lemma FormattedConcat(f: string, g: string, a: seq<Arg>, b: seq<Arg>)
    requires CString(f) && Complete(Parse(f, 0))
    requires Fits(f, a) && |a| == |AllNeeds(Parse(f, 0))| && Fits(g, b)
    ensures Fits(f + g, a + b) && Formatted(f + g, a + b) == Formatted(f, a) + Formatted(g, b)
    ensures Stored(f + g, a + b) == Stored(f, a) + Stores(Parse(g, 0), b, |Formatted(f, a)|)
  {
    hide Render, Stores, AllNeeds, Parse, Matches;
    ParseLocal(f, g, 0);
    RenderConcat(Parse(f, 0), Parse(g, 0), a, b, 0);
  }

  /** A cut-off directive and its completed form print the same percent sign. */
  lemma CompletedRenders(init: seq<Item>, d: Directive, a: seq<Arg>)
    requires d.conv == '\0' && Matches(a, AllNeeds(init + [Conv(d)]))
    ensures Matches(a, AllNeeds(init + [Conv(Completed(d))]))
    ensures Render(init + [Conv(Completed(d))], a) == Render(init + [Conv(d)], a)
  {
    hide Render, Stores, AllNeeds, ItemNeeds, Matches, RenderItem;
    NeedsConcat(init, [Conv(d)]);
    NeedsConcat(init, [Conv(Completed(d))]);
    MatchesSplit(a, AllNeeds(init), AllNeeds([Conv(d)]));
    MatchesLength(a, AllNeeds(init));
    var k := |AllNeeds(init)|;
    assert a == a[..k] + a[k..];
    MatchesTake(a, AllNeeds(init));
    LastRenders(d, a[k..]);
    RenderConcat(init, [Conv(d)], a[..k], a[k..], 0);
    RenderConcat(init, [Conv(Completed(d))], a[..k], a[k..], 0);
  }

  lemma MatchesLength(a: seq<Arg>, kinds: seq<Kind>)
    requires Matches(a, kinds)
    ensures |kinds| <= |a|
  {}

  lemma MatchesTake(a: seq<Arg>, kinds: seq<Kind>)
    requires Matches(a, kinds)
    ensures |kinds| <= |a| && Matches(a[..|kinds|], kinds)
  {}

  lemma LastRenders(d: Directive, a: seq<Arg>)
    requires d.conv == '\0' && Matches(a, AllNeeds([Conv(d)]))
    ensures AllNeeds([Conv(Completed(d))]) == AllNeeds([Conv(d)])
    ensures Render([Conv(Completed(d))], a) == Render([Conv(d)], a)
  {
    hide Matches;
    assert [Conv(d)][1..] == [] && [Conv(Completed(d))][1..] == [];
    assert Needs(Completed(d)) == Needs(d);
    RenderStep([Conv(d)], a, 0);
    RenderStep([Conv(Completed(d))], a, 0);
  }

  /** If f is cut off, a percent sign behind it adds nothing to what is printed. */
  lemma CutOffSwallows(f: string, a: seq<Arg>)
    requires CString(f) && !Complete(Parse(f, 0)) && Fits(f, a)
    ensures Fits(f + "%", a) && Formatted(f + "%", a) == Formatted(f, a)
  {
    hide Render, AllNeeds, Parse, Matches;
    var init, d := ParseCutOff(f, 0);
    CompletedRenders(init, d, a);
  }

  /** The text composes for every continuation exactly when no directive of f is cut off. */
  lemma FormattedComposesIff(f: string, a: seq<Arg>)
    requires CString(f) && Fits(f, a) && |a| == |AllNeeds(Parse(f, 0))|
    ensures Complete(Parse(f, 0)) <==>
      forall g: string, b: seq<Arg> :: Fits(g, b) ==>
        Fits(f + g, a + b) && Formatted(f + g, a + b) == Formatted(f, a) + Formatted(g, b)
  {
    hide Fits, Formatted, Complete, Parse, AllNeeds;
    if Complete(Parse(f, 0)) {
      forall g: string, b: seq<Arg> | Fits(g, b)
        ensures Fits(f + g, a + b) && Formatted(f + g, a + b) == Formatted(f, a) + Formatted(g, b)
      {
        FormattedConcat(f, g, a, b);
      }
    } else {
      CutOffSwallows(f, a);
      PercentAlone();
      var none: seq<Arg> := [];
      assert a + none == a;
      assert Fits("%", none) && Formatted(f + "%", a + none) != Formatted(f, a) + Formatted("%", none);
    }
  }

  /** %n behind a format prints nothing and stores how many characters the format printed, as an
      int, and with the qualifier l as a long. */
  lemma CountStored(f: string, a: seq<Arg>, p: nat, wide: bool)
    requires CString(f) && Complete(Parse(f, 0))
    requires Fits(f, a) && |a| == |AllNeeds(Parse(f, 0))| && p < TWO_64
    ensures var g := f + if wide then "%ln" else "%n";
            Fits(g, a + [Ptr(p)]) && Formatted(g, a + [Ptr(p)]) == Formatted(f, a)
            && Stored(g, a + [Ptr(p)])
               == Stored(f, a) + [Store(p, wide, if wide then |Formatted(f, a)| else AsInt(|Formatted(f, a)|))]
  {
    hide Fits, Formatted, Complete, Stored, AllNeeds, Parse, Stores, AsInt;
    var n := if wide then "%ln" else "%n";
    CountAlone(n, p, |Formatted(f, a)|, wide);
    FormattedConcat(f, n, a, [Ptr(p)]);
    assert Formatted(f, a) + "" == Formatted(f, a);
  }

  lemma CountAlone(n: string, p: nat, at: nat, wide: bool)
    requires p < TWO_64 && n == if wide then "%ln" else "%n"
    ensures Fits(n, [Ptr(p)]) && Formatted(n, [Ptr(p)]) == ""
    ensures Stores(Parse(n, 0), [Ptr(p)], at) == [Store(p, wide, if wide then at else AsInt(at))]
  {
    hide Render, Stores, AllNeeds, Parse, ScanDirective, AsInt;
    CountScanned(n, wide);
    ParseStep(n, 0);
    ParseAtEnd(n);
    var item := ItemAt(n, 0).0;
    assert Parse(n, 0) == [item];
    assert ItemNeeds(item) == [KPtr];
    assert IsKind([Ptr(p)][0], KPtr);
    ItemAlone(item, [Ptr(p)], at);
    ItemAlone(item, [Ptr(p)], 0);
    assert [Ptr(p)][0..] == [Ptr(p)];
  }

  lemma CountScanned(n: string, wide: bool)
    requires n == if wide then "%ln" else "%n"
    ensures ScanDirective(n, 1) == (Directive(0, Absent, Absent, if wide then Some('l') else None, 'n'), |n|)
  {
    assert wide ==> n[1] == 'l' && n[2] == 'n';
    assert !wide ==> n[1] == 'n';
  }

  // ---------- doubled percent signs ----------

  function Doubled(s: string): string {
    if s == "" then "" else (if s[0] == '%' then "%%" else [s[0]]) + Doubled(s[1..])
  }

  lemma PercentScanned(f: string)
    requires f == "%%"
    ensures ScanDirective(f, 1) == (Directive(0, Absent, Absent, None, '%'), 2)
  {
    assert f[1] == '%' && !IsFlag('%') && !IsDigit('%') && !IsQualifier('%');
  }

  lemma PercentPieces(c: char)
    requires c != '\0'
    ensures var piece := if c == '%' then "%%" else [c];
            CString(piece) && Complete(Parse(piece, 0)) && AllNeeds(Parse(piece, 0)) == []
            && Fits(piece, []) && Formatted(piece, []) == [c]
  {
    hide Render, Stores, AllNeeds, Parse, ScanDirective;
    var piece := if c == '%' then "%%" else [c];
    if c == '%' { PercentScanned(piece); }
    ParseStep(piece, 0);
    ParseAtEnd(piece);
    assert Parse(piece, 0) == [ItemAt(piece, 0).0];
    assert ItemNeeds(ItemAt(piece, 0).0) == [];
    ItemAlone(ItemAt(piece, 0).0, [], 0);
  }

  /** Doubling every percent sign of a string and formatting it gives the string back. */
  lemma {:induction false} DoubledPrints(s: string)
    requires CString(s)
    ensures Fits(Doubled(s), []) && Formatted(Doubled(s), []) == s
    decreases |s|
  {
    hide Parse, Render, AllNeeds, Fits, Formatted, Complete, Stored, Stores, CString;
    if s == "" {
      EmptyFormat();
    } else {
      var piece := if s[0] == '%' then "%%" else [s[0]];
      NoNul(s);
      DoubledPrints(s[1..]);
      PercentPieces(s[0]);
      var none: seq<Arg> := [];
      FormattedConcat(piece, Doubled(s[1..]), none, none);
      assert none + none == none;
      assert s == [s[0]] + s[1..];
    }
  }

  lemma NoNul(s: string)
    requires CString(s) && s != ""
    ensures s[0] != '\0' && CString(s[1..])
  {}

  lemma EmptyFormat()
    ensures Fits("", []) && Formatted("", []) == ""
  {}
}
