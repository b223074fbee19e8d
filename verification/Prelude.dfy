/** What every module shares: machine widths, an optional value, and facts about sequences and
    division that the solver does not find by itself. */
module Prelude {

  const TWO_31 := 0x8000_0000
  const TWO_32 := 0x1_0000_0000
  const TWO_47 := 0x8000_0000_0000
  const TWO_50 := 0x4_0000_0000_0000
  const TWO_63 := 0x8000_0000_0000_0000
  const TWO_64 := 0x1_0000_0000_0000_0000

  datatype Option<+T> = None | Some(value: T)

  lemma Associate<T>(a: seq<T>, b: seq<T>, c: seq<T>)
    ensures (a + b) + c == a + (b + c)
  {}

  lemma Between(d: nat, a: nat, b: nat)
    ensures a < b ==> d * a + d <= d * b
  {
    if a < b {
      assert d * (a + 1) <= d * b;
    }
  }

  /** Quotient and remainder are determined. */
  lemma Quotient(x: nat, d: nat, q: nat, r: nat)
    requires r < d && x == d * q + r
    ensures x / d == q && x % d == r
  {
    var e := x / d;
    assert x == d * e + x % d;
    Between(d, e, q);
    Between(d, q, e);
  }
}
