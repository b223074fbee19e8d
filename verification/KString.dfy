/** The string routines, instruction by instruction, over a flat memory of bytes. */
module KString {
  import opened Prelude

  type byte = x: int | 0 <= x < 256

  // ---------- what the routines should do ----------

  /** n bytes of value val from position p on. */
  function Filled(m: seq<byte>, p: nat, val: byte, n: nat): (r: seq<byte>)
    requires p + n <= |m|
    ensures |r| == |m|
  {
    m[..p] + seq(n, _ => val) + m[p + n..]
  }

  /** The n bytes at src moved to dst. */
  function Copied(m: seq<byte>, dst: nat, src: nat, n: nat): (r: seq<byte>)
    requires dst + n <= |m| && src + n <= |m|
    ensures |r| == |m|
  {
    m[..dst] + m[src..src + n] + m[dst + n..]
  }

  // ---------- memset ----------

  /** The low k bytes of a register, lowest first. */
  function LowBytes(w: nat, k: nat): (s: seq<byte>)
    ensures |s| == k
  {
    if k == 0 then [] else [w % 256] + LowBytes(w / 256, k - 1)
  }

  /** 1 in each of the low k bytes. */
  function Ones(k: nat): nat { if k == 0 then 0 else 256 * Ones(k - 1) + 1 }

  lemma OnesEight()
    ensures Ones(8) == 0x0101_0101_0101_0101
  {
    assert Ones(4) == 0x0101_0101;
  }

  lemma {:induction false} LowBytesOfOnes(val: byte, j: nat, k: nat)
    requires k <= j
    ensures LowBytes(val * Ones(j), k) == seq(k, _ => val)
    decreases k
  {
    if k > 0 {
      var w := val * Ones(j);
      assert w == 256 * (val * Ones(j - 1)) + val;
      assert w % 256 == val && w / 256 == val * Ones(j - 1);
      LowBytesOfOnes(val, j - 1, k - 1);
    }
  }

  /** stosq, stosl, stosw or stosb: store the low width bytes of the register. */
  method Store(mem: array<byte>, at: nat, w: nat, width: nat)
    requires at + width <= mem.Length
    modifies mem
    ensures mem[..] == old(mem[..at]) + LowBytes(w, width) + old(mem[at + width..])
  {
    var rest := w;
    ghost var stored: seq<byte> := [];
    for i := 0 to width
      invariant |stored| == i
      invariant stored + LowBytes(rest, width - i) == LowBytes(w, width)
      invariant mem[..at + i] == old(mem[..at]) + stored
      invariant mem[at + i..] == old(mem[at + i..])
    {
      stored := stored + [rest % 256];
      mem[at + i] := rest % 256;
      rest := rest / 256;
    }
    assert mem[..] == mem[..at + width] + mem[at + width..];
  }

  lemma FilledGrows(m: seq<byte>, p: nat, val: byte, a: nat, b: nat)
    requires p + a + b <= |m|
    ensures var f := Filled(m, p, val, a);
            f[..p + a] + seq(b, _ => val) + f[p + a + b..] == Filled(m, p, val, a + b)
  {}

  lemma Halves(n: nat, h1: nat, h2: nat, h3: nat)
    requires h1 == n / 2 && h2 == n / 4 && h3 == n / 8
    ensures n == 2 * h1 + n % 2
    ensures h1 == 2 * h2 + h1 % 2
    ensures h2 == 2 * h3 + h2 % 2
  {
    QuarterIsHalfOfHalf(n, h1, h2);
    assert h3 == h2 / 2;
  }

  lemma QuarterIsHalfOfHalf(n: nat, h1: nat, h2: nat)
    requires h1 == n / 2 && h2 == n / 4
    ensures h2 == h1 / 2
  {}

  /** The count in quadwords, and bits 4, 2 and 1 of the count. */
  method Split(n: nat) returns (quads: nat, four: nat, two: nat, one: nat)
    ensures quads == n / 8 && four == n / 4 % 2 && two == n / 2 % 2 && one == n % 2
    ensures n == 8 * quads + 4 * four + 2 * two + one && four <= 1 && two <= 1 && one <= 1
  {
    Halves(n, n / 2, n / 4, n / 8);
    quads, four, two, one := n / 8, n / 4 % 2, n / 2 % 2, n % 2;
  }

  /** One store of the pattern register behind done bytes already filled. */
  method StorePattern(mem: array<byte>, p: nat, val: byte, done: nat, width: nat, ghost was: seq<byte>)
    requires width <= 8 && p + done + width <= mem.Length == |was|
    requires mem[..] == Filled(was, p, val, done)
    modifies mem
    ensures mem[..] == Filled(was, p, val, done + width)
  {
    hide Filled, Ones, LowBytes;
    OnesEight();
    LowBytesOfOnes(val, 8, width);
    FilledGrows(was, p, val, done, width);
    Store(mem, p + done, val * 0x0101_0101_0101_0101, width);
  }

  /** memset: n / 8 quadwords, then four, two and one more bytes as the bits of n say.
      Exactly n bytes are written, each with val. */
  method Memset(mem: array<byte>, p: nat, val: byte, n: nat)
    requires p + n <= mem.Length
    modifies mem
    ensures mem[..] == Filled(old(mem[..]), p, val, n)
  {
    hide Filled;
    ghost var was := mem[..];
    FilledNothing(was, p, val);
    var quads, four, two, one := Split(n);
    var rcx, k := quads, 0;
    while rcx > 0
      invariant 0 <= rcx && 0 <= k && k + 8 * rcx == 8 * quads
      invariant mem[..] == Filled(was, p, val, k)
    {
      StorePattern(mem, p, val, k, 8, was);
      rcx, k := rcx - 1, k + 8;
    }
    if four == 1 {
      StorePattern(mem, p, val, k, 4, was);
      k := k + 4;
    }
    if two == 1 {
      StorePattern(mem, p, val, k, 2, was);
      k := k + 2;
    }
    if one == 1 {
      StorePattern(mem, p, val, k, 1, was);
      k := k + 1;
    }
    assert k == n;
  }

  lemma FilledNothing(m: seq<byte>, p: nat, val: byte)
    requires p <= |m|
    ensures Filled(m, p, val, 0) == m
  {}

  // ---------- memcpy and strncpy ----------

  /** movsq, movsl, movsw or movsb: load width bytes, then store them. */
  method Move(mem: array<byte>, dst: nat, src: nat, width: nat)
    requires dst + width <= mem.Length && src + width <= mem.Length
    modifies mem
    ensures mem[..] == Copied(old(mem[..]), dst, src, width)
  {
    var register := mem[src..src + width];
    for i := 0 to width
      invariant mem[..dst + i] == old(mem[..dst]) + register[..i]
      invariant mem[dst + i..] == old(mem[dst + i..])
    {
      mem[dst + i] := register[i];
    }
    assert mem[..] == mem[..dst + width] + mem[dst + width..];
  }

  /** A forward copy may overlap as long as it does not overtake its source. */
  predicate ForwardSafe(dst: nat, src: nat, n: nat) { dst <= src || src + n <= dst }

  lemma CopiedGrows(m: seq<byte>, dst: nat, src: nat, a: nat, b: nat, n: nat)
    requires a + b <= n && dst + n <= |m| && src + n <= |m| && ForwardSafe(dst, src, n)
    ensures Copied(Copied(m, dst, src, a), dst + a, src + a, b) == Copied(m, dst, src, a + b)
  {
    var c := Copied(m, dst, src, a);
    assert c[src + a..src + a + b] == m[src + a..src + a + b];
  }

  lemma CopiedNothing(m: seq<byte>, dst: nat, src: nat)
    requires dst <= |m| && src <= |m|
    ensures Copied(m, dst, src, 0) == m
  {}

  /** One move behind k bytes already copied. */
  method MoveMore(mem: array<byte>, dst: nat, src: nat, k: nat, width: nat, ghost n: nat, ghost was: seq<byte>)
    requires k + width <= n && dst + n <= mem.Length == |was| && src + n <= mem.Length && ForwardSafe(dst, src, n)
    requires mem[..] == Copied(was, dst, src, k)
    modifies mem
    ensures mem[..] == Copied(was, dst, src, k + width)
  {
    hide Copied, ForwardSafe;
    CopiedGrows(was, dst, src, k, width, n);
    Move(mem, dst + k, src + k, width);
  }

  /** memcpy (source first): quadwords, then the tail, as in memset. */
  method Memcpy(mem: array<byte>, src: nat, dst: nat, n: nat)
    requires dst + n <= mem.Length && src + n <= mem.Length && ForwardSafe(dst, src, n)
    modifies mem
    ensures mem[..] == Copied(old(mem[..]), dst, src, n)
  {
    hide Copied, ForwardSafe;
    ghost var was := mem[..];
    CopiedNothing(was, dst, src);
    var quads, four, two, one := Split(n);
    var rcx, k := quads, 0;
    while rcx > 0
      invariant 0 <= rcx && 0 <= k && k + 8 * rcx == 8 * quads
      invariant mem[..] == Copied(was, dst, src, k)
    {
      MoveMore(mem, dst, src, k, 8, n, was);
      rcx, k := rcx - 1, k + 8;
    }
    if four == 1 {
      MoveMore(mem, dst, src, k, 4, n, was);
      k := k + 4;
    }
    if two == 1 {
      MoveMore(mem, dst, src, k, 2, n, was);
      k := k + 2;
    }
    if one == 1 {
      MoveMore(mem, dst, src, k, 1, n, was);
      k := k + 1;
    }
    assert k == n;
  }

  /** strncpy: always n bytes, one at a time; a NUL does not stop it. */
  method Strncpy(mem: array<byte>, dst: nat, src: nat, n: nat)
    requires dst + n <= mem.Length && src + n <= mem.Length && ForwardSafe(dst, src, n)
    modifies mem
    ensures mem[..] == Copied(old(mem[..]), dst, src, n)
  {
    hide Copied, ForwardSafe;
    ghost var was := mem[..];
    CopiedNothing(was, dst, src);
    for k := 0 to n
      invariant mem[..] == Copied(was, dst, src, k)
    {
      CopiedGrows(was, dst, src, k, 1, n);
      CopiedOne(mem[..], dst + k, src + k);
      mem[dst + k] := mem[src + k];
    }
  }

  lemma CopiedOne(m: seq<byte>, dst: nat, src: nat)
    requires dst < |m| && src < |m|
    ensures Copied(m, dst, src, 1) == m[dst := m[src]]
  {}

  // ---------- strlen ----------

  /** The string that starts at p has length len. */
  predicate HasLength(mem: seq<byte>, p: nat, len: nat) {
    p + len < |mem| && mem[p + len] == 0 && forall i :: p <= i < p + len ==> mem[i] != 0
  }

  /** A 32-bit register read as an int. */
  function AsInt32(x: int): int {
    var u := x % TWO_32;
    if u < TWO_31 then u else u - TWO_32
  }

  /** strlen: scan with a down-counting register that starts at 2^32 - 1, complement it,
      decrement it. The result is the length exactly when the length fits an int. */
  method Strlen(mem: seq<byte>, p: nat, ghost len: nat) returns (result: int)
    requires HasLength(mem, p, len)
    ensures result == len <==> len < TWO_31
    ensures len < TWO_32 - 1 ==> result == AsInt32(len)
  {
    var rcx, rdi, found := TWO_32 - 1, p, false;
    while rcx != 0 && !found
      invariant 0 <= rcx && p <= rdi && rcx == TWO_32 - 1 - (rdi - p)
      invariant found ==> rdi == p + len + 1
      invariant !found ==> rdi <= p + len
      decreases rcx, !found
    {
      found := mem[rdi] == 0;
      rcx, rdi := rcx - 1, rdi + 1;
    }
    var complement := TWO_32 - 1 - rcx;
    result := AsInt32(complement - 1);
  }
}
