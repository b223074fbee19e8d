/** The boot page tables: what the assembly stores, and what the processor's 4-level walk
    makes of it. */
module PageTables {
  import opened Prelude

  const KERNEL_BASE := 0xffff_8000_0000_0000
  const GIB := 0x4000_0000

  // ---------- addresses ----------

  /** The kernel base has its upper 17 bits set and no others, so or-ing it in replaces the
      upper 17 bits, and masking it out clears them. */
  lemma KernelBaseBits(a: bv64)
    ensures 0xffff_8000_0000_0000 | a == 0xffff_8000_0000_0000 + (a & 0x7fff_ffff_ffff)
    ensures !(0xffff_8000_0000_0000 as bv64) & a == a & 0x7fff_ffff_ffff
  {}

  function Phy2Vir(a: nat): nat { KERNEL_BASE + a % TWO_47 }

  function Vir2Phy(v: nat): nat { v % TWO_47 }

  /** The two macros invert each other on exactly the addresses below 2^47. */
  lemma Phy2VirInvertsIff(a: nat)
    requires a < TWO_64
    ensures Vir2Phy(Phy2Vir(a)) == a <==> a < TWO_47
  {}

  // ---------- the tables ----------

  /** pml4, pdpt and pd are three consecutive zeroed pages from base on, seen as 32-bit
      words. */
  const WORDS := 3072

  /** or $0x07 */
  function Or7(x: nat): nat { x / 8 * 8 + 7 }

  /** The word index of a byte address. */
  function Index(base: nat, addr: nat): int { (addr - base) / 4 }

  /** What the 512-step loop leaves in word i. */
  function TableWord(base: nat, i: nat, entries: nat): nat {
    if i == 0 || i == 512 then Or7(base + 0x1000)
    else if i == 1024 then Or7(base + 0x2000)
    else if 2048 <= i < 2048 + 2 * entries && i % 2 == 0 then 0x87 + (i - 2048) / 2 * 0x20_0000
    else 0
  }

  method BuildTables(mem: array<nat>, base: nat)
    requires mem.Length == WORDS && base % 0x1000 == 0 && base + 0x3000 <= TWO_32
    requires forall i :: 0 <= i < WORDS ==> mem[i] == 0
    modifies mem
    ensures forall i :: 0 <= i < WORDS ==> mem[i] == TableWord(base, i, 512)
  {
    var pml4, pdpt, pd := base, base + 0x1000, base + 0x2000;
    var eax, ebx := pml4, Or7(pdpt);
    mem[Index(base, eax)] := ebx;
    mem[Index(base, eax + 2048)] := ebx;
    eax, ebx := pdpt, Or7(pd);
    mem[Index(base, eax)] := ebx;
    var ecx := 512;
    eax, ebx := pd, 0x87;
    while ecx > 0
      invariant 0 <= ecx <= 512 && eax == pd + 8 * (512 - ecx)
      invariant ecx > 0 ==> ebx == 0x87 + (512 - ecx) * 0x20_0000
      invariant forall i :: 0 <= i < WORDS ==> mem[i] == TableWord(base, i, 512 - ecx)
    {
      mem[Index(base, eax)] := ebx;
      ebx := (ebx + 0x20_0000) % TWO_32;
      eax := eax + 8;
      ecx := ecx - 1;
    }
  }

  // ---------- the walk ----------

  /** Entry number index of the table at addr; memory outside the three pages is not
      mapped here. */
  function TableEntry(mem: seq<nat>, base: nat, addr: nat, index: nat): nat
    requires |mem| == WORDS
  {
    var w := Index(base, addr) + 2 * index;
    if base <= addr && w + 1 < WORDS then mem[w] + TWO_32 * mem[w + 1] else 0
  }

  predicate Present(e: nat) { e % 2 == 1 }

  predicate Large(e: nat) { e / 0x80 % 2 == 1 }

  /** Bits 51..12 of an entry as an address. */
  function Frame(e: nat): nat { e / 0x1000 % 0x100_0000_0000 * 0x1000 }

  /** Translation of a 48-bit virtual address with the root at base. */
  function Walk(mem: seq<nat>, base: nat, va: nat): Option<nat>
    requires |mem| == WORDS
  {
    var e4 := TableEntry(mem, base, base, va / 0x80_0000_0000 % 512);
    if !Present(e4) then None
    else
      var e3 := TableEntry(mem, base, Frame(e4), va / 0x4000_0000 % 512);
      if !Present(e3) then None
      else if Large(e3) then Some(Frame(e3) / GIB * GIB + va % GIB)
      else
        var e2 := TableEntry(mem, base, Frame(e3), va / 0x20_0000 % 512);
        if !Present(e2) then None
        else if Large(e2) then Some(Frame(e2) / 0x20_0000 * 0x20_0000 + va % 0x20_0000)
        else
          var e1 := TableEntry(mem, base, Frame(e2), va / 0x1000 % 512);
          if Present(e1) then Some(Frame(e1) + va % 0x1000) else None
  }

  ghost predicate Built(mem: seq<nat>, base: nat) {
    |mem| == WORDS && base % 0x1000 == 0 && base + 0x3000 <= TWO_32
    && forall i :: 0 <= i < WORDS ==> mem[i] == TableWord(base, i, 512)
  }

  /** An entry that points to the table in page b. */
  lemma PointerBits(b: nat)
    requires b < 0x10_0000
    ensures var e := Or7(0x1000 * b); Present(e) && !Large(e) && Frame(e) == 0x1000 * b && e % 8 == 7
  {
    var e := 0x1000 * b + 7;
    Quotient(e, 8, 0x200 * b, 7);
    Quotient(0x1000 * b, 8, 0x200 * b, 0);
    Quotient(e, 2, 0x800 * b + 3, 1);
    Quotient(e, 0x80, 32 * b, 7);
    Quotient(32 * b, 2, 16 * b, 0);
    Quotient(e, 0x1000, b, 7);
  }

  lemma RootEntry(mem: seq<nat>, base: nat, i4: nat)
    requires Built(mem, base) && (i4 == 0 || i4 == 256)
    ensures var e := TableEntry(mem, base, base, i4); Present(e) && Frame(e) == base + 0x1000 && e % 8 == 7
  {
    hide Or7, Present, Large, Frame;
    PointerBits(base / 0x1000 + 1);
  }

  lemma PointerEntry(mem: seq<nat>, base: nat)
    requires Built(mem, base)
    ensures var e := TableEntry(mem, base, base + 0x1000, 0);
            Present(e) && !Large(e) && Frame(e) == base + 0x2000 && e % 8 == 7
  {
    hide Or7, Present, Large, Frame;
    PointerBits(base / 0x1000 + 2);
  }

  lemma DirectoryEntry(mem: seq<nat>, base: nat, i2: nat)
    requires Built(mem, base) && i2 < 512
    ensures var e := TableEntry(mem, base, base + 0x2000, i2);
            e == 0x87 + i2 * 0x20_0000 && e % 8 == 7
            && Present(e) && Large(e) && Frame(e) / 0x20_0000 * 0x20_0000 == i2 * 0x20_0000
  {
    hide Present, Large, Frame;
    assert Index(base, base + 0x2000) == 2048;
    assert mem[2048 + 2 * i2] == TableWord(base, 2048 + 2 * i2, 512);
    assert mem[2048 + 2 * i2 + 1] == TableWord(base, 2048 + 2 * i2 + 1, 512);
    LargePage(i2);
  }

  lemma LargePage(i2: nat)
    requires i2 < 512
    ensures var e := 0x87 + i2 * 0x20_0000;
            Present(e) && Large(e) && Frame(e) / 0x20_0000 * 0x20_0000 == i2 * 0x20_0000 && e % 8 == 7
  {
    var e := 0x87 + i2 * 0x20_0000;
    Quotient(e, 8, 16 + i2 * 0x4_0000, 7);
    Quotient(e, 2, 0x43 + i2 * 0x10_0000, 1);
    Quotient(e, 0x80, i2 * 0x4000 + 1, 7);
    Quotient(i2 * 0x4000 + 1, 2, i2 * 0x2000, 1);
    Quotient(e, 0x1000, i2 * 0x200, 0x87);
    Quotient(i2 * 0x20_0000, 0x20_0000, i2, 0);
  }

  /** The boot tables map the first GiB twice: at its own addresses and from the kernel
      base on. */
  lemma DoubleMap(mem: seq<nat>, base: nat, a: nat)
    requires Built(mem, base) && a < GIB
    ensures Walk(mem, base, a) == Some(a) && Walk(mem, base, Phy2Vir(a)) == Some(a)
  {
    hide TableEntry, Present, Large, Frame, Built;
    RootEntry(mem, base, 0);
    RootEntry(mem, base, 256);
    PointerEntry(mem, base);
    DirectoryEntry(mem, base, a / 0x20_0000);
    Indices(a);
  }

  /** The three entries on either way to an address of the first GiB are present, writable and
      open to user mode. */
  lemma PathWritable(mem: seq<nat>, base: nat, a: nat, va: nat)
    requires Built(mem, base) && a < GIB && (va == a || va == Phy2Vir(a))
    ensures var e4 := TableEntry(mem, base, base, va / 0x80_0000_0000 % 512);
            var e3 := TableEntry(mem, base, Frame(e4), va / 0x4000_0000 % 512);
            var e2 := TableEntry(mem, base, Frame(e3), va / 0x20_0000 % 512);
            e4 % 8 == 7 && e3 % 8 == 7 && e2 % 8 == 7
  {
    hide TableEntry, Present, Large, Frame, Built, Phy2Vir;
    RootEntry(mem, base, 0);
    RootEntry(mem, base, 256);
    PointerEntry(mem, base);
    DirectoryEntry(mem, base, a / 0x20_0000);
    Indices(a);
  }

  lemma Indices(a: nat)
    requires a < GIB
    ensures a / 0x80_0000_0000 % 512 == 0 && a / 0x4000_0000 % 512 == 0
    ensures a / 0x20_0000 % 512 == a / 0x20_0000 && a / 0x20_0000 * 0x20_0000 + a % 0x20_0000 == a
    ensures var v := Phy2Vir(a);
            v / 0x80_0000_0000 % 512 == 256 && v / 0x4000_0000 % 512 == 0
            && v / 0x20_0000 % 512 == a / 0x20_0000 && v % 0x20_0000 == a % 0x20_0000
  {
    assert Phy2Vir(a) == KERNEL_BASE + a;
    HighRoot(a);
    HighDirectory(a);
  }

  lemma HighRoot(a: nat)
    requires a < GIB
    ensures (KERNEL_BASE + a) / 0x80_0000_0000 % 512 == 256 && (KERNEL_BASE + a) / 0x4000_0000 % 512 == 0
  {
    assert (KERNEL_BASE + a) / 0x4000_0000 == 0x3_fffe_0000;
    assert (KERNEL_BASE + a) / 0x80_0000_0000 == 0x1ff_ff00;
  }

  lemma HighDirectory(a: nat)
    requires a < GIB
    ensures (KERNEL_BASE + a) / 0x20_0000 % 512 == a / 0x20_0000 && (KERNEL_BASE + a) % 0x20_0000 == a % 0x20_0000
  {
    assert (KERNEL_BASE + a) / 0x20_0000 == 0x7ff_fc00_0000 + a / 0x20_0000;
  }

  /** And nothing else: any other address of the lower half, up to 2^47, faults. */
  lemma NothingElse(mem: seq<nat>, base: nat, va: nat)
    requires Built(mem, base) && GIB <= va < TWO_47
    ensures Walk(mem, base, va) == None
  {
    hide Present, Large, Frame, Built, TableEntry;
    LowIndices(va);
    var i4, i3 := va / 0x80_0000_0000 % 512, va / 0x4000_0000 % 512;
    NotPresent();
    if i4 == 0 {
      RootEntry(mem, base, 0);
      EmptyEntry(mem, base, base + 0x1000, i3);
    } else {
      EmptyEntry(mem, base, base, i4);
    }
  }

  lemma NotPresent()
    ensures !Present(0)
  {}

  lemma LowIndices(va: nat)
    requires GIB <= va < TWO_47
    ensures va / 0x80_0000_0000 % 512 < 256
    ensures va / 0x80_0000_0000 % 512 == 0 ==> va / 0x4000_0000 % 512 != 0
  {
    var i4 := va / 0x80_0000_0000;
    assert i4 < 256;
    if i4 == 0 {
      assert 1 <= va / 0x4000_0000 < 512;
    }
  }

  lemma EmptyEntry(mem: seq<nat>, base: nat, addr: nat, index: nat)
    requires Built(mem, base) && 0 < index < 512
    requires addr == base + 0x1000 || (addr == base && index != 256)
    ensures TableEntry(mem, base, addr, index) == 0
  {
    var w := (if addr == base then 0 else 1024) + 2 * index;
    assert Index(base, addr) + 2 * index == w;
    assert mem[w] == TableWord(base, w, 512) && mem[w + 1] == TableWord(base, w + 1, 512);
  }
}
