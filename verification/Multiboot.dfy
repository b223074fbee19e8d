/** The walk over the boot information: for every well-formed tag list it finds exactly the
    entries that the boot loader serialised. */
module Multiboot {
  import opened Prelude
  import opened KString
  import opened Construction

  const TAG_END := 0
  const TAG_MMAP := 6
  const MAX_ENTRIES := 32

  // ---------- little-endian numbers ----------

  function Value(s: seq<byte>): nat {
    if s == [] then 0 else (s[0] as nat) + 256 * Value(s[1..])
  }

  function Bound(k: nat): nat { if k == 0 then 1 else 256 * Bound(k - 1) }

  lemma {:induction false} ValueOfLowBytes(w: nat, k: nat)
    requires w < Bound(k)
    ensures Value(LowBytes(w, k)) == w
    decreases k
  {
    if k > 0 {
      ValueOfLowBytes(w / 256, k - 1);
      assert LowBytes(w, k)[1..] == LowBytes(w / 256, k - 1);
    }
  }

  predicate Is32(w: nat) { w < TWO_32 }

  predicate Is64(w: nat) { w < TWO_64 }

  lemma Bounds()
    ensures Bound(4) == TWO_32 && Bound(8) == TWO_64
  {
    assert Bound(2) == 65536;
    assert Bound(6) == 281474976710656;
  }

  lemma Reads(w: nat, k: nat)
    requires (k == 4 && Is32(w)) || (k == 8 && Is64(w))
    ensures Value(LowBytes(w, k)) == w
  {
    Bounds();
    ValueOfLowBytes(w, k);
  }

  // ---------- what the boot loader writes ----------

  /** One memory map entry with the bytes by which it exceeds the 24 the kernel knows. */
  datatype Entry = Entry(e: E820, reserved: nat, extra: seq<byte>)

  datatype Tag =
    | Mmap(entrySize: nat, version: nat, entries: seq<Entry>)
    | Other(kind: nat, payload: seq<byte>)

  function EntryBytes(n: Entry): seq<byte> {
    LowBytes(n.e.addr, 8) + LowBytes(n.e.len, 8) + LowBytes(n.e.kind, 4) + LowBytes(n.reserved, 4) + n.extra
  }

  function EntriesBytes(entries: seq<Entry>): seq<byte> {
    if entries == [] then [] else EntryBytes(entries[0]) + EntriesBytes(entries[1..])
  }

  function Body(t: Tag): seq<byte> {
    match t
    case Mmap(entrySize, version, entries) =>
      LowBytes(entrySize, 4) + LowBytes(version, 4) + EntriesBytes(entries)
    case Other(_, payload) => payload
  }

  function Kind(t: Tag): nat { if t.Mmap? then TAG_MMAP else t.kind }

  /** The size field counts header and body but not the padding. */
  function Size(t: Tag): nat { 8 + |Body(t)| }

  function Padding(t: Tag): seq<byte> { seq((8 - Size(t) % 8) % 8, _ => 0) }

  function TagBytes(t: Tag): seq<byte> {
    LowBytes(Kind(t), 4) + LowBytes(Size(t), 4) + Body(t) + Padding(t)
  }

  /** A tag list up to and including the end tag. */
  function TagsBytes(tags: seq<Tag>): seq<byte> {
    if tags == [] then LowBytes(TAG_END, 4) + LowBytes(8, 4) else TagBytes(tags[0]) + TagsBytes(tags[1..])
  }

  predicate EntryOk(n: Entry, entrySize: nat) {
    Is64(n.e.addr) && Is64(n.e.len) && Is32(n.e.kind) && |n.extra| + 24 == entrySize
  }

  predicate TagOk(t: Tag) {
    Size(t) + 7 < TWO_32
    && match t
       case Mmap(entrySize, _, entries) =>
         Is32(entrySize) && |entries| <= MAX_ENTRIES
         && forall k :: 0 <= k < |entries| ==> EntryOk(entries[k], entrySize)
       case Other(kind, _) => Is32(kind) && kind != TAG_END && kind != TAG_MMAP
  }

  predicate TagsOk(tags: seq<Tag>) { forall k :: 0 <= k < |tags| ==> TagOk(tags[k]) }

  function Records(entries: seq<Entry>): (r: seq<E820>)
    ensures |r| == |entries| && forall k :: 0 <= k < |r| ==> r[k] == entries[k].e
  {
    seq(|entries|, k requires 0 <= k < |entries| => entries[k].e)
  }

  /** The map the kernel is left with: that of the last memory map tag, or what it had. */
  function Found(tags: seq<Tag>, before: seq<E820>): seq<E820> {
    if tags == [] then before
    else Found(tags[1..], if tags[0].Mmap? then Records(tags[0].entries) else before)
  }

  // ---------- reading fields ----------

  /** *(type*)(mem + at), width bytes. */
  function Field(mem: seq<byte>, at: nat, width: nat): nat
    requires at + width <= |mem|
  {
    Value(mem[at..at + width])
  }

  /** mem continues with s from at on. */
  predicate At(mem: seq<byte>, at: nat, s: seq<byte>) { at <= |mem| && s <= mem[at..] }

  lemma AtSplit(mem: seq<byte>, at: nat, a: seq<byte>, b: seq<byte>)
    requires At(mem, at, a + b)
    ensures at + |a| <= |mem| && mem[at..at + |a|] == a && At(mem, at, a) && At(mem, at + |a|, b)
  {
    var s := mem[at..];
    assert a + b == s[..|a| + |b|];
    assert s[..|a|] == a;
    assert s[|a|..|a| + |b|] == b;
  }

  lemma Nest(a: seq<byte>, b: seq<byte>, c: seq<byte>, d: seq<byte>, e: seq<byte>, f: seq<byte>)
    ensures a + b + c + d + e + f == a + (b + (c + (d + (e + f))))
  {}

  lemma TagFields(mem: seq<byte>, at: nat, t: Tag, rest: seq<byte>)
    requires TagOk(t) && At(mem, at, TagBytes(t) + rest)
    ensures at + 8 <= |mem| && Field(mem, at, 4) == Kind(t) && Field(mem, at + 4, 4) == Size(t)
    ensures At(mem, at + 8, Body(t))
    ensures At(mem, at + (Size(t) + 7) / 8 * 8, rest)
  {
    hide LowBytes, Body, Value, At, Padding;
    var k, z, tail := LowBytes(Kind(t), 4), LowBytes(Size(t), 4), Padding(t) + rest;
    Reads(Kind(t), 4);
    Reads(Size(t), 4);
    Nest([], k, z, Body(t), Padding(t), rest);
    assert TagBytes(t) + rest == k + (z + (Body(t) + tail));
    AtSplit(mem, at, k, z + (Body(t) + tail));
    AtSplit(mem, at + 4, z, Body(t) + tail);
    AtSplit(mem, at + 8, Body(t), tail);
    AtSplit(mem, at + Size(t), Padding(t), rest);
    PaddedSize(t);
  }

  /** In memory the type 6 marks the memory map. */
  lemma MapType(mem: seq<byte>, at: nat, t: Tag, rest: seq<byte>)
    requires TagOk(t) && At(mem, at, TagBytes(t) + rest)
    ensures at + 8 <= |mem| && (Field(mem, at, 4) == 6 <==> t.Mmap?)
  {
    hide TagBytes, Field, At, Body;
    TagFields(mem, at, t, rest);
  }

  lemma PaddedSize(t: Tag)
    ensures Size(t) + |Padding(t)| == (Size(t) + 7) / 8 * 8
  {}

  lemma EndField(mem: seq<byte>, at: nat)
    requires At(mem, at, TagsBytes([]))
    ensures at + 8 <= |mem| && Field(mem, at, 4) == TAG_END == 0
  {
    hide LowBytes, Value, At;
    Reads(TAG_END, 4);
    AtSplit(mem, at, LowBytes(TAG_END, 4), LowBytes(8, 4));
    assert LowBytes(8, 4) + [] == LowBytes(8, 4);
    AtSplit(mem, at + 4, LowBytes(8, 4), []);
  }

  lemma EntryFields(mem: seq<byte>, at: nat, n: Entry, entrySize: nat, rest: seq<byte>)
    requires EntryOk(n, entrySize) && At(mem, at, EntryBytes(n) + rest)
    ensures at + 24 <= |mem| && entrySize >= 24
    ensures Field(mem, at, 8) == n.e.addr && Field(mem, at + 8, 8) == n.e.len && Field(mem, at + 16, 4) == n.e.kind
    ensures |EntryBytes(n)| == entrySize && At(mem, at + entrySize, rest)
  {
    hide LowBytes, Value, At;
    var a, l, k, r := LowBytes(n.e.addr, 8), LowBytes(n.e.len, 8), LowBytes(n.e.kind, 4), LowBytes(n.reserved, 4);
    Reads(n.e.addr, 8);
    Reads(n.e.len, 8);
    Reads(n.e.kind, 4);
    Nest(a, l, k, r, n.extra, rest);
    AtSplit(mem, at, a, l + (k + (r + (n.extra + rest))));
    AtSplit(mem, at + 8, l, k + (r + (n.extra + rest)));
    AtSplit(mem, at + 16, k, r + (n.extra + rest));
    AtSplit(mem, at + 20, r, n.extra + rest);
    AtSplit(mem, at + 24, n.extra, rest);
  }

  lemma MmapFields(mem: seq<byte>, at: nat, t: Tag)
    requires t.Mmap? && TagOk(t) && At(mem, at, Body(t))
    ensures at + 8 <= |mem| && Field(mem, at, 4) == t.entrySize && At(mem, at + 8, EntriesBytes(t.entries))
  {
    hide LowBytes, Value, EntriesBytes, At;
    var s, v, e := LowBytes(t.entrySize, 4), LowBytes(t.version, 4), EntriesBytes(t.entries);
    Reads(t.entrySize, 4);
    assert Body(t) == s + (v + e);
    AtSplit(mem, at, s, v + e);
    AtSplit(mem, at + 4, v, e);
    assert e + [] == e;
    AtSplit(mem, at + 8, e, []);
  }

  lemma {:induction false} AvailableSnoc(s: seq<E820>, e: E820)
    ensures Available(s + [e]) == Available(s) + if e.kind == E820_AVAILABLE then 1 else 0
  {
    assert (s + [e])[..|s + [e]| - 1] == s;
  }

  // ---------- the walk ----------

  class BootInfo {
    const e820: array<E820>
    var num: nat
    var available: nat

    predicate Valid()
      reads this
    {
      e820.Length == MAX_ENTRIES && num <= MAX_ENTRIES
    }

    constructor ()
      ensures Valid() && num == 0 && available == 0 && fresh(e820)
    {
      e820 := new E820[MAX_ENTRIES](_ => E820(0, 0, 0));
      num, available := 0, 0;
    }

    /** _init_memory: copy the entries of the tag at address tag. */
    method InitMemory(mem: seq<byte>, tag: nat, ghost t: Tag, ghost rest: seq<byte>)
      requires Valid() && t.Mmap? && TagOk(t) && At(mem, tag, TagBytes(t) + rest)
      modifies this, e820
      ensures Valid() && e820[..num] == Records(t.entries) && available == Available(Records(t.entries))
    {
      hide TagBytes, EntryBytes, Field, At, EntryOk, EntriesBytes, Available;
      TagFields(mem, tag, t, rest);
      MmapFields(mem, tag + 8, t);
      var size, entrySize := Field(mem, tag + 4, 4), Field(mem, tag + 8, 4);
      var entry, i, count := tag + 16, 0, 0;
      ghost var records := Records(t.entries);
      assert t.entries[0..] == t.entries && records[..0] == [];
      BodySize(t);
      NoneAvailable();
      while entry < tag + size
        invariant 0 <= i <= |t.entries| && entry + |EntriesBytes(t.entries[i..])| == tag + size
        invariant At(mem, entry, EntriesBytes(t.entries[i..]))
        invariant e820[..i] == records[..i]
        invariant count == Available(records[..i])
        decreases tag + size - entry
      {
        EntriesStep(t.entries, i);
        EntryFields(mem, entry, t.entries[i], t.entrySize, EntriesBytes(t.entries[i + 1..]));
        var e := E820(Field(mem, entry, 8), Field(mem, entry + 8, 8), Field(mem, entry + 16, 4));
        assert e == records[i];
        AvailableSnoc(records[..i], e);
        assert records[..i + 1] == records[..i] + [e];
        e820[i] := e;
        if e.kind == E820_AVAILABLE { count := count + 1; }
        i := i + 1;
        entry := entry + entrySize;
      }
      EntriesEnd(t.entries, i);
      num, available := i, count;
    }

    /** parse_sys_info: visit the tags behind the 8-byte header at base until the end tag. */
    method ParseSysInfo(mem: seq<byte>, base: nat, ghost tags: seq<Tag>)
      requires Valid() && TagsOk(tags) && At(mem, base + 8, TagsBytes(tags))
      requires available == Available(e820[..num])
      modifies this, e820
      ensures Valid() && e820[..num] == Found(tags, old(e820[..num])) && available == Available(e820[..num])
    {
      hide TagBytes, TagsBytes, Field, At, TagOk, Available, Kind, Size, Records;
      var tag: nat := base + 8;
      ghost var k := 0;
      assert tags[0..] == tags;
      TagsStep(mem, tag, tags, k);
      while Field(mem, tag, 4) != TAG_END
        invariant 0 <= k <= |tags| && Valid() && At(mem, tag, TagsBytes(tags[k..]))
        invariant tag + 8 <= |mem| && (Field(mem, tag, 4) == TAG_END <==> k == |tags|)
        invariant Found(tags[k..], e820[..num]) == Found(tags, old(e820[..num]))
        invariant available == Available(e820[..num])
        decreases |tags| - k
      {
        ghost var t, rest := tags[k], TagsBytes(tags[k + 1..]);
        TagsStep(mem, tag, tags, k);
        TagFields(mem, tag, t, rest);
        assert tags[k..][1..] == tags[k + 1..];
        KindIs(t);
        if Field(mem, tag, 4) == TAG_MMAP {
          InitMemory(mem, tag, t, rest);
        }
        tag := tag + (Field(mem, tag + 4, 4) + 7) % TWO_32 / 8 * 8;
        k := k + 1;
        TagsStep(mem, tag, tags, k);
      }
    }
  }

  lemma BodySize(t: Tag)
    requires t.Mmap?
    ensures Size(t) == 16 + |EntriesBytes(t.entries)|
  {}

  lemma NoneAvailable()
    ensures Available([]) == 0
  {}

  lemma EntriesStep(entries: seq<Entry>, i: nat)
    requires i <= |entries| && EntriesBytes(entries[i..]) != []
    ensures i < |entries|
    ensures EntriesBytes(entries[i..]) == EntryBytes(entries[i]) + EntriesBytes(entries[i + 1..])
  {
    if i < |entries| {
      assert entries[i..][1..] == entries[i + 1..];
    }
  }

  lemma EntriesSize(entries: seq<Entry>)
    ensures entries != [] ==> |EntriesBytes(entries)| >= 24
  {}

  lemma EntriesEnd(entries: seq<Entry>, i: nat)
    requires i <= |entries| && |EntriesBytes(entries[i..])| <= 0
    ensures i == |entries|
  {
    EntriesSize(entries[i..]);
  }

  lemma KindIs(t: Tag)
    requires TagOk(t)
    ensures Kind(t) == TAG_MMAP <==> t.Mmap?
    ensures Size(t) + 7 < TWO_32
  {}

  /** At each tag the type field tells whether the list ends here. */
  lemma TagsStep(mem: seq<byte>, tag: nat, tags: seq<Tag>, k: nat)
    requires k <= |tags| && TagsOk(tags) && At(mem, tag, TagsBytes(tags[k..]))
    ensures tag + 8 <= |mem| && (Field(mem, tag, 4) == TAG_END <==> k == |tags|)
    ensures k < |tags| ==> TagOk(tags[k]) && At(mem, tag, TagBytes(tags[k]) + TagsBytes(tags[k + 1..]))
  {
    hide TagBytes, Field, At, LowBytes;
    if k == |tags| {
      assert tags[k..] == [];
      EndField(mem, tag);
    } else {
      assert tags[k..][1..] == tags[k + 1..];
      TagFields(mem, tag, tags[k], TagsBytes(tags[k + 1..]));
    }
  }

  /** The last memory map tag decides; with a single one the kernel has exactly its entries. */
  lemma {:induction false} LastMapWins(a: seq<Tag>, m: Tag, b: seq<Tag>, before: seq<E820>)
    requires m.Mmap? && forall k :: 0 <= k < |b| ==> b[k].Other?
    ensures Found(a + [m] + b, before) == Records(m.entries)
    decreases |a|
  {
    if a == [] {
      assert (a + [m] + b)[1..] == b;
      NoMap(b, Records(m.entries));
    } else {
      assert (a + [m] + b)[1..] == a[1..] + [m] + b;
      LastMapWins(a[1..], m, b, if a[0].Mmap? then Records(a[0].entries) else before);
    }
  }

  lemma {:induction false} NoMap(b: seq<Tag>, before: seq<E820>)
    requires forall k :: 0 <= k < |b| ==> b[k].Other?
    ensures Found(b, before) == before
    decreases |b|
  {
    if b != [] {
      NoMap(b[1..], before);
    }
  }
}
