# HelloOS in Dafny

A model of the two parts of the HelloOS kernel that carry real proof obligations, the physical
page manager and the kernel formatter with its text console, and of the small routines below
them. Code that updates memory in place is modelled by classes and methods over arrays; each
such method is proved against a specification function, and the laws are lemmas about those
functions.

## The page manager

| file | contents |
|---|---|
| `Prelude.dfy` | machine widths and an optional value, shared by all modules |
| `BitVectors.dfy`, `Words.dfy` | 64-bit words: bits, masks, and the two-word window that `alloc_pages` shifts and tests |
| `Bitmap.dfy` | the page bitmap as a sequence of words: marking, toggling, counting, testing a run |
| `Memory.dfy` | page and zone descriptors, `page_init`, and the accounting invariant `Inv` |
| `Construction.dfy` | where the metadata lies, and what the zone loop builds from the e820 map |
| `Allocation.dfy` | what `alloc_pages` scans, finds and claims |
| `Confinement.dfy` | which requests are given a run outside available memory |
| `Histories.dfy` | safety over sequences of allocations and `page_init` calls |
| `Boot.dfy` | the state after `init_memory` and safety of every history that starts there |
| `Counterexamples.dfy` | histories from boot on which the code breaks its promises |
| `MemoryManager.dfy` | `gmdsc` as an object with three tables in memory, updated in place |

`Inv` says that bitmap, attributes, reference counts and zone counters agree, that a page's zone
pointer is the one zone that covers it, and that every bit outside available memory is set. The
code checks no zone bounds while it searches; the last clause is what keeps allocation inside
available memory.

The source claims its run at index `j + k - 1`, while the run it tested starts at the first page
of the word of `j` plus `k`. `MemoryManager.AllocPages` is the code as written.
`MemoryManager.AllocPagesTested` differs from it in the claimed index only, and the safety
theorems are about it. `WrittenMeetsContractIff` says exactly when the written code meets the
allocation contract all the same: when the pages from `j + k - 1` on are clear pages of the table.
`WrittenFreeIff` and `WrittenFreeInFirstWord` reduce that to single bits, `WrittenWildIff` says
when the claim leaves the descriptors, and `FirstRequestBreaksContract` shows a boot after which
the first request returns a page of the metadata.

Two more facts about the code shape the model. The search reads up to two words behind the
bitmap, whose contents are whatever memory holds, so a request can be given a run that leaves
memory. `RequestLeaksIff` says exactly which requests are: the page count is a multiple of 64, and
in the first eligible zone where anything passes only runs that end past the page table do.
`AvailableIff` carries that to histories, where every returned page is available memory if and only
if no request leaks, and the other safety theorems assume no more. A claim that leaves the
descriptors may leave any state. `GuardedHistory` gives a check on the first state that is enough:
no scanned run that leaves memory passes in any zone. A page count that is no multiple of 64, a last
page in no zone, or all ones behind the bitmap ensures it, after boot by `BootedHistory`.
`LeakExample` is a history from boot that ends in a leaking request, and `NullExample` one that ends
in NULL although a page is free.
Adding a byte count to a pointer to 64-bit words reserves eight times the bitmap; the layout is
modelled that way and `LayoutOrdered` holds for it.

## The formatter and the console

| file | contents |
|---|---|
| `Text.dfy` | storing characters through an output pointer |
| `Number.dfy` | `number` and `do_div`: loops that share one counter, against a closed layout |
| `Reading.dfy` | reading a formatted integer back |
| `Format.dfy` | what a format means: parsing into items and rendering them |
| `Shape.dfy`, `Conversions.dfy` | what conversions print, character by character: numerals, signs, prefixes, padding, fields, star arguments |
| `Vsprintf.dfy` | the automaton of `vsprintf`, against parse-then-render |
| `FormatLaws.dfy`, `Directives.dfy` | composition, doubled percent signs, directive syntax, integer conversions |
| `Display.dfy` | the screen as a value, and which printed characters are kept |
| `Positions.dfy` | in which cell each character of a text appears |
| `Console.dfy` | `print`, scrolling and `kprintf` over bytes of video memory |

A format is the characters before its NUL, and reading a character demands a position at or
before that NUL, so that no scan passes the terminator is part of every method being well formed.
Arguments are a sequence of 64-bit slots and strings.

A plain `%d` zero-extends its argument, so negative ints print as large positive numbers although
the flag for a signed number is set; `PlainDecimalIff` states exactly when the printed number is
the int. Several newlines past the last row cause a single scroll, which also moves the cursor to
column 0; the console model does the same. A tab does not wrap at the end of a row, so long
stretches of tabs or newlines can wrap the 32-bit cursor fields. `ConsoleConserves` asks that none
wraps; `GlyphAppendsIff` says exactly when the next character is kept, whatever happened before,
and `LostCount` how many characters any text loses on any screen.

`%n` stores how much has been printed so far; the model returns these stores in order.

## Below them

| file | contents |
|---|---|
| `KString.dfy` | `memset`, `memcpy`, `strncpy`, `strlen` instruction by instruction over bytes |
| `Multiboot.dfy` | the walk over the boot information of section 3.6 of the Multiboot2 specification |
| `PageTables.dfy` | the boot page tables and the processor's 4-level walk over them |
| `List.dfy` | the intrusive circular list |

## Model

| member | source | states |
|---|---|---|
| Words.SetBitAt | mm/mm.c:118 | or-ing in one bit sets that bit and keeps every other |
| Words.ToggleBitAt | mm/mm.c:105 | xor-ing in one bit flips that bit and keeps every other |
| Words.MaskClearBits | mm/alloc.c:58 | a word is zero under the mask for n if and only if its low n bits are clear, for n up to 64 |
| Words.WindowBit | mm/alloc.c:58 | bit m of the shifted window is bit k + m of the two words |
| Words.WindowExact | mm/alloc.c:56-58 | for 1 <= k <= 63 the test passes if and only if the n bits from offset k on are clear |
| Words.WindowAtBoundary | mm/alloc.c:56-58 | at k = 0 a shift by 64 does nothing, so the test passes if and only if the low n bits of both words are clear |
| Bitmap.ToggleRangeAt | mm/mm.c:99-106 | toggling a range page by page flips exactly the bits of the range |
| Bitmap.MarkAt | mm/mm.c:118 | marking page i sets bit i and keeps every other bit of the bitmap |
| Bitmap.CountUsedMark | mm/mm.c:118-122 | marking raises the number of set bits of a range by one exactly if the page lies in it and was clear |
| Bitmap.RunTestExact | mm/alloc.c:51-58 | away from word boundaries the test passes if and only if the run of n pages is clear |
| Bitmap.RunTestBoundary | mm/alloc.c:51-58 | at a word boundary it passes if and only if the run and the run one word further on are clear |
| Bitmap.RunTestSound | mm/alloc.c:51-58 | at every offset the test implies that the run is clear |
| Memory.PageInitEffect | mm/mm.c:116-133 | page_init marks exactly its page, ors in the flags, and changes no other page descriptor |
| Memory.PageInitPage | mm/mm.c:117-133 | the whole descriptor after page_init: flags or-ed in, and one reference more exactly if the page was free or bit 2 or 8 is set on either side |
| Memory.PageInitDelta | mm/mm.c:119-127 | using, free and link counters move only in the page's zone, by one use exactly if the page was free and by the change of its reference count |
| Memory.PageInitLinks | mm/mm.c:123-127 | the link counts of all zones rise by one exactly when the page's references do |
| Memory.PageInitKeepsInv | mm/mm.c:116-133 | page_init keeps the accounting invariant; free counts never go below zero |
| Memory.PageInitKeepsInvIff | mm/mm.c:117-123 | the invariant survives if and only if the page is in use already or the flags are not empty |
| Memory.PageInitFree | mm/mm.c:121-122 | the free total over all zones drops by one exactly if the page was free |
| Memory.ClaimRunKeepsInv | mm/alloc.c:62-66 | claiming any run of available memory with flags, free or not, keeps the invariant |
| Memory.ClaimRunEffect | mm/alloc.c:62-66 | claiming n clear pages marks exactly those, keeps the invariant, and takes n off the free total |
| Memory.ClaimRunRefs | mm/alloc.c:62-66 | each page of such a claim gets the flags and exactly one reference, and the zones n links |
| Allocation.SearchDetermined | mm/alloc.c:34-74 | the search has one outcome: the lowest scanned run that passes in the first eligible zone that has one |
| Allocation.ScanReadable | mm/alloc.c:49-58 | the search reads no further than two words behind the bitmap |
| Allocation.NullIff | mm/alloc.c:34-74 | NULL is returned if and only if every clear run of n pages in a zone with at least n free pages is one the search misses: at an offset that an unaligned first word skips, or at a word boundary with a used page one word further on |
| Confinement.RunConfined | mm/alloc.c:49-58 | a run that passes is clear, and lies in available memory if and only if it ends inside the page table |
| Confinement.ConfinedIff | mm/alloc.c:44-58 | every scanned run of a zone that passes for some request it is eligible for lies in available memory if and only if the zone does not leak, as read off its bounds, its free count and the bits at the end; this is enough for requests, not necessary |
| Confinement.ZoneLeaksIff | mm/alloc.c:44-58 | the first run that passes in a zone leaves available memory if and only if the page count is a multiple of 64, some scanned run past the table passes, and none inside it does |
| Confinement.RequestLeaksIff | mm/alloc.c:34-74 | what a request is given leaves available memory if and only if its first eligible zone in which anything passes leaks for that request |
| Confinement.GuardedRequests | mm/alloc.c:34-74 | when no zone leaks no request does |
| Confinement.GuardedWhen | mm/alloc.c:44-58 | no zone leaks when the page count is no multiple of 64, the last page lies in no zone, or the word behind the bitmap is all ones |
| Confinement.FreeLastPageLeaks | mm/alloc.c:44-58 | with a free last page of a multiple of 64 some scanned run behind the bitmap passes, at every clear bit of the next word but its first |
| Confinement.ShrinksGuarded | mm/alloc.c:62-66 | marking pages and lowering free counts never opens a leak |
| Allocation.WrittenIndexIff | mm/alloc.c:58-61 | the claimed run is the tested run if and only if the hit is in the zone's first word and the zone starts at offset 1 of a word |
| Allocation.WrittenFreeIff | mm/alloc.c:56-67 | in a word entered at its first bit the pages the code claims are free if and only if the page before the hit is; if that page was scanned, if and only if it is free and the hit is at offset 1 |
| Allocation.WrittenFreeInFirstWord | mm/alloc.c:56-67 | in a first word entered at offset s the claim starts s - 1 pages after the hit, and only pages the test did not see decide |
| Allocation.WrittenClaimsUsedPage | mm/alloc.c:56-61 | in a word entered at its first bit, at any offset but 1, the written index is a page in use whenever that page was scanned |
| Allocation.WrittenClaimAligned | mm/alloc.c:56-61 | so in a zone that starts on a word boundary every hit but its first page and offsets of 1 returns a used page |
| MemoryManager.WrittenMeetsContractIff | mm/alloc.c:56-67 | the code as written meets the allocation contract (n available pages, free before and used after, all else unchanged, accounting right, free total down by n) if and only if the pages from j + k - 1 on are clear pages of the table |
| MemoryManager.WrittenWildIff | mm/alloc.c:58-66 | the claim leaves the descriptors if and only if a claimed page lies in no zone; a hit at page 0 claims index -1 |
| Counterexamples.WrittenClaimExample | mm/alloc.c:34-67 | after booting 128 MiB with an aligned kernel the first request for a page finds page 8859 and claims page 8858, which holds metadata |
| MemoryManager.FirstRequestBreaksContract | mm/alloc.c:34-67 | so that request breaks the contract, whatever memory holds behind the bitmap |
| MemoryManager.WrittenHistoryInv | mm/alloc.c:4-79 | over every history of calls to the code as written that do not leave the descriptors the accounting invariant holds and no used page becomes free |
| Counterexamples.LeakReachable | mm/alloc.c:44-58 | from any state whose zone reaches the end of a multiple of 64 pages, has a free page at an earlier word boundary and a clear bit behind, page_init calls lead to a request that is given a page past the end of memory |
| Counterexamples.LeakExample | mm/alloc.c:44-58 | so it happens from the example boot for any clear bit 1 to 63 of the word behind the bitmap |
| Counterexamples.NullReachable | mm/alloc.c:44-74 | with no leaking zone the same calls lead to NULL for one page although a page of the zone is free |
| Counterexamples.NullExample | mm/alloc.c:44-74 | so it happens from the example boot with page 8896 free |
| Confinement.TestedRunContract | mm/alloc.c:34-78 | claiming a tested run that ends inside the page table: n consecutive available pages, all free before and used after, all else unchanged, free total down by n |
| Histories.LeakingIff | mm/alloc.c:34-78 | a call returns a page outside available memory if and only if it is a request that leaks |
| Histories.StepSafe | mm/alloc.c:34-78 | each call that does not leak keeps the invariant, frees nothing, and returns only available pages that were free |
| Histories.HistoryInv | mm/alloc.c:34-78 | over every history of allocations and page_init calls in which no request leaks the invariant holds and used pages stay used |
| Histories.RunsDisjoint | mm/alloc.c:34-78 | runs returned by two calls are disjoint when no call before the second leaks |
| Histories.ReturnedPages | mm/alloc.c:34-78 | a returned page was free at the start when no earlier call leaks |
| Histories.AvailableIff | mm/alloc.c:34-78 | over every history all returned pages are available memory if and only if no request leaks |
| Histories.GuardedHistory | mm/alloc.c:34-78 | if no zone leaks at the start no call of any history does |
| Histories.ReferencesCounted | mm/mm.c:116-133 | over every history without leaks a page's reference count grows by the number of calls that returned it, first claimed it, or shared it |
| Histories.FreeConserved | mm/alloc.c:62-66 | free pages plus pages handed out stay constant over any history of allocations that do not leak |
| Construction.BitsBytesWords | mm/mm.c:56 | the bitmap length is eight bytes for each started group of 64 pages |
| Construction.LayoutOrdered | mm/mm.c:34-43 | kernel image, bitmap, pages and zones are page aligned, ordered and disjoint, and every byte of them lies in a reserved page |
| Construction.BitIsParity | mm/mm.c:79-108 | the zone loop flips a page's bit if and only if an odd number of zones hold the page, for any map |
| Construction.ContributesIffHolds | mm/mm.c:83-85 | inward rounding keeps exactly the pages that lie wholly in the range |
| Construction.GoodMapPagewise | mm/mm.c:79-85 | disjoint byte ranges give disjoint page sets |
| Construction.BitmapMeansAvailable | mm/mm.c:58-108 | for disjoint ranges a bit is clear if and only if some available range contains the whole page |
| Construction.BlankInv | mm/mm.c:58-74 | the three fills alone satisfy the invariant |
| Construction.AddZoneInv | mm/mm.c:87-107 | adding a zone over pages of no zone keeps the invariant |
| Construction.ZoneOfEntry | mm/mm.c:79-95 | each entry that makes a zone gets the next descriptor, over its own pages |
| Construction.BuildZonesInv | mm/mm.c:77-108 | the zone loop establishes the invariant, and a page is in a zone if and only if an entry contributes it |
| Boot.ReserveEffect | mm/mm.c:109-113 | the reservation loop marks exactly the pages from kernel start to the end of the metadata |
| Boot.BootedInv | mm/mm.c:19-46 | booting establishes the invariant and leaves free exactly the whole available pages that are not reserved |
| Boot.BootedPages | mm/mm.c:96-113 | after boot a reserved page carries flags 0x93 and one reference, any other available page neither, each with its own address |
| Boot.BootedZones | mm/mm.c:79-95 | zones are numbered in the order of the map, and each spans the whole pages of its entry |
| Boot.BootedAfter | mm/mm.c:77-113 | booting leaves the two words behind the bitmap as memory held them |
| Boot.BootedGuard | mm/mm.c:56-58 | after boot no zone leaks when the page count is no multiple of 64, no entry holds the last page, or all ones follow the bitmap; otherwise, with a last page left free, a run behind the bitmap passes at any clear bit of the next word but its first |
| Boot.MetadataReserved | mm/mm.c:34-43 | every byte from the kernel image to the end of the metadata lies in a reserved page, for addresses below 2^47 |
| Boot.KernelNeverReturned | mm/mm.c:109-113 | over every history from boot no allocation returns a page of kernel or metadata as long as no earlier call leaks, and one that does not leak returns available memory only |
| Boot.BootedHistory | mm/mm.c:109-113 | for boots as in the first part of BootedGuard no call of any history leaks |
| MemoryManager.MemoryManager.InitMemory | mm/mm.c:19-46 | the layout, and the state equals the specified boot state |
| MemoryManager.MemoryManager.BuildZoneTables | mm/mm.c:77-108 | the zone loop over the map equals the fold over its entries |
| MemoryManager.MemoryManager.FillZone | mm/mm.c:87-106 | one zone: descriptor, pages, toggled bits |
| MemoryManager.MemoryManager.ReservePages | mm/mm.c:111-113 | the last loop equals the claim of the reserved run |
| MemoryManager.MemoryManager.PageInit | mm/mm.c:116-133 | the three branches in place equal the specification |
| MemoryManager.MemoryManager.FindInWord | mm/alloc.c:53-71 | lowest offset of the word whose window passes, or none passes |
| MemoryManager.MemoryManager.FindInZone | mm/alloc.c:44-72 | the word cursor terminates, and returns the lowest scanned page of the zone whose run passes, or every scanned run is blocked |
| MemoryManager.MemoryManager.FindWindow | mm/alloc.c:34-74 | the search loops return the specified outcome and the cursor at which they stopped |
| MemoryManager.MemoryManager.ClaimPages | mm/alloc.c:62-66 | the claim loop equals the claim of a run, up to the first descriptor it must not follow |
| MemoryManager.MemoryManager.AllocPages | mm/alloc.c:4-79 | alloc_pages as written: selector 1 searches zones 0 to the DMA index, 2 from there to the normal index, 4 from the unmapped index to the last, others give NULL; NULL exactly when nothing is found there; claim at j + k - 1; with flags it keeps the accounting invariant |
| MemoryManager.MemoryManager.AllocPagesTested | mm/alloc.c:4-79 | with the claim at the tested run, for the same selectors: a step of the allocation history that leaves the descriptors if and only if the request leaks |
| Number.DigitCount | kernel/printk/printk.c:55-58 | a number has at most k digits if and only if it is below the k-th power of the base |
| Number.TmpFitsIff | kernel/printk/printk.c:35-58 | the digits of a 64-bit value fit the 50 places of tmp if and only if the base is at least 3 or the value is below 2^50 |
| Number.TmpUse | kernel/printk/printk.c:55-58 | with bases 8 and up at most 22 places are used |
| Number.LayoutLength | kernel/printk/printk.c:50-83 | the output is as long as the field size or what sign, prefix and digits need, whichever is more |
| Number.DoDiv | include/printk.h:27-30 | quotient and remainder put the number together again, the remainder is below the base, and from base 2 on the quotient is smaller |
| Number.FillTmp | kernel/printk/printk.c:54-58 | the extraction loop leaves the digits in tmp, least significant first |
| Text.CountDown | kernel/printk/printk.c:61-63 | the loop on size-- writes as many characters as size says and leaves it one below where it stopped |
| Number.EmitFront | kernel/printk/printk.c:61-76 | left padding, sign, prefix and zero padding, and what is left of size |
| Number.EmitBack | kernel/printk/printk.c:78-83 | precision zeros, digits and right padding |
| Number.EmitNumber | kernel/printk/printk.c:61-83 | the loops that count size down write left padding, sign, prefix, zeros, digits and right padding |
| Number.Number | kernel/printk/printk.c:34-85 | number writes exactly the closed layout at the output pointer and nothing else, for every flag combination and base |
| Shape.NumeralUnique | kernel/printk/printk.c:54-58 | a number has one numeral in a base: digits worth the number, without a zero in front |
| Shape.BareForm | kernel/printk/printk.c:44-83 | without a field size number prints sign, prefix, zeros up to the precision and the numeral of the value |
| Shape.PaddedForm | kernel/printk/printk.c:61-83 | a field size adds spaces behind with LEFT, else zeros behind sign and prefix with ZEROPAD, else spaces in front |
| Shape.SignIff | kernel/printk/printk.c:44-49 | a minus is printed if and only if SIGN is set and the value negative, a plus if and only if PLUS is set and no minus is printed |
| Reading.TableValue | kernel/printk/printk.c:36-39 | both digit tables list the digits in order of value |
| Reading.ReadPositive | kernel/printk/printk.c:57-58 | the digits of u, read in the base, are worth u |
| Reading.LayoutReads | kernel/printk/printk.c:34-85 | number is invertible: reading the output gives the value back, signed with SIGN and unsigned without, including the least long |
| Reading.LayoutInjective | kernel/printk/printk.c:34-85 | different values never print alike |
| Vsprintf.SkipAtoi | kernel/printk/printk.c:26-32 | skip_atoi returns the scanned number and the position after it |
| Vsprintf.ScanFields | kernel/printk/printk.c:180-235 | the repeat loop and the field scans recover flags, width, precision and qualifier, taking star arguments in order |
| Vsprintf.ScanWidth | kernel/printk/printk.c:199-211 | the width, written or from an argument; a negative argument means LEFT |
| Vsprintf.ScanPrecisionField | kernel/printk/printk.c:215-228 | the precision, written or from an argument, never below zero once a dot is read |
| Vsprintf.EmitInteger | kernel/printk/printk.c:269-310 | every integer conversion calls number with its base, width, flags and bits |
| Vsprintf.EmitField | kernel/printk/printk.c:239-267 | the shared width counter of %c and %s pads on one side only |
| Conversions.SlotMeaning | kernel/printk/printk.c:269-310 | an int or long argument is the number of that size with the slot's low bits |
| Conversions.IntegerBare | kernel/printk/printk.c:269-310 | without a width an integer conversion prints sign, prefix, zeros and the numeral of its meaning, in base 8 for o, 10 for d, i, u and 16 for x, X, p, with small letters for x alone |
| Conversions.IntegerPadded | kernel/printk/printk.c:269-310 | a width pads that text by the flags 16 and 1 as number does |
| Conversions.PointerWidth | kernel/printk/printk.c:277-284 | %p without a width is padded to 16 places |
| Conversions.IntegerReadsIn | kernel/printk/printk.c:269-310 | reading the text back in those bases gives the meaning |
| Conversions.IntegerExamples | kernel/printk/printk.c:269-310 | 45 prints as 2d, 2D, 55 and 45 |
| Conversions.StringText | kernel/printk/printk.c:249-267 | %s prints the string up to the precision with spaces up to the width, behind it with LEFT and else in front |
| Conversions.CharText | kernel/printk/printk.c:239-247 | %c prints the low byte of its slot in a field |
| Conversions.OtherText | kernel/printk/printk.c:326-338 | %% prints a percent sign, %n nothing, and an unknown directive itself |
| Conversions.WrittenOut | kernel/printk/printk.c:197-228 | a directive without stars hands its written width and precision, or -1, to its conversion |
| Conversions.StarWidth | kernel/printk/printk.c:202-211 | a width from the arguments prints as the same width written out, a negative one as its size with LEFT |
| Conversions.StarPrecision | kernel/printk/printk.c:220-227 | a precision from the arguments prints as the same one written out, a negative one as 0 |
| Vsprintf.Dispatch | kernel/printk/printk.c:237-339 | every conversion, known or not, writes its specified text, consumes its argument, and %n stores the count |
| Vsprintf.Convert | kernel/printk/printk.c:180-339 | one directive; a format that ends inside it resumes at the NUL |
| Vsprintf.Vsprintf | kernel/printk/printk.c:142-344 | the buffer receives the rendering of the parsed format and a NUL, everything behind is unchanged, and the counts stored are those of its %n directives |
| FormatLaws.DirectiveLocal | kernel/printk/printk.c:180-235 | a directive that ends inside a format is scanned the same whatever follows |
| FormatLaws.ParseShift | kernel/printk/printk.c:172-235 | parsing from a position does not depend on what is before it |
| FormatLaws.ParseLocal | kernel/printk/printk.c:172-235 | a format with no cut-off directive parses the same whatever follows |
| FormatLaws.ParseComposesIff | kernel/printk/printk.c:331-338 | parsing distributes over every continuation if and only if no directive is cut off by the end |
| FormatLaws.ParseCutOff | kernel/printk/printk.c:331-338 | a cut-off directive is the last item, and a percent sign behind it becomes its conversion |
| FormatLaws.CutOffSwallows | kernel/printk/printk.c:331-338 | a percent sign behind a cut-off format adds nothing to what is printed |
| FormatLaws.FormattedComposesIff | kernel/printk/printk.c:142-344 | what is printed composes with every continuation if and only if no directive is cut off |
| FormatLaws.CountStored | kernel/printk/printk.c:312-324 | %n and %ln behind a format print nothing and store how many characters the format printed, as an int and as a long |
| FormatLaws.RenderConcat | kernel/printk/printk.c:237-339 | rendering distributes over concatenation of items and arguments, and later counts include what was printed before |
| FormatLaws.FormattedConcat | kernel/printk/printk.c:142-344 | formatting f + g with the arguments of both prints what f and g print one after the other, and stores their counts, those of g shifted by what f printed |
| FormatLaws.DoubledPrints | kernel/printk/printk.c:326-329 | doubling every percent sign of a string and formatting it gives the string back |
| Directives.UnpaddedScanned | kernel/printk/printk.c:26-32 | skip_atoi reads number's unpadded decimal output; the int it returns is the value if and only if the value is below 2^31 |
| Directives.DotAlone | kernel/printk/printk.c:215-228 | a dot without a number asks for precision 0 |
| Directives.DirectiveRoundTrip | kernel/printk/printk.c:180-235 | writing a directive and scanning it recovers all its components and stops right behind it |
| Directives.FormatRoundTrip | kernel/printk/printk.c:172-235 | every list of literals and directives is what its own text parses to |
| Directives.IntegerReads | kernel/printk/printk.c:269-310 | reading back any integer conversion gives its meaning: the slot's 64 bits, or 32 zero-extended |
| Directives.PlainDecimalIff | kernel/printk/printk.c:300-310 | a plain %d prints its int if and only if the int is not negative |
| Directives.PlainDecimalExample | kernel/printk/printk.c:309 | -1 prints as 4294967295 |
| Display.CellKeeps | kernel/printk/printk.c:135 | a cell keeps its character always and its color if and only if the character is ASCII |
| Display.PlaceContent | kernel/printk/printk.c:120-133 | wrapping and scrolling lose no content, wherever the cursor is |
| Display.PlaceKeeps | kernel/printk/printk.c:120-133 | unless the cursor wraps they keep every cell ahead of it blank |
| Display.WriteAppends | kernel/printk/printk.c:134-136 | writing at the cursor appends to the content, since all cells ahead are blank |
| Display.GlyphAppendsIff | kernel/printk/printk.c:120-136 | every next character is appended to the content, whichever it is, if and only if all cells from its place on are blank |
| Display.PutKeeps | kernel/printk/printk.c:113-138 | one character that wraps no cursor field appends exactly its own cell and keeps the cells ahead blank |
| Display.PutAllConserves | kernel/printk/printk.c:111-140 | printing a text whose characters all find blank cells appends exactly its glyphs, in order |
| Display.NoWrapKeeps | kernel/printk/printk.c:111-140 | they all do when no cursor field wraps |
| Display.LostCount | kernel/printk/printk.c:111-140 | on any screen a text loses exactly as many cells as its characters land on cells in use |
| Display.ConsoleConserves | kernel/printk/printk.c:111-140 | from a cleared screen, over call sequences of any length that wrap no cursor field, rows scrolled off and visible rows hold exactly what was printed, in order |
| Display.ShortGapsWrapNothing | kernel/printk/printk.c:114-118 | texts without a stretch of more than 2^30 - 20 tabs and newlines wrap nothing |
| Display.TabsWrapExample | kernel/printk/printk.c:117-118 | 2^30 - 1 tabs wrap the cursor and a printed letter is overwritten |
| Positions.TextPlaced | kernel/printk/printk.c:111-140 | on a cleared screen column c of line r of a text is cell 80 r + c of the rows scrolled off and on the screen, for lines of at most 79 columns whose lines from 25 on start with a glyph |
| Positions.GlyphPlaced | kernel/printk/printk.c:111-140 | character k of line r stands k columns in, and three more for each tab before it |
| Positions.TextEnds | kernel/printk/printk.c:111-140 | everything behind the last line is blank, and the cursor stands behind it |
| Positions.WrapIsNewline | kernel/printk/printk.c:120-123 | past column 78 a glyph goes where it would go after a newline |
| Positions.ScrollOnce | kernel/printk/printk.c:124-137 | below the last row a glyph takes the first cell of the bottom row after one scroll, however far below the cursor was |
| Console.ScrollCells | kernel/printk/printk.c:126-132 | the overlapping byte copy and the fill move every row up by exactly one |
| Console.UpToNulText | kernel/printk/printk.c:113 | a NUL stored by %c ends what is printed |
| Console.PrintfConserves | kernel/printk/printk.c:346-350 | what kprintf formats up to its first NUL is appended to the screen's content, as long as it wraps no cursor field |
| Console.Console.ClearScreen | kernel/printk/printk.c:15-24 | the screen is blank and the cursor home |
| Console.Console.ScrollUp | kernel/printk/printk.c:124-133 | video memory after the scroll is the screen moved up one row |
| Console.Console.PutChar | kernel/printk/printk.c:114-137 | one turn of the loop equals the step on the screen as a value; writes stay below row 25 and column 79 |
| Console.Console.Print | kernel/printk/printk.c:111-140 | print puts every character before the NUL |
| Console.Console.Printf | kernel/printk/printk.c:346-350 | kprintf puts the formatted text up to its first NUL and stores what %n counts |
| KString.LowBytesOfOnes | kernel/lib/string.c:30 | the product with 0x0101010101010101 holds val in each byte |
| KString.StorePattern | kernel/lib/string.c:33-42 | each string store extends the filled bytes by its width |
| KString.Memset | kernel/lib/string.c:28-49 | exactly n bytes are set to val, for every n |
| KString.Memcpy | include/kstring.h:19-40 | exactly the n bytes are moved, also for overlap with the destination first |
| KString.Strncpy | kernel/lib/string.c:12-18 | n bytes are moved, NUL or not, also for overlap with the destination first |
| KString.CopiedGrows | include/kstring.h:19-40 | a forward copy in pieces is the whole copy as long as it does not overtake its source |
| KString.Strlen | kernel/lib/string.c:51-63 | the result is the length if and only if the length fits an int |
| Multiboot.TagFields | kernel/kernel.c:49-51 | type and size read back as written, and the next tag lies at the size rounded up to 8 |
| Multiboot.MapType | kernel/kernel.c:52-55 | type 6 marks the memory map |
| Multiboot.EntryFields | kernel/kernel.c:67-77 | address, length and type of an entry read back as written, for any entry size |
| Multiboot.LastMapWins | kernel/kernel.c:52-81 | the last memory map tag decides which entries the kernel is left with |
| Multiboot.BootInfo.InitMemory | kernel/kernel.c:62-81 | the entries of the tag in order, their number, and how many are available |
| Multiboot.BootInfo.ParseSysInfo | kernel/kernel.c:47-60 | the walk ends at the end tag and leaves exactly the serialised memory map |
| PageTables.KernelBaseBits | include/mm.h:6-12 | or-ing in the kernel base replaces the upper 17 bits, masking it out clears them |
| PageTables.Phy2VirInvertsIff | include/mm.h:11-12 | VIR2PHY(PHY2VIR(a)) = a if and only if a is below 2^47 |
| PageTables.BuildTables | arch/x86/boot/multiboot2.S:56-76 | every word of the three table pages after the stores and the 512-step loop |
| PageTables.DoubleMap | arch/x86/boot/multiboot2.S:56-76 | the walk maps every address below 1 GiB, and its kernel address, to itself |
| PageTables.PathWritable | arch/x86/boot/multiboot2.S:56-76 | the entries on either way are present, writable and open to user mode |
| PageTables.NothingElse | arch/x86/boot/multiboot2.S:56-76 | every other address of the lower half is unmapped |
| List.ListAdd | include/list.h:14-21 | the four stores link the node between its neighbours |
| List.ListAddTail | include/list.h:23-25 | the node enters a ring of any length directly behind the head |
| List.ListAddHead | include/list.h:27-29 | the node enters directly before the head |

## Left out

- Memory.PageInit: reference and link counts are unbounded here; wrapping one takes 2^64 calls.
- Display.ConsoleConserves: assumes that no tab or newline wraps a 32-bit cursor field; `TabsWrapExample` loses a letter after 2^30 - 1 tabs. Past a wrap `GlyphAppendsIff` and `LostCount` still say what is kept.
- Positions.TextPlaced: lines wider than 79 columns continue as after a newline (`WrapIsNewline`); from line 25 on empty lines share a scroll and leading tabs are lost, as `ScrollOnce` says.
- Console.PrintfConserves: assumes the same of the text it prints.
- KString.Memcpy: a destination that overlaps the source from behind is outside its contract, as for any memcpy.
- MemoryManager.MemoryManager.AllocPages: once the written claim leaves the descriptors of the zones, what page_init overwrites there is not modelled; the result says so. Negative page counts and counts above 64 are not requests; the shift by n is undefined for them.
- Number.Number: field size and precision are unbounded integers; in C a count near the limits of int overflows.
- Vsprintf.SkipAtoi: numbers in formats are unbounded integers; in C they overflow an int from 2^31 on.
- Vsprintf.Vsprintf: the stores of `%n` are returned in order and not applied to memory, where an address could overlap buffer or format. Null string arguments, and missing or mistyped arguments, are not modelled. A formatted text that does not fit the buffer is a caller error, as `_printf` with its 512 characters makes it.
- Construction.LayoutOrdered: assumes that the addresses it adds stay below 2^64, and Boot.MetadataReserved below 2^47, from where on VIR2PHY drops bits; physical addresses do.
- Boot.BootMap: assumes available ranges that do not overlap, a last entry that ends highest, and kernel and metadata inside one available range. Page counts are assumed below 2^31, where the int and 32-bit loop counters of the source do not wrap.
- MemoryManager.MemoryManager.AllocPagesTested: what a claim overwrites once it has left the descriptors is not modelled, so nothing is said about a history after a request that leaks.
- MemoryManager.MemoryManager.InitMemory: the three tables are filled when they are allocated, and not through memset, which is proved on its own.
- The zone index variables are never assigned in the source; they are parameters here and must name zones, so there has to be one.
- Objects that overlap in memory: the bitmap, the page and zone descriptors, video memory and strings are separate arrays, as the layout theorem allows.
- `numberk` is called from commented-out code only.
- Messages that the memory manager prints while it works, and `kerrorf`, which never returns.
- The disk driver, interrupts, gates, system calls, the keyboard and the scheduler: port input and output, register saving, and table lookups.
