# Verified model of the armv8 kernel's core

A Dafny model of the parts of the kernel that are hardest to get right, with proofs of what they are
for. `dafny verify dfyconfig.toml` checks everything.

**Page tables and the switch between them.** `startup.S` builds a 4-level table of 4 KB pages in flat
memory (`map_memory`), once for the startup section and once for the image; `mmu_v3.c` later builds a
tree of 2 MB blocks (`create_kernel_map`) and puts it into TTBR1. Memory is an array of 64-bit words.
Both builders are methods over that array, and both are judged by one independent definition of the
hardware walk (section D8.3 of Arm DDI 0487 issue J.a: 48-bit virtual addresses, 4 KB granule, output
address in descriptor bits [47:12] of a page and [47:21] of a level 2 block; `startup.S:274` sets the
physical address size to 32 bits, so tables and outputs from 4 GB on are faults). The results are exact: which
addresses translate, to what, with which attributes, and that all others fault; and exactly when the
switch preserves every address of the image.

**The printf engine.** `vsnprintf` with everything below it: the resumable `format_decode`, `number`,
the reciprocal-multiply `put_dec`, `string` with its right-justification by overlapping `memmove`, and
the guarded stores into a buffer that may be too short. A recursive reference rendering says what a
format and its arguments stand for (ISO/IEC 9899:1999 section 7.19.6.1, with the code's own deviations);
the imperative engine is proved to produce it for every buffer size. A second, independent definition
(`conversion_spec`) gives the text of each conversion from its characters: flags by what occurs in them,
arguments by range and residue, digits by their alphabet; the rendering is proved to be that text. `strtoul` (section 7.20.1.4) reads
back what `number` writes.

**The intrusive list.** Nodes are objects with `next` and `prev`; each operation acts on the abstract
ring as its name says, in every aliasing case, and a second ring `t` stands for any other list.

**Interrupts.** The enable banks with their write-1-to-set and write-1-to-clear registers (section 12.9
of Arm IHI 0069 issue H), the descriptor table and nested dispatch, over whole runs.

Files: `words`, `hardware_walk` (shared definitions); `startup`, `memory_layout`, `kernel_map`,
`kernel_walk`, `kernel_requests`, `boot` (page tables); `text_buffer`, `digits`, `format_spec`, `ctype`,
`number`, `padded_text`, `format_decode`, `render`, `vsnprintf`, `strtoul`, `strtoul_standard`, `star_args`,
`star_limits`, `precision_args`, `pointer_text`, `print_parse`, `conversion_spec`, `conversions`,
`standard_numbers` (printf); `list`; `interrupts`, `interrupt_runs`, `interrupt_calls`; `deviations`
(concrete inputs for the next section).

Where the source is imperative the model is too: methods over arrays and classes, each proved equal to
a function of the old state, about which the lemmas are stated. Ghost parameters name the abstract
state (the ring a node is in, the text written so far) and do not exist at run time.

## What the code does that its comments do not say

Each point names the exact condition under which the code does what one would expect, then a concrete
input on which it does not.

- `populate_entries` is bottom-tested, so `map_memory` on an empty range maps one page, unless the range
  starts on a 2 MB boundary (`Startup.EmptyRangeMapsOnePage`, `Deviations.EmptyRangeOverruns`).
- The identity map's ends are loaded with `adrp`, which rounds both down to a page. The startup section is
  mapped in full only if it ends on a page boundary or in its first page; otherwise its last partial page
  is left out (`Boot.BootIdentityExactly`, `Boot.PartialPageUnmapped`, `Deviations.PartialPage`).
- `create_simple_map` takes ceil(size / 2 MB) steps from an unrounded address. It covers the image only
  if the offset of its start in its block and its size fit that many blocks; otherwise the last bytes of
  the image are lost at the switch (`Boot.BootSwitch`, `Deviations.ImageTooLong`).
- `__is_lm_address` compares strictly against an inclusive end, so the last byte of the linear window
  does not round-trip (`MemoryLayout.LinearRoundTrip`, `Deviations.LastLinearByte`).
- `number`, right-justified without the flag 0, pads to one less than the width
  (`Number.NumberFillsField`, `Deviations.FieldOneShort`).
- A `*` width that the 24-bit field turns negative is left-justified, where the same width written out
  is ignored (`StarLimits.StarWidthForAll`, `StarLimits.LowestWidth`); a negative one that the field
  turns positive is not left-justified (`StarLimits.StarNegativeWidthForAll`,
  `StarLimits.PositiveField`).
- A negative precision given by `.*` counts as 0, or as what the 16-bit field makes of it, where the C
  standard takes it as omitted. Conversions other than %s do not show it as long as the field's value is at
  most 1; a text does unless the field's value or its own blanks hide the cut
  (`PrecisionArgs.NegativePrecisionForAll`, `PrecisionArgs.NegativePrecisionString`,
  `PrecisionArgs.NegativePrecisionHidesText`, `PrecisionArgs.LongZero`).
- A precision of a bare period counts as omitted, where the standard takes it as zero. Numbers do not show
  it; a text does unless its field hides the cut (`Conversions.BarePeriodString`,
  `Conversions.PeriodNumbers`).
- Zero with precision zero is printed, `#` puts 0x before zero and an octal 0 before precision zeros, and
  the flag 0 fills in spite of a precision (`StandardNumbers.SignedExactly`,
  `StandardNumbers.UnsignedExactly`, `Deviations.NumbersDiffer`).
- `%td` takes 32 bits of its argument, where the standard takes a 64-bit difference
  (`Conversions.PtrdiffExactly`, `Deviations.LongDifference`).
- `%p` swallows the letters and digits after it (`PointerText.PointerSwallows`,
  `PointerText.PointerLosesLetter`).
- `%c` with the lowest width of the bit-field wraps round to its largest width
  (`PaddedText.CharTextOrdinary`, `Deviations.WideChar`).
- `strtoul` accepts a digit equal to the base, knows no digit above f, skips a `0x` with nothing behind
  it, and reads neither blanks nor a sign (`StrtoulStandard.StopsExactly`; `Deviations.OctalEight`,
  `Deviations.LetterZ`, `Deviations.BareHex`, `Deviations.BlankStops`). Out of range it wraps where the
  standard's returns ULONG_MAX (`StrtoulStandard.ValueIsStandard`). Base 0 is 10 whatever the prefix
  (`StrtoulStandard.BaseZeroExactly`, `StrtoulStandard.OctalAsDecimal`, `Deviations.OctalIsTen`).
- `gicv3_hw_init` stops one word short and leaves the last 32 implemented interrupts as reset left them
  (`Interrupts.InitExactly`, `Deviations.InitKeeps`).
- The enable register address is not bounded: unmasking a number from 1056 to 2047 disables the
  interrupt 1024 below, and some numbers beyond NR_IRQS reach the redistributor
  (`Interrupts.UnmaskExactly`, `Interrupts.MaskExactly`, `Deviations.UnmaskDisables`).

## Model

| member | source | states |
|---|---|---|
| Words.OrBits | arch/arm64/startup.S:109 | The OR of two words has a bit set exactly if one of them has: the arithmetic definition used for orr is the bitwise one |
| Startup.PopulateEntries | arch/arm64/startup.S:106-115 | Stores exactly one descriptor per pass, each a page further, in consecutive words, at least one; changes no other word; returns the address after the last table or page |
| Startup.IndicesTelescope | arch/arm64/startup.S:135-151 | Given the number of extra entries of the level above, both indices count from the first entry of the level's first table, and the count returned is the level's own number of extra entries |
| Startup.EarlyMap.LevelsApart | arch/arm64/startup.S:170-192 | No word of one level's tables is among the words another level writes |
| Startup.EarlyMap.TablesLaid | arch/arm64/startup.S:170-192 | After all four levels every entry of every level holds its intended descriptor, and every word outside the written index runs is unchanged |
| Startup.EarlyMap.WalkFetches | arch/arm64/startup.S:135-151 | The word the hardware fetches for an address in the table it has reached is the flat entry of that address's prefix |
| Startup.EarlyMap.WalkMapped | arch/arm64/startup.S:157-192 | The walk from the root returns phys plus the offset from vstart, with the given flags, for every address from vstart's page to the last, however many tables each level spans; a fault where that is 4 GB or more |
| Startup.EarlyMap.Translation | arch/arm64/startup.S:157-192 | On zeroed tables, in the whole 48-bit half: that result for exactly the pages of the range, a fault for every other address |
| Startup.MapMemory | arch/arm64/startup.S:170-192 | Memory afterwards is memory before with the four levels of the planned map written, the empty range included |
| Startup.MapLevel | arch/arm64/startup.S:175-191 | One level: writes that level's run and hands on the next table address and the number of extra entries |
| Startup.EmptyRangeMapsOnePage | arch/arm64/startup.S:107-115 | With vend = vstart the page loop stores one entry if and only if vstart is not 2 MB aligned |
| Startup.PagesUsed | arch/arm64/startup.S:153-166 | The tables occupy 1 + n1 + n2 + n3 pages, each n the number of entries one level up |
| Startup.ImageFitsReserved | arch/arm64/ld_script/kernel.lds.S:143-149 | An image inside one 1 GB region stays within the 11 reserved pages if and only if it touches at most eight 2 MB blocks |
| Startup.IdentityFitsReserved | arch/arm64/ld_script/kernel.lds.S:135-141 | The identity map stays within its 4 reserved pages if and only if its range lies in one 2 MB block |
| MemoryLayout.LinearRoundTrip | arch/arm64/include/asm/memory.h:79-102 | virt_to_phys(phys_to_virt(x)) = x on the 4 GB window exactly for all but its last byte (or if the image offset happens to be the linear offset) |
| MemoryLayout.LinearAddressRoundTrip | arch/arm64/include/asm/memory.h:79-90 | phys_to_virt(virt_to_phys(a)) = a for every linear-map address, and its physical address is a - PAGE_OFFSET + PHYS_OFFSET |
| KernelMap.Placement.ImageConversions | arch/arm64/include/asm/memory.h:82-89 | An image address is no linear-map address; virt_to_phys subtracts the image offset and phys_to_kimg undoes it |
| KernelMap.BlockDescriptorValue | arch/arm64/mmu_v3.c:169-172 | The chain of ORs is the address plus access flag, shareability, memory type and block bit, also when the address is not 2 MB aligned |
| KernelMap.WindowIndices | arch/arm64/mmu_v3.c:96-98 | In the 16 GB window the PGD, PUD and PMD indices of an address are 0, slot / 512 and slot mod 512 |
| KernelMap.PmdTableAt | arch/arm64/mmu_v3.c:163-167 | Masking the PUD entry and converting it back reaches the PMD table whose entry is the flat entry (va - VIRT_OFFSET) / 2 MB |
| KernelMap.LinksEffect | arch/arm64/mmu_v3.c:107-148 | The links lead from the PGD to the PUD and on to all sixteen PMD tables, and making them again changes nothing |
| KernelMap.KernelMmu.InitPagetables | arch/arm64/mmu_v3.c:107-148 | Links the three static tables, whether or not it has run before, and changes no other word |
| KernelMap.KernelMmu.MapSlot | arch/arm64/mmu_v3.c:163-174 | One round changes exactly the flat PMD word of the address's slot, to the block descriptor |
| KernelMap.KernelMmu.CreateSimpleMap | arch/arm64/mmu_v3.c:150-179 | Overlays exactly ceil(size / 2 MB) consecutive slots with consecutive blocks, keeps the links, changes nothing else |
| KernelMap.KernelMmu.SwitchMm | arch/arm64/mmu_v3.c:181-194 | For a table in the image, TTBR1 becomes the address at which the loaded image holds it: load address plus its distance from the link address |
| KernelMap.KernelMmu.CreateKernelMap | arch/arm64/mmu_v3.c:201-228 | Memory becomes links plus image, linear and device overlays on the old memory, and TTBR1 the physical address of the PGD |
| KernelWalk.SimpleMapAt | arch/arm64/mmu_v3.c:150-179 | Word by word: what create_simple_map leaves in each slot of its range, and the old word everywhere else |
| KernelWalk.ContentsAt | arch/arm64/mmu_v3.c:201-225 | Slot by slot, what the three overlays leave in the PMD tables, and only the links elsewhere |
| KernelRequests.RequestsRefine | arch/arm64/mmu_v3.c:150-179 | Any sequence of create_simple_map calls inside the window acts on the PMD words as overlays act on an abstract map from slots to blocks, and on no other word |
| KernelRequests.RequestOverlays | arch/arm64/mmu_v3.c:150-179 | One call is one overlay of ceil(size / 2 MB) consecutive slots |
| KernelRequests.KernelMapIsRequests | arch/arm64/mmu_v3.c:201-225 | create_kernel_map is the links followed by the image, linear and device requests |
| KernelWalk.SimpleMapsCommute | arch/arm64/mmu_v3.c:150-179 | create_simple_map calls on disjoint slots commute |
| KernelWalk.KernelTablesIdempotent | arch/arm64/mmu_v3.c:201-228 | Building the kernel map a second time changes no word |
| KernelWalk.KernelTranslation | arch/arm64/mmu_v3.c:201-228 | On zeroed tables the walk succeeds on exactly the image, linear and device slots, with the right address and memory type, and faults on every other 48-bit address |
| KernelWalk.KernelWalkMapped | arch/arm64/mmu_v3.c:201-228 | Filled slots translate as intended whatever the tables held before |
| KernelWalk.LinearAgrees | arch/arm64/include/asm/memory.h:88-96 | On the mapped linear region the hardware and virt_to_phys agree |
| KernelWalk.DeviceWindow | arch/arm64/mmu_v3.c:222-225 | For every x below 512 MB, 0xFFFF000300000000 + x translates to x as device memory, whatever the tables held before |
| KernelWalk.LinearWindow | arch/arm64/mmu_v3.c:214-219 | For every x below 1 GB, 0xFFFF000100000000 + x translates to 0x40000000 + x as normal memory |
| Boot.BootDevices | driver/interrupt/gicv3/gicv3.c:120-122 | In the end a register is found at its physical address plus the start of the device window |
| Boot.EarlyTranslation | arch/arm64/startup.S:230-250 | Under the early tables every image address translates to itself minus kimage_voffset, as normal memory |
| Boot.KernelImageTranslation | arch/arm64/mmu_v3.c:207-212 | Under the kernel's tables the same, and the same as virt_to_phys, given congruence modulo 2 MB and coverage |
| Boot.SwitchPreserves | arch/arm64/mmu_v3.c:201-228 | For every image address the early walk, the early walk after the new tables are built, the new walk and va - kimage_voffset agree in address and attributes |
| Boot.SwitchPreservesExactly | arch/arm64/mmu_v3.c:159-177 | On cleared static tables all image addresses keep their meaning if and only if the load address is congruent to the link address modulo 2 MB and the steps cover the image |
| Boot.EarlyKept | arch/arm64/mmu_v3.c:201-228 | Building the kernel's tables leaves an early map in place |
| Boot.ClearBss | arch/arm64/startup.S:302-310 | The 32-bit stores clear exactly the words of .bss |
| Boot.BootLayout.BeforeKernelMap | arch/arm64/startup.S:220-314 | When the kernel map is built both early maps are intact and the static tables are zero |
| Boot.BringUp | arch/arm64/startup.S:220-314 | The whole path from the first map_memory to the TTBR1 switch leaves the memory and base registers described by Final |
| Boot.BootImage | arch/arm64/startup.S:277-314 | Once the MMU is on, every image address translates to itself minus kimage_voffset |
| Boot.BootSwitch | arch/arm64/mmu_v3.c:201-228 | From reset memory of any contents, the switch keeps every image address if and only if congruence and coverage hold |
| Boot.BootIdentity | arch/arm64/startup.S:220-228 | Every page from the start of the startup section to its end, both rounded down, maps to itself when the MMU comes on and to the end |
| Boot.SectionCovered | arch/arm64/startup.S:222-223 | Those pages reach every byte of the section if and only if its end is a page boundary or lies in its first page |
| Boot.BootLowerHalf | arch/arm64/startup.S:220-228 | From zeroed early tables the lower half maps exactly those pages and faults everywhere else, when the MMU comes on and in the end |
| Boot.BootIdentityExactly | arch/arm64/startup.S:220-228 | From zeroed early tables the whole startup section maps to itself, then and in the end, if and only if its end is a page boundary or lies in its first page |
| Boot.PartialPageUnmapped | arch/arm64/startup.S:222-223 | From zeroed early tables, whenever the section ends in a partial page after its first, that page faults, then and in the end |
| Boot.BootKernelHalf | arch/arm64/mmu_v3.c:201-228 | In the end the upper half maps image, linear and device blocks and nothing else |
| TextBuffer.MemMove | lib/libc/string.c:163-184 | The source bytes arrive unchanged at the destination however the ranges overlap; nothing else changes |
| TextBuffer.MemCpy | lib/libc/string.c:151-161 | Copies exactly count bytes; nothing else changes |
| TextBuffer.MemSet | lib/libc/string.c:186-194 | Fills exactly count bytes; nothing else changes |
| Digits.LsbValue | kernel/printk.c:76-164 | The digit sequence the conversions are proved to write stands for the number and has no leading zero |
| Digits.ReciprocalSteps | kernel/printk.c:94-117 | Both multiply-and-shift steps are division by 100 over their stated ranges, and neither product overflows |
| Digits.PutDecTrunc8 | kernel/printk.c:90-128 | Below 10^8: writes exactly the decimal digits, least significant first, without leading zeros, within eight bytes |
| Digits.PutDecFull8 | kernel/printk.c:130-153 | Below 10^8: writes exactly eight digits, zeros included |
| Digits.PutDec | kernel/printk.c:155-164 | For every 64-bit number: exactly its decimal digits, within the 24-byte scratch array |
| Number.DigitsFit | kernel/printk.c:171 | In base 8, 10 or 16 a 64-bit number has at most 22 digits, so the scratch array holds them |
| Number.ScratchDigits | kernel/printk.c:207-224 | Each of the three ways to convert leaves the number's digits in the scratch array |
| Number.Number | kernel/printk.c:169-293 | For every number, flag set, width and precision writes the layout blanks, sign, prefix, zeros, digits, blanks, cut off where the buffer ends, and advances by the full length |
| Number.NumberLength | kernel/printk.c:226-290 | The length is the larger of the natural length and the width, and of the natural length and width - 1 when right-justified without 0 |
| Number.NumberFillsField | kernel/printk.c:226-290 | The text reaches the field width if and only if it is left-justified, zero-padded or that long anyway |
| Number.PointerString | kernel/printk.c:296-307 | Prints a pointer as that layout in lower-case hexadecimal, with the field width given or the default |
| PointerText.PointerDefault | kernel/printk.c:296-307 | Without flags and width that is exactly 16 hexadecimal digits, zeros included, which strtoul reads back as the pointer |
| PointerText.PointerSwallows | kernel/printk.c:651-655 | Any %p directive prints its pointer and then the rest of the format if and only if no letter or digit follows it |
| PointerText.PointerLosesLetter | kernel/printk.c:653-654 | The text of %px is that of %p, without the x |
| PaddedText.MoveRight | kernel/printk.c:330-350 | Moves what fits, blanks the gap, touches nothing outside |
| PaddedText.ShiftIsPadding | kernel/printk.c:330-373 | Shifting text already truncated at the end of the buffer gives the bytes of spaces ++ text written outright |
| PaddedText.WidenString | kernel/printk.c:352-373 | Pads the text just written to the width on the side the flag says, for any remaining room |
| PaddedText.String | kernel/printk.c:375-393 | Writes the text cut to the precision in a field of the width, exact under truncation, and returns the untruncated end |
| PaddedText.PutChar | kernel/printk.c:622-646 | Writes the character with the blanks the two countdowns of the 24-bit field produce |
| PaddedText.CharTextOrdinary | kernel/printk.c:622-646 | Those blanks make a field of exactly the width if and only if the width is not at the bottom of the bit-field's range |
| FormatDecode.Run | kernel/printk.c:395-552 | From any resume state, over the C string alone, consumes and decodes what the functional description of format_decode says |
| FormatDecode.SkipAtoi | kernel/printk.c:309-318 | The value of the digit run in wrapping 32-bit arithmetic, and the position after it |
| FormatDecode.DecodeProgress | kernel/printk.c:596-601 | On a nonempty rest every call, from any resume state, consumes a character or reports INVALID |
| Render.DecodeStep | kernel/printk.c:395-552 | Each call of format_decode, whichever way it stops, leaves exactly the rest of the reference rendering to be produced |
| Vsnprintf.Vsnprintf | kernel/printk.c:581-719 | For every format, argument list and size: terminates, returns the length of the full rendering, and leaves the buffer as the next row says |
| Vsnprintf.PrintedIsPrefix | kernel/printk.c:709-718 | The first min(len, size - 1) characters, then NUL, then the old bytes; for size 0 nothing is stored |
| Vsnprintf.Round | kernel/printk.c:596-707 | One round of the loop moves text from what is still to come to what has been printed, and their concatenation stays the same |
| Vsnprintf.EmitConversion | kernel/printk.c:602-705 | Each case of the switch prints the reference text of its conversion |
| Conversions.SignedConversion | kernel/printk.c:523-551 | %d and %i with any flags, width, precision and length print the integer of that length the argument is congruent to, in the field described from the characters alone, and then the rest of the format |
| Conversions.UnsignedConversion | kernel/printk.c:513-551 | %u, %o, %x and %X likewise, in their base and letter case, with the prefix # asks for |
| Conversions.FlagsExactly | kernel/printk.c:427-456 | A flag is on if and only if its character occurs in the flag string |
| Conversions.CharConversion | kernel/printk.c:622-646 | %c prints the byte its argument is congruent to, in a field of exactly the width |
| Conversions.StringConversion | kernel/printk.c:375-393 | %s prints at most as much as the precision lets through, in a field of exactly the width |
| Conversions.PercentConversion | kernel/printk.c:657-662 | %% prints one % and takes no argument |
| Conversions.PointerConversion | kernel/printk.c:651-655 | %p with any flags, width and precision prints its argument in lower-case hexadecimal, by default in 16 zero-filled columns, and goes on after the letters and digits that follow |
| Conversions.UnknownConversion | kernel/printk.c:531-534 | Any other character in the place of the letter ends the output |
| Conversions.PlainText | kernel/printk.c:418-425 | A format without % prints as it stands |
| Conversions.DigitsAreNumeral | kernel/printk.c:180-224 | The digits printed are the positional numeral over 0-9a-f with the flag for small letters and over 0-9A-F otherwise |
| Conversions.NumberCase | kernel/printk.c:182-258 | A number has no capital in it with the flag for small letters and no small letter without, the x of its prefix included |
| Conversions.PointerCase | kernel/printk.c:296-307 | A pointer has no capital in it |
| Conversions.BarePeriod | kernel/printk.c:469-481 | A period with neither digits nor * behind it changes nothing |
| Conversions.BarePeriodString | kernel/printk.c:469-481 | For %s a bare period prints like precision zero if and only if the field hides that the text is cut off |
| Conversions.PeriodNumbers | kernel/printk.c:226-228 | For numbers precision zero prints like none |
| Conversions.PtrdiffExactly | kernel/printk.c:537-549 | %td prints the 64-bit value of its argument if and only if that fits 32 bits |
| StandardNumbers.SignedExactly | kernel/printk.c:226-290 | %d prints what the C standard prints if and only if it is not zero with precision zero and the field has no room, is left-justified, or is zero-filled without a precision |
| StandardNumbers.UnsignedExactly | kernel/printk.c:200-290 | %u, %o, %x and %X print what the standard prints if and only if the field fits in that sense, zero with precision zero is octal with #, no 0x is asked for before zero, and no octal 0 before precision zeros |
| Ctype.ClassesAreRanges | lib/ctype.c:3-36 | The ranges used for isalnum, isxdigit and isdigit are those of the _ctype table |
| StarArgs.StarWidth | kernel/printk.c:458-465 | A positive width given by * prints like the same width written out in decimal, if the 24-bit field holds it as a non-negative value |
| StarLimits.StarWidthForAll | kernel/printk.c:400-407 | That holds for all flags, all continuations and all arguments if and only if the field holds the width as a non-negative value |
| StarLimits.StarWidthExactly | kernel/printk.c:400-407 | For %s of an empty string the two differ for every width the field turns negative, its lowest value excepted |
| StarLimits.LowestWidth | kernel/printk.c:400-407 | At that lowest value %c differs |
| StarArgs.StarNegativeWidth | kernel/printk.c:400-407 | A negative width, if the field holds it as negative, prints like the flag - and the width without its sign |
| StarLimits.StarNegativeWidthForAll | kernel/printk.c:400-407 | That holds for all flags, continuations and arguments if and only if the field does not turn the width positive |
| StarLimits.PositiveField | kernel/printk.c:400-407 | Where it does, %s of an empty string differs |
| StarArgs.StarPrecision | kernel/printk.c:409-415 | A precision given by .* prints like the same precision written out, a negative one like 0, unless the 16-bit field turns a negative one positive |
| PrecisionArgs.StarPrecisionForAll | kernel/printk.c:409-415 | That holds for all flags, widths, continuations and arguments if and only if the field does not turn a negative precision positive |
| PrecisionArgs.NegativePrecisionForAll | kernel/printk.c:409-415 | All valid conversions but %s take a negative precision as an omitted one, for all flags, widths, continuations and arguments, if and only if the 16-bit field makes it at most 1 |
| PrecisionArgs.NegativePrecision | kernel/printk.c:409-415 | The same for one conversion, given that the field makes it at most 1 |
| PrecisionArgs.LongZero | kernel/printk.c:409-415 | Where the field makes it more than 1, %u of 0 differs |
| PrecisionArgs.NegativePrecisionInteger | kernel/printk.c:409-415 | An integer conversion without a width does so for any negative precision if and only if the field's value is no longer than the digits |
| PrecisionArgs.NegativePrecisionString | kernel/printk.c:409-415 | %s, for all flags, widths, continuations and arguments, does so if and only if the text is no longer than the field's value, or the width hides the cut: left-justified, only blanks are cut off; right-justified, the text is all blanks |
| PrecisionArgs.NegativePrecisionHidesText | kernel/printk.c:410-412 | %.*s with precision -1 prints nothing of "x", %s prints it |
| StarArgs.StarWidthAndPrecision | kernel/printk.c:614-620 | Both together |
| Strtoul.StrToUl | lib/libc/string.c:196-222 | Returns the wrapping value of the accepted run after an optional 0x in base 16, and the position after it |
| Strtoul.AccumulatedValue | lib/libc/string.c:208-216 | The accumulated result is the positional value of the run it read, modulo 2^64 when that overflows |
| StrtoulStandard.RunIsStandard | lib/libc/string.c:208-213 | For every base up to 36 the run read is the one of digits below the base if and only if that run has no letter from g on and does not end at a hexadecimal digit equal to the base |
| StrtoulStandard.EndIsStandard | lib/libc/string.c:204-219 | Without blanks or sign in front, reading stops where the C standard says if and only if that holds and no 0x stands without a hexadecimal digit behind it |
| StrtoulStandard.StopsExactly | lib/libc/string.c:196-222 | For any text: the same, and behind blanks or a sign if and only if no number follows them |
| StrtoulStandard.ValueIsStandard | lib/libc/string.c:214 | The result is the standard's, ULONG_MAX for a number out of range, if and only if the number is in range or wraps to that value |
| StrtoulStandard.BaseZeroExactly | lib/libc/string.c:200-202 | For base 0 reading stops where the standard says if and only if the text has no hexadecimal prefix and no digit up to 10 follows the standard's run |
| StrtoulStandard.OctalAsDecimal | lib/libc/string.c:200-202 | A run of octal digits has the same value in base 10 and in base 8 if and only if all but its last digit are 0 |
| Strtoul.RoundTrip | lib/libc/string.c:196-222 | strtoul on what number wrote returns the number and stops after its last digit, for all values, bases, widths, precisions, cases and prefixes, if and only if number wrote no sign and no blank in front |
| Strtoul.DirtyStart | lib/libc/string.c:208-216 | With a sign or blank in front strtoul consumes nothing |
| PrintParse.PrintThenParse | kernel/printk.c:499-551 | The text %lo, %lu, %lx or %lX prints, with or without #, is read back by strtoul to the same number and to its end, for all 2^64 numbers |
| PrintParse.SignedDecimal | kernel/printk.c:187-199 | %ld prints the two's-complement value: a minus sign for the upper half, then the digits of the absolute value, INT64_MIN included |
| List.MutuallyInverse | include/eeos/list.h:46-53 | Along a ring next and prev undo each other at every node |
| List.InitListHead | include/eeos/list.h:34-38 | Makes a ring of one |
| List.InsertBetween | include/eeos/list.h:46-53 | Puts a node between two neighbours, also when they are the same node; any other ring stays a ring |
| List.ListAdd | include/eeos/list.h:63-66 | Pushes to the front |
| List.ListAddTail | include/eeos/list.h:76-79 | Pushes to the back |
| List.ListDel | include/eeos/list.h:88-111 | Removes the node at any place and leaves its own links; alone, nothing changes |
| List.ListReplace | include/eeos/list.h:120-126 | Substitutes the new node, also for a ring of one, where the writes alias |
| List.ListReplaceInit | include/eeos/list.h:135-139 | The same, and the old node is a ring of its own |
| List.ListEmpty | include/eeos/list.h:166-169 | True if and only if the ring is the head alone |
| List.AddThenDelete | include/eeos/list.h:63-111 | Deleting the node just added restores every link of the ring |
| List.ForEachSafe | include/eeos/list.h:246-247 | With a body that deletes the current node or not: visits every original node once, in order, terminates, and leaves the ring of exactly the nodes kept |
| List.SweptStep | include/eeos/list.h:246-247 | One step of the sweep, kept or deleted, yields the ring the next step starts from |
| Interrupts.MaskWord | driver/interrupt/gicv3/gicv3.c:53 | The word has exactly the interrupt's bit set |
| Interrupts.MaskEffect | driver/interrupt/gicv3/gicv3.c:49-60 | What masking any 32-bit number does to every interrupt, including where the register address leaves its bank |
| Interrupts.UnmaskEffect | driver/interrupt/gicv3/gicv3.c:62-73 | The same for unmasking |
| Interrupts.MaskExactly | driver/interrupt/gicv3/gicv3.c:49-60 | Masking disables that interrupt and touches no other if and only if the address does not stray onto one it would change |
| Interrupts.UnmaskExactly | driver/interrupt/gicv3/gicv3.c:62-73 | Unmasking enables that interrupt and touches no other if and only if the address does not stray onto one it would change |
| Interrupts.ImplementedExactly | driver/interrupt/gicv3/gicv3.c:126-127 | The interrupts taken as implemented are those below 1020 whose word number does not exceed ITLinesNumber |
| Interrupts.InitExactly | driver/interrupt/gicv3/gicv3.c:126-181 | After initialisation exactly the SGIs are enabled if and only if no interrupt of the last implemented word was enabled at reset |
| Interrupts.Gic.HwInit | driver/interrupt/gicv3/gicv3.c:126-181 | The disable loop and the two redistributor writes leave the SGIs and the last implemented word's old bits |
| Interrupts.Gic.MaskIrq | driver/interrupt/gicv3/gicv3.c:49-60 | The register write takes the machine to the state after masking |
| Interrupts.Gic.UnmaskIrq | driver/interrupt/gicv3/gicv3.c:62-73 | The register write takes the machine to the state after unmasking |
| Interrupts.Gic.RequestIrq | driver/interrupt/interrupt.c:159-183 | Installs and unmasks, or returns -EINVAL and changes nothing |
| Interrupts.Gic.GenericHandleIrq | driver/interrupt/interrupt.c:88-97 | Runs the descriptor's handler, or returns -EINVAL |
| Interrupts.Gic.HandleIrq | driver/interrupt/gicv3/gicv3.c:90-104 | Acknowledge, dispatch, end of interrupt; special IDs do nothing |
| Interrupts.Gic.HandleDomainIrq | driver/interrupt/interrupt.c:126-135 | The same inside one more nesting level |
| Interrupts.Gic.DriverInit | driver/interrupt/interrupt.c:104-124 | Registers chip and handler and initialises the controller |
| Interrupts.Gic.Perform | driver/interrupt/interrupt.c:126-183 | A whole run of calls and nested interrupts is the functional run |
| InterruptRuns.RequestEnables | driver/interrupt/interrupt.c:159-183 | An accepted request leaves the interrupt enabled, its descriptor filled in, with the old handler if none is given, and every other descriptor alone; a rejected one changes nothing |
| InterruptRuns.InterruptAnswered | driver/interrupt/gicv3/gicv3.c:90-104 | With a controller installed, an interrupt is acknowledged first, its handler runs next at one more nesting, its end comes last, if and only if the ID is below 1020 or above 1023; otherwise everything stays as it was |
| InterruptRuns.RunKeeps | driver/interrupt/interrupt.c:126-183 | Every run, nested at will, keeps the enable, handler and protocol invariant and restores the nest count |
| InterruptRuns.EnabledOverRuns | driver/interrupt/gicv3/gicv3.c:49-73 | After initialisation and any run an interrupt is enabled if and only if it is implemented and the last operation that reached it turned it on |
| InterruptRuns.LastOperationWins | driver/interrupt/gicv3/gicv3.c:49-73 | Over runs without straying numbers: SGIs and what reset left in the last word, overruled by the last mask, unmask or request of each interrupt |
| InterruptCalls.RunCalls | driver/interrupt/interrupt.c:88-183 | A run's register operations and acknowledges are, in order, exactly those its list of operations asks for, those of the installed handlers' bodies included, and it leaves the handlers those operations leave |
| InterruptCalls.EnabledAsCalled | driver/interrupt/interrupt.c:137-151 | Over runs of ordinary numbers an interrupt is enabled if and only if it is implemented and the last request, mask or unmask in that list turned it on, or none names it and it was on after initialisation |
| InterruptCalls.InterruptTaken | driver/interrupt/gicv3/gicv3.c:94-103 | Every interrupt among the operations of a run, 1020 to 1023 excepted, is acknowledged in it |
| InterruptRuns.ProtocolOverRuns | driver/interrupt/gicv3/gicv3.c:90-104 | Any run's trace obeys the stack discipline of acknowledge, one handler run, end, with nothing left in progress, and the nest count returns to its prior value |
| InterruptRuns.EveryAckEnds | driver/interrupt/gicv3/gicv3.c:94-103 | Every acknowledge, at any depth, is answered by an end of the same ID that restores what was in progress, after the handler most recently installed for it has run |
| Deviations.EmptyRangeOverruns | arch/arm64/startup.S:107-115 | The empty range at 2 MB asks the page loop for 2^64 entries |
| Deviations.ExampleValid | arch/arm64/ld_script/kernel.lds.S:11-179 | A concrete layout, linked and loaded as the repository does, meets every hypothesis of the boot theorems |
| Deviations.ImageTooLong | arch/arm64/mmu_v3.c:159-177 | With its image of exactly 2 MB the last byte is mapped when the MMU comes on and faults after the switch |
| Deviations.PartialPage | arch/arm64/startup.S:222-223 | Its startup section of one page and 256 bytes ends in a partial page, at 0x40081000 |
| Deviations.LastLinearByte | arch/arm64/include/asm/memory.h:79-80 | The last byte of the linear window does not come back |
| Deviations.FieldOneShort | kernel/printk.c:231 | 7 in a field of 3 is two characters |
| Deviations.NumbersDiffer | kernel/printk.c:187-290 | %.0u and %#x of 0, %#.3o of 8 and %08.3u of 7 differ from the standard |
| Deviations.LongDifference | kernel/printk.c:547-549 | %td of 2^32 does not print 4294967296 |
| Deviations.WideChar | kernel/printk.c:625 | %c at the lowest width prints more than 8 million characters |
| Deviations.OctalEight | lib/libc/string.c:211 | strtoul of 8 in base 8 is 8 |
| Deviations.BlankStops | lib/libc/string.c:208-216 | strtoul of a blank and 7 reads nothing |
| Deviations.LetterZ | lib/libc/string.c:208 | strtoul reads nothing of z in base 36 |
| Deviations.BareHex | lib/libc/string.c:204-206 | strtoul stops behind the x of 0xg in base 16, the standard's behind the 0 |
| Deviations.OctalIsTen | lib/libc/string.c:200-202 | strtoul of 010 in base 0 is 10, the standard's 8 |
| Deviations.UnmaskDisables | driver/interrupt/gicv3/gicv3.c:62-73 | Unmasking 1064 disables 40 |
| Deviations.InitKeeps | driver/interrupt/gicv3/gicv3.c:127-145 | With ITLinesNumber 1, interrupt 40 survives initialisation |

## Left out

- TLB maintenance, barriers, cache attributes beyond the descriptor bits, and all system registers except TTBR0 and TTBR1.
- Permission checks and the hierarchical attributes of table descriptors; the attributes of a leaf are carried, not interpreted.
- Stores and loads of `mmu_v3.c` and of `bss_clear` go to va - kimage_voffset directly; `Boot.EarlyTranslation` proves that this is where the tables in force send them, but the walk is not repeated for each store.
- The table size 512 and the increment 4096 are fixed in the model of the macros, which take them as parameters; both calls pass these values.
- The linker script's placement of sections is a hypothesis (`Boot.BootLayout.Valid`), not derived from the script; so is the page alignment of the image's end (`arch/arm64/ld_script/kernel.lds.S:177-178`).
- Boot.BootLayout.BeforeKernelMap: takes the static tables to lie in .bss and the page-table areas apart from it, as the linker script places them.
- Startup.MapMemory: assumes memory of at most 4 GB (all the MMU can address as configured), 48-bit page addresses, and a range in one 48-bit half; an empty range on a 2 MB boundary is excluded here and characterised by `Startup.EmptyRangeMapsOnePage`.
- The variable-argument ABI: arguments are a sequence of 64-bit slots with the string a pointer leads to; an argument the caller did not pass, which C leaves undefined, reads as 0 or "".
- Vsnprintf.Vsnprintf: format, arguments and buffer do not overlap; the buffer does not wrap round the address space; lengths are unbounded, so the truncation of the result to int at 2^31 is not modelled.
- Signed overflow in `skip_atoi`, undefined in C, is taken as two's-complement wrap, as is the negation of INT64_MIN in `number`.
- `decpair` is modelled by the two characters each entry holds, not as a table of 16-bit words in memory order.
- `vsprintf`, `printk`, `vprintk`, the console and UART: plumbing around `vsnprintf`.
- The remaining string helpers (`strlen`, `strcmp`, `strncmp`, `strchr`, `strstr`, `memcmp` and others): single loops with easy contracts.
- List.ForEachSafe: the body either deletes the current node or leaves the list alone, as the safe iteration promises to allow; backward and entry-based iteration, `__list_del_clearprev`, `list_is_first` and `list_is_last` are easy variants.
- Register writes that miss the enable banks change other registers, which the model does not have, and for numbers from 0xC0000000 on they leave the 512 MB device mapping and fault, where the model leaves the state unchanged; one redistributor is modelled, at the address `gicv3_driver_init` passes.
- Handler bodies are arbitrary sequences of requests, masks, unmasks and further interrupts; what else they do, and the unused descriptor fields, are not modelled.
- The rest of `gicv3_hw_init` (priorities, groups, wake-up polling), the timers, `plic.c`, `vector.S` and the constant-loading macros: register set-up and straight-line code.
