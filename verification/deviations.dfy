/** Concrete inputs on which the code departs from what its comments, its names or the C standard lead
    one to expect. The exact conditions stand beside the definitions; these are the smallest cases. */
module Deviations {
  import opened Words
  import opened HardwareWalk
  import opened MemoryLayout
  import opened Startup
  import opened KernelMap
  import opened KernelWalk
  import opened Boot
  import opened TextBuffer
  import opened Digits
  import opened FormatSpec
  import opened Number
  import opened PaddedText
  import opened Strtoul
  import opened StrtoulStandard
  import opened ConversionSpec
  import opened StandardNumbers
  import Conversions
  import Render
  import Interrupts

  /** map_memory on an empty range at 2 MB asks the page loop for 2^64 entries. */
  lemma EmptyRangeOverruns()
    ensures var v := 0x20_0000;
            var r := ComputeIndices(v, v - 1, 3, ExtraEntries(v, v, 3));
            Passes(r.istart, r.iend) == TWO64
  {
    var v := 0x20_0000;
    assert ExtraEntries(v, v, 1) == 0;
    assert ExtraEntries(v, v, 2) == 0;
    assert ExtraEntries(v, v, 3) == TWO64 - 1;
  }

  /** An image of 2 MB, linked 512 KB into a block and loaded likewise, whose startup section reaches
      256 bytes into its second page. */
  predicate IsExample(b: BootLayout) {
    && b.p == Placement(KIMAGE_VADDR + 0x1_0000, KIMAGE_VADDR + 0x1_1000, KIMAGE_VADDR + 0x1_2000,
                        KIMAGE_VADDR + 0x20_0000, 0x4008_0000)
    && b.idTable == 0x400A_8000 && b.imageTable == 0x400B_0000
    && b.textStart == 0x4008_0000 && b.textEnd == 0x4008_1100
    && b.bssStart == KIMAGE_VADDR + 0x1_0000 && b.bssEnd == KIMAGE_VADDR + 0x2_2000
  }

  /** Two gigabytes of memory below and in the linear region. */
  const EXAMPLE_WORDS: nat := 0x1000_0000

  /** A range inside one 1 GB region takes four pages of tables and one more for each further block. */
  lemma TablesEnd(e: EarlyMap)
    requires e.vstart <= e.last && e.vstart / 0x4000_0000 == e.last / 0x4000_0000
    ensures Prefix(e.vstart, -1) == Prefix(e.last, -1)
    ensures e.Base(4) == e.tbl + 4096 * (4 + e.last / 0x20_0000 - e.vstart / 0x20_0000)
    ensures e.Count(3) == e.last / 4096 - e.vstart / 4096 + 1
  {
    PrefixIsShift(e.vstart);
    PrefixIsShift(e.last);
    PrefixNests(e.vstart, 1);
    PrefixNests(e.last, 1);
    PrefixNests(e.vstart, 0);
    PrefixNests(e.last, 0);
    hide Prefix;
    PagesUsed(e);
  }

  /** The two early maps of the layout. */
  predicate IsIdentity(e: EarlyMap) {
    e.tbl == 0x400A_8000 && e.vstart == 0x4008_0000 && e.last == 0x4008_0FFF && e.phys == 0x4008_0000
    && e.flags == PAGE_FLAGS
  }

  predicate IsImage(e: EarlyMap) {
    e.tbl == 0x400B_0000 && e.vstart == KIMAGE_VADDR && e.last == KIMAGE_VADDR + 0x1F_FFFF && e.phys == 0x4008_0000
    && e.flags == PAGE_FLAGS
  }

  lemma ExampleMaps(b: BootLayout)
    requires IsExample(b)
    ensures IsIdentity(b.Identity()) && IsImage(b.Image())
    ensures PageOf(b.textStart) == 0x4008_0000 && PageOf(b.textEnd) == 0x4008_1000
  {
  }

  lemma ExampleStatics(b: BootLayout)
    requires IsExample(b)
    ensures b.p.Valid(EXAMPLE_WORDS) && b.StaticInBss()
    ensures b.p.ImagePhys(b.bssStart) == 0x4009_0000 && b.p.ImagePhys(b.bssEnd) == 0x400A_2000
  {
  }

  /** A map's numbers: where its tables end, and how many pages it maps. */
  lemma MapNumbers(e: EarlyMap)
    requires IsIdentity(e) || IsImage(e)
    ensures e.Base(4) == if IsIdentity(e) then 0x400A_C000 else 0x400B_5000
    ensures e.Count(3) == if IsIdentity(e) then 1 else 512
    ensures Prefix(e.vstart, -1) == Prefix(e.last, -1)
  {
    hide EarlyMap.Base, EarlyMap.Count, Prefix;
    TablesEnd(e);
  }

  lemma ValidMap(e: EarlyMap)
    requires IsIdentity(e) || IsImage(e)
    ensures e.Valid(EXAMPLE_WORDS)
  {
    FlagsAreNormal();
    hide EarlyMap.Base, EarlyMap.Count, Prefix, AttributeBits;
    MapNumbers(e);
  }

  /** The layout meets every hypothesis of the boot theorems. */
  lemma ExampleValid(b: BootLayout)
    requires IsExample(b)
    ensures b.Valid(EXAMPLE_WORDS) && b.p.Valid(EXAMPLE_WORDS)
  {
    hide EarlyMap.Valid, EarlyMap.Base, EarlyMap.Count, Prefix, Placement.Valid, Placement.ImagePhys,
      BootLayout.Identity, BootLayout.Image, BootLayout.StaticInBss, IsExample, PageOf;
    ExampleStatics(b);
    ExampleMaps(b);
    ValidMap(b.Identity());
    ValidMap(b.Image());
    MapNumbers(b.Identity());
    MapNumbers(b.Image());
  }

  /** The one block that create_simple_map lays down does not cover the last 512 KB: the last byte is
      mapped when the MMU comes on and lost at the switch. */
  lemma ImageTooLong(b: BootLayout, m: seq<u64>)
    requires IsExample(b) && |m| == EXAMPLE_WORDS
    ensures b.Valid(|m|) && b.p.Valid(|m|)
    ensures var last := KIMAGE_VADDR + 0x1F_FFFF;
            && Translate(b.MmuOn(m), b.idTable, b.imageTable, last) == Mapped(0x4027_FFFF, NORMAL)
            && Translate(b.Final(m), b.idTable, b.p.Root(|m|), last) == Fault
  {
    hide BootLayout.Valid, Placement.Valid, BootLayout.MmuOn, BootLayout.Final, Translate, Placement.Root,
      Placement.InImage, Placement.Voffset, KernelMapping, IsExample;
    ExampleLast(b);
    ExampleValid(b);
    BootImage(b, m, KIMAGE_VADDR + 0x1F_FFFF);
    BootKernelHalf(b, m, KIMAGE_VADDR + 0x1F_FFFF);
  }

  lemma ExampleLast(b: BootLayout)
    requires IsExample(b)
    ensures var last := KIMAGE_VADDR + 0x1F_FFFF;
            && b.p.InImage(last) && Wrap64(last - b.p.Voffset()) == 0x4027_FFFF
            && b.p.kimageEnd > KIMAGE_VADDR && KernelMapping(b.p, last - VIRT_OFFSET) == Fault
  {
    assert SlotCount(b.p.Size()) == 1;
  }

  /** The startup section does not end with its page, so its second page is not identity-mapped. */
  lemma PartialPage(b: BootLayout)
    requires IsExample(b)
    ensures b.Valid(EXAMPLE_WORDS) && b.textStart <= b.textEnd && !b.WholePages() && PageOf(b.textEnd) == 0x4008_1000
  {
    ExampleSection(b);
    hide *;
    ExampleValid(b);
  }

  lemma ExampleSection(b: BootLayout)
    requires IsExample(b)
    ensures b.textStart <= b.textEnd && !b.WholePages() && PageOf(b.textEnd) == 0x4008_1000
  {
  }

  /** The last byte of the linear window does not come back from phys_to_virt. */
  lemma LastLinearByte(voffset: u64)
    requires voffset != PAGE_OFFSET - PHYS_OFFSET
    ensures VirtToPhys(PhysToVirt(0x1_3FFF_FFFF), voffset) != 0x1_3FFF_FFFF
  {
    hide VirtToPhys, PhysToVirt, Wrap64;
    NoWrap(0xFFFF_FFFF);
    LinearRoundTrip(0x1_3FFF_FFFF, voffset);
  }

  /** %3lu of 7 is two characters wide. */
  lemma FieldOneShort()
    ensures NumberText(7, Spec(TypeULong, 3, NO_FLAGS, 10, -1)) == " 7"
  {
    assert Lsb(7, 10) == [7];
    assert Reverse(Chars([7], false)) == "7";
    assert Repeat(' ', 1) == " " && Repeat('0', 0) == "" && Repeat('0', -2) == "" && Repeat(' ', 0) == "";
    hide Lsb, Chars, Reverse, Repeat;
  }

  /** Where integers differ from the standard: zero with precision zero is printed, 0x stands before zero,
      an octal 0 before precision zeros, and the flag 0 fills in spite of a precision. */
  lemma NumbersDiffer()
    ensures UnsignedText("", 0, 0, 'u', 0) != StandardUnsigned("", 0, 0, 'u', 0)
    ensures UnsignedText("#", 0, -1, 'x', 0) != StandardUnsigned("#", 0, -1, 'x', 0)
    ensures UnsignedText("#", 0, 3, 'o', 8) != StandardUnsigned("#", 0, 3, 'o', 8)
    ensures UnsignedText("0", 8, 3, 'u', 7) != StandardUnsigned("0", 8, 3, 'u', 7)
  {
    hide UnsignedText, StandardUnsigned;
    assert "#"[0] in "#" && "0"[0] in "0" && '-' !in "0";
    UnsignedExactly("", 0, 0, 'u', 0);
    UnsignedExactly("#", 0, -1, 'x', 0);
    UnsignedExactly("#", 0, 3, 'o', 8);
    UnsignedExactly("0", 8, 3, 'u', 7);
    ShortNumerals();
  }

  lemma ShortNumerals()
    ensures |Numeral(8, 8, false)| == 2
    ensures CodeLength("0", 3, 'u', 7) == 3
  {
    assert Numeral(8, 8, false) == Numeral(1, 8, false) + "0" && |Numeral(1, 8, false)| == 1;
    assert |Numeral(7, 10, false)| == 1;
  }

  /** %td drops the upper half of its argument. */
  lemma LongDifference()
    ensures Render.Render(Specification("", 0, -1, "t", 'd'), [Render.Arg(0x1_0000_0000, "")])
            != SignedText("", 0, -1, 0x1_0000_0000)
  {
    var a := Render.Arg(0x1_0000_0000, "");
    assert [a] + [] == [a];
    hide Render.Render, Specification, SignedText;
    Conversions.PtrdiffExactly(a, 0x1_0000_0000, []);
  }

  /** %c at the lowest width prints more than its character. */
  lemma WideChar(c: char)
    ensures |CharText(c, Spec(TypeChar, -0x80_0000, NO_FLAGS, 10, -1))| > 0x7F_FFFF
  {
    assert Countdown(-0x80_0000) == 0x7F_FFFF;
  }

  /** strtoul reads the digit 8 in base 8. */
  lemma OctalEight()
    ensures Parsed("8", 8) == (8, 1)
  {
    assert Accepts("8"[0], 8) && HexValue("8"[0]) == 8;
    hide Accepts, HexValue, Parsed, Accumulated;
    RunIs("8", 8, 1);
    assert "8"[0..] == "8" && "8"[..1] == "" + ['8'];
    AccumulatedNone("", 8);
    AccumulatedStep("", '8', 8);
    ParsedWhen("8", 8, 0, 1);
  }

  /** strtoul reads nothing of a number behind a blank. */
  lemma BlankStops()
    ensures Parsed(" 7", 10) == (0, 0)
  {
    assert !Accepts(" 7"[0], 10);
    hide Accepts, HexValue, Parsed, Accumulated;
    RunIs(" 7", 10, 0);
    assert " 7"[0..] == " 7" && " 7"[..0] == "";
    AccumulatedNone("", 10);
    ParsedWhen(" 7", 10, 0, 0);
  }

  lemma LastLetter()
    ensures DigitValue('z') == 35 && !IsHexDigit('z')
  {
  }

  lemma RunOfOne(s: string, base: nat)
    requires |s| == 1 && DigitValue(s[0]) < base
    ensures StandardRun(s, base) == 1
  {
    assert s[1..] == "";
  }

  lemma NoLead(s: string)
    requires s != "" && !IsBlank(s[0]) && s[0] != '+' && s[0] != '-'
    ensures Lead(s) == 0
  {
  }

  /** strtoul does not read the digit z in base 36, which the standard's does. */
  lemma LetterZ()
    ensures Parsed("z", 36).1 == 0 && Stop("z", 36) == 1
  {
    LastLetter();
    hide DigitValue, IsHexDigit, HexValue;
    RunIs("z", 36, 0);
    assert "z"[0..] == "z" && "z"[1..] == "";
    RunOfOne("z", 36);
    NoLead("z");
  }

  /** strtoul skips 0x with no digit behind it; the standard's stops after the 0. */
  lemma BareHex()
    ensures Parsed("0xg", 16).1 == 2 && Stop("0xg", 16) == 1
  {
    assert "0xg"[2] == 'g' && !IsHexDigit('g');
    BareEnds("0xg");
    assert Lead("0xg") == 0 && "0xg"[0..] == "0xg";
  }

  /** In base 0 the text 010 is ten, where the standard reads the octal eight. */
  lemma OctalIsTen()
    ensures Parsed("010", 10) == (10, 3)
    ensures ChosenBase("010") == 8 && ValueOf(DigitValues("010"), 8) == 8
  {
    var s := "010";
    assert s[..2] == "01" && s[..1] == "0" && "01"[..1] == "0" && "0"[..0] == "";
    assert HexValue('0') == 0 && HexValue('1') == 1;
    RunIs(s, 10, 3);
    assert s[0..] == s && s[0..][..3] == s;
    TenDigits();
    ParsedWhen(s, 10, 0, 3);
    hide Parsed, Accumulated, DigitValues;
  }

  lemma TenDigits()
    ensures Accumulated("010", 10) == 10
    ensures ValueOf(DigitValues("010"), 8) == 8
  {
    assert DigitValues("") == [];
    assert "0"[..0] == "";
    assert DigitValues("0") == [0];
    assert "01"[..1] == "0";
    assert DigitValues("01") == [1, 0];
    assert "010"[..2] == "01";
    assert DigitValues("010") == [0, 1, 0];
    AccumulatedValue("010", 10);
    DigitsOfTen();
  }

  lemma DigitsOfTen()
    ensures ValueOf([0, 1, 0], 10) == 10 && ValueOf([0, 1, 0], 8) == 8
  {
    assert [0, 1, 0][1..] == [1, 0] && [1, 0][1..] == [0] && [0][1..] == [];
    assert ValueOf([1, 0], 10) == 1 && ValueOf([1, 0], 8) == 1;
  }

  /** Unmasking interrupt 1064 disables interrupt 40. */
  lemma UnmaskDisables(m: Interrupts.Machine)
    requires m.Valid() && m.Enabled(40)
    ensures !Interrupts.AfterUnmask(m, 1064).Enabled(40)
  {
    Interrupts.UnmaskEffect(m, 1064, 40);
    hide Interrupts.AfterUnmask;
  }

  /** With ITLinesNumber 1 an enabled interrupt 40 survives initialisation. */
  lemma InitKeeps(m: Interrupts.Machine)
    requires m.Valid() && m.typer == 1 && 40 in m.spi
    ensures Interrupts.AfterInit(m).Enabled(40)
  {
  }
}
