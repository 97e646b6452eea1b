/** From the early 4 KB tables to the kernel's 2 MB tables: the whole boot path of startup.S and
    create_kernel_map, and what switching TTBR1 does to the addresses in use. */
module Boot {
  import opened Words
  import opened HardwareWalk
  import opened MemoryLayout
  import opened Startup
  import opened KernelMap
  import opened KernelWalk

  /** Valid page, access flag, inner shareable, memory type 0 (startup.S:226). */
  const PAGE_FLAGS: int := 0x703

  /** adrp: the page of an address. */
  function PageOf(x: u64): u64 {
    x - x % 4096
  }

  /** The words an early map's tables occupy, and those of the static tables. */
  predicate InEarlyTables(e: EarlyMap, j: int) {
    e.tbl <= 8 * j < e.Base(4)
  }

  predicate InStaticTables(p: Placement, j: int) {
    || p.PgdWord() <= j < p.PgdWord() + 512
    || p.PudWord() <= j < p.PudWord() + 512
    || p.PmdWord() <= j < p.PmdWord() + 8192
  }

  ghost predicate EarlyApartFromStatic(e: EarlyMap, p: Placement) {
    forall j: int :: InEarlyTables(e, j) ==> !InStaticTables(p, j)
  }

  ghost predicate EarlyApart(e: EarlyMap, f: EarlyMap) {
    forall j: int :: InEarlyTables(e, j) ==> !InEarlyTables(f, j)
  }

  /** An early map survives whatever leaves the words of its tables alone. */
  lemma LaidElsewhere(e: EarlyMap, m: seq<u64>, t: seq<u64>)
    requires e.Valid(|m|) && |t| == |m| && e.Laid(m)
    requires forall j | 0 <= j < |m| && InEarlyTables(e, j) :: t[j] == m[j]
    ensures e.Laid(t)
  {
    forall level: nat, q | level <= 3 && e.InRange(level, q)
      ensures InEarlyTables(e, e.EntryWord(level, q)) && 0 <= e.EntryWord(level, q) < |m|
    {
      EntryInTables(e, |m|, level, q);
    }
    hide EarlyMap.Valid, EarlyMap.EntryWord, EarlyMap.EntryValue, EarlyMap.InRange, InEarlyTables;
  }

  lemma EntryInTables(e: EarlyMap, words: nat, level: nat, q: int)
    requires e.Valid(words) && level <= 3 && e.InRange(level, q)
    ensures InEarlyTables(e, e.EntryWord(level, q)) && 0 <= e.EntryWord(level, q) < words
  {
    hide EarlyMap.Valid, EarlyMap.EntryWord, EarlyMap.InRange, EarlyMap.Base;
    e.EntryInLevel(words, level, q);
    e.BasesMonotone(words, 0, level);
    e.BasesMonotone(words, level + 1, 4);
    EarlyStart(e, words);
  }

  lemma EarlyStart(e: EarlyMap, words: nat)
    requires e.Valid(words)
    ensures e.Base(0) == e.tbl && e.Base(4) <= 8 * words
  {
  }

  lemma WrittenInTables(e: EarlyMap, words: nat, j: nat)
    requires e.Valid(words) && e.Written(j)
    ensures InEarlyTables(e, j)
  {
    var level: nat := if e.WrittenAt(0, j) then 0 else if e.WrittenAt(1, j) then 1
                      else if e.WrittenAt(2, j) then 2 else 3;
    assert e.WrittenAt(level, j);
    WrittenBetween(e, words, level, j);
  }

  lemma WrittenBetween(e: EarlyMap, words: nat, level: nat, j: nat)
    requires e.Valid(words) && level <= 3 && e.WrittenAt(level, j)
    ensures InEarlyTables(e, j)
  {
    hide EarlyMap.Valid, EarlyMap.Written, EarlyMap.Base, EarlyMap.EntryWord, Prefix;
    e.BasesOrdered(words, level);
    EntryInTables(e, words, level, Prefix(e.vstart, level));
    EntryInTables(e, words, level, Prefix(e.last, level));
  }

  /** The words create_kernel_map writes are words of the static tables. */
  lemma KernelTablesElsewhere(p: Placement, m: seq<u64>, j: nat)
    requires p.Valid(|m|) && j < |m| && !InStaticTables(p, j)
    ensures KernelTables(p, m)[j] == m[j]
  {
    hide Placement.Valid, KernelTables, Links, Placement.PgdWord, Placement.PudWord, Placement.PmdWord;
    assert p.kimageEnd > KIMAGE_VADDR by { PlacementBounds(p, |m|); }
    ContentsAt(p, m, j);
    LinksAt(p, m, j);
  }

  lemma PlacementBounds(p: Placement, words: nat)
    requires p.Valid(words)
    ensures KIMAGE_VADDR < p.kimageEnd <= PAGE_OFFSET && p.load + p.Size() <= 8 * words <= PHYSICAL_SIZE
    ensures p.load % 4096 == 0
  {
  }

  /** The image as startup.S maps it. */
  function ImageEarly(p: Placement, tbl: u64): EarlyMap {
    Planned(tbl, KIMAGE_VADDR, p.kimageEnd, PAGE_FLAGS, p.load)
  }

  lemma FlagsAreNormal()
    ensures AttributeBits(PAGE_FLAGS) && AttributesOf(PAGE_FLAGS) == NORMAL
  {
  }

  lemma ImageCovered(p: Placement, tbl: u64, words: nat, va: u64)
    requires p.Valid(words) && p.InImage(va)
    ensures ImageEarly(p, tbl).Covers(va) && ImageEarly(p, tbl).PageFlags()
    ensures ImageEarly(p, tbl).PageOfPhys() + va - (KIMAGE_VADDR - KIMAGE_VADDR % 4096) == p.ImagePhys(va)
  {
    var e := ImageEarly(p, tbl);
    assert e.last == p.kimageEnd - 1;
    PrefixMonotone(e.vstart, va, 3);
    PrefixMonotone(va, e.last, 3);
  }

  /** While the early tables are in TTBR1, image addresses translate by subtracting kimage_voffset. */
  lemma EarlyTranslation(p: Placement, tbl: u64, m: seq<u64>, ttbr0: u64, va: u64)
    requires p.Valid(|m|) && ImageEarly(p, tbl).Valid(|m|) && ImageEarly(p, tbl).Laid(m) && p.InImage(va)
    ensures Translate(m, ttbr0, tbl, va) == Mapped(Wrap64(va - p.Voffset()), NORMAL)
  {
    PlacementBounds(p, |m|);
    UpperHalf(va);
    FlagsAreNormal();
    hide Placement.Valid, Placement.Voffset, EarlyMap.Valid, EarlyMap.Laid, TableWalk, EarlyMap.Covers,
      EarlyMap.PageFlags, EarlyMap.PageOfPhys, AttributesOf, Half, Wrap64;
    ImageCovered(p, tbl, |m|, va);
    p.ImageConversions(|m|, va);
    ImageEarly(p, tbl).WalkMapped(m, va);
  }

  /** The load address agrees with the link address modulo the block size. */
  predicate Aligned(p: Placement) {
    p.load % 0x20_0000 == KIMAGE_VADDR % 0x20_0000
  }

  /** The blocks create_simple_map steps through, from the block of the image's first byte on, reach
      the image's last byte. */
  predicate Covered(p: Placement)
    requires KIMAGE_VADDR < p.kimageEnd
  {
    KIMAGE_VADDR % 0x20_0000 + p.Size() <= 0x20_0000 * SlotCount(p.Size())
  }

  /** One image address under the kernel's own tables. */
  lemma KernelImageAddress(p: Placement, words: nat, va: u64)
    requires p.Valid(words) && p.InImage(va)
    ensures KernelMapping(p, va - VIRT_OFFSET) == Mapped(p.ImagePhys(va), NORMAL)
            <==> Aligned(p) && (va - VIRT_OFFSET) / 0x20_0000 < SlotCount(p.Size())
  {
    PlacementBounds(p, words);
    hide Placement.Valid, SlotCount;
    assert (va - VIRT_OFFSET) / 0x20_0000 < 2048;
    assert KIMAGE_VADDR % 0x20_0000 == 0x8_0000;
  }

  lemma CoverageOfLastByte(p: Placement)
    requires KIMAGE_VADDR < p.kimageEnd
    ensures Covered(p) <==> (p.kimageEnd - 1 - VIRT_OFFSET) / 0x20_0000 < SlotCount(p.Size())
  {
    assert KIMAGE_VADDR % 0x20_0000 == 0x8_0000;
    BlockBound(0x8_0000 + p.Size() - 1, SlotCount(p.Size()));
  }

  lemma BlockBound(x: int, n: int)
    ensures x / 0x20_0000 < n <==> x + 1 <= 0x20_0000 * n
  {
  }

  lemma BlockMonotone(x: int, y: int)
    requires x <= y
    ensures x / 0x20_0000 <= y / 0x20_0000
  {
  }

  /** Under the kernel's own tables an image address translates as virt_to_phys says. */
  lemma KernelImageTranslation(p: Placement, m: seq<u64>, ttbr0: u64, va: u64)
    requires p.Valid(|m|) && p.InImage(va) && Aligned(p) && Covered(p)
    ensures Translate(KernelTables(p, m), ttbr0, p.Root(|m|), va) == Mapped(Wrap64(va - p.Voffset()), NORMAL)
    ensures VirtToPhys(va, p.Voffset()) == Wrap64(va - p.Voffset())
  {
    PlacementBounds(p, |m|);
    BlockMonotone(va - VIRT_OFFSET, p.kimageEnd - 1 - VIRT_OFFSET);
    hide Placement.Valid, Placement.Voffset, Placement.Root, Placement.ImagePhys, KernelMapping, TableWalk,
      KernelTables, Aligned, Covered, Half, VirtToPhys, SlotCount, Wrap64;
    UpperHalf(va);
    CoverageOfLastByte(p);
    KernelImageAddress(p, |m|, va);
    p.ImageConversions(|m|, va);
    KernelWalkMapped(p, m, va);
  }

  /** Building the kernel tables leaves the early tables in force, and switching to the new ones
      changes no image address: same physical address, same memory attributes. */
  lemma SwitchPreserves(p: Placement, tbl: u64, m: seq<u64>, ttbr0: u64, va: u64)
    requires p.Valid(|m|) && ImageEarly(p, tbl).Valid(|m|) && ImageEarly(p, tbl).Laid(m)
    requires EarlyApartFromStatic(ImageEarly(p, tbl), p)
    requires Aligned(p) && Covered(p) && p.InImage(va)
    ensures Translate(m, ttbr0, tbl, va)
            == Translate(KernelTables(p, m), ttbr0, tbl, va)
            == Translate(KernelTables(p, m), ttbr0, p.Root(|m|), va)
            == Mapped(Wrap64(va - p.Voffset()), NORMAL)
  {
    hide Placement.Valid, Placement.Voffset, Placement.Root, EarlyMap.Valid, EarlyMap.Laid, KernelTables,
      Aligned, Covered, Translate, Wrap64;
    EarlyKept(p, ImageEarly(p, tbl), m);
    EarlyTranslation(p, tbl, m, ttbr0, va);
    EarlyTranslation(p, tbl, KernelTables(p, m), ttbr0, va);
    KernelImageTranslation(p, m, ttbr0, va);
  }

  lemma EarlyKept(p: Placement, e: EarlyMap, m: seq<u64>)
    requires p.Valid(|m|) && e.Valid(|m|) && e.Laid(m) && EarlyApartFromStatic(e, p)
    ensures e.Laid(KernelTables(p, m))
  {
    hide Placement.Valid, EarlyMap.Valid, EarlyMap.Laid, KernelTables, InStaticTables, InEarlyTables;
    forall j | 0 <= j < |m| && InEarlyTables(e, j) ensures KernelTables(p, m)[j] == m[j] {
      KernelTablesElsewhere(p, m, j);
    }
    LaidElsewhere(e, m, KernelTables(p, m));
  }

  lemma KernelImageExactly(p: Placement, m: seq<u64>, ttbr0: u64, va: u64)
    requires p.Valid(|m|) && TablesBlank(p, m) && p.InImage(va)
    ensures Translate(KernelTables(p, m), ttbr0, p.Root(|m|), va) == Mapped(Wrap64(va - p.Voffset()), NORMAL)
            <==> Aligned(p) && (va - VIRT_OFFSET) / 0x20_0000 < SlotCount(p.Size())
  {
    PlacementBounds(p, |m|);
    hide Placement.Valid, Placement.Voffset, Placement.Root, Placement.ImagePhys, KernelMapping, TableWalk,
      KernelTables, Aligned, Half, VirtToPhys, SlotCount, Wrap64, TablesBlank;
    UpperHalf(va);
    KernelImageAddress(p, |m|, va);
    p.ImageConversions(|m|, va);
    KernelTranslation(p, m, va);
  }

  /** Exactly when the switch is safe: on cleared static tables, every image address keeps its meaning
      if and only if the load address is congruent to the link address and the blocks reach the end
      of the image. */
  lemma SwitchPreservesExactly(p: Placement, tbl: u64, m: seq<u64>, ttbr0: u64)
    requires p.Valid(|m|) && ImageEarly(p, tbl).Valid(|m|) && ImageEarly(p, tbl).Laid(m)
    requires EarlyApartFromStatic(ImageEarly(p, tbl), p) && TablesBlank(p, m)
    ensures (forall va: u64 | p.InImage(va) ::
               Translate(KernelTables(p, m), ttbr0, p.Root(|m|), va) == Translate(m, ttbr0, tbl, va))
            <==> Aligned(p) && Covered(p)
  {
    PlacementBounds(p, |m|);
    var last := p.kimageEnd - 1;
    assert p.InImage(last);
    hide Placement.Valid, Placement.InImage, Placement.Voffset, Placement.Root, EarlyMap.Valid, EarlyMap.Laid,
      KernelTables, Aligned, Covered, Translate, Wrap64, TablesBlank, SlotCount;
    if Aligned(p) && Covered(p) {
      forall va: u64 | p.InImage(va)
        ensures Translate(KernelTables(p, m), ttbr0, p.Root(|m|), va) == Translate(m, ttbr0, tbl, va)
      {
        SwitchPreserves(p, tbl, m, ttbr0, va);
      }
    } else {
      CoverageOfLastByte(p);
      KernelImageExactly(p, m, ttbr0, last);
      EarlyTranslation(p, tbl, m, ttbr0, last);
    }
  }

  /** Memory after n 32-bit stores of zero from word first on. */
  function Cleared(m: seq<u64>, first: nat, n: nat): (r: seq<u64>)
    ensures |r| == |m|
  {
    seq(|m|, j requires 0 <= j < |m| =>
      if first <= j < first + n / 2 then 0
      else if n % 2 == 1 && j == first + n / 2 then m[j] / 0x1_0000_0000 * 0x1_0000_0000
      else m[j])
  }

  /** A 32-bit store of zero into the low or high half of a word. */
  function ZeroHalf(w: u64, high: bool): u64 {
    if high then w % 0x1_0000_0000 else w / 0x1_0000_0000 * 0x1_0000_0000
  }

  lemma ClearedNone(m: seq<u64>, first: nat)
    ensures Cleared(m, first, 0) == m
  {
  }

  lemma ClearedExtends(m: seq<u64>, first: nat, n: nat)
    requires first + n / 2 < |m|
    ensures Cleared(m, first, n + 1)
            == Cleared(m, first, n)[first + n / 2 := ZeroHalf(Cleared(m, first, n)[first + n / 2], n % 2 == 1)]
  {
    var j := first + n / 2;
    assert n % 2 == 1 ==> ZeroHalf(m[j] / 0x1_0000_0000 * 0x1_0000_0000, true) == 0;
    assert (n + 1) / 2 == if n % 2 == 1 then n / 2 + 1 else n / 2;
    hide ZeroHalf;
    assert n % 2 == 0 ==> Cleared(m, first, n)[j] == m[j];
    HalfOf(m[j]);
  }

  lemma HalfOf(w: u64)
    ensures ZeroHalf(w, false) == w / 0x1_0000_0000 * 0x1_0000_0000
  {
  }

  /** str wzr, [x2] */
  method StoreZero(mem: array<u64>, p: Placement, x2: u64, ghost m: seq<u64>, ghost start: u64,
                   ghost first: nat, ghost n: nat)
    requires p.Valid(mem.Length) && start % 64 == 0 && KIMAGE_VADDR <= start
    requires x2 == start + 4 * n < p.kimageEnd && p.ImagePhys(start) == 8 * first
    requires mem[..] == Cleared(m, first, n)
    modifies mem
    ensures mem[..] == Cleared(m, first, n + 1)
  {
    hide Cleared, Placement.Valid, ZeroHalf, Placement.ImagePhys;
    ImageWordOf(p, mem.Length, start, n);
    ClearedExtends(m, first, n);
    var w := p.ImagePhys(x2) / 8;
    mem[w] := ZeroHalf(mem[w], x2 % 8 == 4);
  }

  lemma HalfWordStep(s: nat, e: nat, n: nat)
    requires 64 * s + 4 * n < 64 * e
    ensures 64 * s + 4 * n + 4 <= 64 * e
    ensures 64 * s + 4 * n + 4 >= 64 * e ==> n + 1 == 16 * (e - s)
  {
  }

  lemma NextHalfWord(start: u64, n: nat, end: u64)
    requires start % 64 == 0 && end % 64 == 0 && start + 4 * n < end
    ensures Wrap64(start + 4 * n + 4) == start + 4 * (n + 1) <= end
    ensures start + 4 * (n + 1) >= end ==> n + 1 == (end - start) / 4
  {
    hide Wrap64;
    var s, e := start / 64, end / 64;
    HalfWordStep(s, e, n);
    Divides(end - start, 4, 16 * (e - s), 0);
    NoWrap(start + 4 * n + 4);
  }

  /** bss_clear: store 32-bit zeros from start on and go round again while the address is below end. */
  method ClearBss(mem: array<u64>, p: Placement, start: u64, end: u64, ghost first: nat)
    requires p.Valid(mem.Length) && p.ImagePhys(start) == 8 * first
    requires start % 64 == 0 && end % 64 == 0 && KIMAGE_VADDR <= start < end <= p.kimageEnd
    modifies mem
    ensures mem[..] == Cleared(old(mem[..]), first, (end - start) / 4)
  {
    hide Cleared, Placement.Valid, Placement.ImagePhys, Wrap64;
    ClearedNone(mem[..], first);
    var x2 := start;
    ghost var n: nat := 0;
    while true
      invariant x2 == start + 4 * n && x2 < end
      invariant mem[..] == Cleared(old(mem[..]), first, n)
      decreases end - x2
    {
      StoreZero(mem, p, x2, old(mem[..]), start, first, n);
      NextHalfWord(start, n, end);
      x2 := Wrap64(x2 + 4);
      n := n + 1;
      if !(x2 < end) { break; }
    }
  }

  lemma ImageWordOf(p: Placement, words: nat, start: u64, n: nat)
    requires p.Valid(words) && start % 64 == 0 && KIMAGE_VADDR <= start && start + 4 * n < p.kimageEnd
    ensures 0 <= p.ImagePhys(start)
    ensures p.ImagePhys(start + 4 * n) / 8 == p.ImagePhys(start) / 8 + n / 2 < words
    ensures (start + 4 * n) % 8 == 4 * (n % 2)
  {
    hide Placement.Valid;
    PlacementBounds(p, words);
    WordAligned(p.load, start);
    Divides(start, 8, 8 * (start / 64), 0);
    HalfWords(p.ImagePhys(start), n);
    HalfWords(start, n);
    WordBelow(p.ImagePhys(start + 4 * n), words);
  }

  lemma WordBelow(x: nat, words: nat)
    requires x < 8 * words
    ensures x / 8 < words
  {
  }

  lemma HalfWords(b: nat, n: nat)
    requires b % 8 == 0
    ensures (b + 4 * n) / 8 == b / 8 + n / 2 && (b + 4 * n) % 8 == 4 * (n % 2)
  {
    Divides(b + 4 * n, 8, b / 8 + n / 2, 4 * (n % 2));
  }

  /** What the linker script and the loader fix: the image, the two reserved page-table areas
      (physical), the startup section (physical) and .bss. */
  datatype BootLayout = BootLayout(p: Placement, idTable: u64, imageTable: u64, textStart: u64, textEnd: u64,
                                   bssStart: u64, bssEnd: u64) {

    function Identity(): EarlyMap {
      Planned(idTable, PageOf(textStart), PageOf(textEnd), PAGE_FLAGS, PageOf(textStart))
    }

    predicate InSection(va: u64) {
      textStart <= va < textEnd
    }

    /** Rounding the ends of the startup section down to pages does not cut it short. */
    predicate WholePages() {
      textEnd % 4096 == 0 || textEnd / 4096 == textStart / 4096
    }

    function Image(): EarlyMap {
      ImageEarly(p, imageTable)
    }

    predicate InBss(j: int) {
      p.ImagePhys(bssStart) <= 8 * j < p.ImagePhys(bssEnd)
    }

    predicate StaticInBss() {
      && bssStart % 64 == 0 && bssEnd % 64 == 0 && KIMAGE_VADDR <= bssStart < bssEnd <= p.kimageEnd
      && bssStart <= p.pgd && p.pgd + 4096 <= bssEnd
      && bssStart <= p.pud && p.pud + 4096 <= bssEnd
      && bssStart <= p.pmd && p.pmd + 4096 * 16 <= bssEnd
    }

    /** The startup section lies in memory; the static tables are in .bss, and the two early
        table areas lie apart from it and from each other. */
    ghost predicate Valid(words: nat) {
      && p.Valid(words) && Identity().Valid(words) && Image().Valid(words)
      && (PageOf(textEnd) == PageOf(textStart) ==> PageOf(textStart) % 0x20_0000 != 0)
      && Identity().last < 8 * words
      && StaticInBss()
      && EarlyApart(Identity(), Image()) && EarlyApart(Image(), Identity())
      && (forall j: int :: InEarlyTables(Identity(), j) ==> !InBss(j))
      && (forall j: int :: InEarlyTables(Image(), j) ==> !InBss(j))
    }

    lemma StaticWordsInBss(words: nat, j: int)
      requires Valid(words) && InStaticTables(p, j)
      ensures InBss(j)
    {
      p.TableWords(words);
    }

    lemma StaticApart(words: nat)
      requires Valid(words)
      ensures EarlyApartFromStatic(Identity(), p) && EarlyApartFromStatic(Image(), p)
    {
      forall j: int | InStaticTables(p, j) ensures InBss(j) {
        StaticWordsInBss(words, j);
      }
    }

    function BssFirst(): int {
      p.ImagePhys(bssStart) / 8
    }

    lemma BssAligned(words: nat)
      requires Valid(words)
      ensures bssStart < bssEnd
      ensures 0 <= BssFirst() && p.ImagePhys(bssStart) == 8 * BssFirst()
      ensures p.ImagePhys(bssEnd) == 8 * (BssFirst() + (bssEnd - bssStart) / 8)
      ensures (bssEnd - bssStart) / 4 % 2 == 0 && (bssEnd - bssStart) / 4 / 2 == (bssEnd - bssStart) / 8
    {
      assert p.Valid(words) && StaticInBss();
      hide BootLayout.Valid, BootLayout.StaticInBss, Placement.Valid;
      BssPlaced(words);
      EvenWords(bssEnd - bssStart);
    }

    lemma BssPlaced(words: nat)
      requires p.Valid(words) && StaticInBss()
      ensures p.ImagePhys(bssStart) % 8 == 0 && 0 <= p.ImagePhys(bssStart)
      ensures (bssEnd - bssStart) % 64 == 0
    {
      hide Placement.Valid;
      PlacementBounds(p, words);
      WordAligned(p.load, bssStart);
      CacheLines(bssStart, bssEnd);
    }

    /** Clearing .bss clears exactly its words. */
    lemma BssCleared(m: seq<u64>, j: nat)
      requires Valid(|m|) && j < |m|
      ensures BssFirst() >= 0
      ensures Cleared(m, BssFirst(), (bssEnd - bssStart) / 4)[j] == if InBss(j) then 0 else m[j]
    {
      hide BootLayout.Valid, BootLayout.BssFirst, Placement.ImagePhys;
      BssAligned(|m|);
    }

    /** Memory when the MMU is switched on, after .bss has been cleared, and in the end. */
    function MmuOn(m: seq<u64>): (r: seq<u64>)
      requires Valid(|m|)
      ensures |r| == |m|
    {
      Image().Tables(Identity().Tables(m))
    }

    function BssClear(m: seq<u64>): (r: seq<u64>)
      requires Valid(|m|)
      ensures |r| == |m|
    {
      BssAligned(|m|);
      Cleared(m, BssFirst(), (bssEnd - bssStart) / 4)
    }

    function Final(m: seq<u64>): (r: seq<u64>)
      requires Valid(|m|)
      ensures |r| == |m|
    {
      KernelTables(p, BssClear(MmuOn(m)))
    }

    lemma Parts(words: nat)
      requires Valid(words)
      ensures p.Valid(words) && Identity().Valid(words) && Image().Valid(words) && StaticInBss()
      ensures KIMAGE_VADDR < p.kimageEnd <= PAGE_OFFSET
      ensures PageOf(textEnd) == PageOf(textStart) ==> PageOf(textStart) % 0x20_0000 != 0
      ensures Identity().last < 8 * words
    {
      hide EarlyMap.Valid, EarlyApart, InEarlyTables, BootLayout.InBss, BootLayout.StaticInBss;
    }

    /** Both early maps are in place when the MMU comes on and when create_kernel_map starts, and by
        then the static tables are zero. */
    lemma BeforeKernelMap(m: seq<u64>)
      requires Valid(|m|)
      ensures p.Valid(|m|) && Identity().Valid(|m|) && Image().Valid(|m|)
      ensures KIMAGE_VADDR < p.kimageEnd <= PAGE_OFFSET
      ensures Identity().Laid(MmuOn(m)) && Image().Laid(MmuOn(m))
      ensures Identity().Laid(BssClear(MmuOn(m))) && Image().Laid(BssClear(MmuOn(m)))
      ensures TablesBlank(p, BssClear(MmuOn(m)))
      ensures EarlyApartFromStatic(Identity(), p) && EarlyApartFromStatic(Image(), p)
    {
      hide BootLayout.Valid, EarlyMap.Valid, EarlyMap.Laid, Placement.Valid, TablesBlank, EarlyApartFromStatic,
        BootLayout.MmuOn, BootLayout.BssClear, BootLayout.StaticInBss;
      Parts(|m|);
      BothLaid(m);
      BothKeptByBss(MmuOn(m));
      StaticApart(|m|);
    }

    lemma BothLaid(m: seq<u64>)
      requires Valid(|m|)
      ensures Identity().Laid(MmuOn(m)) && Image().Laid(MmuOn(m))
    {
      var id, im := Identity(), Image();
      var m1 := id.Tables(m);
      id.TablesLaid(m);
      im.TablesLaid(m1);
      assert EarlyApart(id, im);
      hide EarlyMap.Valid, EarlyMap.Laid, EarlyMap.Tables, EarlyMap.Written, InEarlyTables, BootLayout.InBss,
        BootLayout.StaticInBss;
      forall j | 0 <= j < |m| && InEarlyTables(id, j) ensures im.Tables(m1)[j] == m1[j] {
        if im.Written(j) { WrittenInTables(im, |m|, j); }
      }
      LaidElsewhere(id, m1, im.Tables(m1));
    }

    lemma BothKeptByBss(m: seq<u64>)
      requires Valid(|m|) && Identity().Laid(m) && Image().Laid(m)
      ensures Identity().Laid(BssClear(m)) && Image().Laid(BssClear(m))
      ensures TablesBlank(p, BssClear(m))
    {
      StaticsCleared(m);
      hide EarlyMap.Valid, EarlyMap.Laid, Placement.Valid, InEarlyTables, BootLayout.InBss, TablesBlank,
        Cleared, BootLayout.BssFirst, Identity, Image, EarlyApart, BootLayout.StaticInBss, BootLayout.BssClear;
      forall j | 0 <= j < |m| ensures BssClear(m)[j] == if InBss(j) then 0 else m[j] {
        BssWord(m, j);
      }
      LaidElsewhere(Identity(), m, BssClear(m));
      LaidElsewhere(Image(), m, BssClear(m));
    }

    lemma BssWord(m: seq<u64>, j: nat)
      requires Valid(|m|) && j < |m|
      ensures BssClear(m)[j] == if InBss(j) then 0 else m[j]
    {
      hide BootLayout.Valid, Cleared, BootLayout.InBss, BootLayout.BssFirst;
      BssCleared(m, j);
    }

    lemma StaticsCleared(m: seq<u64>)
      requires Valid(|m|)
      ensures p.Valid(|m|) && TablesBlank(p, BssClear(m))
    {
      assert p.Valid(|m|);
      hide BootLayout.Valid, Placement.Valid, BootLayout.InBss, BootLayout.BssClear, Placement.PgdWord,
        Placement.PudWord, Placement.PmdWord;
      p.TableWords(|m|);
      forall j: nat | j < |m| && InStaticTables(p, j) ensures BssClear(m)[j] == 0 {
        StaticWordsInBss(|m|, j);
        BssWord(m, j);
      }
    }
  }

  lemma WordAligned(load: u64, va: u64)
    requires load % 4096 == 0 && va % 64 == 0
    ensures (load + (va - KIMAGE_VADDR)) % 8 == 0
  {
    var k := 512 * (load / 4096) + 8 * (va / 64) - 0x1FFF_E000_0001_0000;
    Divides(load + (va - KIMAGE_VADDR), 8, k, 0);
  }

  lemma CacheLines(a: int, b: int)
    requires a % 64 == 0 && b % 64 == 0
    ensures (b - a) % 64 == 0
  {
    Divides(b - a, 64, b / 64 - a / 64, 0);
  }

  lemma EvenWords(n: int)
    requires n % 64 == 0
    ensures n / 4 % 2 == 0 && n / 4 / 2 == n / 8 && n == 8 * (n / 8)
  {
    var k := n / 64;
    Divides(n, 4, 16 * k, 0);
    Divides(n, 8, 8 * k, 0);
    Divides(16 * k, 2, 8 * k, 0);
  }

  /** Rounding the physical ends of the image to pages, as adrp does, loses nothing of it. */
  lemma ImageEnd(p: Placement, words: nat)
    requires p.Valid(words)
    ensures p.load + p.Size() < TWO64
    ensures PageOf(p.load) == p.load && PageOf(p.load + p.Size()) == p.load + p.Size()
    ensures Wrap64(Wrap64(p.Size()) + KIMAGE_VADDR) == p.kimageEnd
  {
    PageAligned(p.load, p.kimageEnd);
  }

  /** The two map_memory calls of startup.S. */
  method MapEarly(mem: array<u64>, b: BootLayout)
    requires b.Valid(mem.Length)
    modifies mem
    ensures mem[..] == b.MmuOn(old(mem[..]))
  {
    hide BootLayout.Valid, BootLayout.StaticInBss, Placement.Valid, EarlyMap.Valid, EarlyMap.Tables;
    b.Parts(mem.Length);
    MapMemory(mem, b.idTable, PageOf(b.textStart), PageOf(b.textEnd), PAGE_FLAGS, PageOf(b.textStart));
    ImageEnd(b.p, mem.Length);
    var x3, x6 := PageOf(b.p.load), PageOf(b.p.load + b.p.Size());
    MapMemory(mem, b.imageTable, KIMAGE_VADDR, Wrap64(Wrap64(x6 - x3) + KIMAGE_VADDR), PAGE_FLAGS, x3);
  }

  /** bss_clear on the layout's .bss. */
  method ClearStatics(mem: array<u64>, b: BootLayout)
    requires b.Valid(mem.Length)
    modifies mem
    ensures mem[..] == b.BssClear(old(mem[..]))
  {
    hide BootLayout.Valid, Placement.Valid, Cleared, EarlyMap.Valid;
    b.Parts(mem.Length);
    b.BssAligned(mem.Length);
    ClearBss(mem, b.p, b.bssStart, b.bssEnd, b.BssFirst());
  }

  /** The boot path: map the startup section and the image, switch the MMU on, clear .bss, build the
      kernel tables and switch to them. Ghost result on is the memory when the MMU comes on. */
  method BringUp(mem: array<u64>, b: BootLayout) returns (mmu: KernelMmu, ttbr0: u64, ghost on: seq<u64>)
    requires b.Valid(mem.Length)
    modifies mem
    ensures b.p.Valid(mem.Length) && mmu.mem == mem
    ensures on == b.MmuOn(old(mem[..])) && mem[..] == b.Final(old(mem[..]))
    ensures ttbr0 == b.idTable && mmu.ttbr1 == b.p.Root(mem.Length)
  {
    hide BootLayout.Valid, BootLayout.StaticInBss, Placement.Valid, EarlyMap.Valid, KernelTables,
      BootLayout.MmuOn, BootLayout.BssClear, Placement.Root;
    b.Parts(mem.Length);
    MapEarly(mem, b);
    on := mem[..];
    ttbr0 := b.idTable;
    var voffset := Wrap64(KIMAGE_VADDR - b.p.load);
    ClearStatics(mem, b);
    mmu := new KernelMmu(mem, b.p, voffset, b.imageTable);
    mmu.CreateKernelMap();
  }

  /** With the MMU on, image addresses translate by subtracting kimage_voffset. */
  lemma BootImage(b: BootLayout, m: seq<u64>, va: u64)
    requires b.Valid(|m|) && b.p.InImage(va)
    ensures Translate(b.MmuOn(m), b.idTable, b.imageTable, va) == Mapped(Wrap64(va - b.p.Voffset()), NORMAL)
  {
    hide BootLayout.Valid, BootLayout.MmuOn, BootLayout.BssClear, Placement.Valid, EarlyMap.Valid,
      EarlyMap.Laid, TablesBlank, EarlyApartFromStatic, Translate, Placement.Voffset, Wrap64;
    b.BeforeKernelMap(m);
    EarlyTranslation(b.p, b.imageTable, b.MmuOn(m), b.idTable, va);
  }

  /** The switch to the kernel's tables changes no image address, exactly when the load address is
      congruent to the link address and the blocks cover the image. */
  lemma BootSwitch(b: BootLayout, m: seq<u64>)
    requires b.Valid(|m|)
    ensures b.p.Valid(|m|) && KIMAGE_VADDR < b.p.kimageEnd
    ensures (forall va: u64 | b.p.InImage(va) ::
               Translate(b.Final(m), b.idTable, b.p.Root(|m|), va)
               == Translate(b.MmuOn(m), b.idTable, b.imageTable, va))
            <==> Aligned(b.p) && Covered(b.p)
  {
    hide BootLayout.Valid, BootLayout.MmuOn, BootLayout.BssClear, Placement.Valid, EarlyMap.Valid,
      EarlyMap.Laid, Translate, KernelTables, TablesBlank, EarlyApartFromStatic, Aligned, Covered,
      Placement.Root, Placement.InImage, Placement.Voffset, Wrap64;
    b.BeforeKernelMap(m);
    SwitchPreservesExactly(b.p, b.imageTable, b.BssClear(b.MmuOn(m)), b.idTable);
    forall va: u64 | b.p.InImage(va)
      ensures Translate(b.BssClear(b.MmuOn(m)), b.idTable, b.imageTable, va)
              == Translate(b.MmuOn(m), b.idTable, b.imageTable, va)
    {
      EarlyTranslation(b.p, b.imageTable, b.MmuOn(m), b.idTable, va);
      EarlyTranslation(b.p, b.imageTable, b.BssClear(b.MmuOn(m)), b.idTable, va);
    }
  }

  /** The startup section stays identity-mapped to the end. */
  lemma BootIdentity(b: BootLayout, m: seq<u64>, ttbr1: u64, va: u64)
    requires b.Valid(|m|) && b.Identity().Covers(va)
    ensures Translate(b.MmuOn(m), b.idTable, ttbr1, va) == Mapped(va, NORMAL)
    ensures Translate(b.Final(m), b.idTable, ttbr1, va) == Mapped(va, NORMAL)
  {
    hide BootLayout.Valid, BootLayout.MmuOn, BootLayout.BssClear, Placement.Valid, EarlyMap.Valid,
      EarlyMap.Laid, EarlyMap.Covers, KernelTables, TablesBlank, EarlyApartFromStatic, Half, TableWalk,
      BootLayout.StaticInBss;
    b.Parts(|m|);
    b.BeforeKernelMap(m);
    EarlyKept(b.p, b.Identity(), b.BssClear(b.MmuOn(m)));
    IdentityTranslation(b, b.MmuOn(m), va);
    IdentityTranslation(b, b.Final(m), va);
  }

  /** The words of the identity tables stay as map_memory left them, through all that follows. */
  lemma IdentityWordsKept(b: BootLayout, m: seq<u64>, j: nat)
    requires b.Valid(|m|) && j < |m| && InEarlyTables(b.Identity(), j)
    ensures b.p.Valid(|m|) && b.Identity().Valid(|m|)
    ensures b.MmuOn(m)[j] == b.Identity().Tables(m)[j] == b.Final(m)[j]
  {
    var id, im := b.Identity(), b.Image();
    assert !b.InBss(j) && !InEarlyTables(im, j);
    hide BootLayout.Valid, BootLayout.StaticInBss, EarlyMap.Valid, Placement.Valid, EarlyMap.Tables, EarlyMap.Written,
      InEarlyTables, BootLayout.InBss, KernelTables, Cleared, InStaticTables, EarlyMap.Laid, TablesBlank,
      BootLayout.Identity, BootLayout.Image;
    b.Parts(|m|);
    var m1 := id.Tables(m);
    im.TablesLaid(m1);
    if im.Written(j) { WrittenInTables(im, |m|, j); }
    b.BssCleared(b.MmuOn(m), j);
    if InStaticTables(b.p, j) { b.StaticWordsInBss(|m|, j); }
    KernelTablesElsewhere(b.p, b.BssClear(b.MmuOn(m)), j);
  }

  /** From zeroed tables, the identity map is exact in the lower half: the pages of the map and no
      other address, when the MMU comes on and in the end. */
  lemma BootLowerHalf(b: BootLayout, m: seq<u64>, ttbr1: u64, va: u64)
    requires b.Valid(|m|) && b.Identity().Blank(m) && va < TWO48
    ensures var r := if b.Identity().Covers(va) then Mapped(va, NORMAL) else Fault;
            Translate(b.MmuOn(m), b.idTable, ttbr1, va) == Translate(b.Final(m), b.idTable, ttbr1, va) == r
  {
    hide BootLayout.Valid, BootLayout.MmuOn, BootLayout.BssClear, Placement.Valid, EarlyMap.Valid,
      EarlyMap.Laid, EarlyMap.Covers, KernelTables, TablesBlank, EarlyApartFromStatic, TableWalk,
      BootLayout.StaticInBss, EarlyMap.RestZero, EarlyMap.Blank, BootLayout.Final, Half;
    if b.Identity().Covers(va) {
      BootIdentity(b, m, ttbr1, va);
    } else {
      b.Parts(|m|);
      IdentityLaid(b, m);
      IdentityRestZero(b, m);
      LowerHalf(b, |m|, va);
      IdentityHole(b, b.MmuOn(m), va);
      IdentityHole(b, b.Final(m), va);
    }
  }

  lemma IdentityHole(b: BootLayout, t: seq<u64>, va: u64)
    requires b.Identity().Valid(|t|) && b.Identity().Laid(t) && b.Identity().RestZero(t)
    requires Prefix(va, -1) == Prefix(b.Identity().vstart, -1) && !b.Identity().Covers(va)
    ensures TableWalk(t, b.idTable, va, 0) == Fault
  {
    IdentityPage(b);
    hide EarlyMap.Valid, EarlyMap.Laid, EarlyMap.RestZero, EarlyMap.Covers, TableWalk;
    b.Identity().LaidTranslation(t, va);
  }

  lemma IdentityLaid(b: BootLayout, m: seq<u64>)
    requires b.Valid(|m|)
    ensures b.Identity().Laid(b.MmuOn(m)) && b.Identity().Laid(b.Final(m))
  {
    hide BootLayout.Valid, BootLayout.MmuOn, BootLayout.BssClear, Placement.Valid, EarlyMap.Valid,
      EarlyMap.Laid, KernelTables, TablesBlank, EarlyApartFromStatic;
    b.BeforeKernelMap(m);
    EarlyKept(b.p, b.Identity(), b.BssClear(b.MmuOn(m)));
  }

  lemma LowerHalf(b: BootLayout, words: nat, va: u64)
    requires b.Identity().Valid(words) && b.Identity().last < 8 * words && va < TWO48
    ensures Half(va) == 0 && Prefix(va, -1) == Prefix(b.Identity().vstart, -1)
  {
    b.Identity().MemoryBound(words);
    assert b.Identity().vstart <= b.Identity().last;
    hide EarlyMap.Valid, BootLayout.Identity, Prefix;
    BelowHalf(va);
    BelowHalf(b.Identity().vstart);
  }

  lemma BelowHalf(va: u64)
    requires va < TWO48
    ensures Half(va) == 0 && Prefix(va, -1) == 0
  {
    PrefixIsShift(va);
    Divides(va, TWO48, 0, va);
    hide Prefix;
  }

  lemma IdentityRestZero(b: BootLayout, m: seq<u64>)
    requires b.Valid(|m|) && b.Identity().Blank(m)
    ensures b.Identity().Valid(|m|)
    ensures b.Identity().RestZero(b.MmuOn(m)) && b.Identity().RestZero(b.Final(m))
  {
    hide BootLayout.Valid, BootLayout.MmuOn, BootLayout.Final, Placement.Valid, EarlyMap.Valid, EarlyMap.Tables,
      EarlyMap.Written, EarlyMap.Blank, BootLayout.Identity;
    b.Parts(|m|);
    var id := b.Identity();
    id.TablesRestZero(m);
    forall j: nat | j < |m| && InEarlyTables(id, j)
      ensures b.MmuOn(m)[j] == id.Tables(m)[j] == b.Final(m)[j]
    {
      IdentityWordsKept(b, m, j);
    }
  }

  /** The page-rounded ends reach every byte of the section exactly when its end is a page boundary or
      lies in its first page. */
  lemma SectionCovered(b: BootLayout)
    requires b.textStart <= b.textEnd
    ensures (forall va: u64 | b.InSection(va) :: b.Identity().Covers(va)) <==> b.WholePages()
  {
    SectionIndices(b);
    var s, e := b.textStart / 4096, b.textEnd / 4096;
    if b.WholePages() {
      forall va: u64 | b.InSection(va) ensures b.Identity().Covers(va) {
        PageIndexMonotone(b.textStart, va);
        PageIndexMonotone(va, b.textEnd - 1);
      }
    } else {
      SectionLost(b);
    }
  }

  lemma PageIndexMonotone(x: nat, y: nat)
    requires x <= y
    ensures x / 4096 <= y / 4096
  {
  }

  lemma SectionIndices(b: BootLayout)
    requires b.textStart <= b.textEnd
    ensures var s, e, i := b.textStart / 4096, b.textEnd / 4096, b.Identity();
            i.vstart / 4096 == s && i.last / 4096 == if e == s then s else e - 1
    ensures b.textEnd % 4096 == 0 && b.textStart < b.textEnd ==> (b.textEnd - 1) / 4096 == b.textEnd / 4096 - 1
  {
    var s, e := b.textStart / 4096, b.textEnd / 4096;
    assert PageOf(b.textStart) == 4096 * s && PageOf(b.textEnd) == 4096 * e;
    PageIndexMonotone(b.textStart, b.textEnd);
  }

  /** A page of the section that its rounded end leaves out is not mapped. */
  lemma PartialPageUnmapped(b: BootLayout, m: seq<u64>, ttbr1: u64)
    requires b.Valid(|m|) && b.Identity().Blank(m) && b.textStart <= b.textEnd && !b.WholePages()
    ensures b.InSection(PageOf(b.textEnd))
    ensures Translate(b.MmuOn(m), b.idTable, ttbr1, PageOf(b.textEnd)) == Fault
    ensures Translate(b.Final(m), b.idTable, ttbr1, PageOf(b.textEnd)) == Fault
  {
    hide BootLayout.Valid, BootLayout.MmuOn, BootLayout.Final, EarlyMap.Blank, EarlyMap.Covers, Translate,
      BootLayout.Identity;
    SectionBelow(b, |m|);
    SectionLost(b);
    BootLowerHalf(b, m, ttbr1, PageOf(b.textEnd));
  }

  lemma SectionLost(b: BootLayout)
    requires b.textStart <= b.textEnd && !b.WholePages()
    ensures b.InSection(PageOf(b.textEnd)) && !b.Identity().Covers(PageOf(b.textEnd))
  {
    SectionIndices(b);
    var e := b.textEnd / 4096;
    Divides(PageOf(b.textEnd), 4096, e, 0);
    PageIndexMonotone(b.textStart, b.textEnd);
    hide BootLayout.Identity;
  }

  lemma SectionBelow(b: BootLayout, words: nat)
    requires b.Valid(words) && b.textStart <= b.textEnd
    ensures b.textEnd < TWO48
  {
    hide BootLayout.Valid, BootLayout.StaticInBss, Placement.Valid;
    b.Parts(words);
    SectionIndices(b);
    assert b.textEnd / 4096 <= b.Identity().last / 4096 + 1;
  }

  /** The whole startup section is identity-mapped, when the MMU comes on and in the end, exactly when
      its end is a page boundary or lies in its first page. */
  lemma BootIdentityExactly(b: BootLayout, m: seq<u64>, ttbr1: u64)
    requires b.Valid(|m|) && b.Identity().Blank(m) && b.textStart <= b.textEnd
    ensures (forall va: u64 | b.InSection(va) ::
               Translate(b.MmuOn(m), b.idTable, ttbr1, va) == Mapped(va, NORMAL)
               && Translate(b.Final(m), b.idTable, ttbr1, va) == Mapped(va, NORMAL))
            <==> b.WholePages()
  {
    SectionCovered(b);
    SectionBelow(b, |m|);
    hide BootLayout.Valid, BootLayout.MmuOn, BootLayout.Final, EarlyMap.Blank, EarlyMap.Covers, Translate,
      BootLayout.WholePages, BootLayout.Identity;
    forall va: u64 | b.InSection(va)
      ensures var r := if b.Identity().Covers(va) then Mapped(va, NORMAL) else Fault;
              Translate(b.MmuOn(m), b.idTable, ttbr1, va) == Translate(b.Final(m), b.idTable, ttbr1, va) == r
    {
      BootLowerHalf(b, m, ttbr1, va);
    }
  }

  /** In the end the kernel's half maps the image, linear and device blocks and nothing else. */
  lemma BootKernelHalf(b: BootLayout, m: seq<u64>, va: u64)
    requires b.Valid(|m|) && va >= VIRT_OFFSET
    ensures b.p.Valid(|m|) && KIMAGE_VADDR < b.p.kimageEnd
    ensures Translate(b.Final(m), b.idTable, b.p.Root(|m|), va) == KernelMapping(b.p, va - VIRT_OFFSET)
  {
    hide BootLayout.Valid, BootLayout.MmuOn, BootLayout.BssClear, Placement.Valid, EarlyMap.Valid,
      EarlyMap.Laid, KernelTables, Half, TableWalk, KernelMapping, TablesBlank, EarlyApartFromStatic,
      Placement.Root;
    b.BeforeKernelMap(m);
    UpperHalf(va);
    KernelTranslation(b.p, b.BssClear(b.MmuOn(m)), va);
  }

  /** In the end the drivers find a register at its physical address plus the start of the device window. */
  lemma BootDevices(b: BootLayout, m: seq<u64>, x: nat)
    requires b.Valid(|m|) && x < 0x2000_0000
    ensures b.p.Valid(|m|)
    ensures Translate(b.Final(m), b.idTable, b.p.Root(|m|), 0xFFFF_0003_0000_0000 + x)
            == Mapped(x, Attributes(0x1C3, 0))
  {
    hide BootLayout.Valid, BootLayout.MmuOn, BootLayout.BssClear, BootLayout.StaticInBss, Placement.Valid,
      EarlyMap.Valid, KernelTables, Translate, Placement.Root;
    b.Parts(|m|);
    DeviceWindow(b.p, b.BssClear(b.MmuOn(m)), b.idTable, x);
  }

  lemma IdentityTranslation(b: BootLayout, m: seq<u64>, va: u64)
    requires b.Identity().Valid(|m|) && b.Identity().Laid(m) && b.Identity().Covers(va)
    requires b.Identity().last < 8 * |m|
    ensures TableWalk(m, b.idTable, va, 0) == Mapped(va, NORMAL)
    ensures Half(va) == 0
  {
    hide EarlyMap.Valid, EarlyMap.Laid, EarlyMap.Covers, TableWalk, AttributesOf;
    FlagsAreNormal();
    IdentityPage(b);
    IdentityBelow(b, |m|, va);
    b.Identity().WalkMapped(m, va);
  }

  lemma IdentityBelow(b: BootLayout, words: nat, va: u64)
    requires b.Identity().Valid(words) && b.Identity().Covers(va) && b.Identity().last < 8 * words
    ensures va < PHYSICAL_SIZE
  {
    b.Identity().MemoryBound(words);
    hide EarlyMap.Valid, BootLayout.Identity;
    PagesBelow(va, b.Identity().last);
  }

  lemma PagesBelow(x: nat, y: nat)
    requires x / 4096 <= y / 4096 && y < PHYSICAL_SIZE
    ensures x < PHYSICAL_SIZE
  {
    assert y / 4096 < 0x10_0000;
    assert x == 4096 * (x / 4096) + x % 4096;
  }

  lemma IdentityPage(b: BootLayout)
    ensures var e := b.Identity();
            e.PageFlags() && e.PageOfPhys() == e.vstart - e.vstart % 4096 && e.flags == PAGE_FLAGS && e.tbl == b.idTable
  {
  }
}
