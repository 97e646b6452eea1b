/** The second page tables (mmu_v3.c): init_pagetables, create_simple_map, create_kernel_map. */
module KernelMap {
  import opened Words
  import opened HardwareWalk
  import opened MemoryLayout
  import opened Startup

  /** Link-time and load-time addresses: the three static tables (virtual), the end of the image, and
      the physical address the image was loaded at. */
  datatype Placement = Placement(pgd: u64, pud: u64, pmd: u64, kimageEnd: u64, load: u64) {

    /** What startup.S stores in kimage_voffset. */
    function Voffset(): u64 {
      Wrap64(KIMAGE_VADDR - load)
    }

    function Size(): int {
      kimageEnd - KIMAGE_VADDR
    }

    predicate InImage(va: u64) {
      KIMAGE_VADDR <= va < kimageEnd
    }

    function ImagePhys(va: int): int {
      load + (va - KIMAGE_VADDR)
    }

    function PgdWord(): int { ImagePhys(pgd) / 8 }
    function PudWord(): int { ImagePhys(pud) / 8 }
    function PmdWord(): int { ImagePhys(pmd) / 8 }

    predicate TableAt(va: u64, pages: nat) {
      va % 4096 == 0 && KIMAGE_VADDR <= va && va + 4096 * pages <= kimageEnd
    }

    /** The image lies below the linear map and inside memory, which the physical address size covers,
        and ends on a page boundary; the tables lie inside the image, page aligned and apart from each
        other. */
    predicate Valid(words: nat) {
      && KIMAGE_VADDR < kimageEnd <= PAGE_OFFSET && kimageEnd % 4096 == 0
      && load % 4096 == 0 && load + Size() <= 8 * words <= PHYSICAL_SIZE
      && TableAt(pgd, 1) && TableAt(pud, 1) && TableAt(pmd, 16)
      && (pgd + 4096 <= pud || pud + 4096 <= pgd)
      && (pgd + 4096 <= pmd || pmd + 4096 * 16 <= pgd)
      && (pud + 4096 <= pmd || pmd + 4096 * 16 <= pud)
    }

    /** Where the tables lie in memory, word by word. */
    lemma TableWords(words: nat)
      requires Valid(words)
      ensures 0 <= PgdWord() && PgdWord() + 512 <= words
      ensures 0 <= PudWord() && PudWord() + 512 <= words
      ensures 0 <= PmdWord() && PmdWord() + 8192 <= words
      ensures PgdWord() + 512 <= PudWord() || PudWord() + 512 <= PgdWord()
      ensures PgdWord() + 512 <= PmdWord() || PmdWord() + 8192 <= PgdWord()
      ensures PudWord() + 512 <= PmdWord() || PmdWord() + 8192 <= PudWord()
      ensures ImagePhys(pgd) == 8 * PgdWord() && ImagePhys(pgd) % 4096 == 0
      ensures ImagePhys(pud) == 8 * PudWord() && ImagePhys(pud) % 4096 == 0
      ensures ImagePhys(pmd) == 8 * PmdWord() && ImagePhys(pmd) % 4096 == 0
      ensures 8 * (PmdWord() + 8192) <= 8 * words <= PHYSICAL_SIZE
      ensures TableAt(pgd, 1) && TableAt(pud, 1) && TableAt(pmd, 16)
      ensures InImage(pgd) && InImage(pud) && InImage(pmd)
    {
      PageAligned(load, pgd);
      PageAligned(load, pud);
      PageAligned(load, pmd);
    }

    /** Physical address of the PGD: what switch_mm puts into TTBR1. */
    function Root(words: nat): (r: u64)
      requires Valid(words)
      ensures r == ImagePhys(pgd)
    {
      TableWords(words);
      ImagePhys(pgd)
    }

    /** The image's addresses convert with kimage_voffset, in both directions. */
    lemma ImageConversions(words: nat, va: u64)
      requires Valid(words) && InImage(va)
      ensures !IsLmAddress(va)
      ensures VirtToPhys(va, Voffset()) == Wrap64(va - Voffset()) == ImagePhys(va)
      ensures PhysToKimg(ImagePhys(va), Voffset()) == va
    {
    }

    lemma ImageWord(words: nat, va: u64)
      requires Valid(words) && InImage(va)
      ensures 0 <= ImagePhys(va) / 8 < words
    {
    }
  }

  lemma PageAligned(load: u64, va: u64)
    requires load % 4096 == 0 && va % 4096 == 0
    ensures (load + (va - KIMAGE_VADDR)) % 4096 == 0
    ensures (load + (va - KIMAGE_VADDR)) % 8 == 0
  {
    var k := load / 4096 + va / 4096 - 0xF_FFF0_0000_0080;
    Divides(4096 * k, 4096, k, 0);
    Divides(4096 * k, 8, 512 * k, 0);
  }

  lemma MultipleOf8(x: int)
    requires x % 4096 == 0
    ensures x % 8 == 0
  {
    Divides(x, 8, 512 * (x / 4096), 0);
  }

  /** A level 2 block descriptor: address, access flag, memory type, shareability, block bit. */
  function BlockDescriptor(pa: u64, memType: u64): u64
    requires memType < 8
  {
    Or64(Or64(Or64(Or64(pa, 0x400), 4 * memType), 0x300), 1)
  }

  lemma BlockDescriptorValue(pa: u64, memType: u64)
    requires pa % 4096 == 0 && memType < 8
    ensures BlockDescriptor(pa, memType) == pa + 0x701 + 4 * memType
  {
    hide Or;
    OrZero(0x400);
    AttributeField(memType);
    OrLow(pa, 0, 0x400);
    OrLow(pa, 0x400, 4 * memType);
    OrLow(pa, 0x400 + 4 * memType, 0x300);
    OrLow(pa, 0x700 + 4 * memType, 1);
  }

  lemma FieldFacts()
    ensures Pow2(1) == 2 && Pow2(8) == 256 && Pow2(10) == 1024 && Or(4, 3) == 7
  {
    assert Pow2(0) == 1 && Pow2(1) == 2 && Pow2(2) == 4;
    assert Or(4, 3) == 7;
    FourBitsMore(0);
    FourBitsMore(2);
    FourBitsMore(4);
    FourBitsMore(6);
  }

  lemma AttributeField(t: nat)
    requires t < 8
    ensures Or(0x400, 4 * t) == 0x400 + 4 * t
    ensures Or(0x400 + 4 * t, 0x300) == 0x700 + 4 * t
    ensures Or(0x700 + 4 * t, 1) == 0x701 + 4 * t
  {
    hide Or, Pow2;
    FieldFacts();
    OrZero(1);
    OrZero(4 * t);
    OrZero(0x380 + 2 * t);
    OrConcat(0x400, 4 * t, 1, 0, 0, 4 * t, 10);
    OrConcat(0x400 + 4 * t, 0x300, 4, 4 * t, 3, 0, 8);
    OrConcat(0x700 + 4 * t, 1, 0x380 + 2 * t, 0, 0, 1, 1);
  }

  /** Words [first, first + n) of memory replaced by value, value + 2 MB, value + 2 * 2 MB, ... */
  function Blocks(m: seq<u64>, first: nat, n: nat, value: nat): (r: seq<u64>)
    requires first + n <= |m| && value + 0x20_0000 * (n - 1) < TWO64
    ensures |r| == |m|
  {
    seq(|m|, j requires 0 <= j < |m| =>
      if first <= j < first + n then value + 0x20_0000 * (j - first) else m[j])
  }

  /** The 16 GB window above VIRT_OFFSET, in 2 MB slots. */
  function SlotOf(va: int): int {
    (va - VIRT_OFFSET) / 0x20_0000
  }

  /** How many 2 MB steps create_simple_map takes. */
  function SlotCount(size: nat): nat {
    (size + 0x1F_FFFF) / 0x20_0000
  }

  /** The static PUD entry and PMD entry of an address are those of its slot. */
  lemma WindowIndices(va: u64)
    requires VIRT_OFFSET <= va && SlotOf(va) < 8192
    ensures Prefix(va, 1) % 512 == SlotOf(va) / 512 < 16
    ensures Prefix(va, 2) % 512 == SlotOf(va) % 512
    ensures Prefix(va, 0) % 512 == 0
  {
    PrefixIsShift(va);
    hide Prefix;
    var off := va - VIRT_OFFSET;
    var slot, r := off / 0x20_0000, off % 0x20_0000;
    Divides(va, 0x20_0000, 0x7FF_F800_0000 + slot, r);
    Divides(va, 0x4000_0000, 0x3_FFFC_0000 + slot / 512, 0x20_0000 * (slot % 512) + r);
    Divides(va, 0x80_0000_0000, 0x1FF_FE00, off);
    Divides(0x7FF_F800_0000 + slot, 512, 0x3_FFFC_0000 + slot / 512, slot % 512);
    Divides(0x3_FFFC_0000 + slot / 512, 512, 0x1FF_FE00, slot / 512);
  }

  /** The PGD and PUD entries that lead to the sixteen PMD tables. */
  ghost predicate Linked(p: Placement, m: seq<u64>)
    requires p.Valid(|m|)
  {
    p.TableWords(|m|);
    && m[p.PgdWord()] == p.ImagePhys(p.pud) + 3
    && forall i :: 0 <= i < 16 ==> m[p.PudWord() + i] == p.ImagePhys(p.pmd) + 3 + 4096 * i
  }

  /** Memory after init_pagetables. */
  function Links(p: Placement, m: seq<u64>): (r: seq<u64>)
    requires p.Valid(|m|)
    ensures |r| == |m|
  {
    p.TableWords(|m|);
    Run(m[p.PgdWord() := p.ImagePhys(p.pud) + 3], p.PudWord(), 16, p.ImagePhys(p.pmd) + 3)
  }

  lemma LinksLinked(p: Placement, m: seq<u64>)
    requires p.Valid(|m|)
    ensures Linked(p, Links(p, m))
  {
    hide Placement.Valid, Placement.ImagePhys, Placement.PgdWord, Placement.PudWord, Placement.PmdWord;
    p.TableWords(|m|);
  }

  lemma LinkedLinks(p: Placement, m: seq<u64>)
    requires p.Valid(|m|) && Linked(p, m)
    ensures Links(p, m) == m
  {
    hide Placement.Valid, Placement.ImagePhys, Placement.PgdWord, Placement.PudWord, Placement.PmdWord;
    p.TableWords(|m|);
    forall j | 0 <= j < |m| ensures Links(p, m)[j] == m[j] {
      if p.PudWord() <= j < p.PudWord() + 16 { assert m[p.PudWord() + (j - p.PudWord())] == m[j]; }
    }
  }

  lemma LinksEffect(p: Placement, m: seq<u64>)
    requires p.Valid(|m|)
    ensures Linked(p, Links(p, m))
    ensures Linked(p, m) ==> Links(p, m) == m
  {
    hide Placement.Valid, Linked, Links, Placement.PgdWord, Placement.PudWord, Placement.PmdWord;
    LinksLinked(p, m);
    if Linked(p, m) { LinkedLinks(p, m); }
  }

  /** A create_simple_map request that stays inside the window and inside 48-bit physical space. */
  predicate Mappable(va: u64, pa: u64, size: u64, memType: u64) {
    && VIRT_OFFSET <= va && SlotOf(va) + SlotCount(size) <= 8192
    && pa % 4096 == 0 && pa + 0x20_0000 * (SlotCount(size) - 1) < TWO48
    && memType < 8
  }

  /** Memory after create_simple_map: consecutive slots overlaid with consecutive blocks. */
  function SimpleMap(p: Placement, m: seq<u64>, va: u64, pa: u64, size: u64, memType: u64): (r: seq<u64>)
    requires p.Valid(|m|) && Mappable(va, pa, size, memType)
    ensures |r| == |m|
  {
    p.TableWords(|m|);
    Blocks(m, p.PmdWord() + SlotOf(va), SlotCount(size), pa + 0x701 + 4 * memType)
  }

  lemma BlocksOfNone(m: seq<u64>, first: nat, value: nat)
    requires first <= |m| && value < TWO64
    ensures Blocks(m, first, 0, value) == m
  {
  }

  lemma BlocksExtend(m: seq<u64>, first: nat, n: nat, value: nat)
    requires first + n < |m| && value + 0x20_0000 * n < TWO64
    ensures Blocks(m, first, n + 1, value) == Blocks(m, first, n, value)[first + n := value + 0x20_0000 * n]
  {
  }

  /** Overlaying PMD slots leaves the PGD and PUD entries alone. */
  lemma SlotsKeepLinks(p: Placement, m: seq<u64>, first: nat, n: nat, value: nat)
    requires p.Valid(|m|) && Linked(p, m)
    requires first + n <= 8192 && value + 0x20_0000 * (n - 1) < TWO64
    ensures p.PmdWord() + first + n <= |m| && 0 <= p.PmdWord()
    ensures Linked(p, Blocks(m, p.PmdWord() + first, n, value))
  {
    p.TableWords(|m|);
  }

  lemma RangeBounds(va: u64, size: u64)
    requires VIRT_OFFSET <= va && SlotOf(va) + SlotCount(size) <= 8192
    ensures Wrap64(va + size) == va + size && SlotOf(va) >= 0
    ensures va + 0x20_0000 * SlotCount(size) + 0x20_0000 < TWO64
  {
  }

  /** The loop's comparison counts the slots left. */
  lemma StepsRemain(va: int, size: nat, k: nat)
    ensures va + 0x20_0000 * k < va + size <==> k < SlotCount(size)
    ensures SlotOf(va + 0x20_0000 * k) == SlotOf(va) + k
  {
    var off := va - VIRT_OFFSET;
    Divides(off + 0x20_0000 * k, 0x20_0000, off / 0x20_0000 + k, off % 0x20_0000);
  }

  lemma PageStep(pa: nat, k: nat)
    requires pa % 4096 == 0
    ensures (pa + 0x20_0000 * k) % 4096 == 0
  {
    Divides(pa + 0x20_0000 * k, 4096, pa / 4096 + 512 * k, 0);
  }

  lemma LinkedEntry(p: Placement, m: seq<u64>, i: nat)
    requires p.Valid(|m|) && Linked(p, m) && i < 16
    ensures 0 <= p.ImagePhys(p.pud) / 8 + i < |m|
    ensures m[p.ImagePhys(p.pud) / 8 + i] == p.ImagePhys(p.pmd) + 3 + 4096 * i
  {
    p.TableWords(|m|);
    assert m[p.PudWord() + i] == p.ImagePhys(p.pmd) + 3 + 4096 * i;
  }

  /** The i-th PMD table, as an address of the image. */
  lemma PmdTable(p: Placement, words: nat, i: nat)
    requires p.Valid(words) && i < 16
    ensures var table := p.pmd + 4096 * i;
            && table < TWO64 && p.TableAt(table, 1) && p.InImage(table)
            && p.ImagePhys(table) == p.ImagePhys(p.pmd) + 4096 * i
    ensures p.ImagePhys(p.pmd) == 8 * p.PmdWord() && p.ImagePhys(p.pmd) % 4096 == 0
    ensures 0 <= p.ImagePhys(p.pmd) && p.ImagePhys(p.pmd) + 4096 * 16 <= PHYSICAL_SIZE
  {
    hide Placement.Valid;
    p.TableWords(words);
    PageStep4K(p.pmd, i);
  }

  /** The PUD entry of a slot, converted back to a virtual address, is the slot's PMD table. */
  lemma PmdTableAt(p: Placement, words: nat, slot: nat)
    requires p.Valid(words) && slot < 8192
    ensures var entry := p.ImagePhys(p.pmd) + 3 + 4096 * (slot / 512);
            && 0 <= entry < TWO64
            && var table := PhysToKimg(entry - entry % 4096, p.Voffset());
            && p.TableAt(table, 1)
            && p.ImagePhys(table) / 8 + slot % 512 == p.PmdWord() + slot
  {
    var i := slot / 512;
    var table := p.pmd + 4096 * i;
    PmdTable(p, words, i);
    hide Placement.Valid, Placement.Voffset, Placement.TableAt, Placement.InImage, Placement.ImagePhys, PhysToKimg;
    LowBitsDrop(p.ImagePhys(p.pmd), i);
    p.ImageConversions(words, table);
  }

  lemma PageStep4K(va: nat, i: nat)
    requires va % 4096 == 0
    ensures (va + 4096 * i) % 4096 == 0
  {
    Divides(va + 4096 * i, 4096, va / 4096 + i, 0);
  }

  lemma LowBitsDrop(base: nat, i: nat)
    requires base % 4096 == 0
    ensures (base + 3 + 4096 * i) % 4096 == 3
    ensures (base + 4096 * i) / 8 == base / 8 + 512 * i
  {
    var b := base / 4096;
    Divides(base + 3 + 4096 * i, 4096, b + i, 3);
    Divides(base + 4096 * i, 8, 512 * b + 512 * i, 0);
    Divides(base, 8, 512 * b, 0);
  }

  lemma PudIndex(i: nat)
    requires i < 16
    ensures Prefix(VIRT_OFFSET + 0x4000_0000 * i, 1) % 512 == i && Prefix(VIRT_OFFSET, 0) % 512 == 0
  {
    hide Prefix;
    WindowIndices(VIRT_OFFSET);
    WindowIndices(VIRT_OFFSET + 0x4000_0000 * i);
  }

  lemma TableDescriptorWord(phys: u64)
    requires phys % 4096 == 0 && phys < TWO48
    ensures Or64(phys, 3) == phys + 3
  {
    assert AttributeBits(3);
    hide Or;
    OrIntoAddress(phys, 3);
  }

  /** Entry i of a static table, as a virtual and as a physical address. */
  lemma TableEntry(p: Placement, words: nat, table: u64, i: nat, pages: nat)
    requires p.Valid(words) && p.TableAt(table, pages) && i < 512 * pages
    ensures p.InImage(table + 8 * i) && (table + 8 * i) % 8 == 0
    ensures p.ImagePhys(table + 8 * i) / 8 == p.ImagePhys(table) / 8 + i
    ensures p.InImage(table)
  {
    PageAligned(p.load, table);
    var b := p.ImagePhys(table) / 8;
    Divides(p.ImagePhys(table + 8 * i), 8, b + i, 0);
    Divides(table, 8, 512 * (table / 4096), 0);
    Divides(table + 8 * i, 8, 512 * (table / 4096) + i, 0);
  }

  /** The image fits below the linear map's first slot. */
  lemma RequestsMappable(p: Placement, words: nat)
    requires p.Valid(words)
    ensures Mappable(KIMAGE_VADDR, p.load, p.Size(), MT_NORMAL)
    ensures Mappable(PAGE_OFFSET, PHYS_OFFSET, PHYS_SIZE, MT_NORMAL)
    ensures Mappable(DEVICE_START, DEVICE_PHYS_OFFSET, DEVICE_PHYS_SIZE, MT_DEVICE_nGnRnE)
    ensures Wrap64(KIMAGE_VADDR - p.Voffset()) == p.load
    ensures SlotOf(KIMAGE_VADDR) == 0 && 1 <= SlotCount(p.Size()) <= 2048
    ensures SlotOf(PAGE_OFFSET) == 2048 && SlotCount(PHYS_SIZE) == 512
    ensures SlotOf(DEVICE_START) == 6144 && SlotCount(DEVICE_PHYS_SIZE) == 256
  {
  }

  /** The three regions, laid over the PMD slots in turn. */
  function ImageMap(p: Placement, m: seq<u64>): (r: seq<u64>)
    requires p.Valid(|m|)
    ensures |r| == |m|
  {
    RequestsMappable(p, |m|);
    SimpleMap(p, m, KIMAGE_VADDR, p.load, p.Size(), MT_NORMAL)
  }

  function LinearMap(p: Placement, m: seq<u64>): (r: seq<u64>)
    requires p.Valid(|m|)
    ensures |r| == |m|
  {
    RequestsMappable(p, |m|);
    SimpleMap(p, m, PAGE_OFFSET, PHYS_OFFSET, PHYS_SIZE, MT_NORMAL)
  }

  function DeviceMap(p: Placement, m: seq<u64>): (r: seq<u64>)
    requires p.Valid(|m|)
    ensures |r| == |m|
  {
    RequestsMappable(p, |m|);
    SimpleMap(p, m, DEVICE_START, DEVICE_PHYS_OFFSET, DEVICE_PHYS_SIZE, MT_DEVICE_nGnRnE)
  }

  /** Memory after create_kernel_map. */
  function KernelTables(p: Placement, m: seq<u64>): (r: seq<u64>)
    requires p.Valid(|m|)
    ensures |r| == |m|
  {
    DeviceMap(p, LinearMap(p, ImageMap(p, Links(p, m))))
  }

  lemma PgdInImage(p: Placement, words: nat)
    requires p.Valid(words)
    ensures p.InImage(p.pgd) && p.ImagePhys(p.pgd) == p.Root(words)
  {
    p.TableWords(words);
  }

  lemma PudEntryOf(p: Placement, m: seq<u64>, va: u64, slot: nat)
    requires p.Valid(|m|) && Linked(p, m)
    requires VIRT_OFFSET <= va && slot == SlotOf(va) < 8192
    ensures var a := p.pud + 8 * (Prefix(va, 1) % 512);
            && a < TWO64 && p.InImage(a) && 0 <= p.ImagePhys(a) / 8 < |m|
            && m[p.ImagePhys(a) / 8] == p.ImagePhys(p.pmd) + 3 + 4096 * (slot / 512)
  {
    p.TableWords(|m|);
    WindowIndices(va);
    hide Placement.Valid, Placement.InImage, Placement.ImagePhys, Linked, Prefix, SlotOf;
    TableEntry(p, |m|, p.pud, slot / 512, 1);
    LinkedEntry(p, m, slot / 512);
  }

  class KernelMmu {
    const mem: array<u64>
    const place: Placement
    var kimageVoffset: u64
    var initPagetablesDone: bool
    var ttbr1: u64

    ghost predicate Valid()
      reads this, mem
    {
      && place.Valid(mem.Length)
      && kimageVoffset == place.Voffset()
      && (initPagetablesDone ==> Linked(place, mem[..]))
    }

    constructor (mem: array<u64>, place: Placement, voffset: u64, ttbr1: u64)
      requires place.Valid(mem.Length) && voffset == place.Voffset()
      ensures Valid() && this.mem == mem && this.place == place && this.ttbr1 == ttbr1
      ensures !initPagetablesDone
    {
      this.mem := mem;
      this.place := place;
      this.kimageVoffset := voffset;
      this.initPagetablesDone := false;
      this.ttbr1 := ttbr1;
    }

    /** writeq to an image address: the current tables send it to va - kimage_voffset. */
    method WriteQ(value: u64, va: u64)
      requires place.Valid(mem.Length) && kimageVoffset == place.Voffset()
      requires place.InImage(va) && va % 8 == 0
      modifies mem
      ensures 0 <= place.ImagePhys(va) / 8 < mem.Length
      ensures mem[..] == old(mem[..])[place.ImagePhys(va) / 8 := value]
    {
      hide Placement.Valid, Placement.Voffset, Placement.InImage, Placement.ImagePhys, Wrap64;
      place.ImageConversions(mem.Length, va);
      place.ImageWord(mem.Length, va);
      mem[Wrap64(va - kimageVoffset) / 8] := value;
    }

    /** writeq(value, &table[index]) */
    method WriteEntry(value: u64, table: u64, index: nat, ghost pages: nat)
      requires place.Valid(mem.Length) && kimageVoffset == place.Voffset()
      requires place.TableAt(table, pages) && index < 512 * pages
      modifies mem
      ensures 0 <= place.ImagePhys(table) / 8 + index < mem.Length
      ensures mem[..] == old(mem[..])[place.ImagePhys(table) / 8 + index := value]
    {
      TableEntry(place, mem.Length, table, index, pages);
      hide Placement.Valid, Placement.ImagePhys, Placement.InImage, Placement.Voffset, Placement.TableAt;
      WriteQ(value, table + 8 * index);
    }

    /** One round of the PUD loop: the entry for va points to the PMD table at pmdPhys. */
    method LinkPudEntry(va: u64, pmdPhys: u64, ghost i: nat)
      requires place.Valid(mem.Length) && kimageVoffset == place.Voffset()
      requires va == VIRT_OFFSET + 0x4000_0000 * i && i < 16
      requires pmdPhys % 4096 == 0 && pmdPhys < TWO48
      modifies mem
      ensures 0 <= place.PudWord() + i < mem.Length
      ensures mem[..] == old(mem[..])[place.PudWord() + i := pmdPhys + 3]
    {
      place.TableWords(mem.Length);
      PudIndex(i);
      TableDescriptorWord(pmdPhys);
      hide Placement.Valid, Placement.TableAt, Placement.ImagePhys, Placement.Voffset, Prefix, Or;
      WriteEntry(Or64(pmdPhys, 3), place.pud, Prefix(va, 1) % 512, 1);
    }

    /** The PUD loop of init_pagetables. */
    method LinkPudEntries(pmdTables: u64)
      requires place.Valid(mem.Length) && kimageVoffset == place.Voffset()
      requires pmdTables % 4096 == 0 && pmdTables + 4096 * 16 <= TWO48
      modifies mem
      ensures 0 <= place.PudWord() && place.PudWord() + 16 <= mem.Length
      ensures mem[..] == Run(old(mem[..]), place.PudWord(), 16, pmdTables + 3)
    {
      place.TableWords(mem.Length);
      ghost var m, first := mem[..], place.PudWord();
      assert mem[..] == Run(m, first, 0, pmdTables + 3);
      hide Run, Placement.Valid, Placement.PudWord, Placement.Voffset;
      var va: u64, pmdPhys := VIRT_OFFSET, pmdTables;
      for i := 0 to 16
        invariant va == VIRT_OFFSET + 0x4000_0000 * i
        invariant pmdPhys == pmdTables + 4096 * i
        invariant mem[..] == Run(m, first, i, pmdTables + 3)
      {
        LinkPudEntry(va, pmdPhys, i);
        RunExtends(m, first, i, pmdTables + 3);
        va := Wrap64(va + 0x4000_0000);
        pmdPhys := Wrap64(pmdPhys + 4096);
      }
    }

    method LinkPgdEntry(pudPhys: u64)
      requires place.Valid(mem.Length) && kimageVoffset == place.Voffset()
      requires pudPhys % 4096 == 0 && pudPhys < TWO48
      modifies mem
      ensures 0 <= place.PgdWord() < mem.Length
      ensures mem[..] == old(mem[..])[place.PgdWord() := pudPhys + 3]
    {
      place.TableWords(mem.Length);
      PudIndex(0);
      TableDescriptorWord(pudPhys);
      hide Placement.Valid, Placement.TableAt, Placement.ImagePhys, Placement.Voffset, Prefix, Or;
      WriteEntry(Or64(pudPhys, 3), place.pgd, Prefix(VIRT_OFFSET, 0) % 512, 1);
    }

    method LinkTables()
      requires place.Valid(mem.Length) && kimageVoffset == place.Voffset()
      modifies mem
      ensures mem[..] == Links(place, old(mem[..]))
    {
      place.TableWords(mem.Length);
      place.ImageConversions(mem.Length, place.pud);
      place.ImageConversions(mem.Length, place.pmd);
      hide Placement.Valid, Placement.TableAt, Placement.ImagePhys, Placement.Voffset, Placement.PgdWord,
        Placement.PudWord, VirtToPhys, Run;
      var pudPhys := VirtToPhys(place.pud, kimageVoffset);
      var pmdPhys := VirtToPhys(place.pmd, kimageVoffset);
      LinkPgdEntry(pudPhys);
      LinkPudEntries(pmdPhys);
    }

    method InitPagetables()
      requires Valid()
      modifies this`initPagetablesDone, mem
      ensures Valid() && initPagetablesDone
      ensures mem[..] == Links(place, old(mem[..]))
    {
      hide Placement.Valid, Placement.Voffset, Links, Linked;
      LinksEffect(place, mem[..]);
      if initPagetablesDone { return; }
      LinkTables();
      initPagetablesDone := true;
    }

    method ReadQ(va: u64) returns (value: u64)
      requires place.Valid(mem.Length) && kimageVoffset == place.Voffset()
      requires place.InImage(va)
      ensures 0 <= place.ImagePhys(va) / 8 < mem.Length
      ensures value == mem[place.ImagePhys(va) / 8]
    {
      hide Placement.Valid, Placement.Voffset, Placement.InImage, Placement.ImagePhys, Wrap64;
      place.ImageConversions(mem.Length, va);
      place.ImageWord(mem.Length, va);
      value := mem[Wrap64(va - kimageVoffset) / 8];
    }

    /** Reads the PUD entry of a slot and returns the address of the PMD table it leads to. */
    method PmdTableOf(va: u64, ghost slot: nat) returns (table: u64)
      requires place.Valid(mem.Length) && kimageVoffset == place.Voffset() && Linked(place, mem[..])
      requires VIRT_OFFSET <= va && slot == SlotOf(va) < 8192
      ensures place.TableAt(table, 1)
      ensures place.ImagePhys(table) / 8 + slot % 512 == place.PmdWord() + slot
    {
      hide Placement.Valid, Placement.TableAt, Placement.InImage, Placement.ImagePhys, Placement.Voffset,
        Linked, Prefix, PhysToKimg, SlotOf;
      var i := Prefix(va, 1) % 512;
      PudEntryOf(place, mem[..], va, slot);
      PmdTableAt(place, mem.Length, slot);
      var pudEntry := ReadQ(place.pud + 8 * i);
      table := PhysToKimg(pudEntry - pudEntry % 4096, kimageVoffset);
    }

    /** One round of create_simple_map: find the PMD table through the PUD entry, store the block. */
    method MapSlot(va: u64, pa: u64, memType: u64, ghost slot: nat)
      requires place.Valid(mem.Length) && kimageVoffset == place.Voffset() && Linked(place, mem[..])
      requires VIRT_OFFSET <= va && slot == SlotOf(va) < 8192
      requires pa % 4096 == 0 && pa < TWO48 && memType < 8
      modifies mem
      ensures 0 <= place.PmdWord() + slot < mem.Length
      ensures mem[..] == old(mem[..])[place.PmdWord() + slot := pa + 0x701 + 4 * memType]
    {
      BlockDescriptorValue(pa, memType);
      WindowIndices(va);
      hide Placement.Valid, Placement.TableAt, Placement.ImagePhys, Placement.PmdWord, Placement.Voffset,
        Linked, Prefix, BlockDescriptor, SlotOf;
      var pmdTable := PmdTableOf(va, slot);
      WriteEntry(BlockDescriptor(pa, memType), pmdTable, Prefix(va, 2) % 512, 1);
    }

    /** The round that overlays slot number k of the range. */
    method MapNextSlot(va: u64, pa: u64, memType: u64, ghost start: nat, ghost k: nat, ghost m: seq<u64>,
                       ghost value: nat)
      requires place.Valid(mem.Length) && kimageVoffset == place.Voffset() && Linked(place, mem[..])
      requires VIRT_OFFSET <= va && SlotOf(va) == start + k < 8192
      requires pa % 4096 == 0 && pa < TWO48 && memType < 8
      requires |m| == mem.Length && place.Valid(|m|) && Linked(place, m)
      requires pa + 0x701 + 4 * memType == value + 0x20_0000 * k
      requires 0 <= place.PmdWord() && place.PmdWord() + 8192 <= |m|
      requires mem[..] == Blocks(m, place.PmdWord() + start, k, value)
      modifies mem
      ensures mem[..] == Blocks(m, place.PmdWord() + start, k + 1, value)
      ensures Linked(place, mem[..])
    {
      hide Placement.Valid, Placement.PmdWord, Placement.Voffset, Blocks, Linked, SlotOf;
      MapSlot(va, pa, memType, start + k);
      BlocksExtend(m, place.PmdWord() + start, k, value);
      SlotsKeepLinks(place, m, start, k + 1, value);
    }

    method CreateSimpleMap(va: u64, pa: u64, size: u64, memType: u64)
      requires Valid() && Linked(place, mem[..]) && Mappable(va, pa, size, memType)
      modifies mem
      ensures Valid() && Linked(place, mem[..])
      ensures mem[..] == SimpleMap(place, old(mem[..]), va, pa, size, memType)
    {
      hide Placement.Valid, Placement.PmdWord, Placement.Voffset, Blocks, Linked, SlotOf, SlotCount, Wrap64;
      place.TableWords(mem.Length);
      RangeBounds(va, size);
      var v, p := va, pa;
      var vaEnd := Wrap64(va + size);
      ghost var k: nat, m, start, value := 0, mem[..], SlotOf(va), pa + 0x701 + 4 * memType;
      BlocksOfNone(m, place.PmdWord() + start, value);
      while v < vaEnd
        invariant k <= SlotCount(size) && v == va + 0x20_0000 * k && p == pa + 0x20_0000 * k
        invariant mem[..] == Blocks(m, place.PmdWord() + start, k, value)
        invariant Linked(place, mem[..])
        decreases SlotCount(size) - k
      {
        StepsRemain(va, size, k);
        PageStep(pa, k);
        MapNextSlot(v, p, memType, start, k, m, value);
        NoWrap(v + 0x20_0000);
        NoWrap(p + 0x20_0000);
        v := Wrap64(v + 0x20_0000);
        p := Wrap64(p + 0x20_0000);
        k := k + 1;
      }
      StepsRemain(va, size, k);
    }

    method MapImage()
      requires Valid() && Linked(place, mem[..])
      modifies mem
      ensures Valid() && Linked(place, mem[..]) && mem[..] == ImageMap(place, old(mem[..]))
    {
      RequestsMappable(place, mem.Length);
      hide Placement.Valid, Placement.Voffset, Mappable, SimpleMap, Linked;
      CreateSimpleMap(KIMAGE_VADDR, Wrap64(KIMAGE_VADDR - kimageVoffset), place.Size(), MT_NORMAL);
    }

    method MapLinear()
      requires Valid() && Linked(place, mem[..])
      modifies mem
      ensures Valid() && Linked(place, mem[..]) && mem[..] == LinearMap(place, old(mem[..]))
    {
      RequestsMappable(place, mem.Length);
      hide Placement.Valid, Placement.Voffset, Mappable, SimpleMap, Linked;
      CreateSimpleMap(PAGE_OFFSET, PHYS_OFFSET, PHYS_SIZE, MT_NORMAL);
    }

    method MapDevice()
      requires Valid() && Linked(place, mem[..])
      modifies mem
      ensures Valid() && Linked(place, mem[..]) && mem[..] == DeviceMap(place, old(mem[..]))
    {
      RequestsMappable(place, mem.Length);
      hide Placement.Valid, Placement.Voffset, Mappable, SimpleMap, Linked;
      CreateSimpleMap(DEVICE_START, DEVICE_PHYS_OFFSET, DEVICE_PHYS_SIZE, MT_DEVICE_nGnRnE);
    }

    /** switch_mm: TTBR1 receives the address at which the loaded image holds the table. */
    method SwitchMm(pgd: u64)
      requires place.Valid(mem.Length) && kimageVoffset == place.Voffset() && place.InImage(pgd)
      modifies this`ttbr1
      ensures ttbr1 == place.ImagePhys(pgd)
    {
      place.ImageConversions(mem.Length, pgd);
      ttbr1 := VirtToPhys(pgd, kimageVoffset);
    }

    method CreateKernelMap()
      requires Valid()
      modifies this`initPagetablesDone, this`ttbr1, mem
      ensures Valid() && initPagetablesDone
      ensures mem[..] == KernelTables(place, old(mem[..]))
      ensures ttbr1 == place.Root(mem.Length)
    {
      hide Placement.Valid, Placement.Root, Placement.ImagePhys, Placement.InImage, Placement.TableAt,
        Placement.Voffset, Placement.PgdWord, Placement.PudWord, Placement.PmdWord, ImageMap, LinearMap,
        DeviceMap, Links, Linked, VirtToPhys;
      PgdInImage(place, mem.Length);
      LinksEffect(place, mem[..]);
      InitPagetables();
      MapImage();
      MapLinear();
      MapDevice();
      SwitchMm(place.pgd);
    }
  }
}
