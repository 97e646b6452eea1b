/** What the hardware makes of the tables create_kernel_map leaves behind. */
module KernelWalk {
  import opened Words
  import opened HardwareWalk
  import opened MemoryLayout
  import opened Startup
  import opened KernelMap

  /** The block descriptor create_kernel_map puts into a slot of the 16 GB window; 0 for none. */
  function SlotValue(p: Placement, slot: nat): int
    requires p.kimageEnd > KIMAGE_VADDR
  {
    if slot < SlotCount(p.Size()) then p.load + 0x701 + 0x20_0000 * slot
    else if 2048 <= slot < 2560 then PHYS_OFFSET + 0x701 + 0x20_0000 * (slot - 2048)
    else if 6144 <= slot < 6400 then DEVICE_PHYS_OFFSET + 0x70D + 0x20_0000 * (slot - 6144)
    else 0
  }

  /** Word j is not one of the 8192 PMD entries. */
  predicate OutsidePmd(p: Placement, j: int) {
    !(p.PmdWord() <= j < p.PmdWord() + 8192)
  }

  lemma SimpleMapAt(p: Placement, m: seq<u64>, va: u64, pa: u64, size: u64, memType: u64, j: nat)
    requires p.Valid(|m|) && Mappable(va, pa, size, memType) && j < |m|
    ensures var k := j - p.PmdWord() - SlotOf(va);
            SimpleMap(p, m, va, pa, size, memType)[j]
            == if 0 <= k < SlotCount(size) then pa + 0x701 + 4 * memType + 0x20_0000 * k else m[j]
  {
    p.TableWords(|m|);
    hide Placement.Valid, Placement.PmdWord, SlotOf, SlotCount;
  }

  /** Slot by slot, and word by word outside the PMD tables. */
  lemma ContentsAt(p: Placement, m: seq<u64>, j: nat)
    requires p.Valid(|m|) && j < |m|
    ensures OutsidePmd(p, j) ==> KernelTables(p, m)[j] == Links(p, m)[j]
    ensures !OutsidePmd(p, j) ==>
              KernelTables(p, m)[j] == var v := SlotValue(p, j - p.PmdWord()); if v != 0 then v else m[j]
  {
    RequestsMappable(p, |m|);
    LinksAt(p, m, j);
    hide Placement.Valid, Placement.PmdWord, SlotOf, SlotCount, SimpleMap, Links, Mappable;
    var m1 := Links(p, m);
    var m2 := ImageMap(p, m1);
    var m3 := LinearMap(p, m2);
    SimpleMapAt(p, m1, KIMAGE_VADDR, p.load, p.Size(), MT_NORMAL, j);
    SimpleMapAt(p, m2, PAGE_OFFSET, PHYS_OFFSET, PHYS_SIZE, MT_NORMAL, j);
    SimpleMapAt(p, m3, DEVICE_START, DEVICE_PHYS_OFFSET, DEVICE_PHYS_SIZE, MT_DEVICE_nGnRnE, j);
  }

  lemma LinksAt(p: Placement, m: seq<u64>, j: nat)
    requires p.Valid(|m|) && j < |m|
    ensures Links(p, m)[j]
            == if j == p.PgdWord() then p.ImagePhys(p.pud) + 3
               else if p.PudWord() <= j < p.PudWord() + 16
                 then p.ImagePhys(p.pmd) + 3 + 4096 * (j - p.PudWord())
               else m[j]
    ensures !OutsidePmd(p, j) ==> Links(p, m)[j] == m[j]
  {
    p.TableWords(|m|);
  }

  /** Running create_kernel_map again changes nothing. */
  lemma KernelTablesIdempotent(p: Placement, m: seq<u64>)
    requires p.Valid(|m|)
    ensures KernelTables(p, KernelTables(p, m)) == KernelTables(p, m)
  {
    var t := KernelTables(p, m);
    forall j | 0 <= j < |m| ensures KernelTables(p, t)[j] == t[j] {
      ContentsAt(p, m, j);
      ContentsAt(p, t, j);
      LinksAt(p, m, j);
      LinksAt(p, t, j);
    }
  }

  /** create_simple_map calls on disjoint slots commute. */
  lemma SimpleMapsCommute(p: Placement, m: seq<u64>, va1: u64, pa1: u64, size1: u64, type1: u64,
                          va2: u64, pa2: u64, size2: u64, type2: u64)
    requires p.Valid(|m|) && Mappable(va1, pa1, size1, type1) && Mappable(va2, pa2, size2, type2)
    requires SlotOf(va1) + SlotCount(size1) <= SlotOf(va2) || SlotOf(va2) + SlotCount(size2) <= SlotOf(va1)
    ensures SimpleMap(p, SimpleMap(p, m, va1, pa1, size1, type1), va2, pa2, size2, type2)
            == SimpleMap(p, SimpleMap(p, m, va2, pa2, size2, type2), va1, pa1, size1, type1)
  {
    hide Placement.Valid, Placement.PmdWord, SlotOf, SlotCount, SimpleMap, Mappable;
    var m1 := SimpleMap(p, m, va1, pa1, size1, type1);
    var m2 := SimpleMap(p, m, va2, pa2, size2, type2);
    forall j | 0 <= j < |m|
      ensures SimpleMap(p, m1, va2, pa2, size2, type2)[j] == SimpleMap(p, m2, va1, pa1, size1, type1)[j]
    {
      SimpleMapAt(p, m, va1, pa1, size1, type1, j);
      SimpleMapAt(p, m, va2, pa2, size2, type2, j);
      SimpleMapAt(p, m1, va2, pa2, size2, type2, j);
      SimpleMapAt(p, m2, va1, pa1, size1, type1, j);
    }
  }

  /** The static tables are zero, as clearing .bss leaves them. */
  ghost predicate TablesBlank(p: Placement, m: seq<u64>)
    requires p.Valid(|m|)
  {
    p.TableWords(|m|);
    && (forall j :: p.PgdWord() <= j < p.PgdWord() + 512 ==> m[j] == 0)
    && (forall j :: p.PudWord() <= j < p.PudWord() + 512 ==> m[j] == 0)
    && (forall j :: p.PmdWord() <= j < p.PmdWord() + 8192 ==> m[j] == 0)
  }

  /** Image and linear memory is Normal (index 0), device memory index 3; all of it inner shareable
      with the access flag set. */
  const NORMAL := Attributes(0x1C0, 0)
  const DEVICE := Attributes(0x1C3, 0)

  /** What the kernel's half of the address space is meant to look like, by offset from VIRT_OFFSET. */
  function KernelMapping(p: Placement, off: nat): Outcome
    requires p.kimageEnd > KIMAGE_VADDR
  {
    var slot := off / 0x20_0000;
    if slot < SlotCount(p.Size()) then Mapped(p.load - p.load % 0x20_0000 + off, NORMAL)
    else if 2048 <= slot < 2560 then Mapped(PHYS_OFFSET + (off - (PAGE_OFFSET - VIRT_OFFSET)), NORMAL)
    else if 6144 <= slot < 6400 then Mapped(DEVICE_PHYS_OFFSET + (off - (DEVICE_START - VIRT_OFFSET)), DEVICE)
    else Fault
  }

  /** A block whose address is not 2 MB aligned maps the 2 MB block that contains it. */
  lemma BlockLeaf(base: nat, attr: nat, k: nat, va: u64, d: u64)
    requires base % 4096 == 0 && base + 0x20_0000 * k < TWO48 && attr < 4096
    requires attr % 4 == 1 && attr / 1024 % 2 == 1
    requires d == base + attr + 0x20_0000 * k
    ensures IsValid(d) && !IsTableOrPage(d)
    ensures Leaf(d, va, 2)
            == Reach(base - base % 0x20_0000 + 0x20_0000 * k + va % 0x20_0000, Attributes(attr / 4, 0))
  {
    BlockFields(base, attr, k);
    BlockAddress(base, k, attr);
    hide PageAddress, IsValid, IsTableOrPage, Reach;
  }

  lemma BlockFields(base: nat, attr: nat, k: nat)
    requires base % 4096 == 0 && base + 0x20_0000 * k < TWO48 && attr < 4096
    requires attr % 4 == 1 && attr / 1024 % 2 == 1
    ensures var d := base + attr + 0x20_0000 * k;
            d < TWO64 && IsValid(d) && !IsTableOrPage(d) && d / 1024 % 2 == 1
            && AttributesOf(d) == Attributes(attr / 4, 0)
  {
    PageFields(base / 4096 + 512 * k, attr);
  }

  lemma PageFields(pages: nat, attr: nat)
    requires pages < 0x10_0000_0000 && attr < 4096 && attr % 4 == 1 && attr / 1024 % 2 == 1
    ensures var d := 4096 * pages + attr;
            d < TWO64 && IsValid(d) && !IsTableOrPage(d) && d / 1024 % 2 == 1
            && AttributesOf(d) == Attributes(attr / 4, 0)
  {
    SplitFields(pages, 0, attr);
    Divides(attr, 2, 2 * (attr / 4), 1);
  }

  lemma BlockAddress(base: nat, k: nat, attr: nat)
    requires base % 4096 == 0 && base + 0x20_0000 * k < TWO48 && attr < 4096
    ensures (base + attr + 0x20_0000 * k) / 0x20_0000 % 0x800_0000 * 0x20_0000
            == base - base % 0x20_0000 + 0x20_0000 * k
  {
    var b := base / 4096;
    var q, t := b / 512, b % 512;
    Divides(base, 0x20_0000, q, 4096 * t);
    Divides(base + attr + 0x20_0000 * k, 0x20_0000, q + k, 4096 * t + attr);
    Divides(q + k, 0x800_0000, 0, q + k);
  }

  /** The offset of an address in its half selects the entries of the walk. */
  lemma OffsetIndices(va: u64)
    ensures var slot := va % TWO48 / 0x20_0000;
            && Prefix(va, 0) % 512 == slot / 0x4_0000
            && Prefix(va, 1) % 512 == slot / 512 % 512
            && Prefix(va, 2) % 512 == slot % 512
  {
    PrefixIsShift(va);
    hide Prefix;
    var h := va / TWO48;
    var off := va % TWO48;
    var slot, r := off / 0x20_0000, off % 0x20_0000;
    var s1, s2 := slot / 512, slot / 0x4_0000;
    Divides(s1, 512, s2, slot % 0x4_0000 / 512);
    Divides(va, 0x20_0000, h * 0x800_0000 + slot, r);
    Divides(va, 0x4000_0000, h * 0x4_0000 + s1, 0x20_0000 * (slot % 512) + r);
    Divides(va, 0x80_0000_0000, h * 512 + s2, 0x20_0000 * (slot % 0x4_0000) + r);
    Divides(h * 0x800_0000 + slot, 512, h * 0x4_0000 + s1, slot % 512);
    Divides(h * 0x4_0000 + s1, 512, h * 512 + s2, s1 % 512);
    Divides(h * 512 + s2, 512, h, s2);
  }

  /** A zero descriptor ends the walk. */
  lemma WalkStops(m: seq<u64>, table: nat, va: u64, level: nat)
    requires level <= 3 && table / 8 + Prefix(va, level) % 512 < |m|
    requires m[table / 8 + Prefix(va, level) % 512] == 0
    ensures TableWalk(m, table, va, level) == Fault
  {
    hide Prefix;
  }

  lemma LinkedPgd(p: Placement, t: seq<u64>)
    requires p.Valid(|t|) && Linked(p, t)
    ensures p.Root(|t|) / 8 < |t| && t[p.Root(|t|) / 8] == p.ImagePhys(p.pud) + 3
  {
    p.TableWords(|t|);
  }

  /** The PMD entry of a slot, and the table it is in. */
  function SlotEntry(p: Placement, t: seq<u64>, slot: nat): u64
    requires p.Valid(|t|) && slot < 8192
  {
    p.TableWords(|t|);
    t[p.PmdWord() + slot]
  }

  function SlotTable(p: Placement, words: nat, slot: nat): nat
    requires p.Valid(words) && slot < 8192
  {
    p.TableWords(words);
    p.ImagePhys(p.pmd) + 4096 * (slot / 512)
  }

  lemma SlotTableEntry(p: Placement, t: seq<u64>, slot: nat)
    requires p.Valid(|t|) && Linked(p, t) && slot < 8192
    ensures SlotTable(p, |t|, slot) % 4096 == 0 && SlotTable(p, |t|, slot) < TWO48
    ensures 0 <= p.ImagePhys(p.pud) < TWO48 && p.ImagePhys(p.pud) % 4096 == 0
    ensures p.ImagePhys(p.pud) / 8 + slot / 512 < |t|
    ensures 8 * |t| <= PHYSICAL_SIZE
    ensures t[p.ImagePhys(p.pud) / 8 + slot / 512] == SlotTable(p, |t|, slot) + 3
    ensures SlotTable(p, |t|, slot) / 8 + slot % 512 < |t|
    ensures t[SlotTable(p, |t|, slot) / 8 + slot % 512] == SlotEntry(p, t, slot)
  {
    p.TableWords(|t|);
    LinkedEntry(p, t, slot / 512);
    hide Placement.Valid, Placement.ImagePhys, Placement.TableAt, Placement.InImage, Linked;
    LowBitsDrop(p.ImagePhys(p.pmd), slot / 512);
    PageStep4K(p.ImagePhys(p.pmd), slot / 512);
  }

  /** The walk through PGD and PUD arrives at the PMD entry of the slot. */
  lemma WalkToPmd(p: Placement, t: seq<u64>, va: u64, slot: nat)
    requires p.Valid(|t|) && Linked(p, t)
    requires slot == va % TWO48 / 0x20_0000 && slot < 8192
    ensures TableWalk(t, p.Root(|t|), va, 0) == TableWalk(t, SlotTable(p, |t|, slot), va, 2)
  {
    hide Placement.Valid, Placement.Root, Placement.ImagePhys, Linked, Prefix, TableWalk, SlotTable, SlotEntry;
    OffsetIndices(va);
    LinkedPgd(p, t);
    SlotTableEntry(p, t, slot);
    WalkStep(t, p.Root(|t|), va, 0, p.ImagePhys(p.pud));
    WalkStep(t, p.ImagePhys(p.pud), va, 1, SlotTable(p, |t|, slot));
  }

  lemma WalkEndsAtEntry(t: seq<u64>, table: nat, va: u64, d: u64)
    requires 8 * |t| <= PHYSICAL_SIZE
    requires table / 8 + Prefix(va, 2) % 512 < |t| && t[table / 8 + Prefix(va, 2) % 512] == d
    requires !IsTableOrPage(d)
    ensures TableWalk(t, table, va, 2) == if IsValid(d) then Leaf(d, va, 2) else Fault
  {
    hide Prefix, IsValid, IsTableOrPage, Leaf;
  }

  /** Inside the window the walk is decided by the slot's entry, unless that were itself a table. */
  lemma WalkToSlot(p: Placement, t: seq<u64>, va: u64, slot: nat)
    requires p.Valid(|t|) && Linked(p, t)
    requires slot == va % TWO48 / 0x20_0000 && slot < 8192
    requires !IsTableOrPage(SlotEntry(p, t, slot))
    ensures TableWalk(t, p.Root(|t|), va, 0)
            == var d := SlotEntry(p, t, slot); if IsValid(d) then Leaf(d, va, 2) else Fault
  {
    hide Placement.Valid, Placement.Root, Placement.ImagePhys, Linked, Prefix, TableWalk, SlotTable, SlotEntry,
      IsTableOrPage, IsValid, Leaf;
    OffsetIndices(va);
    WalkToPmd(p, t, va, slot);
    SlotTableEntry(p, t, slot);
    WalkEndsAtEntry(t, SlotTable(p, |t|, slot), va, SlotEntry(p, t, slot));
  }

  lemma SlotLeaf(p: Placement, va: u64, slot: nat, words: nat)
    requires p.Valid(words) && slot == va % TWO48 / 0x20_0000 && slot < 8192 && SlotValue(p, slot) != 0
    ensures 0 < SlotValue(p, slot) < TWO64
    ensures IsValid(SlotValue(p, slot)) && !IsTableOrPage(SlotValue(p, slot))
    ensures Leaf(SlotValue(p, slot), va, 2) == KernelMapping(p, va % TWO48)
  {
    RequestsMappable(p, words);
    OffsetInSlot(va);
    if slot < SlotCount(p.Size()) { ImageBlockFits(p, words, slot); }
    hide Placement.Valid, IsValid, IsTableOrPage, Leaf, SlotCount, Mappable;
    var d := SlotValue(p, slot);
    if slot < SlotCount(p.Size()) {
      BlockLeaf(p.load, 0x701, slot, va, d);
    } else if slot < 2560 {
      BlockLeaf(PHYS_OFFSET, 0x701, slot - 2048, va, d);
    } else {
      BlockLeaf(DEVICE_PHYS_OFFSET, 0x70D, slot - 6144, va, d);
    }
  }

  /** Every block of the image lies within the physical address size. */
  lemma ImageBlockFits(p: Placement, words: nat, slot: nat)
    requires p.Valid(words) && slot < SlotCount(p.Size())
    ensures p.load - p.load % 0x20_0000 + 0x20_0000 * (slot + 1) <= PHYSICAL_SIZE
  {
    assert p.load + p.Size() <= PHYSICAL_SIZE;
    assert p.load + 0x20_0000 * slot < PHYSICAL_SIZE;
    var q := p.load / 0x20_0000;
    assert p.load - p.load % 0x20_0000 == 0x20_0000 * q;
    assert q + slot < 2048;
  }

  lemma OffsetInSlot(va: u64)
    ensures va % TWO48 == 0x20_0000 * (va % TWO48 / 0x20_0000) + va % 0x20_0000
  {
    var h, off := va / TWO48, va % TWO48;
    Divides(va, 0x20_0000, h * 0x800_0000 + off / 0x20_0000, off % 0x20_0000);
  }

  lemma UnlinkedPgdEntry(p: Placement, m: seq<u64>, i: nat)
    requires p.Valid(|m|) && TablesBlank(p, m) && 0 < i < 512
    ensures p.Root(|m|) / 8 + i < |m| && KernelTables(p, m)[p.Root(|m|) / 8 + i] == 0
  {
    p.TableWords(|m|);
    hide KernelTables, Links;
    ContentsAt(p, m, p.PgdWord() + i);
    LinksAt(p, m, p.PgdWord() + i);
  }

  lemma UnlinkedPudEntry(p: Placement, m: seq<u64>, i: nat)
    requires p.Valid(|m|) && TablesBlank(p, m) && 16 <= i < 512
    ensures 0 <= p.ImagePhys(p.pud) < TWO48 && p.ImagePhys(p.pud) % 4096 == 0
    ensures 8 * |m| <= PHYSICAL_SIZE
    ensures p.ImagePhys(p.pud) / 8 + i < |m| && KernelTables(p, m)[p.ImagePhys(p.pud) / 8 + i] == 0
  {
    p.TableWords(|m|);
    hide KernelTables, Links;
    ContentsAt(p, m, p.PudWord() + i);
    LinksAt(p, m, p.PudWord() + i);
  }

  lemma SlotContents(p: Placement, m: seq<u64>, slot: nat)
    requires p.Valid(|m|) && slot < 8192
    ensures SlotEntry(p, KernelTables(p, m), slot)
            == if SlotValue(p, slot) != 0 then SlotValue(p, slot) else SlotEntry(p, m, slot)
  {
    p.TableWords(|m|);
    assert p.kimageEnd > KIMAGE_VADDR;
    hide Placement.Valid, Placement.PmdWord, KernelTables, SlotValue, Links;
    ContentsAt(p, m, p.PmdWord() + slot);
  }

  lemma SimpleMapKeepsLinks(p: Placement, m: seq<u64>, va: u64, pa: u64, size: u64, memType: u64)
    requires p.Valid(|m|) && Mappable(va, pa, size, memType) && Linked(p, m)
    ensures Linked(p, SimpleMap(p, m, va, pa, size, memType))
  {
    hide Placement.Valid, Linked, Blocks, SlotCount;
    SlotsKeepLinks(p, m, SlotOf(va), SlotCount(size), pa + 0x701 + 4 * memType);
  }

  lemma KernelTablesLinked(p: Placement, m: seq<u64>)
    requires p.Valid(|m|)
    ensures Linked(p, KernelTables(p, m))
  {
    LinksEffect(p, m);
    hide Placement.Valid, Linked, Links, SimpleMap, Mappable;
    RequestsMappable(p, |m|);
    var m1 := Links(p, m);
    var m2 := ImageMap(p, m1);
    var m3 := LinearMap(p, m2);
    SimpleMapKeepsLinks(p, m1, KIMAGE_VADDR, p.load, p.Size(), MT_NORMAL);
    SimpleMapKeepsLinks(p, m2, PAGE_OFFSET, PHYS_OFFSET, PHYS_SIZE, MT_NORMAL);
    SimpleMapKeepsLinks(p, m3, DEVICE_START, DEVICE_PHYS_OFFSET, DEVICE_PHYS_SIZE, MT_DEVICE_nGnRnE);
  }

  /** A slot create_kernel_map fills translates as intended, whatever the tables held before. */
  lemma KernelWalkMapped(p: Placement, m: seq<u64>, va: u64)
    requires p.Valid(|m|) && KernelMapping(p, va % TWO48).Mapped?
    ensures TableWalk(KernelTables(p, m), p.Root(|m|), va, 0) == KernelMapping(p, va % TWO48)
  {
    assert p.kimageEnd > KIMAGE_VADDR;
    hide Placement.Valid, Placement.Root, Linked, TableWalk, KernelTables, SlotValue, SlotEntry, KernelMapping,
      IsValid, IsTableOrPage, Leaf;
    var slot := va % TWO48 / 0x20_0000;
    SlotMapped(p, va % TWO48, |m|);
    KernelTablesLinked(p, m);
    SlotContents(p, m, slot);
    SlotLeaf(p, va, slot, |m|);
    WalkToSlot(p, KernelTables(p, m), va, slot);
  }

  lemma EmptySlot(p: Placement, m: seq<u64>, va: u64, slot: nat)
    requires p.Valid(|m|) && TablesBlank(p, m)
    requires slot == va % TWO48 / 0x20_0000 && slot < 8192 && SlotValue(p, slot) == 0
    ensures TableWalk(KernelTables(p, m), p.Root(|m|), va, 0) == Fault
  {
    assert SlotEntry(p, m, slot) == 0;
    assert !IsTableOrPage(0) && !IsValid(0);
    hide Placement.Valid, Placement.Root, Linked, TableWalk, KernelTables, SlotValue, SlotEntry,
      IsValid, IsTableOrPage, Leaf, TablesBlank;
    KernelTablesLinked(p, m);
    SlotContents(p, m, slot);
    WalkToSlot(p, KernelTables(p, m), va, slot);
  }

  /** Beyond the 16 GB window the walk ends at an empty PGD or PUD entry. */
  lemma OutsideWindow(p: Placement, m: seq<u64>, va: u64, slot: nat)
    requires p.Valid(|m|) && TablesBlank(p, m)
    requires slot == va % TWO48 / 0x20_0000 && slot >= 8192
    ensures TableWalk(KernelTables(p, m), p.Root(|m|), va, 0) == Fault
  {
    hide Placement.Valid, Placement.Root, Placement.ImagePhys, Linked, Prefix, TableWalk, TablesBlank,
      KernelTables;
    var t := KernelTables(p, m);
    OffsetIndices(va);
    if slot >= 0x4_0000 {
      UnlinkedPgdEntry(p, m, slot / 0x4_0000);
      WalkStops(t, p.Root(|m|), va, 0);
    } else {
      KernelTablesLinked(p, m);
      LinkedPgd(p, t);
      UnlinkedPudEntry(p, m, slot / 512);
      WalkStep(t, p.Root(|m|), va, 0, p.ImagePhys(p.pud));
      WalkStops(t, p.ImagePhys(p.pud), va, 1);
    }
  }

  lemma SlotMapped(p: Placement, off: nat, words: nat)
    requires p.Valid(words)
    ensures KernelMapping(p, off).Mapped?
            <==> off / 0x20_0000 < 8192 && SlotValue(p, off / 0x20_0000) != 0
  {
    RequestsMappable(p, words);
  }

  /** The finished tables, seen through the hardware: exactly the image, linear and device slots are
      mapped, each to the right place with the right memory type; all else in the half faults. */
  lemma KernelTranslation(p: Placement, m: seq<u64>, va: u64)
    requires p.Valid(|m|) && TablesBlank(p, m)
    ensures TableWalk(KernelTables(p, m), p.Root(|m|), va, 0) == KernelMapping(p, va % TWO48)
  {
    assert p.kimageEnd > KIMAGE_VADDR;
    hide Placement.Valid, Placement.Root, TableWalk, TablesBlank, KernelTables, SlotValue, KernelMapping;
    var slot := va % TWO48 / 0x20_0000;
    SlotMapped(p, va % TWO48, |m|);
    if KernelMapping(p, va % TWO48).Mapped? {
      KernelWalkMapped(p, m, va);
    } else if slot >= 8192 {
      OutsideWindow(p, m, va, slot);
    } else {
      EmptySlot(p, m, va, slot);
    }
  }

  /** An address of the upper half by its offset from VIRT_OFFSET. */
  lemma UpperHalf(va: u64)
    requires va >= VIRT_OFFSET
    ensures Half(va) == 255 && va % TWO48 == va - VIRT_OFFSET
  {
    assert va == 0xFFFF * TWO48 + (va - VIRT_OFFSET);
  }

  lemma LinearMapping(p: Placement, va: u64, words: nat)
    requires p.Valid(words) && PAGE_OFFSET <= va < PAGE_OFFSET + PHYS_SIZE
    ensures KernelMapping(p, va - VIRT_OFFSET) == Mapped(VirtToPhys(va, p.Voffset()), NORMAL)
  {
    LinearAddressRoundTrip(va, p.Voffset());
    RequestsMappable(p, words);
    assert p.kimageEnd > KIMAGE_VADDR;
    hide Placement.Valid, VirtToPhys, SlotCount, PhysToVirt, Mappable;
  }

  /** The hardware agrees with virt_to_phys on the mapped part of the linear map. */
  lemma LinearAgrees(p: Placement, m: seq<u64>, ttbr0: u64, va: u64)
    requires p.Valid(|m|) && PAGE_OFFSET <= va < PAGE_OFFSET + PHYS_SIZE
    ensures Translate(KernelTables(p, m), ttbr0, p.Root(|m|), va)
            == Mapped(VirtToPhys(va, p.Voffset()), NORMAL)
  {
    assert p.kimageEnd > KIMAGE_VADDR;
    hide Placement.Valid, Placement.Root, KernelTables, TableWalk, KernelMapping, VirtToPhys, Placement.Voffset,
      Half;
    UpperHalf(va);
    LinearMapping(p, va, |m|);
    KernelWalkMapped(p, m, va);
  }

  /** The device window: whatever the tables held before, offset x of it is physical address x, as device
      memory. */
  lemma DeviceWindow(p: Placement, m: seq<u64>, ttbr0: u64, x: nat)
    requires p.Valid(|m|) && x < 0x2000_0000
    ensures Translate(KernelTables(p, m), ttbr0, p.Root(|m|), 0xFFFF_0003_0000_0000 + x)
            == Mapped(x, Attributes(0x1C3, 0))
  {
    hide Placement.Valid, Placement.Root, KernelTables, TableWalk, Half, KernelMapping;
    UpperHalf(0xFFFF_0003_0000_0000 + x);
    DeviceSlots(p, |m|, x);
    KernelWalkMapped(p, m, 0xFFFF_0003_0000_0000 + x);
  }

  lemma DeviceSlots(p: Placement, words: nat, x: nat)
    requires p.Valid(words) && x < 0x2000_0000
    ensures p.kimageEnd > KIMAGE_VADDR && KernelMapping(p, 0x3_0000_0000 + x) == Mapped(x, Attributes(0x1C3, 0))
  {
    RequestsMappable(p, words);
    Divides(0x3_0000_0000 + x, 0x20_0000, 6144 + x / 0x20_0000, x % 0x20_0000);
    hide Placement.Valid, SlotCount, Mappable;
  }

  /** The linear window: offset x of it is physical address 1 GB + x, as normal memory. */
  lemma LinearWindow(p: Placement, m: seq<u64>, ttbr0: u64, x: nat)
    requires p.Valid(|m|) && x < 0x4000_0000
    ensures Translate(KernelTables(p, m), ttbr0, p.Root(|m|), 0xFFFF_0001_0000_0000 + x)
            == Mapped(0x4000_0000 + x, Attributes(0x1C0, 0))
  {
    hide Placement.Valid, Placement.Root, KernelTables, TableWalk, Half, KernelMapping;
    UpperHalf(0xFFFF_0001_0000_0000 + x);
    LinearSlots(p, |m|, x);
    KernelWalkMapped(p, m, 0xFFFF_0001_0000_0000 + x);
  }

  lemma LinearSlots(p: Placement, words: nat, x: nat)
    requires p.Valid(words) && x < 0x4000_0000
    ensures p.kimageEnd > KIMAGE_VADDR
    ensures KernelMapping(p, 0x1_0000_0000 + x) == Mapped(0x4000_0000 + x, Attributes(0x1C0, 0))
  {
    RequestsMappable(p, words);
    Divides(0x1_0000_0000 + x, 0x20_0000, 2048 + x / 0x20_0000, x % 0x20_0000);
    hide Placement.Valid, SlotCount, Mappable;
  }
}
