/** The kernel's address-space constants and address conversions (memory.h). */
module MemoryLayout {
  import opened Words

  const PHYS_OFFSET: int := 0x4000_0000
  const PHYS_SIZE: int := 0x4000_0000
  const VIRT_OFFSET: int := 0xFFFF_0000_0000_0000
  const KIMAGE_VADDR: int := 0xFFFF_0000_0008_0000
  const PAGE_OFFSET: int := 0xFFFF_0001_0000_0000
  const PAGE_END: int := 0xFFFF_0001_FFFF_FFFF
  const DEVICE_PHYS_OFFSET: int := 0
  const DEVICE_PHYS_SIZE: int := 0x2000_0000
  const DEVICE_START: int := 0xFFFF_0003_0000_0000
  const MT_NORMAL: int := 0
  const MT_DEVICE_nGnRnE: int := 3

  /** An unsigned comparison against the size of the window less one. */
  predicate IsLmAddress(addr: u64) {
    Wrap64(addr - PAGE_OFFSET) < PAGE_END - PAGE_OFFSET
  }

  function LmToPhys(addr: u64): u64 {
    Wrap64(Wrap64(addr - PAGE_OFFSET) + PHYS_OFFSET)
  }

  function KimgToPhys(addr: u64, voffset: u64): u64 {
    Wrap64(addr - voffset)
  }

  function PhysToLm(x: u64): u64 {
    Or64(Wrap64(x - PHYS_OFFSET), PAGE_OFFSET)
  }

  function PhysToKimg(x: u64, voffset: u64): u64 {
    Wrap64(x + voffset)
  }

  function VirtToPhys(addr: u64, voffset: u64): u64 {
    if IsLmAddress(addr) then LmToPhys(addr) else KimgToPhys(addr, voffset)
  }

  function PhysToVirt(x: u64): u64 {
    PhysToLm(x)
  }

  /** ORing an offset into the linear window's base is an addition. */
  lemma PhysToLmValue(x: u64)
    requires Wrap64(x - PHYS_OFFSET) < 0x1_0000_0000
    ensures PhysToLm(x) == PAGE_OFFSET + Wrap64(x - PHYS_OFFSET)
  {
    var d := Wrap64(x - PHYS_OFFSET);
    PowersUsed();
    hide Pow2, Or, Wrap64;
    OrConcat(d, PAGE_OFFSET, 0, d, 0xFFFF_0001, 0, 32);
    OrZero(d);
    OrZero(0xFFFF_0001);
  }

  lemma WindowOffset(x: u64)
    requires Wrap64(x - PHYS_OFFSET) < 0x1_0000_0000
    ensures x >= PHYS_OFFSET && Wrap64(x - PHYS_OFFSET) == x - PHYS_OFFSET
  {
    if x < PHYS_OFFSET {
      Divides(x - PHYS_OFFSET, TWO64, -1, x - PHYS_OFFSET + TWO64);
    } else {
      NoWrap(x - PHYS_OFFSET);
    }
  }

  lemma LinearAddress(addr: u64)
    requires IsLmAddress(addr)
    ensures PAGE_OFFSET <= addr < PAGE_END
  {
    if addr < PAGE_OFFSET {
      Divides(addr - PAGE_OFFSET, TWO64, -1, addr - PAGE_OFFSET + TWO64);
    } else {
      NoWrap(addr - PAGE_OFFSET);
    }
  }

  /** An address converts to x by an offset exactly when that offset is their difference. */
  lemma OffsetApart(addr: u64, voffset: u64, x: u64)
    requires x <= addr
    ensures Wrap64(addr - voffset) == x <==> voffset == addr - x
  {
    if voffset <= addr {
      NoWrap(addr - voffset);
    } else {
      Divides(addr - voffset, TWO64, -1, addr - voffset + TWO64);
    }
  }

  /** phys_to_virt followed by virt_to_phys is the identity on the whole 4 GB linear window except
      its last byte, which the strict comparison leaves to the image mapping. */
  lemma LinearRoundTrip(x: u64, voffset: u64)
    requires Wrap64(x - PHYS_OFFSET) < 0x1_0000_0000
    ensures VirtToPhys(PhysToVirt(x), voffset) == x
            <==> Wrap64(x - PHYS_OFFSET) < 0xFFFF_FFFF || voffset == PAGE_OFFSET - PHYS_OFFSET
  {
    hide Wrap64;
    WindowOffset(x);
    PhysToLmValue(x);
    var addr := PAGE_OFFSET + (x - PHYS_OFFSET);
    NoWrap(addr - PAGE_OFFSET);
    NoWrap(x);
    OffsetApart(addr, voffset, x);
  }

  /** Every linear-map address comes back from its physical address. */
  lemma LinearAddressRoundTrip(addr: u64, voffset: u64)
    requires IsLmAddress(addr)
    ensures PhysToVirt(VirtToPhys(addr, voffset)) == addr
    ensures VirtToPhys(addr, voffset) == addr - PAGE_OFFSET + PHYS_OFFSET
  {
    hide Wrap64;
    LinearAddress(addr);
    NoWrap(addr - PAGE_OFFSET);
    NoWrap(addr - PAGE_OFFSET + PHYS_OFFSET);
    PhysToLmValue(addr - PAGE_OFFSET + PHYS_OFFSET);
  }
}
