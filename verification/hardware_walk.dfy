/** The AArch64 stage 1 translation table walk, written from section D8.3 of Arm DDI 0487 (issue
    J.a numbering) for the configuration TCR_EL1 selects (startup.S:274): 48-bit virtual addresses in
    both halves, a 4 KB granule, 32-bit physical addresses (IPS is 0), the top address byte ignored, no
    hardware update of the access flag. */
module HardwareWalk {
  import opened Words

  /** Descriptor bits [11:2] and [63:50]: memory type, permissions, shareability, access flag. */
  datatype Attributes = Attributes(lower: nat, upper: nat)

  datatype Outcome = Fault | Mapped(address: nat, attributes: Attributes)

  /** Tables and output addresses from here on are address size faults. */
  const PHYSICAL_SIZE: int := 0x1_0000_0000

  function Reach(address: nat, attributes: Attributes): Outcome {
    if address < PHYSICAL_SIZE then Mapped(address, attributes) else Fault
  }

  /** The part of an address that selects an entry at this level, with every higher bit kept: each
      level up drops nine more bits. Level -1 stands for the 48-bit half the address lies in. */
  function Prefix(va: nat, level: int): nat
    requires -1 <= level <= 3
    decreases 3 - level
  {
    if level == 3 then va / 4096 else Prefix(va, level + 1) / 512
  }

  lemma PrefixIsShift(va: nat)
    ensures Prefix(va, 3) == va / 0x1000
    ensures Prefix(va, 2) == va / 0x20_0000
    ensures Prefix(va, 1) == va / 0x4000_0000
    ensures Prefix(va, 0) == va / 0x80_0000_0000
    ensures Prefix(va, -1) == va / TWO48
  {
    assert Prefix(va, 2) == va / 4096 / 512 == va / 0x20_0000;
    assert Prefix(va, 1) == va / 0x20_0000 / 512 == va / 0x4000_0000;
    assert Prefix(va, 0) == va / 0x4000_0000 / 512 == va / 0x80_0000_0000;
  }

  lemma {:induction false} PrefixMonotone(x: nat, y: nat, level: int)
    requires x <= y && -1 <= level <= 3
    ensures Prefix(x, level) <= Prefix(y, level)
    decreases 3 - level
  {
    if level == 3 {
    } else {
      PrefixMonotone(x, y, level + 1);
    }
  }

  lemma PrefixNests(va: nat, level: nat)
    requires level <= 3
    ensures Prefix(va, level) / 512 == Prefix(va, level - 1)
    ensures 0 <= Prefix(va, level) - 512 * Prefix(va, level - 1) == Prefix(va, level) % 512 < 512
  {
  }

  function AttributesOf(d: u64): Attributes {
    Attributes(d % 4096 / 4, d / 0x4_0000_0000_0000)
  }

  /** Bits [1:0] of a descriptor select its kind. */
  predicate IsValid(d: u64) { d % 2 == 1 }
  predicate IsTableOrPage(d: u64) { d % 4 == 3 }

  /** The next-level table, or the page: bits [47:12]. */
  function PageAddress(d: u64): nat {
    d / 4096 % 0x10_0000_0000 * 4096
  }

  /** Where a leaf descriptor found at this level sends the address: its output-address field gives
      the page or block, the address the place in it. */
  function OutputAddress(d: u64, va: u64, level: nat): nat
    requires 1 <= level <= 3
  {
    if level == 3 then PageAddress(d) + va % 4096
    else if level == 2 then d / 0x20_0000 % 0x800_0000 * 0x20_0000 + va % 0x20_0000
    else d / 0x4000_0000 % 0x4_0000 * 0x4000_0000 + va % 0x4000_0000
  }

  /** A leaf descriptor translates if its access flag is set. */
  function Leaf(d: u64, va: u64, level: nat): Outcome
    requires 1 <= level <= 3
  {
    if d / 1024 % 2 == 0 then Fault else Reach(OutputAddress(d, va, level), AttributesOf(d))
  }

  /** One step of the walk and the rest of it, over memory m seen as 64-bit words. A fetch beyond
      the end of memory is an external abort. */
  function TableWalk(m: seq<u64>, table: nat, va: u64, level: nat): Outcome
    requires level <= 3
    decreases 3 - level
  {
    var w := table / 8 + Prefix(va, level) % 512;
    if table >= PHYSICAL_SIZE || w >= |m| || !IsValid(m[w]) then Fault
    else if level == 3 then (if IsTableOrPage(m[w]) then Leaf(m[w], va, 3) else Fault)
    else if IsTableOrPage(m[w]) then TableWalk(m, PageAddress(m[w]), va, level + 1)
    else if level == 0 then Fault
    else Leaf(m[w], va, level)
  }

  /** Address bits [55:48], which must all be equal; bits [63:56] are ignored. */
  function Half(va: u64): nat {
    va / TWO48 % 256
  }

  /** The complete translation: the upper half goes through ttbr1, the lower through ttbr0. */
  function Translate(m: seq<u64>, ttbr0: u64, ttbr1: u64, va: u64): Outcome {
    if Half(va) == 255 then TableWalk(m, ttbr1, va, 0)
    else if Half(va) == 0 then TableWalk(m, ttbr0, va, 0)
    else Fault
  }
}
