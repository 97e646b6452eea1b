/** Interrupt enabling and dispatch: the GICv3 driver of gicv3.c under the descriptor layer of interrupt.c. */
module Interrupts {
  import opened Words

  const NR_IRQS: nat := 8192
  const GICV3_NR_LOCAL_IRQS: nat := 32
  const GICV3_NR_SGI: nat := 16
  const SGIS: set<nat> := {0, 1, 2, 3, 4, 5, 6, 7, 8, 9, 10, 11, 12, 13, 14, 15}
  const EINVAL: int := 22

  /** The enable registers have the same offsets in the distributor and in the redistributor's SGI frame. */
  const ISENABLER: nat := 0x100
  const ICENABLER: nat := 0x180
  const ISPENDR: nat := 0x200

  /** How far the redistributor's SGI frame lies above the distributor in the memory map. */
  const SGI_FRAME: nat := 0xB_0000

  type u32 = x: int | 0 <= x < 0x1_0000_0000

  /** A number with a descriptor. */
  type Irq = x: int | 0 <= x < 8192

  datatype Option<T> = None | Some(value: T)

  datatype Handler = BadIrq | User(name: nat)

  datatype Desc = Desc(handler: Handler, flags: u32, name: string, data: u64, irqCount: u32)

  /** What the interrupt controller and the handlers see happen. */
  datatype Event =
    | Unmasked(hwirq: u32)
    | Masked(hwirq: u32)
    | Installed(irq: Irq, handler: Handler)
    | Acked(iar: u32)
    | Ran(irq: Irq, handler: Handler, nest: u64)
    | Ended(iar: u32)

  /** A caller's step. An interrupt's body is what its handler does before it returns, further interrupts
      included. */
  datatype Op =
    | Request(irq: u32, handler: Option<Handler>, flags: u64, name: string, data: u64)
    | Mask(hwirq: u32)
    | Unmask(hwirq: u32)
    | Interrupt(iar: u32, body: seq<Op>)

  datatype Machine = Machine(
    typer: u32, local: set<nat>, spi: set<nat>,
    chip: bool, arch: bool, descs: seq<Desc>, nest: u64, trace: seq<Event>)
  {
    /** The interrupt IDs below this are implemented (ITLinesNumber of GICD_TYPER). */
    function Lines(): nat {
      Implemented(typer)
    }

    predicate Valid() {
      && |descs| == NR_IRQS
      && (forall id | id in local :: id < GICV3_NR_LOCAL_IRQS)
      && (forall id | id in spi :: GICV3_NR_LOCAL_IRQS <= id < Lines())
    }

    predicate Enabled(id: nat) {
      id in local || id in spi
    }

    /** writel to an address, given as its distance from the distributor. */
    function Write(offset: nat, value: u32): Machine {
      this.(spi := WriteDistributor(spi, Lines(), offset, value),
            local := if offset >= SGI_FRAME then WriteRedistributor(local, offset - SGI_FRAME, value) else local)
    }

    function Log(e: Event): Machine {
      this.(trace := trace + [e])
    }
  }

  function Implemented(typer: u32): nat {
    if 32 * (typer % 32 + 1) < 1020 then 32 * (typer % 32 + 1) else 1020
  }

  /** An ID is implemented if it is not special or beyond and its word is not above ITLinesNumber. */
  lemma ImplementedExactly(typer: u32, id: nat)
    ensures id < Implemented(typer) <==> id < 1020 && id / 32 <= typer % 32
  {
    var n := typer % 32;
    assert id == 32 * (id / 32) + id % 32;
    if id / 32 <= n { assert id < 32 * (n + 1); } else { assert id >= 32 * (n + 1); }
  }

  // ----- the registers -----

  /** The shared interrupts whose bits a write of value to word n of a bank selects. Under affinity
      routing word 0 of the distributor selects nothing. */
  function Selected(lines: nat, n: nat, value: u32): set<nat> {
    set id: nat | GICV3_NR_LOCAL_IRQS <= id < lines && id / 32 == n && Bit(value, id % 32)
  }

  /** A write to the distributor: ones written to the set bank enable, to the clear bank disable. */
  function WriteDistributor(spi: set<nat>, lines: nat, offset: nat, value: u32): set<nat> {
    if ISENABLER <= offset < ICENABLER then spi + Selected(lines, (offset - ISENABLER) / 4, value)
    else if ICENABLER <= offset < ISPENDR then spi - Selected(lines, (offset - ICENABLER) / 4, value)
    else spi
  }

  /** A write to the redistributor's one word of each bank. */
  function WriteRedistributor(local: set<nat>, offset: nat, value: u32): set<nat> {
    var selected := set id: nat | id < GICV3_NR_LOCAL_IRQS && Bit(value, id);
    if offset == ISENABLER then local + selected
    else if offset == ICENABLER then local - selected
    else local
  }

  lemma {:induction false} PowerBits(k: nat, b: nat)
    ensures Bit(Pow2(k), b) <==> b == k
  {
    if b == 0 {
    } else if k == 0 {
      NoBits(b - 1);
    } else {
      PowerBits(k - 1, b - 1);
    }
  }

  lemma {:induction false} OnesBits(k: nat, b: nat)
    ensures Pow2(k) >= 1
    ensures Bit(Pow2(k) - 1, b) <==> b < k
  {
    if k == 0 {
      NoBits(b);
    } else {
      OnesBits(k - 1, if b > 0 then b - 1 else 0);
      Divides(Pow2(k) - 1, 2, Pow2(k - 1) - 1, 1);
    }
  }

  lemma {:induction false} NoBits(b: nat)
    ensures !Bit(0, b)
  {
    if b == 0 {
    } else {
      NoBits(b - 1);
    }
  }

  lemma {:induction false} ShiftedBits(v: nat, k: nat, b: nat)
    ensures Bit(v * Pow2(k), b) <==> b >= k && Bit(v, b - k)
  {
    if k == 0 {
    } else {
      DoublePower(v, k);
      if b > 0 { ShiftedBits(v, k - 1, b - 1); }
    }
  }

  lemma {:induction false} PowerGrows(j: nat, k: nat)
    requires j <= k
    ensures Pow2(j) <= Pow2(k)
  {
    if j == k {
    } else {
      PowerGrows(j, k - 1);
    }
  }

  /** The word written for an interrupt: 1 << (hwirq % 32). */
  function MaskWord(hwirq: u32): (r: u32)
    ensures forall b: nat :: Bit(r, b) <==> b == hwirq % 32
  {
    PowersUsed();
    PowerGrows(hwirq % 32, 31);
    assert Pow2(32) == 2 * Pow2(31);
    assert forall b: nat :: Bit(Pow2(hwirq % 32), b) <==> b == hwirq % 32 by {
      forall b: nat ensures Bit(Pow2(hwirq % 32), b) <==> b == hwirq % 32 { PowerBits(hwirq % 32, b); }
    }
    Pow2(hwirq % 32)
  }

  lemma PowerIsOne()
    ensures Pow2(0) == 1
  {
  }

  /** The words gicv3_hw_init writes: every bit, the SGIs, the PPIs. */
  lemma InitWords(b: nat)
    requires b < 32
    ensures Bit(0xffff_ffff, b)
    ensures Bit(0x0000_ffff, b) <==> b < GICV3_NR_SGI
    ensures Bit(0xffff_0000, b) <==> b >= GICV3_NR_SGI
  {
    hide Bit, Pow2;
    PowersUsed();
    SixteenBitsMore(0);
    assert Pow2(0) == 1 by { PowerIsOne(); }
    OnesBits(32, b);
    OnesBits(16, b);
    ShiftedBits(0xffff, 16, b);
    if b >= 16 { OnesBits(16, b - 16); }
  }

  /** "disable all PPI and enable all SGI" */
  lemma InitLocal(local: set<nat>)
    requires forall id | id in local :: id < GICV3_NR_LOCAL_IRQS
    ensures WriteRedistributor(WriteRedistributor(local, ICENABLER, 0xffff_0000), ISENABLER, 0x0000_ffff) == SGIS
  {
    hide Bit;
    forall b: nat | b < 32
      ensures Bit(0x0000_ffff, b) <==> b in SGIS
      ensures Bit(0xffff_0000, b) <==> b !in SGIS
    {
      InitWords(b);
    }
  }

  // ----- the steps on the machine -----

  /** The enable bank a number's register address starts from. */
  function FrameOffset(hwirq: u32): nat {
    if hwirq < GICV3_NR_LOCAL_IRQS then SGI_FRAME else 0
  }

  /** gicv3_mask_irq */
  function AfterMask(m: Machine, hwirq: u32): Machine {
    m.Write(FrameOffset(hwirq) + ICENABLER + hwirq / 32 * 4, MaskWord(hwirq)).Log(Masked(hwirq))
  }

  /** gicv3_unmask_irq */
  function AfterUnmask(m: Machine, hwirq: u32): Machine {
    m.Write(FrameOffset(hwirq) + ISENABLER + hwirq / 32 * 4, MaskWord(hwirq)).Log(Unmasked(hwirq))
  }

  /** The register address is not bounded: from 1024 on, unmasking lands in the clear bank, and larger
      numbers still reach the redistributor's enable words from below. These are the interrupts each
      call turns on and off. */
  predicate UnmaskOn(hwirq: u32, id: nat) {
    hwirq == id || (id < GICV3_NR_LOCAL_IRQS && hwirq == id + 0x58_0000)
  }

  predicate UnmaskOff(hwirq: u32, id: nat) {
    hwirq == id + if id < GICV3_NR_LOCAL_IRQS then 0x58_0400 else 1024
  }

  predicate MaskOn(hwirq: u32, id: nat) {
    id < GICV3_NR_LOCAL_IRQS && hwirq == id + 0x57_FC00
  }

  predicate MaskOff(hwirq: u32, id: nat) {
    hwirq == id || (id < GICV3_NR_LOCAL_IRQS && hwirq == id + 0x58_0000)
  }

  /** A number whose register address stays in its own bank, or reaches none. */
  predicate OrdinaryNumber(hwirq: u32) {
    !(1056 <= hwirq < 2048) && !(0x57_FC00 <= hwirq < 0x58_0420)
  }

  lemma RegisterWord(hwirq: u32)
    ensures hwirq == 32 * (hwirq / 32) + hwirq % 32 && 0 <= hwirq % 32 < 32
  {
  }

  /** The word of a bank that a number's register address selects. */
  lemma BankWord(hwirq: u32)
    ensures hwirq / 32 * 4 / 4 == hwirq / 32
  {
    Divides(hwirq / 32 * 4, 4, hwirq / 32, 0);
  }

  lemma MaskShared(m: Machine, hwirq: u32, id: nat)
    requires m.Valid()
    ensures id in AfterMask(m, hwirq).spi <==> id in m.spi && id != hwirq
  {
    hide Bit, WriteRedistributor;
    RegisterWord(hwirq);
    BankWord(hwirq);
  }

  lemma MaskLocal(m: Machine, hwirq: u32, id: nat)
    requires m.Valid()
    ensures id in AfterMask(m, hwirq).local
            <==> (id in m.local && !MaskOff(hwirq, id)) || MaskOn(hwirq, id)
  {
    hide Bit, Implemented, WriteDistributor;
    RegisterWord(hwirq);
  }

  lemma UnmaskShared(m: Machine, hwirq: u32, id: nat)
    requires m.Valid() && id >= GICV3_NR_LOCAL_IRQS
    ensures id in AfterUnmask(m, hwirq).spi
            <==> (id == hwirq && id < m.Lines()) || (id in m.spi && hwirq != id + 1024)
  {
    hide Bit, WriteRedistributor;
    RegisterWord(hwirq);
    BankWord(hwirq);
    if hwirq >= 1024 { Divides(4 * (hwirq / 32) - 0x80, 4, hwirq / 32 - 32, 0); }
  }

  lemma UnmaskLocal(m: Machine, hwirq: u32, id: nat)
    requires m.Valid() && id < GICV3_NR_LOCAL_IRQS
    ensures id in AfterUnmask(m, hwirq).local
            <==> UnmaskOn(hwirq, id) || (id in m.local && !UnmaskOff(hwirq, id))
  {
    hide Bit, Implemented, WriteDistributor;
    RegisterWord(hwirq);
  }

  lemma WriteKeepsValid(m: Machine, offset: nat, value: u32)
    requires m.Valid()
    ensures m.Write(offset, value).Valid()
  {
    hide Bit, Implemented;
  }

  /** What masking any number does to every interrupt. */
  lemma MaskEffect(m: Machine, hwirq: u32, id: nat)
    requires m.Valid()
    ensures AfterMask(m, hwirq).Valid()
    ensures AfterMask(m, hwirq).Enabled(id) <==> (m.Enabled(id) && !MaskOff(hwirq, id)) || MaskOn(hwirq, id)
  {
    hide Machine.Write, Bit;
    WriteKeepsValid(m, FrameOffset(hwirq) + ICENABLER + hwirq / 32 * 4, MaskWord(hwirq));
    MaskShared(m, hwirq, id);
    MaskLocal(m, hwirq, id);
  }

  /** What unmasking any number does to every interrupt. */
  lemma UnmaskEffect(m: Machine, hwirq: u32, id: nat)
    requires m.Valid()
    ensures AfterUnmask(m, hwirq).Valid()
    ensures AfterUnmask(m, hwirq).Enabled(id)
            <==> (UnmaskOn(hwirq, id) && id < m.Lines()) || (m.Enabled(id) && !UnmaskOff(hwirq, id))
  {
    hide Machine.Write, Bit;
    WriteKeepsValid(m, FrameOffset(hwirq) + ISENABLER + hwirq / 32 * 4, MaskWord(hwirq));
    if id < GICV3_NR_LOCAL_IRQS {
      UnmaskLocal(m, hwirq, id);
    } else {
      UnmaskShared(m, hwirq, id);
    }
  }

  lemma FarNumber(m: Machine, id: nat)
    requires m.Valid() && id >= 1020
    ensures !m.Enabled(id)
  {
  }

  /** Unmasking turns on that interrupt and nothing else, exactly when the register address does not
      stray onto an interrupt it would change. */
  lemma UnmaskExactly(m: Machine, hwirq: u32)
    requires m.Valid()
    ensures (forall id: nat ::
               AfterUnmask(m, hwirq).Enabled(id) <==> m.Enabled(id) || (id == hwirq && hwirq < m.Lines()))
            <==> && !(1056 <= hwirq < 2048 && m.Enabled(hwirq - 1024))
                 && !(0x58_0400 <= hwirq < 0x58_0420 && m.Enabled(hwirq - 0x58_0400))
                 && !(0x58_0000 <= hwirq < 0x58_0020 && !m.Enabled(hwirq - 0x58_0000))
  {
    hide Machine.Valid, AfterUnmask, Machine.Enabled;
    forall id: nat
      ensures AfterUnmask(m, hwirq).Enabled(id)
              <==> (UnmaskOn(hwirq, id) && id < m.Lines()) || (m.Enabled(id) && !UnmaskOff(hwirq, id))
    {
      UnmaskEffect(m, hwirq, id);
    }
    if hwirq >= 2048 { FarNumber(m, hwirq - 1024); }
    if 1056 <= hwirq < 2048 {
      UnmaskEffect(m, hwirq, hwirq - 1024);
    } else if 0x58_0400 <= hwirq < 0x58_0420 {
      UnmaskEffect(m, hwirq, hwirq - 0x58_0400);
    } else if 0x58_0000 <= hwirq < 0x58_0020 {
      UnmaskEffect(m, hwirq, hwirq - 0x58_0000);
    }
  }

  /** Masking turns off that interrupt and nothing else, exactly when its register address does not stray
      onto a local interrupt it would change. */
  lemma MaskExactly(m: Machine, hwirq: u32)
    requires m.Valid()
    ensures (forall id: nat :: AfterMask(m, hwirq).Enabled(id) <==> m.Enabled(id) && id != hwirq)
            <==> && !(0x58_0000 <= hwirq < 0x58_0020 && m.Enabled(hwirq - 0x58_0000))
                 && !(0x57_FC00 <= hwirq < 0x57_FC20 && !m.Enabled(hwirq - 0x57_FC00))
  {
    hide Machine.Valid, AfterMask, Machine.Enabled;
    forall id: nat
      ensures AfterMask(m, hwirq).Enabled(id) <==> (m.Enabled(id) && !MaskOff(hwirq, id)) || MaskOn(hwirq, id)
    {
      MaskEffect(m, hwirq, id);
    }
    if 0x58_0000 <= hwirq < 0x58_0020 {
      MaskEffect(m, hwirq, hwirq - 0x58_0000);
    } else if 0x57_FC00 <= hwirq < 0x57_FC20 {
      MaskEffect(m, hwirq, hwirq - 0x57_FC00);
    }
  }

  /** request_irq */
  function AfterRequest(m: Machine, irq: u32, handler: Option<Handler>, flags: u64, name: string, data: u64): Machine
    requires |m.descs| == NR_IRQS
  {
    if irq >= NR_IRQS then m else
      var h := if handler.Some? then handler.value else m.descs[irq].handler;
      var d := m.(descs := m.descs[irq := Desc(h, flags % 0x1_0000_0000, name, data, 0)]);
      var i := if handler.Some? then d.Log(Installed(irq, h)) else d;
      if m.chip then AfterUnmask(i, irq) else i
  }

  /** generic_handle_irq */
  function AfterGeneric(m: Machine, irq: u32, body: seq<Op>): (r: Machine)
    requires |m.descs| == NR_IRQS
    ensures |r.descs| == NR_IRQS && m.trace <= r.trace
    decreases body, 1
  {
    if irq >= NR_IRQS then m else
      var h := m.descs[irq].handler;
      var ran := m.Log(Ran(irq, h, m.nest));
      if h == BadIrq then ran else Exec(ran, body)
  }

  predicate Special(iar: u32) {
    1020 <= iar <= 1023
  }

  /** gicv3_handle_irq */
  function AfterHandle(m: Machine, iar: u32, body: seq<Op>): (r: Machine)
    requires |m.descs| == NR_IRQS
    ensures |r.descs| == NR_IRQS && m.trace <= r.trace
    decreases body, 2
  {
    if Special(iar) then m else AfterGeneric(m.Log(Acked(iar)), iar, body).Log(Ended(iar))
  }

  /** handle_domain_irq */
  function AfterInterrupt(m: Machine, iar: u32, body: seq<Op>): (r: Machine)
    requires |m.descs| == NR_IRQS
    ensures |r.descs| == NR_IRQS && m.trace <= r.trace
    decreases body, 3
  {
    var entered := m.(nest := Wrap64(m.nest + 1));
    var handled := if m.arch then AfterHandle(entered, iar, body) else entered;
    handled.(nest := Wrap64(handled.nest - 1))
  }

  /** A run. */
  function Exec(m: Machine, ops: seq<Op>): (r: Machine)
    requires |m.descs| == NR_IRQS
    ensures |r.descs| == NR_IRQS && m.trace <= r.trace
    decreases ops, 0
  {
    if ops == [] then m else
      var next := match ops[0] {
        case Request(irq, handler, flags, name, data) => AfterRequest(m, irq, handler, flags, name, data)
        case Mask(irq) => if m.chip then AfterMask(m, irq) else m
        case Unmask(irq) => if m.chip then AfterUnmask(m, irq) else m
        case Interrupt(iar, body) => AfterInterrupt(m, iar, body)
      };
      Exec(next, ops[1..])
  }

  // ----- the driver -----

  class Gic {
    const typer: u32
    var local: set<nat>
    var spi: set<nat>
    var chip: bool
    var arch: bool
    const irqDesc: array<Desc>
    var interruptNest: u64
    ghost var trace: seq<Event>

    ghost function State(): Machine
      reads this, irqDesc
    {
      Machine(typer, local, spi, chip, arch, irqDesc[..], interruptNest, trace)
    }

    ghost predicate Valid()
      reads this, irqDesc
    {
      irqDesc.Length == NR_IRQS
    }

    /** Reset: whatever the enable banks hold, and a descriptor table of handle_bad_irq. */
    constructor (typer: u32, local: set<nat>, spi: set<nat>)
      ensures Valid() && fresh(irqDesc)
      ensures State() == Machine(typer, local, spi, false, false, seq(NR_IRQS, _ => Desc(BadIrq, 0, "", 0, 0)), 0, [])
    {
      this.typer, this.local, this.spi := typer, local, spi;
      chip, arch, interruptNest, trace := false, false, 0, [];
      irqDesc := new Desc[NR_IRQS](_ => Desc(BadIrq, 0, "", 0, 0));
      new;
      assert irqDesc[..] == seq(NR_IRQS, _ => Desc(BadIrq, 0, "", 0, 0));
    }

    /** writel to the distributor or, from SGI_FRAME on, to the redistributor. */
    method WriteL(value: u32, offset: nat)
      modifies this`local, this`spi
      ensures State() == old(State()).Write(offset, value)
    {
      spi := WriteDistributor(spi, Implemented(typer), offset, value);
      if offset >= SGI_FRAME {
        local := WriteRedistributor(local, offset - SGI_FRAME, value);
      }
    }

    method MaskIrq(hwirq: u32)
      modifies this`local, this`spi, this`trace
      ensures State() == AfterMask(old(State()), hwirq)
    {
      var mask := MaskWord(hwirq);
      if hwirq < GICV3_NR_LOCAL_IRQS {
        WriteL(mask, SGI_FRAME + ICENABLER + hwirq / 32 * 4);
      } else {
        WriteL(mask, ICENABLER + hwirq / 32 * 4);
      }
      trace := trace + [Masked(hwirq)];
    }

    method UnmaskIrq(hwirq: u32)
      modifies this`local, this`spi, this`trace
      ensures State() == AfterUnmask(old(State()), hwirq)
    {
      var mask := MaskWord(hwirq);
      if hwirq < GICV3_NR_LOCAL_IRQS {
        WriteL(mask, SGI_FRAME + ISENABLER + hwirq / 32 * 4);
      } else {
        WriteL(mask, ISENABLER + hwirq / 32 * 4);
      }
      trace := trace + [Unmasked(hwirq)];
    }

    /** The enable writes of gicv3_hw_init. The loop stops one word short: the last 32 implemented
        interrupts keep the enables they came out of reset with. */
    method HwInit()
      requires State().Valid()
      modifies this`local, this`spi
      ensures State() == AfterInit(old(State()))
    {
      var nrLines := 32 * (typer % 32);
      var i := GICV3_NR_LOCAL_IRQS;
      while i < nrLines
        invariant i % 32 == 0 && (i == GICV3_NR_LOCAL_IRQS || i <= nrLines)
        invariant local == old(local)
        invariant spi == set id | id in old(spi) && id >= i
      {
        WriteL(0xffff_ffff, ICENABLER + i / 32 * 4);
        forall b: nat | b < 32 ensures Bit(0xffff_ffff, b) { InitWords(b); }
        i := i + 32;
      }
      WriteL(0xffff_0000, SGI_FRAME + ICENABLER);
      WriteL(0x0000_ffff, SGI_FRAME + ISENABLER);
      InitLocal(old(local));
      assert spi == AfterInit(old(State())).spi;
    }

    /** gicv3_driver_init: set_irq_chip, set_handle_irq (which keeps a handler already set), gicv3_hw_init. */
    method DriverInit()
      requires State().Valid()
      modifies this`chip, this`arch, this`local, this`spi
      ensures State() == AfterInit(old(State())).(chip := true, arch := true)
    {
      chip := true;
      if !arch {
        arch := true;
      }
      HwInit();
    }

    method RequestIrq(irq: u32, handler: Option<Handler>, flags: u64, name: string, data: u64) returns (r: int)
      requires Valid()
      modifies this, irqDesc
      ensures Valid() && State() == AfterRequest(old(State()), irq, handler, flags, name, data)
      ensures r == if irq < 8192 then 0 else -22
    {
      if irq >= NR_IRQS {
        return -EINVAL;
      }
      var desc := irqDesc[irq];
      if handler.Some? {
        desc := desc.(handler := handler.value);
        trace := trace + [Installed(irq, handler.value)];
      }
      desc := desc.(flags := flags % 0x1_0000_0000, name := name, data := data);
      irqDesc[irq] := desc.(irqCount := 0);
      if chip {
        UnmaskIrq(irq);
      }
      return 0;
    }

    method GenericHandleIrq(irq: u32, body: seq<Op>) returns (r: int)
      requires Valid()
      modifies this, irqDesc
      ensures Valid() && State() == AfterGeneric(old(State()), irq, body)
      ensures r == if irq < 8192 then 0 else -22
      decreases body, 1
    {
      if irq >= NR_IRQS {
        return -EINVAL;
      }
      var handler := irqDesc[irq].handler;
      trace := trace + [Ran(irq, handler, interruptNest)];
      if handler != BadIrq {
        Perform(body);
      }
      return 0;
    }

    method HandleIrq(iar: u32, body: seq<Op>)
      requires Valid()
      modifies this, irqDesc
      ensures Valid() && State() == AfterHandle(old(State()), iar, body)
      decreases body, 2
    {
      if iar >= 1020 && iar <= 1023 {
        return;
      }
      trace := trace + [Acked(iar)];
      var _ := GenericHandleIrq(iar, body);
      EoiIrq(iar);
    }

    /** gicv3_eoi_irq */
    method EoiIrq(hwirq: u32)
      modifies this`trace
      ensures trace == old(trace) + [Ended(hwirq)]
    {
      trace := trace + [Ended(hwirq)];
    }

    method HandleDomainIrq(iar: u32, body: seq<Op>)
      requires Valid()
      modifies this, irqDesc
      ensures Valid() && State() == AfterInterrupt(old(State()), iar, body)
      decreases body, 3
    {
      interruptNest := Wrap64(interruptNest + 1);
      if arch {
        HandleIrq(iar, body);
      }
      interruptNest := Wrap64(interruptNest - 1);
    }

    /** Callers and handlers, one step after the other. */
    method Perform(ops: seq<Op>)
      requires Valid()
      modifies this, irqDesc
      ensures Valid() && State() == Exec(old(State()), ops)
      decreases ops, 0
    {
      if ops != [] {
        match ops[0] {
          case Request(irq, handler, flags, name, data) =>
            var _ := RequestIrq(irq, handler, flags, name, data);
          case Mask(irq) =>
            if chip { MaskIrq(irq); }
          case Unmask(irq) =>
            if chip { UnmaskIrq(irq); }
          case Interrupt(iar, body) =>
            HandleDomainIrq(iar, body);
        }
        Perform(ops[1..]);
      }
    }
  }

  function AfterInit(m: Machine): Machine {
    m.(local := SGIS,
       spi := (set id | id in m.spi && id >= 32 * (m.typer % 32)))
  }

  /** After initialisation exactly the SGIs are enabled, if and only if no interrupt of the last
      implemented word was enabled before. */
  lemma InitExactly(m: Machine)
    requires m.Valid()
    ensures AfterInit(m).Valid()
    ensures (forall id: nat :: AfterInit(m).Enabled(id) <==> id < GICV3_NR_SGI)
            <==> (forall id: nat | 32 * (m.typer % 32) <= id < m.Lines() :: id !in m.spi)
  {
    forall id: nat
      ensures AfterInit(m).Enabled(id) <==> id < GICV3_NR_SGI || (id in m.spi && id >= 32 * (m.typer % 32))
    {
    }
  }
}
