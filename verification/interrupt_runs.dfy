/** What every run of requests, masks, unmasks and nested interrupts keeps. */
module InterruptRuns {
  import opened Words
  import opened Interrupts

  // ----- what a trace says -----

  /** The handler most recently installed for an interrupt. */
  function Latest(trace: seq<Event>, irq: Irq, before: Handler): Handler {
    if trace == [] then before else
      var e := trace[|trace| - 1];
      if e.Installed? && e.irq == irq then e.handler else Latest(trace[..|trace| - 1], irq, before)
  }

  /** Whether the last operation on an interrupt turned it on. */
  function LastOn(trace: seq<Event>, id: nat, before: bool): bool {
    if trace == [] then before else
      match trace[|trace| - 1]
      case Unmasked(hwirq) =>
        if UnmaskOn(hwirq, id) then true
        else if UnmaskOff(hwirq, id) then false
        else LastOn(trace[..|trace| - 1], id, before)
      case Masked(hwirq) =>
        if MaskOn(hwirq, id) then true
        else if MaskOff(hwirq, id) then false
        else LastOn(trace[..|trace| - 1], id, before)
      case _ => LastOn(trace[..|trace| - 1], id, before)
  }

  /** The same without the strays: the last unmask or mask of that very interrupt. */
  function LastOperation(trace: seq<Event>, id: nat, before: bool): bool {
    if trace == [] then before else
      var e := trace[|trace| - 1];
      if e.Unmasked? && e.hwirq == id then true
      else if e.Masked? && e.hwirq == id then false
      else LastOperation(trace[..|trace| - 1], id, before)
  }

  /** An acknowledged interrupt not yet ended, and whether its handler has run. */
  datatype Frame = Frame(iar: u32, ran: bool)

  /** How a machine stood when its trace was empty. */
  datatype Origin = Origin(typer: u32, on: set<nat>, descs: seq<Desc>, nest: u64)

  /** The interrupts in progress after a trace, innermost last; None if the trace breaks the protocol: a
      handler runs once, for the innermost acknowledged interrupt, and is the one most recently installed;
      the nest count it sees is the depth; an end of interrupt names the innermost interrupt, after its
      handler ran if it has a descriptor. */
  function InProgress(trace: seq<Event>, o: Origin): Option<seq<Frame>>
    requires |o.descs| == NR_IRQS
  {
    if trace == [] then Some([]) else
      var past := trace[..|trace| - 1];
      match InProgress(past, o)
      case None => None
      case Some(st) => Advance(past, trace[|trace| - 1], st, o)
  }

  function Advance(past: seq<Event>, e: Event, st: seq<Frame>, o: Origin): Option<seq<Frame>>
    requires |o.descs| == NR_IRQS
  {
    match e
    case Acked(iar) => Some(st + [Frame(iar, false)])
    case Ran(irq, handler, nest) =>
      if st != [] && st[|st| - 1] == Frame(irq, false) && nest == Wrap64(o.nest + |st|)
         && handler == Latest(past, irq, o.descs[irq].handler)
      then Some(st[|st| - 1 := Frame(irq, true)]) else None
    case Ended(iar) =>
      if st != [] && st[|st| - 1] == Frame(iar, iar < NR_IRQS) then Some(st[..|st| - 1]) else None
    case _ => Some(st)
  }

  lemma Extended(trace: seq<Event>, e: Event)
    ensures (trace + [e])[..|trace + [e]| - 1] == trace && (trace + [e])[|trace + [e]| - 1] == e
  {
  }

  // ----- the invariant -----

  ghost predicate EnablesFollow(m: Machine, o: Origin) {
    forall id: nat :: m.Enabled(id) <==> id < m.Lines() && LastOn(m.trace, id, id in o.on)
  }

  predicate HandlersFollow(m: Machine, o: Origin)
    requires |m.descs| == NR_IRQS && |o.descs| == NR_IRQS
  {
    forall irq: Irq :: m.descs[irq].handler == Latest(m.trace, irq, o.descs[irq].handler)
  }

  ghost predicate Good(m: Machine, o: Origin, st: seq<Frame>) {
    && m.Valid() && |o.descs| == NR_IRQS && m.typer == o.typer
    && EnablesFollow(m, o) && HandlersFollow(m, o)
    && InProgress(m.trace, o) == Some(st)
  }

  /** Masking and unmasking change the enables and the trace, nothing else. */
  lemma OnlyEnables(m: Machine, irq: u32)
    ensures var r := AfterMask(m, irq); r == m.(local := r.local, spi := r.spi).Log(Masked(irq))
    ensures var r := AfterUnmask(m, irq); r == m.(local := r.local, spi := r.spi).Log(Unmasked(irq))
    ensures m.Lines() >= GICV3_NR_LOCAL_IRQS
  {
  }

  lemma GoodMask(m: Machine, o: Origin, st: seq<Frame>, irq: u32)
    requires Good(m, o, st)
    ensures Good(AfterMask(m, irq), o, st)
  {
    OnlyEnables(m, irq);
    hide AfterMask, AfterUnmask, Implemented;
    var r := AfterMask(m, irq);
    Extended(m.trace, Masked(irq));
    MaskEffect(m, irq, 0);
    forall id: nat ensures r.Enabled(id) <==> id < r.Lines() && LastOn(r.trace, id, id in o.on) {
      MaskEffect(m, irq, id);
    }
  }

  lemma GoodUnmask(m: Machine, o: Origin, st: seq<Frame>, irq: u32)
    requires Good(m, o, st)
    ensures Good(AfterUnmask(m, irq), o, st)
  {
    OnlyEnables(m, irq);
    hide AfterMask, AfterUnmask, Implemented;
    var r := AfterUnmask(m, irq);
    Extended(m.trace, Unmasked(irq));
    UnmaskEffect(m, irq, 0);
    forall id: nat ensures r.Enabled(id) <==> id < r.Lines() && LastOn(r.trace, id, id in o.on) {
      UnmaskEffect(m, irq, id);
    }
  }

  /** The descriptor's new handler is the one most recently installed. */
  lemma GoodInstall(m: Machine, o: Origin, st: seq<Frame>, irq: Irq, d: Desc)
    requires Good(m, o, st)
    ensures d.handler == m.descs[irq].handler ==> Good(m.(descs := m.descs[irq := d]), o, st)
    ensures Good(m.(descs := m.descs[irq := d]).Log(Installed(irq, d.handler)), o, st)
  {
    Extended(m.trace, Installed(irq, d.handler));
  }

  lemma GoodRequest(m: Machine, o: Origin, st: seq<Frame>,
                    irq: u32, handler: Option<Handler>, flags: u64, name: string, data: u64)
    requires Good(m, o, st)
    ensures Good(AfterRequest(m, irq, handler, flags, name, data), o, st)
    ensures AfterRequest(m, irq, handler, flags, name, data).nest == m.nest
  {
    hide Good, AfterUnmask;
    assert m.Valid() by { GoodValid(m, o, st); }
    if irq < NR_IRQS {
      var h := if handler.Some? then handler.value else m.descs[irq].handler;
      var desc := Desc(h, flags % 0x1_0000_0000, name, data, 0);
      GoodInstall(m, o, st, irq, desc);
      var d := m.(descs := m.descs[irq := desc]);
      var i := if handler.Some? then d.Log(Installed(irq, h)) else d;
      GoodUnmask(i, o, st, irq);
      OnlyEnables(i, irq);
    }
  }

  lemma GoodValid(m: Machine, o: Origin, st: seq<Frame>)
    requires Good(m, o, st)
    ensures m.Valid()
  {
  }

  lemma GoodAcked(m: Machine, o: Origin, st: seq<Frame>, iar: u32)
    requires Good(m, o, st)
    ensures Good(m.Log(Acked(iar)), o, st + [Frame(iar, false)])
  {
    Extended(m.trace, Acked(iar));
  }

  lemma GoodRan(m: Machine, o: Origin, st: seq<Frame>, irq: Irq)
    requires Good(m, o, st + [Frame(irq, false)]) && m.nest == Wrap64(o.nest + |st| + 1)
    ensures Good(m.Log(Ran(irq, m.descs[irq].handler, m.nest)), o, st + [Frame(irq, true)])
  {
    var e := Ran(irq, m.descs[irq].handler, m.nest);
    Extended(m.trace, e);
    assert (st + [Frame(irq, false)])[|st| := Frame(irq, true)] == st + [Frame(irq, true)];
    assert o.nest + |st + [Frame(irq, false)]| == o.nest + |st| + 1;
  }

  lemma GoodEnded(m: Machine, o: Origin, st: seq<Frame>, iar: u32)
    requires Good(m, o, st + [Frame(iar, iar < NR_IRQS)])
    ensures Good(m.Log(Ended(iar)), o, st)
  {
    Extended(m.trace, Ended(iar));
    assert (st + [Frame(iar, iar < NR_IRQS)])[..|st|] == st;
  }

  lemma GoodNest(m: Machine, o: Origin, st: seq<Frame>, nest: u64)
    requires Good(m, o, st)
    ensures Good(m.(nest := nest), o, st)
  {
    assert forall id: nat :: m.(nest := nest).Enabled(id) <==> m.Enabled(id);
  }

  lemma NestUpDown(nest: u64, depth: nat)
    requires nest == Wrap64(depth)
    ensures Wrap64(nest + 1) == Wrap64(depth + 1) && Wrap64(Wrap64(nest + 1) - 1) == nest
  {
    var q := depth / TWO64;
    if nest + 1 < TWO64 {
      Divides(depth + 1, TWO64, q, nest + 1);
    } else {
      Divides(depth + 1, TWO64, q + 1, 0);
    }
  }

  /** Between its acknowledge and its end, an interrupt runs its handler and leaves the rest in order. */
  lemma GenericKeeps(m: Machine, o: Origin, st: seq<Frame>, irq: u32, body: seq<Op>)
    requires Good(m, o, st + [Frame(irq, false)]) && m.nest == Wrap64(o.nest + |st| + 1)
    ensures Good(AfterGeneric(m, irq, body), o, st + [Frame(irq, irq < NR_IRQS)])
    ensures AfterGeneric(m, irq, body).nest == m.nest
    decreases body, 1
  {
    hide Good;
    GoodValid(m, o, st + [Frame(irq, false)]);
    if irq < NR_IRQS {
      GoodRan(m, o, st, irq);
      var h := m.descs[irq].handler;
      if h != BadIrq {
        RunKeeps(m.Log(Ran(irq, h, m.nest)), o, st + [Frame(irq, true)], body);
      }
    }
  }

  lemma HandleKeeps(m: Machine, o: Origin, st: seq<Frame>, iar: u32, body: seq<Op>)
    requires Good(m, o, st) && m.nest == Wrap64(o.nest + |st| + 1)
    ensures |m.descs| == NR_IRQS
    ensures Good(AfterHandle(m, iar, body), o, st)
    ensures AfterHandle(m, iar, body).nest == m.nest
    decreases body, 2
  {
    hide Good, AfterGeneric, Wrap64;
    GoodValid(m, o, st);
    if !Special(iar) {
      var acked := m.Log(Acked(iar));
      GoodAcked(m, o, st, iar);
      GenericKeeps(acked, o, st, iar, body);
      GoodEnded(AfterGeneric(acked, iar, body), o, st, iar);
    }
  }

  lemma InterruptKeeps(m: Machine, o: Origin, st: seq<Frame>, iar: u32, body: seq<Op>)
    requires Good(m, o, st) && m.nest == Wrap64(o.nest + |st|)
    ensures Good(AfterInterrupt(m, iar, body), o, st)
    ensures AfterInterrupt(m, iar, body).nest == m.nest
    decreases body, 3
  {
    hide Good, AfterHandle, Wrap64;
    GoodValid(m, o, st);
    var entered := m.(nest := Wrap64(m.nest + 1));
    NestUpDown(m.nest, o.nest + |st|);
    GoodNest(m, o, st, entered.nest);
    if m.arch { HandleKeeps(entered, o, st, iar, body); }
    var handled := if m.arch then AfterHandle(entered, iar, body) else entered;
    GoodNest(handled, o, st, Wrap64(handled.nest - 1));
  }

  /** Every run keeps the invariant, leaves the interrupts in progress as they were, and restores the
      nest count. */
  lemma {:induction false} RunKeeps(m: Machine, o: Origin, st: seq<Frame>, ops: seq<Op>)
    requires Good(m, o, st) && m.nest == Wrap64(o.nest + |st|)
    ensures |m.descs| == NR_IRQS
    ensures Good(Exec(m, ops), o, st)
    ensures Exec(m, ops).nest == m.nest
    decreases ops, 0
  {
    hide Good, AfterMask, AfterUnmask, AfterRequest, AfterInterrupt;
    GoodValid(m, o, st);
    if ops == [] {
    } else {
      match ops[0] {
        case Request(irq, handler, flags, name, data) =>
          GoodRequest(m, o, st, irq, handler, flags, name, data);
          RunKeeps(AfterRequest(m, irq, handler, flags, name, data), o, st, ops[1..]);
        case Mask(irq) =>
          GoodMask(m, o, st, irq);
          OnlyEnables(m, irq);
          RunKeeps(if m.chip then AfterMask(m, irq) else m, o, st, ops[1..]);
        case Unmask(irq) =>
          GoodUnmask(m, o, st, irq);
          OnlyEnables(m, irq);
          RunKeeps(if m.chip then AfterUnmask(m, irq) else m, o, st, ops[1..]);
        case Interrupt(iar, body) =>
          InterruptKeeps(m, o, st, iar, body);
          RunKeeps(AfterInterrupt(m, iar, body), o, st, ops[1..]);
      }
    }
  }

  // ----- whole runs -----

  /** The machine gicv3_driver_init leaves. */
  function Initialised(m: Machine): Machine {
    AfterInit(m).(chip := true, arch := true)
  }

  /** Enabled after initialisation: an SGI, or an interrupt of the last word that was enabled before. */
  predicate InitiallyOn(m: Machine, id: nat) {
    id < GICV3_NR_SGI || (id in m.spi && id >= 32 * (m.typer % 32))
  }

  function OriginOf(m: Machine): Origin {
    Origin(m.typer, m.local + m.spi, m.descs, m.nest)
  }

  lemma GoodStart(m: Machine)
    requires m.Valid() && m.trace == []
    ensures Good(m, OriginOf(m), [])
    ensures m.nest == Wrap64(m.nest)
  {
  }

  lemma InitialState(m: Machine, id: nat)
    requires m.Valid()
    ensures var i := Initialised(m);
            && i.Valid() && i.trace == m.trace && i.typer == m.typer
            && (id in OriginOf(i).on <==> InitiallyOn(m, id))
  {
    InitExactly(m);
  }

  /** After any run an interrupt is enabled exactly if it is implemented and the last operation that
      reached it turned it on; to begin with only the SGIs are on, and what the last implemented word
      came out of reset with. */
  lemma EnabledOverRuns(m: Machine, ops: seq<Op>, id: nat)
    requires m.Valid() && m.trace == []
    ensures var r := Exec(Initialised(m), ops);
            r.Enabled(id) <==> id < m.Lines() && LastOn(r.trace, id, InitiallyOn(m, id))
  {
    hide Exec, Initialised, InitiallyOn, LastOn, InProgress, Implemented, Latest;
    var i := Initialised(m);
    InitialState(m, id);
    GoodStart(i);
    RunKeeps(i, OriginOf(i), [], ops);
  }

  /** No request, mask or unmask, at any depth, names a number whose register address strays. */
  predicate Ordinary(ops: seq<Op>) {
    if ops == [] then true else
      Ordinary(ops[1..]) &&
      match ops[0]
      case Request(irq, _, _, _, _) => irq < NR_IRQS ==> OrdinaryNumber(irq)
      case Mask(hwirq) => OrdinaryNumber(hwirq)
      case Unmask(hwirq) => OrdinaryNumber(hwirq)
      case Interrupt(_, body) => Ordinary(body)
  }

  predicate NoStrays(trace: seq<Event>) {
    forall e | e in trace && (e.Unmasked? || e.Masked?) :: OrdinaryNumber(e.hwirq)
  }

  lemma {:induction false} OrdinaryTrace(m: Machine, ops: seq<Op>)
    requires |m.descs| == NR_IRQS && Ordinary(ops) && NoStrays(m.trace)
    ensures NoStrays(Exec(m, ops).trace)
    decreases ops, 0
  {
    hide WriteDistributor, WriteRedistributor, MaskWord, AfterInterrupt;
    if ops == [] {
    } else {
      match ops[0] {
        case Request(irq, handler, flags, name, data) =>
          OrdinaryTrace(AfterRequest(m, irq, handler, flags, name, data), ops[1..]);
        case Mask(irq) =>
          OrdinaryTrace(if m.chip then AfterMask(m, irq) else m, ops[1..]);
        case Unmask(irq) =>
          OrdinaryTrace(if m.chip then AfterUnmask(m, irq) else m, ops[1..]);
        case Interrupt(iar, body) =>
          OrdinaryInterrupt(m, iar, body);
          OrdinaryTrace(AfterInterrupt(m, iar, body), ops[1..]);
      }
    }
  }

  lemma OrdinaryInterrupt(m: Machine, iar: u32, body: seq<Op>)
    requires |m.descs| == NR_IRQS && Ordinary(body) && NoStrays(m.trace)
    ensures NoStrays(AfterInterrupt(m, iar, body).trace)
    decreases body, 1
  {
    var acked := m.(nest := Wrap64(m.nest + 1)).Log(Acked(iar));
    NoStraysLog(m, Acked(iar));
    if iar < NR_IRQS {
      var e := Ran(iar, acked.descs[iar].handler, acked.nest);
      NoStraysLog(acked, e);
      OrdinaryTrace(acked.Log(e), body);
    }
    NoStraysLog(AfterGeneric(acked, iar, body), Ended(iar));
  }

  lemma NoStraysLog(m: Machine, e: Event)
    requires NoStrays(m.trace) && !e.Unmasked? && !e.Masked?
    ensures NoStrays(m.Log(e).trace)
  {
  }

  lemma {:induction false} NoStraysLast(trace: seq<Event>, id: nat, before: bool)
    requires NoStrays(trace) && id < 1024
    ensures LastOn(trace, id, before) == LastOperation(trace, id, before)
  {
    if trace == [] {
    } else {
      assert trace[|trace| - 1] in trace;
      NoStraysLast(trace[..|trace| - 1], id, before);
    }
  }

  /** Over ordinary runs the enable banks hold the SGIs and what reset left in the last word, overruled by
      the last operation on each interrupt. */
  lemma LastOperationWins(m: Machine, ops: seq<Op>, id: nat)
    requires m.Valid() && m.trace == [] && Ordinary(ops)
    ensures var r := Exec(Initialised(m), ops);
            r.Enabled(id) <==> id < m.Lines() && LastOperation(r.trace, id, InitiallyOn(m, id))
  {
    EnabledOverRuns(m, ops, id);
    OrdinaryTrace(Initialised(m), ops);
    if id < m.Lines() {
      NoStraysLast(Exec(Initialised(m), ops).trace, id, InitiallyOn(m, id));
    }
  }

  /** Over any run the trace keeps the protocol and nothing is left in progress; the nest count is
      restored. */
  lemma ProtocolOverRuns(m: Machine, ops: seq<Op>)
    requires m.Valid() && m.trace == []
    ensures InProgress(Exec(m, ops).trace, OriginOf(m)) == Some([])
    ensures Exec(m, ops).nest == m.nest
  {
    GoodStart(m);
    RunKeeps(m, OriginOf(m), [], ops);
  }

  /** An accepted request puts its handler in the descriptor and enables the interrupt; one for an ID
      without a descriptor changes nothing. */
  lemma RequestEnables(m: Machine, irq: u32, handler: Option<Handler>, flags: u64, name: string, data: u64)
    requires m.Valid() && m.chip
    ensures var r := AfterRequest(m, irq, handler, flags, name, data);
            if irq >= NR_IRQS then r == m else
              && (irq < m.Lines() ==> r.Enabled(irq))
              && r.descs[irq] == Desc(if handler.Some? then handler.value else m.descs[irq].handler,
                                      flags % 0x1_0000_0000, name, data, 0)
              && forall other: Irq | other != irq :: r.descs[other] == m.descs[other]
  {
    if irq < NR_IRQS {
      var h := if handler.Some? then handler.value else m.descs[irq].handler;
      var d := m.(descs := m.descs[irq := Desc(h, flags % 0x1_0000_0000, name, data, 0)]);
      UnmaskEffect(if handler.Some? then d.Log(Installed(irq, h)) else d, irq, irq);
    }
  }

  /** The interrupt is acknowledged first and ended last; with a descriptor, its handler runs right after
      the acknowledge, at one more nesting. */
  predicate Served(m: Machine, iar: u32, r: Machine)
    requires |m.descs| == NR_IRQS
  {
    var k := |m.trace|;
    && |r.trace| >= k + 2 && r.trace[..k] == m.trace
    && r.trace[k] == Acked(iar) && r.trace[|r.trace| - 1] == Ended(iar)
    && (iar < 8192 ==> |r.trace| >= k + 3 && r.trace[k + 1] == Ran(iar, m.descs[iar].handler, Wrap64(m.nest + 1)))
  }

  /** An interrupt is served exactly if there is a controller and the ID is not one of the four special
      ones, 1020 to 1023; otherwise everything stays as it was. */
  lemma InterruptAnswered(m: Machine, iar: u32, body: seq<Op>)
    requires |m.descs| == NR_IRQS
    ensures var r := AfterInterrupt(m, iar, body);
            && (Served(m, iar, r) <==> m.arch && (iar < 1020 || iar > 1023))
            && (!Served(m, iar, r) ==> r == m)
  {
    var entered := m.(nest := Wrap64(m.nest + 1));
    NestUpDown(m.nest, m.nest);
    NoWrap(m.nest);
    if m.arch && (iar < 1020 || iar > 1023) {
      var acked := entered.Log(Acked(iar));
      var generic := AfterGeneric(acked, iar, body);
      assert acked.trace <= generic.trace <= generic.Log(Ended(iar)).trace;
      if iar < 8192 { HandlerNext(acked, iar, body); }
    }
  }

  lemma HandlerNext(m: Machine, irq: Irq, body: seq<Op>)
    requires |m.descs| == NR_IRQS
    ensures var r := AfterGeneric(m, irq, body);
            |r.trace| > |m.trace| && r.trace[|m.trace|] == Ran(irq, m.descs[irq].handler, m.nest)
  {
    var ran := m.Log(Ran(irq, m.descs[irq].handler, m.nest));
    assert ran.trace <= AfterGeneric(m, irq, body).trace;
  }

  lemma {:induction false} PrefixInProgress(trace: seq<Event>, n: nat, o: Origin)
    requires n <= |trace| && |o.descs| == NR_IRQS && InProgress(trace, o).Some?
    ensures InProgress(trace[..n], o).Some?
  {
    if n == |trace| {
      assert trace[..n] == trace;
    } else {
      assert trace[..|trace| - 1][..n] == trace[..n];
      PrefixInProgress(trace[..|trace| - 1], n, o);
    }
  }

  /** One more event of a trace that keeps the protocol. */
  lemma NextInProgress(trace: seq<Event>, n: nat, o: Origin)
    requires n < |trace| && |o.descs| == NR_IRQS && InProgress(trace, o).Some?
    ensures InProgress(trace[..n], o).Some? && InProgress(trace[..n + 1], o).Some?
    ensures InProgress(trace[..n + 1], o) == Advance(trace[..n], trace[n], InProgress(trace[..n], o).value, o)
  {
    PrefixInProgress(trace, n, o);
    PrefixInProgress(trace, n + 1, o);
    assert trace[..n + 1][..n] == trace[..n];
  }

  /** A handler runs at position i for the given interrupt: the one most recently installed. */
  predicate RunsLatest(trace: seq<Event>, i: nat, irq: Irq, o: Origin)
    requires |o.descs| == NR_IRQS
  {
    i < |trace| && trace[i].Ran? && trace[i].irq == irq
    && trace[i].handler == Latest(trace[..i], irq, o.descs[irq].handler)
  }

  /** At position j the interrupt acknowledged over the stack st ends, and st is in progress again. */
  predicate EndsAt(trace: seq<Event>, j: nat, iar: u32, st: seq<Frame>, o: Origin)
    requires |o.descs| == NR_IRQS
  {
    j < |trace| && trace[j] == Ended(iar) && InProgress(trace[..j + 1], o) == Some(st)
  }

  lemma WholePrefix(trace: seq<Event>, n: nat)
    requires n == |trace|
    ensures trace[..n] == trace
  {
  }

  /** From any point at which an acknowledged interrupt is in progress, its end is still to come. */
  lemma {:induction false} EndFollows(trace: seq<Event>, n: nat, st: seq<Frame>, f: Frame, above: seq<Frame>, o: Origin)
    returns (i: nat, j: nat)
    requires n <= |trace| && |o.descs| == NR_IRQS
    requires InProgress(trace, o).Some? && |InProgress(trace, o).value| <= |st|
    requires InProgress(trace[..n], o) == Some(st + [f] + above)
    ensures n <= j && EndsAt(trace, j, f.iar, st, o)
    ensures f.iar < NR_IRQS && !f.ran ==> n <= i < j && RunsLatest(trace, i, f.iar, o)
    decreases |trace| - n
  {
    i := 0;
    var all := st + [f] + above;
    if n == |trace| { WholePrefix(trace, n); assert false; }
    NextInProgress(trace, n, o);
    match trace[n] {
      case Acked(iar) =>
        assert all + [Frame(iar, false)] == st + [f] + (above + [Frame(iar, false)]);
        i, j := EndFollows(trace, n + 1, st, f, above + [Frame(iar, false)], o);
      case Ran(irq, handler, nest) =>
        if above == [] {
          assert all[|all| - 1] == f;
          assert all[|all| - 1 := Frame(irq, true)] == st + [Frame(irq, true)] + [];
          i, j := EndFollows(trace, n + 1, st, Frame(irq, true), [], o);
          i := n;
        } else {
          var t := above[|above| - 1 := Frame(irq, true)];
          assert all[|all| - 1 := Frame(irq, true)] == st + [f] + t;
          i, j := EndFollows(trace, n + 1, st, f, t, o);
        }
      case Ended(iar) =>
        if above == [] {
          assert all[|all| - 1] == f && all[..|all| - 1] == st;
          j := n;
        } else {
          assert all[..|all| - 1] == st + [f] + above[..|above| - 1];
          i, j := EndFollows(trace, n + 1, st, f, above[..|above| - 1], o);
        }
      case _ =>
        i, j := EndFollows(trace, n + 1, st, f, above, o);
    }
  }

  /** The acknowledge at k is answered at j, after the handler ran at i. */
  predicate Answered(t: seq<Event>, k: nat, i: nat, j: nat, o: Origin)
    requires k < |t| && t[k].Acked? && |o.descs| == NR_IRQS
    requires InProgress(t[..k], o).Some?
  {
    && k < j && EndsAt(t, j, t[k].iar, InProgress(t[..k], o).value, o)
    && (t[k].iar < NR_IRQS ==> k < i < j && RunsLatest(t, i, t[k].iar, o))
  }

  /** Over any run every acknowledge, at any depth, is answered by an end of the same interrupt that
      restores what was in progress; in between, if the ID has a descriptor, the handler most recently
      installed for it has run. */
  lemma EveryAckEnds(m: Machine, ops: seq<Op>, k: nat)
    requires m.Valid() && m.trace == []
    requires var t := Exec(m, ops).trace; k < |t| && t[k].Acked?
    ensures var t, o := Exec(m, ops).trace, OriginOf(m);
            && InProgress(t[..k], o).Some?
            && exists i: nat, j: nat :: Answered(t, k, i, j, o)
  {
    var t, o := Exec(m, ops).trace, OriginOf(m);
    ProtocolOverRuns(m, ops);
    NextInProgress(t, k, o);
    var st := InProgress(t[..k], o).value;
    var f := Frame(t[k].iar, false);
    assert st + [f] == st + [f] + [];
    var i, j := EndFollows(t, k + 1, st, f, [], o);
    assert Answered(t, k, i, j, o);
  }
}
