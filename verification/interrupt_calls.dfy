/** Runs in terms of the operations asked for: what a run does to the controller is what its operations,
    and those of the handlers it runs, call for, in order. */
module InterruptCalls {
  import opened Words
  import opened Interrupts
  import opened InterruptRuns

  /** Turn a number on, turn it off, take an interrupt. */
  datatype Call = On(hwirq: u32) | Off(hwirq: u32) | Took(iar: u32)

  /** What operations call for and the handlers they leave, given the handlers installed before. An
      interrupt is taken unless its ID is special; a handler that has been installed runs its body. */
  function Calls(handlers: seq<Handler>, ops: seq<Op>): (r: (seq<Call>, seq<Handler>))
    requires |handlers| == 8192
    ensures |r.1| == 8192
    decreases ops, 0
  {
    if ops == [] then ([], handlers) else
      var first := match ops[0] {
        case Request(irq, handler, _, _, _) =>
          if irq >= 8192 then ([], handlers)
          else ([On(irq)], if handler.Some? then handlers[irq := handler.value] else handlers)
        case Mask(hwirq) => ([Off(hwirq)], handlers)
        case Unmask(hwirq) => ([On(hwirq)], handlers)
        case Interrupt(iar, body) => InterruptCalls(handlers, iar, body)
      };
      var rest := Calls(first.1, ops[1..]);
      (first.0 + rest.0, rest.1)
  }

  function InterruptCalls(handlers: seq<Handler>, iar: u32, body: seq<Op>): (r: (seq<Call>, seq<Handler>))
    requires |handlers| == 8192
    ensures |r.1| == 8192
    decreases body, 1
  {
    if iar == 1020 || iar == 1021 || iar == 1022 || iar == 1023 then ([], handlers)
    else if iar < 8192 && handlers[iar].User? then
      var inner := Calls(handlers, body);
      ([Took(iar)] + inner.0, inner.1)
    else ([Took(iar)], handlers)
  }

  /** The calls a trace records. */
  function CallsOf(trace: seq<Event>): seq<Call> {
    if trace == [] then [] else
      var past := CallsOf(trace[..|trace| - 1]);
      match trace[|trace| - 1]
      case Unmasked(hwirq) => past + [On(hwirq)]
      case Masked(hwirq) => past + [Off(hwirq)]
      case Acked(iar) => past + [Took(iar)]
      case _ => past
  }

  lemma OneMoreCall(trace: seq<Event>, e: Event)
    ensures CallsOf(trace + [e])
            == CallsOf(trace) + match e
                                case Unmasked(hwirq) => [On(hwirq)]
                                case Masked(hwirq) => [Off(hwirq)]
                                case Acked(iar) => [Took(iar)]
                                case _ => []
  {
    Extended(trace, e);
  }

  function Handlers(m: Machine): (r: seq<Handler>)
    requires |m.descs| == NR_IRQS
    ensures |r| == NR_IRQS
  {
    seq(NR_IRQS, i requires 0 <= i < NR_IRQS => m.descs[i].handler)
  }

  /** A machine whose controller is registered. */
  predicate Ready(m: Machine) {
    |m.descs| == NR_IRQS && m.chip && m.arch
  }

  /** What a stretch of a run adds. */
  predicate Adds(m: Machine, r: Machine, calls: seq<Call>, handlers: seq<Handler>)
    requires Ready(m)
  {
    Ready(r) && CallsOf(r.trace) == CallsOf(m.trace) + calls && Handlers(r) == handlers
  }

  lemma EnablesAdd(m: Machine, hwirq: u32)
    requires Ready(m)
    ensures Adds(m, AfterMask(m, hwirq), [Off(hwirq)], Handlers(m))
    ensures Adds(m, AfterUnmask(m, hwirq), [On(hwirq)], Handlers(m))
  {
    OnlyEnables(m, hwirq);
    hide AfterMask, AfterUnmask, CallsOf;
    OneMoreCall(m.trace, Masked(hwirq));
    OneMoreCall(m.trace, Unmasked(hwirq));
  }

  lemma RequestAdds(m: Machine, irq: Irq, handler: Option<Handler>, flags: u64, name: string, data: u64)
    requires Ready(m)
    ensures Adds(m, AfterRequest(m, irq, handler, flags, name, data), [On(irq)],
                 if handler.Some? then Handlers(m)[irq := handler.value] else Handlers(m))
  {
    var h := if handler.Some? then handler.value else m.descs[irq].handler;
    var d := m.(descs := m.descs[irq := Desc(h, flags % 0x1_0000_0000, name, data, 0)]);
    var i := if handler.Some? then d.Log(Installed(irq, h)) else d;
    assert Handlers(i) == if handler.Some? then Handlers(m)[irq := handler.value] else Handlers(m);
    hide AfterUnmask, CallsOf, Handlers;
    OneMoreCall(d.trace, Installed(irq, h));
    EnablesAdd(i, irq);
    assert CallsOf(m.trace) + [] == CallsOf(m.trace);
  }

  lemma InterruptAdds(m: Machine, iar: u32, body: seq<Op>)
    requires Ready(m)
    ensures var c := InterruptCalls(Handlers(m), iar, body);
            Adds(m, AfterInterrupt(m, iar, body), c.0, c.1)
    decreases body, 1
  {
    hide CallsOf, Exec, Calls, Wrap64;
    if !(1020 <= iar <= 1023) {
      var acked := m.(nest := Wrap64(m.nest + 1)).Log(Acked(iar));
      OneMoreCall(m.trace, Acked(iar));
      var generic := AfterGeneric(acked, iar, body);
      OneMoreCall(generic.trace, Ended(iar));
      if iar < NR_IRQS {
        var ran := acked.Log(Ran(iar, acked.descs[iar].handler, acked.nest));
        OneMoreCall(acked.trace, Ran(iar, acked.descs[iar].handler, acked.nest));
        assert Handlers(ran) == Handlers(m);
        RunCalls(ran, body);
      }
    }
  }

  lemma NothingAdded(m: Machine)
    requires Ready(m)
    ensures Adds(m, m, [], Handlers(m))
  {
    hide Handlers, CallsOf;
    assert CallsOf(m.trace) + [] == CallsOf(m.trace);
  }

  lemma StaysReady(m: Machine, r: Machine, calls: seq<Call>, handlers: seq<Handler>)
    requires Ready(m) && Adds(m, r, calls, handlers)
    ensures Ready(r) && Handlers(r) == handlers && |handlers| == 8192
  {
  }

  lemma AddsInTurn(m: Machine, n: Machine, r: Machine, c1: seq<Call>, h1: seq<Handler>, c2: seq<Call>, h2: seq<Handler>)
    requires Ready(m) && Adds(m, n, c1, h1) && Ready(n) && Adds(n, r, c2, h2)
    ensures Adds(m, r, c1 + c2, h2)
  {
    hide Handlers, CallsOf;
    assert CallsOf(m.trace) + c1 + c2 == CallsOf(m.trace) + (c1 + c2);
  }

  /** A run adds exactly the calls its operations ask for, and leaves the handlers they leave. */
  lemma {:induction false} RunCalls(m: Machine, ops: seq<Op>)
    requires Ready(m)
    ensures var c := Calls(Handlers(m), ops);
            Adds(m, Exec(m, ops), c.0, c.1)
    decreases ops, 0
  {
    hide CallsOf, AfterMask, AfterUnmask, AfterRequest, AfterInterrupt, Handlers, Adds, InterruptCalls;
    if ops == [] {
      NothingAdded(m);
    } else {
      var next := match ops[0] {
        case Request(irq, handler, flags, name, data) => AfterRequest(m, irq, handler, flags, name, data)
        case Mask(hwirq) => AfterMask(m, hwirq)
        case Unmask(hwirq) => AfterUnmask(m, hwirq)
        case Interrupt(iar, body) => AfterInterrupt(m, iar, body)
      };
      var first := match ops[0] {
        case Request(irq, handler, _, _, _) =>
          if irq >= 8192 then ([], Handlers(m))
          else ([On(irq)], if handler.Some? then Handlers(m)[irq := handler.value] else Handlers(m))
        case Mask(hwirq) => ([Off(hwirq)], Handlers(m))
        case Unmask(hwirq) => ([On(hwirq)], Handlers(m))
        case Interrupt(iar, body) => InterruptCalls(Handlers(m), iar, body)
      };
      match ops[0] {
        case Request(irq, handler, flags, name, data) =>
          if irq < NR_IRQS {
            RequestAdds(m, irq, handler, flags, name, data);
          } else {
            RejectedAdds(m, irq, handler, flags, name, data);
          }
        case Mask(hwirq) => EnablesAdd(m, hwirq);
        case Unmask(hwirq) => EnablesAdd(m, hwirq);
        case Interrupt(iar, body) => InterruptAdds(m, iar, body);
      }
      StaysReady(m, next, first.0, first.1);
      RunCalls(next, ops[1..]);
      var rest := Calls(first.1, ops[1..]);
      AddsInTurn(m, next, Exec(next, ops[1..]), first.0, first.1, rest.0, rest.1);
    }
  }

  lemma RejectedAdds(m: Machine, irq: u32, handler: Option<Handler>, flags: u64, name: string, data: u64)
    requires Ready(m) && irq >= NR_IRQS
    ensures Adds(m, AfterRequest(m, irq, handler, flags, name, data), [], Handlers(m))
  {
    hide CallsOf, Handlers;
    assert CallsOf(m.trace) + [] == CallsOf(m.trace);
  }

  /** Whether the last call for a number turned it on. */
  function LastCall(calls: seq<Call>, id: nat, before: bool): bool {
    if calls == [] then before else
      var c := calls[|calls| - 1];
      if c.On? && c.hwirq == id then true
      else if c.Off? && c.hwirq == id then false
      else LastCall(calls[..|calls| - 1], id, before)
  }

  lemma {:induction false} LastCallIs(trace: seq<Event>, id: u32, before: bool)
    ensures LastOperation(trace, id, before) == LastCall(CallsOf(trace), id, before)
  {
    if trace == [] {
    } else {
      var past := trace[..|trace| - 1];
      LastCallIs(past, id, before);
      var calls := CallsOf(trace);
      if |calls| > |CallsOf(past)| { assert calls[..|calls| - 1] == CallsOf(past); }
    }
  }

  /** After initialisation and any run of ordinary numbers an interrupt is enabled exactly if it is
      implemented and the last request, mask or unmask the operations call for, handlers included, turned it
      on; without any, if it is an SGI or was left on. */
  lemma EnabledAsCalled(m: Machine, ops: seq<Op>, id: nat)
    requires m.Valid() && m.trace == [] && Ordinary(ops)
    ensures var r := Exec(Initialised(m), ops);
            r.Enabled(id) <==> id < m.Lines() && LastCall(Calls(Handlers(m), ops).0, id, InitiallyOn(m, id))
  {
    hide Exec, LastOperation, LastCall, Calls, CallsOf, InitiallyOn, Implemented;
    LastOperationWins(m, ops, id);
    StartHandlers(m);
    RunCalls(Initialised(m), ops);
    if id < m.Lines() {
      LinesSmall(m);
      LastCallIs(Exec(Initialised(m), ops).trace, id, InitiallyOn(m, id));
    }
  }

  lemma LinesSmall(m: Machine)
    ensures m.Lines() <= 1020
  {
  }

  lemma StartHandlers(m: Machine)
    requires m.Valid() && m.trace == []
    ensures Ready(Initialised(m)) && Handlers(Initialised(m)) == Handlers(m)
    ensures forall c: seq<Call> :: CallsOf(Initialised(m).trace) + c == c
  {
  }

  /** An interrupt among the operations of a run, other than 1020 to 1023, is acknowledged in that run. */
  lemma InterruptTaken(m: Machine, ops: seq<Op>, k: nat)
    requires Ready(m) && k < |ops| && ops[k].Interrupt? && (ops[k].iar < 1020 || ops[k].iar > 1023)
    ensures Took(ops[k].iar) in Calls(Handlers(m), ops).0
    ensures m.trace == [] ==> Acked(ops[k].iar) in Exec(m, ops).trace
  {
    hide Handlers, CallsOf, Exec;
    CalledFor(Handlers(m), ops, k);
    RunCalls(m, ops);
    if m.trace == [] {
      assert CallsOf([]) == [] by { NoCalls(); }
      assert CallsOf(Exec(m, ops).trace) == Calls(Handlers(m), ops).0;
      Recorded(Exec(m, ops).trace, ops[k].iar);
    }
  }

  lemma NoCalls()
    ensures CallsOf([]) == []
  {
  }

  /** The handlers after the first operation, and the calls of the rest among all calls. */
  lemma AfterFirst(handlers: seq<Handler>, ops: seq<Op>) returns (next: seq<Handler>)
    requires |handlers| == 8192 && ops != []
    ensures |next| == 8192
    ensures forall c: Call | c in Calls(next, ops[1..]).0 :: c in Calls(handlers, ops).0
  {
    hide InterruptCalls;
    next := match ops[0] {
      case Request(irq, handler, _, _, _) =>
        if irq < 8192 && handler.Some? then handlers[irq := handler.value] else handlers
      case Mask(_) => handlers
      case Unmask(_) => handlers
      case Interrupt(iar, body) => InterruptCalls(handlers, iar, body).1
    };
  }

  lemma {:induction false} CalledFor(handlers: seq<Handler>, ops: seq<Op>, k: nat)
    requires |handlers| == 8192
    requires k < |ops| && ops[k].Interrupt? && (ops[k].iar < 1020 || ops[k].iar > 1023)
    ensures Took(ops[k].iar) in Calls(handlers, ops).0
    decreases k
  {
    if k == 0 {
    } else {
      var next := AfterFirst(handlers, ops);
      CalledFor(next, ops[1..], k - 1);
    }
  }

  lemma {:induction false} Recorded(trace: seq<Event>, iar: u32)
    requires Took(iar) in CallsOf(trace)
    ensures Acked(iar) in trace
  {
    if trace == [] {
    } else if trace[|trace| - 1] == Acked(iar) {
    } else {
      Recorded(trace[..|trace| - 1], iar);
    }
  }
}
