/**
 Properties of whole runs of the ARM reference machine, which by `Cpu.Perform` are
 properties of whole runs of the runtime.
 */
module ArmRuns {
  import opened ArmArchitecture

  // ---- Mode switches move no register ------------------------------------------------

  predicate SwitchesMode(step: Step) {
    step.MsrCpsr? || step.RestoreCpsr? || step.ExceptionReturn?
  }

  /** All banks of `v` and `w` hold the same registers and saved status words. */
  ghost predicate SameBanks(v: RegisterFile, w: RegisterFile) {
    v.low == w.low && v.user8 == w.user8 && v.fiq8 == w.fiq8 && v.sp == w.sp && v.lr == w.lr && v.spsr == w.spsr
  }

  lemma SwitchKeepsBanks(v: RegisterFile, step: Step)
    requires v.Valid() && SwitchesMode(step)
    ensures SameBanks(v, Apply(v, step))
  {
  }

  lemma {:induction false} ModeSwitchesKeepBanks(v: RegisterFile, code: seq<Code>)
    requires v.Valid() && Along(v, code, (_, step) => SwitchesMode(step))
    ensures SameBanks(v, Run(v, code))
    decreases |code|
  {
    hide Apply;
    if code != [] {
      SwitchKeepsBanks(v, code[0](Observe(v)));
      ModeSwitchesKeepBanks(Apply(v, code[0](Observe(v))), code[1..]);
    }
  }

  /**
   A User-register write made in any architectural mode is what that register reads as
   once any sequence of mode switches has led to User or System mode.
   */
  lemma UserWriteIsVisible(v: RegisterFile, reg: nat, value: Word, switches: seq<Code>)
    requires v.Valid() && Architectural(v.cpsr) && reg < 15
    requires Along(Apply(v, WriteUserReg(reg, value)), switches, (_, step) => SwitchesMode(step))
    requires Unbanked(Run(Apply(v, WriteUserReg(reg, value)), switches).cpsr)
    ensures Observe(Run(Apply(v, WriteUserReg(reg, value)), switches)).r[reg] == value
  {
    hide Apply, Run, Along, Observe, UserRegisters;
    var w := Apply(v, WriteUserReg(reg, value));
    ModeSwitchesKeepBanks(w, switches);
    UserWriteShows(v, reg, value);
    UserModeShows(w, Run(w, switches), reg);
  }

  lemma UserWriteShows(v: RegisterFile, reg: nat, value: Word)
    requires v.Valid() && Architectural(v.cpsr) && reg < 15
    ensures UserRegisters(Apply(v, WriteUserReg(reg, value)))[reg] == value
  {
  }

  /** In User and System mode the visible registers are the User registers. */
  lemma UserModeShows(w: RegisterFile, u: RegisterFile, reg: nat)
    requires w.Valid() && u.Valid() && SameBanks(w, u) && Unbanked(u.cpsr) && reg < 15
    ensures Observe(u).r[reg] == UserRegisters(w)[reg]
  {
  }

  /** A User-register write lands exactly when the mode is architectural or the register unbanked. */
  lemma UserWriteLands(v: RegisterFile, reg: nat)
    requires v.Valid()
    ensures (forall value: Word :: UserRegisters(Apply(v, WriteUserReg(reg, value)))[reg % 16] == value)
       <==> Architectural(v.cpsr) || (reg % 16 != 13 && reg % 16 != 14)
  {
    if !Architectural(v.cpsr) && (reg % 16 == 13 || reg % 16 == 14) {
      var other: Word := Offset(UserRegisters(v)[reg % 16], 1);
      assert UserRegisters(Apply(v, WriteUserReg(reg, other)))[reg % 16] != other;
    }
  }

  /** A User read is right whatever the saved slot holds exactly in the same cases. */
  lemma UserReadIsRight(v: RegisterFile, reg: nat)
    requires v.Valid()
    ensures (forall saved: Word :: UserRead(v, reg, saved) == UserRegisters(v)[reg % 16]) <==>
      Architectural(v.cpsr) || (reg % 16 != 13 && reg % 16 != 14)
  {
    if !Architectural(v.cpsr) && (reg % 16 == 13 || reg % 16 == 14) {
      var right := UserRegisters(v)[reg % 16];
      assert UserRead(v, reg, Offset(right, 1)) != right;
    }
  }

  // ---- User mode is confined ---------------------------------------------------------

  predicate EntersException(step: Step) { step.Swi? || step.TakeIrq? }

  lemma StepKeepsUserMode(v: RegisterFile, step: Step)
    requires v.Valid() && v.cpsr.control.mode == MODE_USER && !EntersException(step)
    ensures var control := Apply(v, step).cpsr.control; control == v.cpsr.control.(t := control.t)
  {
  }

  /** Only SWI and IRQ entry leave User mode or touch its interrupt masks. */
  lemma {:induction false} UserModeIsConfined(v: RegisterFile, code: seq<Code>)
    requires v.Valid() && v.cpsr.control.mode == MODE_USER
    requires Along(v, code, (_, step) => !EntersException(step))
    ensures var control := Run(v, code).cpsr.control;
      control == v.cpsr.control.(t := control.t)
    decreases |code|
  {
    hide Apply;
    if code != [] {
      StepKeepsUserMode(v, code[0](Observe(v)));
      UserModeIsConfined(Apply(v, code[0](Observe(v))), code[1..]);
    }
  }

  lemma StepKeepsUserSpsr(v: RegisterFile, step: Step)
    requires v.Valid()
    ensures Apply(v, step).spsr.usr == v.spsr.usr
  {
  }

  /** No run writes an SPSR for the User bank. */
  lemma {:induction false} UserSpsrIsNeverWritten(v: RegisterFile, code: seq<Code>)
    requires v.Valid()
    ensures Run(v, code).spsr.usr == v.spsr.usr
    decreases |code|
  {
    hide Apply;
    if code != [] {
      StepKeepsUserSpsr(v, code[0](Observe(v)));
      UserSpsrIsNeverWritten(Apply(v, code[0](Observe(v))), code[1..]);
    }
  }

  // ---- Interrupts are transparent ----------------------------------------------------

  /** A run with interrupts: ordinary code, and interrupts taken between two pieces of it. */
  datatype Item = Plain(code: Code) | Interrupt(handler: seq<Code>)

  /** The state in which the handler's final `SUBS PC, LR, #4` executes. */
  ghost function HandlerEnd(v: RegisterFile, handler: seq<Code>): (m: RegisterFile)
    requires v.Valid()
    ensures m.Valid()
  {
    Run(Apply(v, TakeIrq(v.pc)), handler)
  }

  ghost function RunItem(v: RegisterFile, item: Item): (w: RegisterFile)
    requires v.Valid()
    ensures w.Valid()
  {
    match item
    case Plain(code) => Apply(v, code(Observe(v)))
    case Interrupt(handler) =>
      var m := HandlerEnd(v, handler);
      Apply(m, ExceptionReturn(Offset(Observe(m).r[14], -4)))
  }

  ghost function RunItems(v: RegisterFile, items: seq<Item>): (w: RegisterFile)
    requires v.Valid()
    ensures w.Valid()
    decreases |items|
  {
    if items == [] then v else RunItems(RunItem(v, items[0]), items[1..])
  }

  function Uninterrupted(items: seq<Item>): seq<Item> {
    if items == [] then []
    else if items[0].Interrupt? then Uninterrupted(items[1..])
    else [items[0]] + Uninterrupted(items[1..])
  }

  /** Equal but for the three registers the IRQ bank owns. */
  ghost predicate SameExceptIrq(v: RegisterFile, w: RegisterFile) {
    w == v.(sp := v.sp.(irq := w.sp.irq), lr := v.lr.(irq := w.lr.irq), spsr := v.spsr.(irq := w.spsr.irq))
  }

  /**
   A handler that ends in IRQ mode with every register outside the IRQ bank restored, and with
   its own link register and SPSR as it found them. Its stack pointer and flags are free, and it
   may itself switch modes or take further interrupts on the way.
   */
  ghost predicate Restores(v: RegisterFile, handler: seq<Code>)
    requires v.Valid()
  {
    var entry := Apply(v, TakeIrq(v.pc));
    var m := HandlerEnd(v, handler);
    m.Bank() == Irq && m.lr == entry.lr && m.spsr == entry.spsr && m.sp == entry.sp.(irq := m.sp.irq) &&
    m.low == entry.low && m.user8 == entry.user8 && m.fiq8 == entry.fiq8
  }

  /** Every interrupt along the run meets a handler that restores what it used. */
  ghost predicate HandlersRestore(v: RegisterFile, items: seq<Item>)
    requires v.Valid()
    decreases |items|
  {
    items == [] ||
    ((items[0].Interrupt? ==> Restores(v, items[0].handler)) && HandlersRestore(RunItem(v, items[0]), items[1..]))
  }

  /** The run never puts the IRQ bank in front. */
  ghost predicate AvoidsIrqBank(v: RegisterFile, items: seq<Item>)
    requires v.Valid()
    decreases |items|
  {
    v.Bank() != Irq && (items == [] || AvoidsIrqBank(RunItem(v, items[0]), items[1..]))
  }

  /** One interrupt, taken outside the IRQ bank, is invisible outside the IRQ bank. */
  lemma InterruptIsInvisible(v: RegisterFile, handler: seq<Code>)
    requires v.Valid() && v.Bank() != Irq && Restores(v, handler)
    ensures SameExceptIrq(v, RunItem(v, Interrupt(handler)))
  {
    hide Apply, Observe, Run;
    var m := HandlerEnd(v, handler);
    BracketShape(v, m);
  }

  /** What entry stores, and what the return at the other end makes of it. */
  lemma BracketShape(v: RegisterFile, m: RegisterFile)
    requires v.Valid() && m.Valid() && m.Bank() == Irq
    ensures Observe(m).r[14] == m.lr.irq && Offset(Offset(v.pc, 4), -4) == v.pc
    ensures Apply(m, ExceptionReturn(v.pc)) == m.(cpsr := m.spsr.irq, pc := v.pc)
    ensures var e := Apply(v, TakeIrq(v.pc));
      && e.lr == v.lr.(irq := Offset(v.pc, 4)) && e.spsr == v.spsr.(irq := v.cpsr) && e.sp == v.sp
      && e.low == v.low && e.user8 == v.user8 && e.fiq8 == v.fiq8
  {
  }

  /** What a handler may do freely: use R13 and the flags, branch, and change state without leaving its mode. */
  predicate OwnWork(step: Step) {
    match step
    case SetReg(reg, _) => reg % 16 == 13 || reg % 16 == 15
    case SetFlags(_, _, _, _) => true
    case Exchange(_) => true
    case MsrCpsr(_, mask) => !Names(mask, 0)
    case _ => false
  }

  lemma {:induction false} OwnWorkRestores(entry: RegisterFile, m: RegisterFile, handler: seq<Code>)
    requires entry.Valid() && m.Valid() && m.Bank() == Irq && Along(m, handler, (_, step) => OwnWork(step))
    requires m.lr == entry.lr && m.spsr == entry.spsr && m.sp == entry.sp.(irq := m.sp.irq)
    requires m.low == entry.low && m.user8 == entry.user8 && m.fiq8 == entry.fiq8
    ensures var e := Run(m, handler);
      && e.Bank() == Irq && e.lr == entry.lr && e.spsr == entry.spsr && e.sp == entry.sp.(irq := e.sp.irq)
      && e.low == entry.low && e.user8 == entry.user8 && e.fiq8 == entry.fiq8
    decreases |handler|
  {
    if handler != [] {
      var step := handler[0](Observe(m));
      OwnWorkKeeps(m, step);
      OwnWorkRestores(entry, Apply(m, step), handler[1..]);
    }
  }

  lemma OwnWorkKeeps(m: RegisterFile, step: Step)
    requires m.Valid() && m.Bank() == Irq && OwnWork(step)
    ensures var e := Apply(m, step);
      && e.Bank() == Irq && e.lr == m.lr && e.spsr == m.spsr && e.sp == m.sp.(irq := e.sp.irq)
      && e.low == m.low && e.user8 == m.user8 && e.fiq8 == m.fiq8
  {
  }

  /** Every handler whose each step is such work, decided however it likes, restores what it should. */
  lemma OwnWorkHandlersRestore(v: RegisterFile, handler: seq<Code>)
    requires v.Valid() && Along(Apply(v, TakeIrq(v.pc)), handler, (_, step) => OwnWork(step))
    ensures Restores(v, handler)
  {
    var entry := Apply(v, TakeIrq(v.pc));
    OwnWorkRestores(entry, entry, handler);
  }

  lemma WriteIgnoresIrqBank(v: RegisterFile, w: RegisterFile, b: Bank, reg: nat, value: Word)
    requires v.Valid() && w.Valid() && SameExceptIrq(v, w) && b != Irq && reg < 16
    ensures SameExceptIrq(WriteRegister(v, b, reg, value), WriteRegister(w, b, reg, value))
  {
    SetIgnoresIrq(v.sp, w.sp, b, value);
    SetIgnoresIrq(v.lr, w.lr, b, value);
    hide Banked.Set;
  }

  lemma SetIgnoresIrq(x: Banked<Word>, y: Banked<Word>, b: Bank, value: Word)
    requires b != Irq && y == x.(irq := y.irq)
    ensures y.Set(b, value) == x.Set(b, value).(irq := y.Set(b, value).irq)
  {
  }

  /** Outside the IRQ bank, no step reads what the IRQ bank holds. */
  lemma StepIgnoresIrqBank(v: RegisterFile, w: RegisterFile, step: Step)
    requires v.Valid() && w.Valid() && SameExceptIrq(v, w)
    requires v.Bank() != Irq && Apply(v, step).Bank() != Irq
    ensures SameExceptIrq(Apply(v, step), Apply(w, step))
  {
    hide WriteRegister;
    match step
    case SetReg(reg, value) => WriteIgnoresIrqBank(v, w, v.Bank(), reg % 16, value);
    case SetFlags(_, _, _, _) =>
    case Exchange(_) =>
    case WriteUserReg(reg, value) => WriteIgnoresIrqBank(v, w, Usr, reg % 16, value);
    case MsrCpsr(_, _) =>
    case MsrSpsr(_, _) =>
    case RestoreCpsr =>
    case ExceptionReturn(_) =>
    case Swi =>
    case TakeIrq(_) =>
  }

  lemma SameView(v: RegisterFile, w: RegisterFile)
    requires v.Valid() && w.Valid() && SameExceptIrq(v, w) && v.Bank() != Irq
    ensures Observe(v) == Observe(w)
  {
  }

  /**
   Interrupt transparency: whatever interrupts are inserted into a run that otherwise keeps out
   of the IRQ bank, the final status, PC and every other bank are those of the uninterrupted run.
   */
  lemma {:induction false} InterruptsAreTransparent(v: RegisterFile, w: RegisterFile, items: seq<Item>)
    requires v.Valid() && w.Valid() && SameExceptIrq(v, w)
    requires AvoidsIrqBank(v, Uninterrupted(items))
    requires HandlersRestore(w, items)
    ensures SameExceptIrq(RunItems(v, Uninterrupted(items)), RunItems(w, items))
    decreases |items|
  {
    if items != [] {
      var rest := items[1..];
      match items[0]
      case Interrupt(handler) =>
        assert v.Bank() != Irq;
        InterruptIsInvisible(w, handler);
        InterruptsAreTransparent(v, RunItem(w, items[0]), rest);
      case Plain(code) =>
        var plain := Uninterrupted(items);
        assert plain[1..] == Uninterrupted(rest);
        assert RunItem(v, plain[0]).Bank() != Irq;
        SameView(v, w);
        StepIgnoresIrqBank(v, w, code(Observe(v)));
        InterruptsAreTransparent(RunItem(v, plain[0]), RunItem(w, items[0]), rest);
    }
  }

  // ---- Handlers that also put the stack pointer back -----------------------------------

  /** Equal but for the link register and the saved status of the IRQ bank, which entry itself writes. */
  ghost predicate SameExceptLink(v: RegisterFile, w: RegisterFile) {
    w == v.(lr := v.lr.(irq := w.lr.irq), spsr := v.spsr.(irq := w.spsr.irq))
  }

  /** A handler that restores what it used, its own stack pointer included. */
  ghost predicate Balances(v: RegisterFile, handler: seq<Code>)
    requires v.Valid()
  {
    Restores(v, handler) && HandlerEnd(v, handler).sp.irq == v.sp.irq
  }

  ghost predicate HandlersBalance(v: RegisterFile, items: seq<Item>)
    requires v.Valid()
    decreases |items|
  {
    items == [] ||
    ((items[0].Interrupt? ==> Balances(v, items[0].handler)) && HandlersBalance(RunItem(v, items[0]), items[1..]))
  }

  /** Outside the IRQ bank no step moves its stack pointer. */
  lemma StepKeepsIrqStack(v: RegisterFile, step: Step)
    requires v.Valid() && v.Bank() != Irq
    ensures Apply(v, step).sp.irq == v.sp.irq
  {
  }

  lemma BalancedInterruptIsInvisible(v: RegisterFile, handler: seq<Code>)
    requires v.Valid() && v.Bank() != Irq && Balances(v, handler)
    ensures SameExceptLink(v, RunItem(v, Interrupt(handler)))
  {
    hide Apply, Observe, Run;
    BracketShape(v, HandlerEnd(v, handler));
  }

  /** With such handlers the interrupts leave nothing behind but the IRQ bank's link register and SPSR. */
  lemma {:induction false} InterruptsLeaveOnlyTheLink(v: RegisterFile, w: RegisterFile, items: seq<Item>)
    requires v.Valid() && w.Valid() && SameExceptLink(v, w)
    requires AvoidsIrqBank(v, Uninterrupted(items))
    requires HandlersBalance(w, items)
    ensures SameExceptLink(RunItems(v, Uninterrupted(items)), RunItems(w, items))
    decreases |items|
  {
    hide Apply, Observe, Restores;
    if items != [] {
      var rest := items[1..];
      match items[0]
      case Interrupt(handler) =>
        assert v.Bank() != Irq;
        BalancedInterruptIsInvisible(w, handler);
        InterruptsLeaveOnlyTheLink(v, RunItem(w, items[0]), rest);
      case Plain(code) =>
        var plain := Uninterrupted(items);
        assert plain[1..] == Uninterrupted(rest);
        assert RunItem(v, plain[0]).Bank() != Irq;
        SameView(v, w);
        StepIgnoresIrqBank(v, w, code(Observe(v)));
        StepKeepsIrqStack(v, code(Observe(v)));
        StepKeepsIrqStack(w, code(Observe(v)));
        InterruptsLeaveOnlyTheLink(RunItem(v, plain[0]), RunItem(w, items[0]), rest);
    }
  }

  // ---- A run with interrupts is one run of the runtime ---------------------------------

  /** `runtime_irq(R15)`, the handler, `runtime_exception_return(R14 - 4)`. */
  function Lower(items: seq<Item>): seq<Code> {
    if items == [] then []
    else (match items[0]
          case Plain(code) => [code]
          case Interrupt(handler) =>
            [(seen: Visible) => TakeIrq(if |seen.r| == 16 then seen.r[15] else 0)] + handler +
            [(seen: Visible) => ExceptionReturn(if |seen.r| == 16 then Offset(seen.r[14], -4) else 0)])
         + Lower(items[1..])
  }

  lemma {:induction false} RunConcat(v: RegisterFile, a: seq<Code>, b: seq<Code>)
    requires v.Valid()
    ensures Run(v, a + b) == Run(Run(v, a), b)
    decreases |a|
  {
    if a == [] {
      assert a + b == b;
    } else {
      assert (a + b)[1..] == a[1..] + b;
      RunConcat(Apply(v, a[0](Observe(v))), a[1..], b);
    }
  }

  lemma RunOne(v: RegisterFile, code: Code)
    requires v.Valid()
    ensures Run(v, [code]) == Apply(v, code(Observe(v)))
  {
    assert [code][1..] == [];
  }

  /** So `InterruptsAreTransparent` speaks of what `Cpu.Perform` computes on the lowered code. */
  lemma {:induction false} LoweredRun(v: RegisterFile, items: seq<Item>)
    requires v.Valid()
    ensures Run(v, Lower(items)) == RunItems(v, items)
    decreases |items|
  {
    if items != [] {
      LoweredRun(RunItem(v, items[0]), items[1..]);
      match items[0]
      case Plain(code) =>
        RunOne(v, code);
        RunConcat(v, [code], Lower(items[1..]));
      case Interrupt(handler) =>
        var enter: Code := (seen: Visible) => TakeIrq(if |seen.r| == 16 then seen.r[15] else 0);
        var leave: Code := (seen: Visible) => ExceptionReturn(if |seen.r| == 16 then Offset(seen.r[14], -4) else 0);
        assert Lower(items) == [enter] + handler + [leave] + Lower(items[1..]);
        RunOne(v, enter);
        RunConcat(v, [enter], handler);
        RunOne(HandlerEnd(v, handler), leave);
        RunConcat(v, [enter] + handler, [leave]);
        RunConcat(v, [enter] + handler + [leave], Lower(items[1..]));
    }
  }
}
