/**
 The reference machine: the ARM register file as the architecture describes it.

 Every register exists once per bank and the mode bits only select which copy an
 instruction sees. Nothing is ever copied between banks here; the swapping that
 `recompiler/armv4t/runtime_arm.cpp` performs is proved against this machine in
 module `ArmRuntime`.
 */
module ArmArchitecture {
  import opened Bytes

  /** A general register: 32 bits, read as an unsigned number. */
  type Word = x: int | 0 <= x < 0x1_0000_0000

  type Mode = m: int | 0 <= m < 32

  /** Bits 31..24 of a status register: N, Z, C, V and the four bits below them. */
  datatype Flags = Flags(n: bool, z: bool, c: bool, v: bool, rest: Byte)

  /** Bits 7..0: I, F, T and the five mode bits. */
  datatype Control = Control(i: bool, f: bool, t: bool, mode: Mode)

  /** A program status register, byte by byte from the top, as MSR field masks divide it. */
  datatype Psr = Psr(flags: Flags, status: Byte, extension: Byte, control: Control)

  const ZERO_PSR := Psr(Flags(false, false, false, false, 0), 0, 0, Control(false, false, false, 0))

  function Offset(w: Word, delta: int): Word { (w + delta) % 0x1_0000_0000 }

  datatype Bank = Usr | Fiq | Irq | Svc | Abt | Und

  /** One value per bank: the contents of `banked_sp`, `banked_lr` or `banked_spsr`. */
  datatype Banked<T> = Banked(usr: T, fiq: T, irq: T, svc: T, abt: T, und: T) {
    function Get(b: Bank): T {
      match b
      case Usr => usr
      case Fiq => fiq
      case Irq => irq
      case Svc => svc
      case Abt => abt
      case Und => und
    }

    function Set(b: Bank, x: T): Banked<T> {
      match b
      case Usr => this.(usr := x)
      case Fiq => this.(fiq := x)
      case Irq => this.(irq := x)
      case Svc => this.(svc := x)
      case Abt => this.(abt := x)
      case Und => this.(und := x)
    }
  }

  const MODE_USER: Mode := 0x10
  const MODE_FIQ: Mode := 0x11
  const MODE_IRQ: Mode := 0x12
  const MODE_SUPERVISOR: Mode := 0x13
  const MODE_SYSTEM: Mode := 0x1F

  function BankOf(psr: Psr): Bank {
    match psr.control.mode
    case 0x11 => Fiq
    case 0x12 => Irq
    case 0x13 => Svc
    case 0x17 => Abt
    case 0x1B => Und
    case _ => Usr
  }

  /** User and System mode, which own no SPSR. */
  predicate Unbanked(psr: Psr) { psr.control.mode == MODE_USER || psr.control.mode == MODE_SYSTEM }

  /** The seven modes the architecture defines; the other 25 encodings are reserved. */
  predicate Architectural(psr: Psr) { BankOf(psr) != Usr || Unbanked(psr) }

  /** The logical register file: every bank's registers, whichever mode is active. */
  datatype RegisterFile = RegisterFile(
    low: seq<Word>,    // R0..R7, shared by all modes
    user8: seq<Word>,  // R8..R12 of every mode but FIQ
    fiq8: seq<Word>,   // R8..R12 of FIQ
    sp: Banked<Word>,
    lr: Banked<Word>,
    spsr: Banked<Psr>,
    pc: Word,
    cpsr: Psr)
  {
    ghost predicate Valid() { |low| == 8 && |user8| == 5 && |fiq8| == 5 }

    function Bank(): Bank { BankOf(cpsr) }
  }

  /** R0..R15 as an instruction executing in bank `b` sees them. */
  function Registers(v: RegisterFile, b: Bank): (r: seq<Word>)
    requires v.Valid()
    ensures |r| == 16
  {
    v.low + (if b == Fiq then v.fiq8 else v.user8) + [v.sp.Get(b), v.lr.Get(b), v.pc]
  }

  /** R0..R15 as User mode sees them. */
  function UserRegisters(v: RegisterFile): (r: seq<Word>)
    requires v.Valid()
    ensures |r| == 16
  {
    Registers(v, Usr)
  }

  /** A User read that falls back on a saved copy for R13 and R14 in the reserved mode encodings. */
  function UserRead(v: RegisterFile, reg: nat, saved: Word): Word
    requires v.Valid()
  {
    var n := reg % 16;
    if (n == 13 || n == 14) && !Architectural(v.cpsr) then saved else UserRegisters(v)[n]
  }

  /**
   The User registers as generated code may read them. In the reserved mode encodings R13 and R14
   are withheld: what the runtime returns for them there is no register of the machine.
   */
  function UserSeen(v: RegisterFile): (r: seq<Word>)
    requires v.Valid()
    ensures |r| == 16
  {
    if Architectural(v.cpsr) then UserRegisters(v) else UserRegisters(v)[13 := 0][14 := 0]
  }

  /** Everything generated code can read through the runtime in the current mode, but for these two. */
  datatype Visible = Visible(r: seq<Word>, cpsr: Psr, spsr: Psr, user: seq<Word>)

  function Observe(v: RegisterFile): Visible
    requires v.Valid()
  {
    Visible(Registers(v, v.Bank()), v.cpsr, v.spsr.Get(v.Bank()), UserSeen(v))
  }

  /** One call into the runtime, or one register write by generated code. */
  datatype Step =
    | SetReg(reg: nat, value: Word)
    | SetFlags(n: bool, z: bool, c: bool, v: bool)
    | Exchange(thumb: bool)
    | WriteUserReg(reg: nat, value: Word)
    | MsrCpsr(bits: Psr, mask: nat)
    | MsrSpsr(bits: Psr, mask: nat)
    | RestoreCpsr
    | ExceptionReturn(newPc: Word)
    | Swi
    | TakeIrq(returnAddress: Word)

  /** Writes the register that bank `b` names `reg`. */
  function WriteRegister(v: RegisterFile, b: Bank, reg: nat, value: Word): (w: RegisterFile)
    requires v.Valid() && reg < 16
    ensures w.Valid()
  {
    if reg < 8 then v.(low := v.low[reg := value])
    else if reg < 13 then
      if b == Fiq then v.(fiq8 := v.fiq8[reg - 8 := value]) else v.(user8 := v.user8[reg - 8 := value])
    else if reg == 13 then v.(sp := v.sp.Set(b, value))
    else if reg == 14 then v.(lr := v.lr.Set(b, value))
    else v.(pc := value)
  }

  /** Bit `k` of an MSR field mask: 0 names the control byte, 3 the flags byte. */
  predicate Names(mask: nat, k: nat) {
    k <= 3 && (mask / [1, 2, 4, 8][k]) % 2 == 1
  }

  /** The bytes of `bits` that the field mask names, the bytes of `kept` elsewhere. */
  function Merge(kept: Psr, bits: Psr, mask: nat): Psr {
    Psr(if Names(mask, 3) then bits.flags else kept.flags,
        if Names(mask, 2) then bits.status else kept.status,
        if Names(mask, 1) then bits.extension else kept.extension,
        if Names(mask, 0) then bits.control else kept.control)
  }

  /** Exception entry: mode changed, Thumb cleared, interrupts masked. */
  function EntryCpsr(cpsr: Psr, mode: Mode): Psr {
    cpsr.(control := cpsr.control.(mode := mode, t := false, i := true))
  }

  function Enter(v: RegisterFile, mode: Mode, link: Word, vector: Word): RegisterFile {
    var entry := EntryCpsr(v.cpsr, mode);
    var b := BankOf(entry);
    v.(cpsr := entry, spsr := v.spsr.Set(b, v.cpsr), lr := v.lr.Set(b, link), pc := vector)
  }

  function Apply(v: RegisterFile, step: Step): (w: RegisterFile)
    requires v.Valid()
    ensures w.Valid()
  {
    match step
    case SetReg(reg, value) => WriteRegister(v, v.Bank(), reg % 16, value)
    case SetFlags(n, z, c, o) =>
      v.(cpsr := v.cpsr.(flags := v.cpsr.flags.(n := n, z := z, c := c, v := o)))
    case Exchange(thumb) => v.(cpsr := v.cpsr.(control := v.cpsr.control.(t := thumb)))
    case WriteUserReg(reg, value) =>
      var n := reg % 16;
      // The runtime loses R13/R14 writes made in a reserved mode encoding.
      if (n == 13 || n == 14) && !Architectural(v.cpsr) then v
      else WriteRegister(v, Usr, n, value)
    case MsrCpsr(bits, mask) =>
      // User mode may change only the flags byte.
      v.(cpsr := Merge(v.cpsr, bits, if v.cpsr.control.mode != MODE_USER then mask
                                     else if Names(mask, 3) then 8 else 0))
    case MsrSpsr(bits, mask) =>
      if v.Bank() == Usr then v
      else v.(spsr := v.spsr.Set(v.Bank(), Merge(v.spsr.Get(v.Bank()), bits, mask)))
    case RestoreCpsr => if Unbanked(v.cpsr) then v else v.(cpsr := v.spsr.Get(v.Bank()))
    case ExceptionReturn(newPc) =>
      (if Unbanked(v.cpsr) then v else v.(cpsr := v.spsr.Get(v.Bank()))).(pc := newPc)
    case Swi => Enter(v, MODE_SUPERVISOR, v.pc, 0x08)
    case TakeIrq(ret) => Enter(v, MODE_IRQ, Offset(ret, 4), 0x18)
  }

  /** A piece of generated code: what it sees decides which call it makes. */
  type Code = Visible -> Step

  ghost function Run(v: RegisterFile, code: seq<Code>): (w: RegisterFile)
    requires v.Valid()
    ensures w.Valid()
    decreases |code|
  {
    if code == [] then v else Run(Apply(v, code[0](Observe(v))), code[1..])
  }

  ghost predicate Along(v: RegisterFile, code: seq<Code>, p: (RegisterFile, Step) -> bool)
    requires v.Valid()
    decreases |code|
  {
    code == [] || (var step := code[0](Observe(v)); p(v, step) && Along(Apply(v, step), code[1..], p))
  }
}
