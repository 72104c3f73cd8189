/**
 The runtime's own CPU state, updated in place, one method per `runtime_*` entry
 point. The active mode's registers live in `R`; a mode switch copies them out to
 their bank and copies the incoming bank in. Each method is proved to act on the
 logical register file exactly as the reference machine does.
 */
module ArmRuntime {
  import opened ArmArchitecture

  class Cpu {
    var R: seq<Word>
    var cpsr: Psr
    var bankedSp: Banked<Word>
    var bankedLr: Banked<Word>
    var bankedSpsr: Banked<Psr>
    var r8User: seq<Word>
    var r8Fiq: seq<Word>

    ghost predicate Valid()
      reads this
    {
      |R| == 16 && |r8User| == 5 && |r8Fiq| == 5
    }

    /** The logical register file: live registers for the active bank, saved copies for the rest. */
    ghost function View(): (v: RegisterFile)
      requires Valid()
      reads this
      ensures v.Valid()
    {
      var b := BankOf(cpsr);
      RegisterFile(R[..8],
                if b == Fiq then r8User else R[8..13],
                if b == Fiq then R[8..13] else r8Fiq,
                bankedSp.Set(b, R[13]), bankedLr.Set(b, R[14]), bankedSpsr, R[15], cpsr)
    }

    /** `g_cpu = {}`: all registers zero. */
    constructor ()
      ensures Valid()
      ensures cpsr == ZERO_PSR && bankedSpsr.usr == ZERO_PSR && bankedSp.usr == 0
    {
      R, cpsr := seq(16, _ => 0), ZERO_PSR;
      bankedSp, bankedLr := Banked(0, 0, 0, 0, 0, 0), Banked(0, 0, 0, 0, 0, 0);
      bankedSpsr := Banked(ZERO_PSR, ZERO_PSR, ZERO_PSR, ZERO_PSR, ZERO_PSR, ZERO_PSR);
      r8User, r8Fiq := seq(5, _ => 0), seq(5, _ => 0);
    }

    method BankOut(oldBank: Bank, oldMode: Mode)
      requires Valid()
      modifies this`bankedSp, this`bankedLr, this`r8User, this`r8Fiq
      ensures Valid()
      ensures bankedSp == old(bankedSp).Set(oldBank, R[13])
      ensures bankedLr == old(bankedLr).Set(oldBank, R[14])
      ensures r8Fiq == if oldMode == MODE_FIQ then R[8..13] else old(r8Fiq)
      ensures r8User == if oldMode == MODE_FIQ then old(r8User) else R[8..13]
    {
      bankedSp := bankedSp.Set(oldBank, R[13]);
      bankedLr := bankedLr.Set(oldBank, R[14]);
      if oldMode == MODE_FIQ {
        for i := 0 to 5
          invariant |r8Fiq| == 5 && r8User == old(r8User)
          invariant bankedSp == old(bankedSp).Set(oldBank, R[13]) && bankedLr == old(bankedLr).Set(oldBank, R[14])
          invariant forall j :: 0 <= j < i ==> r8Fiq[j] == R[8..13][j]
        {
          r8Fiq := r8Fiq[i := R[8 + i]];
        }
      } else {
        for i := 0 to 5
          invariant |r8User| == 5 && r8Fiq == old(r8Fiq)
          invariant bankedSp == old(bankedSp).Set(oldBank, R[13]) && bankedLr == old(bankedLr).Set(oldBank, R[14])
          invariant forall j :: 0 <= j < i ==> r8User[j] == R[8..13][j]
        {
          r8User := r8User[i := R[8 + i]];
        }
      }
    }

    method BankIn(newBank: Bank, newMode: Mode)
      requires Valid()
      modifies this`R
      ensures Valid()
      ensures R[..8] == old(R[..8]) && R[15] == old(R[15])
      ensures R[8..13] == if newMode == MODE_FIQ then r8Fiq else r8User
      ensures R[13] == bankedSp.Get(newBank) && R[14] == bankedLr.Get(newBank)
    {
      R := R[13 := bankedSp.Get(newBank)];
      R := R[14 := bankedLr.Get(newBank)];
      var saved := if newMode == MODE_FIQ then r8Fiq else r8User;
      for i := 0 to 5
        invariant |R| == 16 && R[..8] == old(R[..8]) && R[15] == old(R[15])
        invariant forall j :: 0 <= j < i ==> R[8..13][j] == saved[j]
        invariant R[13] == bankedSp.Get(newBank) && R[14] == bankedLr.Get(newBank)
      {
        R := R[8 + i := saved[i]];
      }
    }

    /** `runtime_read_user_reg`: the User-mode register, or what the User bank's slot holds. */
    method ReadUserReg(reg0: nat) returns (value: Word)
      requires Valid()
      ensures value == UserRead(View(), reg0, (if reg0 % 16 == 13 then bankedSp else bankedLr).usr)
    {
      var reg := reg0 % 16;
      var mode := cpsr.control.mode;
      if reg < 8 || reg == 15 {
        return R[reg];
      }
      if reg < 13 {
        return if mode == MODE_FIQ then r8User[reg - 8] else R[reg];
      }
      if mode == MODE_USER || mode == MODE_SYSTEM {
        return R[reg];
      }
      return if reg == 13 then bankedSp.Get(Usr) else bankedLr.Get(Usr);
    }

    method WriteUserRegister(reg0: nat, value: Word)
      requires Valid()
      modifies this
      ensures Valid() && View() == Apply(old(View()), WriteUserReg(reg0, value))
    {
      var reg := reg0 % 16;
      var mode := cpsr.control.mode;
      if reg < 8 || reg == 15 {
        R := R[reg := value];
        return;
      }
      if reg < 13 {
        if mode == MODE_FIQ {
          r8User := r8User[reg - 8 := value];
        } else {
          R := R[reg := value];
        }
        return;
      }
      if mode == MODE_USER || mode == MODE_SYSTEM {
        R := R[reg := value];
      } else if reg == 13 {
        bankedSp := bankedSp.Set(Usr, value);
      } else {
        bankedLr := bankedLr.Set(Usr, value);
      }
    }

    /** Moves the live registers between banks when the bank changes. */
    method SwitchMode(newCpsr: Psr)
      requires Valid()
      modifies this
      ensures Valid() && View() == old(View()).(cpsr := newCpsr)
    {
      var oldCpsr := cpsr;
      var oldBank := BankOf(oldCpsr);
      var newBank := BankOf(newCpsr);
      cpsr := newCpsr;
      if oldBank != newBank {
        BankOut(oldBank, oldCpsr.control.mode);
        BankIn(newBank, newCpsr.control.mode);
      }
    }

    method MoveToCpsr(value: Psr, mask: nat)
      requires Valid()
      modifies this
      ensures Valid() && View() == Apply(old(View()), MsrCpsr(value, mask))
    {
      var fields := mask;
      if cpsr.control.mode == MODE_USER {
        fields := if Names(mask, 3) then 8 else 0;
      }
      SwitchMode(Merge(cpsr, value, fields));
    }

    method MoveToSpsr(value: Psr, mask: nat)
      requires Valid()
      modifies this`bankedSpsr
      ensures Valid() && View() == Apply(old(View()), MsrSpsr(value, mask))
    {
      var bank := BankOf(cpsr);
      if bank == Usr {
        return;
      }
      bankedSpsr := bankedSpsr.Set(bank, Merge(bankedSpsr.Get(bank), value, mask));
    }

    method RestoreCpsrFromSpsr()
      requires Valid()
      modifies this
      ensures Valid() && View() == Apply(old(View()), RestoreCpsr)
    {
      var oldCpsr := cpsr;
      if Unbanked(oldCpsr) {
        return;
      }
      var oldBank := BankOf(oldCpsr);
      var spsr := bankedSpsr.Get(oldBank);
      BankOut(oldBank, oldCpsr.control.mode);
      cpsr := spsr;
      BankIn(BankOf(spsr), spsr.control.mode);
    }

    method ReturnFromException(newPc: Word)
      requires Valid()
      modifies this
      ensures Valid() && View() == Apply(old(View()), ExceptionReturn(newPc))
      ensures !Unbanked(old(cpsr)) ==> bankedSp == old(bankedSp).Set(BankOf(old(cpsr)), old(R[13]))
    {
      var oldCpsr := cpsr;
      if Unbanked(oldCpsr) {
        R := R[15 := newPc];
        return;
      }
      var oldBank := BankOf(oldCpsr);
      var spsr := bankedSpsr.Get(oldBank);
      BankOut(oldBank, oldCpsr.control.mode);
      cpsr := spsr;
      BankIn(BankOf(spsr), spsr.control.mode);
      R := R[15 := newPc];
    }

    /** The part `runtime_swi` and `runtime_irq` share, up to the dispatch of the handler. */
    method EnterException(mode: Mode, link: Word, vector: Word)
      requires Valid()
      requires mode == MODE_IRQ || mode == MODE_SUPERVISOR
      modifies this
      ensures Valid() && View() == Enter(old(View()), mode, link, vector)
      ensures BankOf(old(cpsr)) != BankOf(cpsr) ==> bankedSp == old(bankedSp).Set(BankOf(old(cpsr)), old(R[13]))
    {
      var savedCpsr := cpsr;
      var newCpsr := savedCpsr.(control := savedCpsr.control.(mode := mode, t := false, i := true));
      var oldBank := BankOf(savedCpsr);
      var newBank := BankOf(newCpsr);
      if oldBank != newBank {
        BankOut(oldBank, savedCpsr.control.mode);
        BankIn(newBank, newCpsr.control.mode);
      }
      cpsr := newCpsr;
      bankedSpsr := bankedSpsr.Set(newBank, savedCpsr);
      R := R[14 := link];
      R := R[15 := vector];
    }

    method SetRegister(reg: nat, value: Word)
      requires Valid()
      modifies this`R
      ensures Valid() && View() == Apply(old(View()), SetReg(reg, value))
      ensures R == old(R)[reg % 16 := value]
    {
      R := R[reg % 16 := value];
    }

    method UpdateFlags(n: bool, z: bool, c: bool, v: bool)
      requires Valid()
      modifies this`cpsr
      ensures Valid() && View() == Apply(old(View()), SetFlags(n, z, c, v))
      ensures cpsr == old(cpsr).(flags := old(cpsr).flags.(n := n, z := z, c := c, v := v))
    {
      cpsr := cpsr.(flags := cpsr.flags.(n := n, z := z, c := c, v := v));
    }

    method ExchangeState(thumb: bool)
      requires Valid()
      modifies this`cpsr
      ensures Valid() && View() == Apply(old(View()), Exchange(thumb))
    {
      cpsr := cpsr.(control := cpsr.control.(t := thumb));
    }

    method Execute(step: Step)
      requires Valid()
      modifies this
      ensures Valid() && View() == Apply(old(View()), step)
    {
      match step {
        case SetReg(reg, value) => SetRegister(reg, value);
        case SetFlags(n, z, c, v) => UpdateFlags(n, z, c, v);
        case Exchange(thumb) => ExchangeState(thumb);
        case WriteUserReg(reg, value) => WriteUserRegister(reg, value);
        case MsrCpsr(bits, mask) => MoveToCpsr(bits, mask);
        case MsrSpsr(bits, mask) => MoveToSpsr(bits, mask);
        case RestoreCpsr => RestoreCpsrFromSpsr();
        case ExceptionReturn(newPc) => ReturnFromException(newPc);
        case Swi => EnterException(MODE_SUPERVISOR, R[15], 0x08);
        case TakeIrq(ret) => EnterException(MODE_IRQ, Offset(ret, 4), 0x18);
      }
    }

    /** One User register as generated code may read it. */
    method ReadSeen(i: nat) returns (word: Word)
      requires Valid() && i < 16
      ensures word == UserSeen(View())[i]
    {
      if (i == 13 || i == 14) && !Architectural(cpsr) {
        return 0;
      }
      word := ReadUserReg(i);
    }

    method ReadUserRegisters() returns (user: seq<Word>)
      requires Valid()
      ensures user == UserSeen(View())
    {
      hide UserSeen;
      user := [];
      for i := 0 to 16
        invariant |user| == i
        invariant forall j :: 0 <= j < i ==> user[j] == UserSeen(View())[j]
      {
        var word := ReadSeen(i);
        user := user + [word];
      }
    }

    /** What generated code reads back: R, CPSR, the current SPSR and the User registers. */
    method Look() returns (seen: Visible)
      requires Valid()
      ensures seen == Observe(View())
    {
      var user := ReadUserRegisters();
      seen := Visible(R, cpsr, bankedSpsr.Get(BankOf(cpsr)), user);
      assert R == Registers(View(), BankOf(cpsr));
    }

    /** A whole run of the imperative runtime is a run of the reference machine. */
    method Perform(code: seq<Code>)
      requires Valid()
      modifies this
      ensures Valid() && View() == Run(old(View()), code)
    {
      for i := 0 to |code|
        invariant Valid()
        invariant Run(old(View()), code) == Run(View(), code[i..])
      {
        var seen := Look();
        Execute(code[i](seen));
        assert code[i..][1..] == code[i + 1..];
      }
    }
  }

  /**
   The zero-initialised CPU starts in a reserved mode encoding, where reading User R13
   returns the stale bank copy instead of the live register.
   */
  method StaleUserRead() returns (got: Word, live: Word)
    ensures got == 0 && live == 1
  {
    var cpu := new Cpu();
    cpu.SetRegister(13, 1);
    got := cpu.ReadUserReg(13);
    live := cpu.R[13];
  }

  /**
   Such a read is the one place where an interrupt shows. In every state with a reserved mode
   encoding, an interrupt whose handler does nothing leaves status, PC and every register outside
   the IRQ bank alone, and yet afterwards the User R13 read is the live R13, whatever it was before.
   */
  method EmptyInterrupt(cpu: Cpu) returns (read: Word)
    requires cpu.Valid() && !Architectural(cpu.cpsr)
    modifies cpu
    ensures cpu.Valid() && read == old(cpu.R[13])
    ensures var v, w := old(cpu.View()), cpu.View();
      w == v.(lr := v.lr.Set(Irq, w.lr.irq), spsr := v.spsr.Set(Irq, w.spsr.irq))
  {
    hide Apply, Enter;
    ghost var v := cpu.View();
    var pc := cpu.R[15];
    cpu.EnterException(MODE_IRQ, Offset(pc, 4), 0x18);
    Bracket(v);
    cpu.ReturnFromException(Offset(cpu.R[14], -4));
    read := cpu.ReadUserReg(13);
  }

  lemma Bracket(v: RegisterFile)
    requires v.Valid()
    ensures var e := Enter(v, MODE_IRQ, Offset(v.pc, 4), 0x18);
      && e.cpsr == EntryCpsr(v.cpsr, MODE_IRQ) && e.lr.irq == Offset(v.pc, 4) && Offset(e.lr.irq, -4) == v.pc
      && Apply(e, ExceptionReturn(v.pc)) ==
        v.(lr := v.lr.Set(Irq, Offset(v.pc, 4)), spsr := v.spsr.Set(Irq, v.cpsr))
  {
  }

  /** So one does show on the zero-initialised CPU. */
  method InterruptShows() returns (before: Word, after: Word)
    ensures before == 0 && after == 1
  {
    var cpu := new Cpu();
    cpu.SetRegister(13, 1);
    before := cpu.ReadUserReg(13);
    after := EmptyInterrupt(cpu);
  }
}
