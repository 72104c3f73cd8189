/**
 The barrel-shifter helpers of `recompiler/armv4t/runtime_arm.cpp`, proved against the plain
 definition: a shift by `n` is `n` shifts by one, and the carry is the last bit shifted out.
 */
module ArmShifts {
  import opened ArmArchitecture
  import opened ArmRuntime
  import opened ArmFlags
  import opened Division

  datatype Kind = Lsl | Lsr | Asr | Ror

  const TOP: nat := 0x8000_0000

  datatype Shifted = Shifted(value: Word, carry: bool)

  // ---- The plain definition --------------------------------------------------------------

  function ShiftOne(kind: Kind, v: Word): Shifted {
    match kind
    case Lsl => Shifted(v * 2 % BASE, Negative(v))
    case Lsr => Shifted(v / 2, v % 2 == 1)
    case Asr => Shifted(v / 2 + (if Negative(v) then TOP else 0), v % 2 == 1)
    case Ror => Shifted(v / 2 + v % 2 * TOP, v % 2 == 1)
  }

  function ShiftTimes(kind: Kind, v: Word, carry: bool, n: nat): Shifted {
    if n == 0 then Shifted(v, carry) else ShiftOne(kind, ShiftTimes(kind, v, carry, n - 1).value)
  }

  // ---- Powers of two ---------------------------------------------------------------------

  function Pow2(n: nat): (p: nat)
    ensures p > 0
  {
    if n == 0 then 1 else 2 * Pow2(n - 1)
  }

  lemma {:induction false} Pow2Sum(a: nat, b: nat)
    ensures Pow2(a) * Pow2(b) == Pow2(a + b)
  {
    hide Pow2;
    NextPower(0);
    if a > 0 {
      Pow2Sum(a - 1, b);
      NextPower(a - 1);
      NextPower(a - 1 + b);
      Doubled(Pow2(a - 1), Pow2(b));
    }
  }

  lemma Doubled(x: int, y: int)
    ensures (2 * x) * y == 2 * (x * y)
  {
  }

  lemma KnownPowers()
    ensures Pow2(31) == TOP && Pow2(32) == BASE
  {
    assert Pow2(4) == 16;
    Pow2Sum(4, 4);
    Pow2Sum(8, 8);
    Pow2Sum(16, 16);
    assert Pow2(32) == 2 * Pow2(31);
  }

  /** Dropping one more bit. */
  lemma DivideTwice(v: int, d: nat)
    requires d > 0
    ensures v / (2 * d) == v / d / 2 && v % (2 * d) == v % d + d * (v / d % 2)
  {
    var a, b := v / d, v % d;
    assert v == d * a + b;
    assert a == 2 * (a / 2) + a % 2;
    assert d * a == 2 * d * (a / 2) + d * (a % 2);
    DivisionIs(v, 2 * d, a / 2, b + d * (a % 2));
  }

  // ---- One more step of each shift ---------------------------------------------------------

  /** `v << n`, with the bit that fell off last. */
  function Left(v: Word, n: nat): Word { v * Pow2(n) % BASE }

  /** `v` cut into the part that leaves on the left and the part that stays. */
  lemma LeftParts(v: Word, p: nat, q: nat)
    requires p > 0 && q > 0 && p * q == TOP
    ensures v * p % BASE == TOP * (v / q % 2) + p * (v % q) && 0 <= p * (v % q) < TOP
  {
    var a, b := v / q, v % q;
    LessTimes(b, q, p);
    calc {
      v * p;
      (q * a + b) * p;
      (p * q) * a + p * b;
      TOP * a + p * b;
      { assert a == 2 * (a / 2) + a % 2; }
      BASE * (a / 2) + (TOP * (a % 2) + p * b);
    }
    DivisionIs(v * p, BASE, a / 2, TOP * (a % 2) + p * b);
  }

  lemma LeftTwice(x: nat)
    ensures 2 * x % BASE == x % BASE * 2 % BASE
  {
    var k, r := x / BASE, x % BASE;
    DivisionIs(2 * x, BASE, 2 * k + r * 2 / BASE, r * 2 % BASE);
  }

  lemma LeftDoubles(v: Word, n: nat)
    ensures Left(v, n + 1) == Left(v, n) * 2 % BASE
  {
    assert v * (2 * Pow2(n)) == 2 * (v * Pow2(n));
    LeftTwice(v * Pow2(n));
  }

  /** The bit about to fall off on the left is a bit of the original word. */
  lemma LeftTopBit(v: Word, n: nat)
    requires n < 32
    ensures Negative(Left(v, n)) <==> v / Pow2(31 - n) % 2 == 1
  {
    hide Pow2;
    KnownPowers();
    Pow2Sum(n, 31 - n);
    LeftParts(v, Pow2(n), Pow2(31 - n));
  }

  lemma LessTimes(a: nat, b: nat, p: nat)
    requires a < b && p > 0
    ensures 0 <= p * a < p * b
  {
    assert p * b == p * a + p * (b - a);
  }

  /** A left shift past the word leaves nothing. */
  lemma {:induction false} LeftGone(v: Word, n: nat)
    requires n >= 32
    ensures Left(v, n) == 0
  {
    KnownPowers();
    if n == 32 {
      DivisionIs(v * BASE, BASE, v, 0);
    } else {
      LeftGone(v, n - 1);
      LeftDoubles(v, n - 1);
    }
  }

  lemma {:induction false} PowersGrow(n: nat, k: nat)
    requires n <= k
    ensures Pow2(n) <= Pow2(k)
  {
    if n < k {
      PowersGrow(n, k - 1);
    }
  }

  /** A right shift past the word leaves only the sign. */
  lemma RightGone(v: Word, n: nat)
    ensures n >= 32 ==> v / Pow2(n) == 0
    ensures n >= 31 ==> SignedWord(v) / Pow2(n) == if Negative(v) then -1 else 0
  {
    hide Pow2;
    KnownPowers();
    if n >= 32 {
      PowersGrow(32, n);
      DivisionIs(v, Pow2(n), 0, v);
    }
    if n >= 31 {
      PowersGrow(31, n);
      var s := SignedWord(v);
      if Negative(v) {
        DivisionIs(s, Pow2(n), -1, s + Pow2(n));
      } else {
        DivisionIs(s, Pow2(n), 0, s);
      }
    }
  }

  lemma TakeAway(p: int, a: int, h: int)
    ensures p * (a - 2 * h) == p * a - 2 * (p * h) && (a - 2 * h) % 2 == a % 2
  {
  }

  /** A bit read from the signed number is the bit of the word. */
  lemma SignedBit(v: Word, m: nat)
    requires m < 32
    ensures SignedWord(v) / Pow2(m) % 2 == v / Pow2(m) % 2
  {
    hide Pow2;
    if Negative(v) {
      KnownPowers();
      Pow2Sum(m, 31 - m);
      var p, h := Pow2(m), Pow2(31 - m);
      var a, b := v / p, v % p;
      assert v == p * a + b;
      TakeAway(p, a, h);
      DivisionIs(v - BASE, p, a - 2 * h, b);
    }
  }

  // ---- The closed forms ----------------------------------------------------------------------

  lemma {:induction false} LslIs(v: Word, carry: bool, n: nat)
    ensures ShiftTimes(Lsl, v, carry, n) == Shifted(Left(v, n), if n == 0 then carry else Negative(Left(v, n - 1)))
  {
    if n > 0 {
      LslIs(v, carry, n - 1);
      LeftDoubles(v, n - 1);
    }
  }

  lemma {:induction false} LsrIs(v: Word, carry: bool, n: nat)
    ensures var r := ShiftTimes(Lsr, v, carry, n);
      r.value == v / Pow2(n) && r.carry == if n == 0 then carry else v / Pow2(n - 1) % 2 == 1
  {
    if n > 0 {
      LsrIs(v, carry, n - 1);
      DivideTwice(v, Pow2(n - 1));
    }
  }

  lemma AsrOne(w: Word)
    ensures SignedWord(ShiftOne(Asr, w).value) == SignedWord(w) / 2
    ensures ShiftOne(Asr, w).carry <==> SignedWord(w) % 2 == 1
  {
  }

  lemma {:induction false} AsrIs(v: Word, carry: bool, n: nat)
    ensures var r := ShiftTimes(Asr, v, carry, n);
      && SignedWord(r.value) == SignedWord(v) / Pow2(n)
      && r.carry == if n == 0 then carry else SignedWord(v) / Pow2(n - 1) % 2 == 1
  {
    if n > 0 {
      AsrIs(v, carry, n - 1);
      AsrOne(ShiftTimes(Asr, v, carry, n - 1).value);
      DivideTwice(SignedWord(v), Pow2(n - 1));
    }
  }

  /** The low `n` bits move to the top. */
  function Rotated(v: Word, n: nat): int
    requires n <= 32
  {
    v / Pow2(n) + v % Pow2(n) * Pow2(32 - n)
  }

  lemma RotateStep(v: Word, n: nat, r: Word)
    requires n < 32 && Rotated(v, n) == r
    ensures Rotated(v, n + 1) == r / 2 + r % 2 * TOP
  {
    hide Pow2;
    var p, h := Pow2(n), Pow2(31 - n);
    assert Pow2(n + 1) == 2 * p && Pow2(32 - n) == 2 * h by { NextPower(n); NextPower(31 - n); }
    KnownPowers();
    Pow2Sum(n, 31 - n);
    DivideTwice(v, p);
    var a, b := v / p, v % p;
    TurnProducts(a % 2, b, p, h);
    EvenPart(a, b * h, r);
  }

  lemma TurnProducts(bit: int, b: int, p: int, h: int)
    ensures b * (2 * h) == 2 * (b * h)
    ensures (b + p * bit) * h == b * h + (p * h) * bit
  {
  }

  lemma EvenPart(a: int, x: int, r: int)
    requires r == a + 2 * x
    ensures r / 2 == a / 2 + x && r % 2 == a % 2
  {
  }

  lemma NextPower(n: nat)
    ensures Pow2(n + 1) == 2 * Pow2(n) && Pow2(0) == 1
  {
  }

  lemma {:induction false} RorIs(v: Word, carry: bool, n: nat)
    ensures var r := ShiftTimes(Ror, v, carry, n);
      r.value == Rotated(v, n % 32) && r.carry == if n == 0 then carry else Negative(r.value)
  {
    hide Rotated;
    FullTurn(v);
    if n > 0 {
      var before := ShiftTimes(Ror, v, carry, n - 1).value;
      RorIs(v, carry, n - 1);
      RotateStep(v, (n - 1) % 32, before);
      NextTurn(n - 1);
      assert ShiftOne(Ror, before).carry <==> Negative(ShiftOne(Ror, before).value);
    }
  }

  lemma NextTurn(n: nat)
    ensures (n + 1) % 32 == if n % 32 == 31 then 0 else n % 32 + 1
  {
  }

  lemma FullTurn(v: Word)
    ensures Rotated(v, 32) == v == Rotated(v, 0)
  {
    KnownPowers();
    assert Pow2(0) == 1;
  }

  /** The two halves the rotation is or-ed from. */
  lemma RotatedParts(v: Word, n: nat)
    requires n <= 32
    ensures Rotated(v, n) == v / Pow2(n) + Left(v, 32 - n)
  {
    hide Pow2;
    KnownPowers();
    Pow2Sum(n, 32 - n);
    LowPart(v, Pow2(n), Pow2(32 - n));
  }

  lemma LowPart(v: Word, q: nat, p: nat)
    requires p > 0 && q > 0 && p * q == BASE
    ensures v * p % BASE == v % q * p
  {
    var a, b := v / q, v % q;
    LessTimes(b, q, p);
    calc {
      v * p;
      (q * a + b) * p;
      { Distribute(q, a, b, p); }
      (p * q) * a + p * b;
      BASE * a + p * b;
    }
    Remainder(v * p, a, p * b);
  }

  lemma Remainder(x: int, a: int, y: int)
    requires x == BASE * a + y && 0 <= y < BASE
    ensures x % BASE == y
  {
  }

  lemma Distribute(q: int, a: int, b: int, p: int)
    ensures (q * a + b) * p == (p * q) * a + p * b && p * b == b * p
  {
  }

  // ---- The helpers ---------------------------------------------------------------------------

  method SetCarry(cpu: Cpu, carry: bool)
    requires cpu.Valid()
    modifies cpu`cpsr
    ensures cpu.Valid() && cpu.cpsr == WithCarry(old(cpu.cpsr), carry)
  {
    var f := cpu.cpsr.flags;
    cpu.UpdateFlags(f.n, f.z, carry, f.v);
  }

  function WithCarry(psr: Psr, carry: bool): Psr { psr.(flags := psr.flags.(c := carry)) }

  method ShiftLeft(cpu: Cpu, v: Word, n: nat, setCarry: bool) returns (r: Word)
    requires cpu.Valid()
    modifies cpu`cpsr
    ensures var plain := ShiftTimes(Lsl, v, old(cpu.cpsr.flags.c), n);
      r == plain.value && cpu.cpsr == if setCarry then WithCarry(old(cpu.cpsr), plain.carry) else old(cpu.cpsr)
  {
    hide Left, Pow2;
    LslIs(v, cpu.cpsr.flags.c, n);
    if n == 0 {
      return v;
    }
    if n >= 32 {
      LeftGone(v, n);
      if n > 32 {
        LeftGone(v, n - 1);
      }
      if setCarry {
        LastBit(v, n);
        SetCarry(cpu, n == 32 && v % 2 == 1);
      }
      return 0;
    }
    LeftTopBit(v, n - 1);
    if setCarry {
      SetCarry(cpu, v / Pow2(32 - n) % 2 == 1);
    }
    r := Left(v, n);
  }

  lemma LastBit(v: Word, n: nat)
    ensures n == 32 ==> (Negative(Left(v, n - 1)) <==> v % 2 == 1)
  {
    if n == 32 {
      LeftTopBit(v, 31);
      assert Pow2(0) == 1;
    }
  }

  method ShiftRight(cpu: Cpu, v: Word, n: nat, setCarry: bool) returns (r: Word)
    requires cpu.Valid()
    modifies cpu`cpsr
    ensures var plain := ShiftTimes(Lsr, v, old(cpu.cpsr.flags.c), n);
      r == plain.value && cpu.cpsr == if setCarry then WithCarry(old(cpu.cpsr), plain.carry) else old(cpu.cpsr)
  {
    hide Pow2;
    LsrIs(v, cpu.cpsr.flags.c, n);
    if n == 0 {
      return v;
    }
    RightGone(v, n);
    RightGone(v, n - 1);
    KnownPowers();
    if n >= 32 {
      if setCarry {
        SetCarry(cpu, n == 32 && v / 0x8000_0000 % 2 == 1);
      }
      return 0;
    }
    if setCarry {
      SetCarry(cpu, v / Pow2(n - 1) % 2 == 1);
    }
    r := v / Pow2(n);
  }

  method ShiftRightSigned(cpu: Cpu, v: Word, n: nat, setCarry: bool) returns (r: Word)
    requires cpu.Valid()
    modifies cpu`cpsr
    ensures var plain := ShiftTimes(Asr, v, old(cpu.cpsr.flags.c), n);
      r == plain.value && cpu.cpsr == if setCarry then WithCarry(old(cpu.cpsr), plain.carry) else old(cpu.cpsr)
  {
    hide Pow2;
    AsrIs(v, cpu.cpsr.flags.c, n);
    if n == 0 {
      return v;
    }
    RightGone(v, n);
    RightGone(v, n - 1);
    if n >= 32 {
      var carry := v / 0x8000_0000 % 2 == 1;
      if setCarry {
        SetCarry(cpu, carry);
      }
      return if carry then 0xFFFF_FFFF else 0;
    }
    SignedBit(v, n - 1);
    if setCarry {
      SetCarry(cpu, v / Pow2(n - 1) % 2 == 1);
    }
    r := SignedWord(v) / Pow2(n) % BASE;
  }

  method RotateRight(cpu: Cpu, v: Word, n: nat, setCarry: bool) returns (r: Word)
    requires cpu.Valid()
    modifies cpu`cpsr
    ensures var plain := ShiftTimes(Ror, v, old(cpu.cpsr.flags.c), n);
      r == plain.value && cpu.cpsr == if setCarry then WithCarry(old(cpu.cpsr), plain.carry) else old(cpu.cpsr)
  {
    hide Pow2, Left, Rotated;
    RorIs(v, cpu.cpsr.flags.c, n);
    if n == 0 {
      return v;
    }
    var turn := n % 32;
    if turn == 0 {
      FullTurn(v);
      if setCarry {
        SetCarry(cpu, Negative(v));
      }
      return v;
    }
    RotatedParts(v, turn);
    r := v / Pow2(turn) + Left(v, 32 - turn);
    if setCarry {
      SetCarry(cpu, Negative(r));
    }
  }
}
