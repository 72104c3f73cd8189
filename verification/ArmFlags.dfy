/**
 The condition-flag updaters of `recompiler/armv4t/runtime_arm.cpp`, and what a chain of
 carry-threading instructions computes on numbers of any width.

 The C code tests sign bits by masking XORs with 0x80000000; here a sign bit is `w >= 2^31`.
 */
module ArmFlags {
  import opened ArmArchitecture
  import opened ArmRuntime

  const BASE := 0x1_0000_0000

  datatype Nzcv = Nzcv(n: bool, z: bool, c: bool, v: bool)

  predicate Negative(w: Word) { w >= 0x8000_0000 }

  function Bit(b: bool): int { if b then 1 else 0 }

  // ---- The updaters, as the C code computes them ---------------------------------------

  function AddFlags(a: Word, b: Word, r: Word): Nzcv {
    Nzcv(Negative(r), r == 0, r < a, Negative(a) == Negative(b) && Negative(a) != Negative(r))
  }

  function AdcFlags(a: Word, b: Word, carry: bool, r: Word): Nzcv {
    Nzcv(Negative(r), r == 0, (a + b + Bit(carry)) / BASE != 0,
         Negative(a) == Negative(b) && Negative(a) != Negative(r))
  }

  function SubFlags(a: Word, b: Word, r: Word): Nzcv {
    Nzcv(Negative(r), r == 0, a >= b, Negative(a) != Negative(b) && Negative(a) != Negative(r))
  }

  function SbcFlags(a: Word, b: Word, carry: bool, r: Word): Nzcv {
    Nzcv(Negative(r), r == 0, (a + (0xFFFF_FFFF - b) + Bit(carry)) / BASE != 0,
         Negative(a) != Negative(b) && Negative(a) != Negative(r))
  }

  /** Two's-complement reading of a word. */
  function SignedWord(w: Word): int { if Negative(w) then w - BASE else w }

  // ---- Numbers of any width, least significant word first ------------------------------

  /** `x` moved up by `n` words, that is `x * 2^(32n)`. */
  function Shift(x: int, n: nat): (s: int)
    ensures x == 0 ==> s == 0
    ensures x > 0 ==> s > 0
  {
    if n == 0 then x else BASE * Shift(x, n - 1)
  }

  function Value(ws: seq<Word>): int {
    if ws == [] then 0 else Value(ws[..|ws| - 1]) + Shift(ws[|ws| - 1], |ws| - 1)
  }

  /** Two's-complement reading of the whole number. */
  function Signed(ws: seq<Word>): int
    requires ws != []
  {
    if Negative(ws[|ws| - 1]) then Value(ws) - Shift(1, |ws|) else Value(ws)
  }

  lemma {:induction false} ShiftLinear(x: int, y: int, n: nat)
    ensures Shift(x + y, n) == Shift(x, n) + Shift(y, n)
    ensures Shift(x - y, n) == Shift(x, n) - Shift(y, n)
    ensures Shift(BASE * x, n) == BASE * Shift(x, n)
  {
    if n > 0 {
      ShiftLinear(x, y, n - 1);
    }
  }

  lemma {:induction false} ShiftOrder(x: int, y: int, n: nat)
    requires x <= y
    ensures Shift(x, n) <= Shift(y, n)
  {
    if n > 0 {
      ShiftOrder(x, y, n - 1);
    }
  }

  lemma {:induction false} ValueBound(ws: seq<Word>)
    ensures 0 <= Value(ws) < Shift(1, |ws|)
  {
    if ws != [] {
      var top := |ws| - 1;
      var w: int := ws[top];
      ValueBound(ws[..top]);
      ShiftOrder(w + 1, BASE, top);
      ShiftLinear(w, 1, top);
      ShiftLinear(1, 0, top);
    }
  }

  lemma ValuePrefix(ws: seq<Word>, n: nat)
    requires n < |ws|
    ensures Value(ws[..n + 1]) == Value(ws[..n]) + Shift(ws[n], n)
  {
    assert ws[..n + 1][..n] == ws[..n];
  }

  /** A relation between the words at position `n`, scaled to that position. */
  lemma {:induction false} ShiftWords(a: int, b: int, r: int, carryIn: int, carryOut: int, n: nat)
    requires r + BASE * carryOut == a + b + carryIn
    ensures Shift(r, n) + Shift(carryOut, n + 1) == Shift(a, n) + Shift(b, n) + Shift(carryIn, n)
  {
    if n > 0 {
      ShiftWords(a, b, r, carryIn, carryOut, n - 1);
    }
  }

  // ---- The carry chains ----------------------------------------------------------------

  /** The carry into word `i` of an addition. */
  ghost function Carry(a: seq<Word>, b: seq<Word>, i: nat): bool
    requires i <= |a| == |b|
  {
    i != 0 && (a[i - 1] + b[i - 1] + Bit(Carry(a, b, i - 1))) / BASE != 0
  }

  ghost function SumWord(a: seq<Word>, b: seq<Word>, i: nat): Word
    requires i < |a| == |b|
  {
    (a[i] + b[i] + Bit(Carry(a, b, i))) % BASE
  }

  /** True when the words below `i` produced no borrow. */
  ghost function NoBorrow(a: seq<Word>, b: seq<Word>, i: nat): bool
    requires i <= |a| == |b|
  {
    i == 0 || a[i - 1] - b[i - 1] - Bit(!NoBorrow(a, b, i - 1)) >= 0
  }

  ghost function DifferenceWord(a: seq<Word>, b: seq<Word>, i: nat): Word
    requires i < |a| == |b|
  {
    (a[i] - b[i] - Bit(!NoBorrow(a, b, i))) % BASE
  }

  lemma SumWordCarries(a: seq<Word>, b: seq<Word>, i: nat)
    requires i < |a| == |b|
    ensures SumWord(a, b, i) + BASE * Bit(Carry(a, b, i + 1)) == a[i] + b[i] + Bit(Carry(a, b, i))
  {
  }

  lemma DifferenceWordBorrows(a: seq<Word>, b: seq<Word>, i: nat)
    requires i < |a| == |b|
    ensures a[i] + BASE * Bit(!NoBorrow(a, b, i + 1)) == DifferenceWord(a, b, i) + b[i] + Bit(!NoBorrow(a, b, i))
  {
  }

  /** The words below `n`, and the carry out of them, hold the exact sum. */
  ghost predicate SumHolds(a: seq<Word>, b: seq<Word>, r: seq<Word>, n: nat)
    requires n <= |a| == |b| == |r|
  {
    Value(r[..n]) + Shift(Bit(Carry(a, b, n)), n) == Value(a[..n]) + Value(b[..n])
  }

  ghost predicate DifferenceHolds(a: seq<Word>, b: seq<Word>, r: seq<Word>, n: nat)
    requires n <= |a| == |b| == |r|
  {
    Value(r[..n]) + Value(b[..n]) == Value(a[..n]) + Shift(Bit(!NoBorrow(a, b, n)), n)
  }

  lemma SumStep(a: seq<Word>, b: seq<Word>, r: seq<Word>, n: nat)
    requires n < |a| == |b| == |r| && r[n] == SumWord(a, b, n) && SumHolds(a, b, r, n)
    ensures SumHolds(a, b, r, n + 1)
  {
    hide Carry, SumWord, Shift, Value;
    ValuePrefix(a, n);
    ValuePrefix(b, n);
    ValuePrefix(r, n);
    SumWordCarries(a, b, n);
    ShiftWords(a[n], b[n], r[n], Bit(Carry(a, b, n)), Bit(Carry(a, b, n + 1)), n);
  }

  lemma DifferenceStep(a: seq<Word>, b: seq<Word>, r: seq<Word>, n: nat)
    requires n < |a| == |b| == |r| && r[n] == DifferenceWord(a, b, n) && DifferenceHolds(a, b, r, n)
    ensures DifferenceHolds(a, b, r, n + 1)
  {
    hide NoBorrow, DifferenceWord, Shift, Value;
    ValuePrefix(a, n);
    ValuePrefix(b, n);
    ValuePrefix(r, n);
    DifferenceWordBorrows(a, b, n);
    ShiftWords(r[n], b[n], a[n], Bit(!NoBorrow(a, b, n)), Bit(!NoBorrow(a, b, n + 1)), n);
  }

  lemma {:induction false} SumValue(a: seq<Word>, b: seq<Word>, r: seq<Word>, n: nat)
    requires n <= |a| == |b| == |r|
    requires forall i :: 0 <= i < |a| ==> r[i] == SumWord(a, b, i)
    ensures SumHolds(a, b, r, n)
  {
    if n > 0 {
      SumValue(a, b, r, n - 1);
      SumStep(a, b, r, n - 1);
    }
  }

  lemma {:induction false} DifferenceValue(a: seq<Word>, b: seq<Word>, r: seq<Word>, n: nat)
    requires n <= |a| == |b| == |r|
    requires forall i :: 0 <= i < |a| ==> r[i] == DifferenceWord(a, b, i)
    ensures DifferenceHolds(a, b, r, n)
  {
    if n > 0 {
      DifferenceValue(a, b, r, n - 1);
      DifferenceStep(a, b, r, n - 1);
    }
  }

  /** No borrow out of the low `n` words exactly when they compare greater or equal. */
  lemma NoBorrowIsNotLess(a: seq<Word>, b: seq<Word>, r: seq<Word>, n: nat)
    requires n <= |a| == |b| == |r|
    requires forall i :: 0 <= i < |a| ==> r[i] == DifferenceWord(a, b, i)
    ensures NoBorrow(a, b, n) <==> Value(a[..n]) >= Value(b[..n])
  {
    DifferenceValue(a, b, r, n);
    var va, vb, vr := Value(a[..n]), Value(b[..n]), Value(r[..n]);
    ValueBound(a[..n]);
    ValueBound(b[..n]);
    ValueBound(r[..n]);
    if NoBorrow(a, b, n) {
      assert vr + vb == va;
    } else {
      assert vr + vb == va + Shift(1, n);
    }
  }

  /** The signed reading splits into the signed top word and the unsigned words below it. */
  lemma SignedSplit(ws: seq<Word>)
    requires ws != []
    ensures var top := |ws| - 1;
      && Signed(ws) == Shift(SignedWord(ws[top]), top) + Value(ws[..top])
      && 0 <= Value(ws[..top]) < Shift(1, top)
  {
    var top := |ws| - 1;
    ValueBound(ws[..top]);
    ShiftLinear(ws[top], BASE, top);
    ShiftLinear(1, 0, top);
  }

  lemma SignOfShifted(x: int, y: int, n: nat, low: int)
    requires -Shift(1, n) < low < Shift(1, n)
    ensures Shift(x, n) + low < Shift(y, n) <==> x < y || (x == y && low < 0)
  {
    if x < y {
      ShiftOrder(x + 1, y, n);
      ShiftLinear(x, 1, n);
    } else if x > y {
      ShiftOrder(y + 1, x, n);
      ShiftLinear(y, 1, n);
    }
  }

  /** One word of a comparison: N differs from V exactly when the true signed difference is negative. */
  lemma WordComparison(a: Word, b: Word, carry: bool, r: Word)
    requires r == (a - b - Bit(!carry)) % BASE
    ensures var f := SbcFlags(a, b, carry, r); f.n != f.v <==> SignedWord(a) < SignedWord(b) + Bit(!carry)
  {
  }

  /** One word of a sum: V exactly when the true signed sum does not fit. */
  lemma WordOverflow(a: Word, b: Word, carry: bool, r: Word)
    requires r == (a + b + Bit(carry)) % BASE
    ensures AdcFlags(a, b, carry, r).v <==> SignedWord(r) != SignedWord(a) + SignedWord(b) + Bit(carry)
  {
  }

  /** N differs from V after the top word exactly when `a` is less than `b` as signed numbers. */
  lemma SignedComparison(a: seq<Word>, b: seq<Word>, r: seq<Word>)
    requires |a| == |b| == |r| > 0
    requires forall i :: 0 <= i < |a| ==> r[i] == DifferenceWord(a, b, i)
    ensures var top := |a| - 1;
      var f := SbcFlags(a[top], b[top], NoBorrow(a, b, top), r[top]);
      f.n != f.v <==> Signed(a) < Signed(b)
  {
    var top := |a| - 1;
    NoBorrowIsNotLess(a, b, r, top);
    SignedSplit(a);
    SignedSplit(b);
    WordComparison(a[top], b[top], NoBorrow(a, b, top), r[top]);
    SignOfShifted(SignedWord(a[top]), SignedWord(b[top]), top, Value(a[..top]) - Value(b[..top]));
  }

  /** V after the top word exactly when the signed sum does not fit. */
  lemma SignedOverflow(a: seq<Word>, b: seq<Word>, r: seq<Word>)
    requires |a| == |b| == |r| > 0
    requires forall i :: 0 <= i < |a| ==> r[i] == SumWord(a, b, i)
    ensures var top := |a| - 1;
      AdcFlags(a[top], b[top], Carry(a, b, top), r[top]).v <==> Signed(r) != Signed(a) + Signed(b)
  {
    var top := |a| - 1;
    SignedSumSplit(a, b, r);
    WordOverflow(a[top], b[top], Carry(a, b, top), r[top]);
    var exact, kept := SignedWord(a[top]) + SignedWord(b[top]) + Bit(Carry(a, b, top)), SignedWord(r[top]);
    SignOfShifted(exact, kept, top, 0);
    SignOfShifted(kept, exact, top, 0);
  }

  lemma SignedSumSplit(a: seq<Word>, b: seq<Word>, r: seq<Word>)
    requires |a| == |b| == |r| > 0
    requires forall i :: 0 <= i < |a| ==> r[i] == SumWord(a, b, i)
    ensures var top := |a| - 1;
      Signed(a) + Signed(b) - Signed(r) ==
      Shift(SignedWord(a[top]) + SignedWord(b[top]) + Bit(Carry(a, b, top)), top) - Shift(SignedWord(r[top]), top)
  {
    hide Carry, SumWord, Shift, Value, Signed;
    var top := |a| - 1;
    SumValue(a, b, r, top);
    SignedSplit(a);
    SignedSplit(b);
    SignedSplit(r);
    ShiftLinear(SignedWord(a[top]) + SignedWord(b[top]), Bit(Carry(a, b, top)), top);
    ShiftLinear(SignedWord(a[top]), SignedWord(b[top]), top);
  }

  // ---- The instructions, on the runtime's CPU ------------------------------------------

  method SetFlagsFrom(cpu: Cpu, f: Nzcv)
    requires cpu.Valid()
    modifies cpu`cpsr
    ensures var g := cpu.cpsr.flags; g == old(cpu.cpsr.flags).(n := f.n, z := f.z, c := f.c, v := f.v)
    ensures cpu.cpsr == old(cpu.cpsr).(flags := cpu.cpsr.flags)
  {
    cpu.UpdateFlags(f.n, f.z, f.c, f.v);
  }

  lemma AddStarts(a: seq<Word>, b: seq<Word>)
    requires |a| == |b| > 0
    ensures var r := (a[0] + b[0]) % BASE;
      && SumWord(a, b, 0) == r && Carry(a, b, 1) == AddFlags(a[0], b[0], r).c
      && AddFlags(a[0], b[0], r).v == AdcFlags(a[0], b[0], Carry(a, b, 0), r).v
  {
  }

  lemma AdcStep(a: seq<Word>, b: seq<Word>, i: nat)
    requires i < |a| == |b|
    ensures var r := (a[i] + b[i] + Bit(Carry(a, b, i))) % BASE;
      SumWord(a, b, i) == r && Carry(a, b, i + 1) == AdcFlags(a[i], b[i], Carry(a, b, i), r).c
  {
  }

  lemma SubStarts(a: seq<Word>, b: seq<Word>)
    requires |a| == |b| > 0
    ensures var r := (a[0] - b[0]) % BASE;
      && DifferenceWord(a, b, 0) == r && NoBorrow(a, b, 1) == SubFlags(a[0], b[0], r).c
      && SubFlags(a[0], b[0], r).v == SbcFlags(a[0], b[0], NoBorrow(a, b, 0), r).v
      && SubFlags(a[0], b[0], r).n == SbcFlags(a[0], b[0], NoBorrow(a, b, 0), r).n
  {
  }

  lemma SbcStep(a: seq<Word>, b: seq<Word>, i: nat)
    requires i < |a| == |b|
    ensures var r := (a[i] - b[i] - Bit(!NoBorrow(a, b, i))) % BASE;
      DifferenceWord(a, b, i) == r && NoBorrow(a, b, i + 1) == SbcFlags(a[i], b[i], NoBorrow(a, b, i), r).c
  {
  }

  /** ADDS for the lowest word, ADCS above it; the carry travels in CPSR.C. */
  method AddWords(cpu: Cpu, a: seq<Word>, b: seq<Word>) returns (r: seq<Word>)
    requires cpu.Valid() && |a| == |b| > 0
    modifies cpu`cpsr
    ensures |r| == |a|
    ensures Value(r) + (if cpu.cpsr.flags.c then Shift(1, |a|) else 0) == Value(a) + Value(b)
    ensures cpu.cpsr.flags.v <==> Signed(r) != Signed(a) + Signed(b)
  {
    hide Carry, SumWord, Value, Signed, AddFlags, AdcFlags;
    AddStarts(a, b);
    r := [(a[0] + b[0]) % BASE];
    SetFlagsFrom(cpu, AddFlags(a[0], b[0], r[0]));
    for i := 1 to |a|
      invariant |r| == i
      invariant forall j :: 0 <= j < i ==> r[j] == SumWord(a, b, j)
      invariant cpu.cpsr.flags.c == Carry(a, b, i)
      invariant cpu.cpsr.flags.v == AdcFlags(a[i - 1], b[i - 1], Carry(a, b, i - 1), r[i - 1]).v
    {
      var carry := cpu.cpsr.flags.c;
      AdcStep(a, b, i);
      r := r + [(a[i] + b[i] + Bit(carry)) % BASE];
      SetFlagsFrom(cpu, AdcFlags(a[i], b[i], carry, r[i]));
    }
    SumValue(a, b, r, |a|);
    SignedOverflow(a, b, r);
    assert a[..|a|] == a && b[..|a|] == b && r[..|a|] == r;
  }

  /** SUBS for the lowest word, SBCS above it. */
  method SubtractWords(cpu: Cpu, a: seq<Word>, b: seq<Word>) returns (r: seq<Word>)
    requires cpu.Valid() && |a| == |b| > 0
    modifies cpu`cpsr
    ensures |r| == |a|
    ensures Value(r) == Value(a) - Value(b) + (if cpu.cpsr.flags.c then 0 else Shift(1, |a|))
    ensures cpu.cpsr.flags.c <==> Value(a) >= Value(b)
    ensures cpu.cpsr.flags.n != cpu.cpsr.flags.v <==> Signed(a) < Signed(b)
  {
    hide NoBorrow, DifferenceWord, Value, Signed, SubFlags, SbcFlags;
    SubStarts(a, b);
    r := [(a[0] - b[0]) % BASE];
    SetFlagsFrom(cpu, SubFlags(a[0], b[0], r[0]));
    for i := 1 to |a|
      invariant |r| == i
      invariant forall j :: 0 <= j < i ==> r[j] == DifferenceWord(a, b, j)
      invariant cpu.cpsr.flags.c == NoBorrow(a, b, i)
      invariant var f := SbcFlags(a[i - 1], b[i - 1], NoBorrow(a, b, i - 1), r[i - 1]);
        cpu.cpsr.flags.n == f.n && cpu.cpsr.flags.v == f.v
    {
      var carry := cpu.cpsr.flags.c;
      SbcStep(a, b, i);
      r := r + [(a[i] - b[i] - Bit(!carry)) % BASE];
      SetFlagsFrom(cpu, SbcFlags(a[i], b[i], carry, r[i]));
    }
    DifferenceValue(a, b, r, |a|);
    NoBorrowIsNotLess(a, b, r, |a|);
    SignedComparison(a, b, r);
    assert a[..|a|] == a && b[..|a|] == b && r[..|a|] == r;
  }
}
