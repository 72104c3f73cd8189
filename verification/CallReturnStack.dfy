/**
 The generated call-return stack of `recompiler/armv4t/runtime_arm.cpp`: which host
 frames are waiting for which guest return address and instruction-set state.
 */
module CallReturnStack {
  import opened ArmArchitecture

  const SIZE: nat := 1024

  /** A return address with the Thumb state in its bottom bit. */
  function Key(pc: Word, thumb: bool): Word {
    pc - pc % 2 + (if thumb then 1 else 0)
  }

  function Address(key: Word): Word { key - key % 2 }

  datatype Op = Call(pc: Word, thumb: bool) | Return(pc: Word, thumb: bool) | Cancel(pc: Word)

  /** Position of the innermost waiting frame with this key, or -1. */
  function Innermost(frames: seq<Word>, key: Word): (i: int)
    ensures -1 <= i < |frames|
    ensures i >= 0 ==> frames[i] == key
    ensures forall j :: i < j < |frames| ==> frames[j] != key
  {
    if frames == [] then -1
    else if frames[|frames| - 1] == key then |frames| - 1
    else Innermost(frames[..|frames| - 1], key)
  }

  lemma InnermostStep(frames: seq<Word>, slot: nat, key: Word)
    requires slot < |frames|
    ensures Innermost(frames[..slot + 1], key) == if frames[slot] == key then slot else Innermost(frames[..slot], key)
  {
    assert frames[..slot + 1][..slot] == frames[..slot];
  }

  lemma NothingInnermost(key: Word)
    ensures Innermost([], key) == -1
  {
  }

  datatype Outcome = Aborted | Done(frames: seq<Word>, returned: bool)

  /** What one operation does to the waiting frames; overflow aborts the process. */
  function Exec(frames: seq<Word>, op: Op): Outcome {
    match op
    case Call(pc, thumb) =>
      if |frames| >= SIZE then Aborted else Done(frames + [Key(pc, thumb)], false)
    case Return(pc, thumb) =>
      var slot := Innermost(frames, Key(pc, thumb));
      if slot < 0 then Done(frames, false) else Done(frames[..slot], true)
    case Cancel(pc) =>
      if frames != [] && Address(frames[|frames| - 1]) == Address(pc) then Done(frames[..|frames| - 1], false)
      else Done(frames, false)
  }

  /** A whole sequence of operations, stopping at an abort; the answers each return received. */
  function ExecAll(frames: seq<Word>, ops: seq<Op>): (Outcome, seq<bool>)
    decreases |ops|
  {
    if ops == [] then (Done(frames, false), [])
    else match Exec(frames, ops[0])
      case Aborted => (Aborted, [])
      case Done(next, returned) =>
        var (last, answers) := ExecAll(next, ops[1..]);
        (last, [returned] + answers)
  }

  class Stack {
    var entries: array<Word>
    var depth: nat

    ghost predicate Valid()
      reads this
    {
      entries.Length == SIZE && depth <= SIZE
    }

    ghost function Frames(): seq<Word>
      requires Valid()
      reads this, entries
    {
      entries[..depth]
    }

    constructor ()
      ensures Valid() && fresh(entries) && Frames() == []
    {
      entries := new Word[SIZE](_ => 0);
      depth := 0;
    }

    method PushReturn(returnPc: Word, thumb: bool) returns (ok: bool)
      requires Valid()
      modifies this`depth, entries
      ensures Valid() && entries == old(entries)
      ensures ok == Exec(old(Frames()), Call(returnPc, thumb)).Done?
      ensures Frames() == if ok then Exec(old(Frames()), Call(returnPc, thumb)).frames else old(Frames())
    {
      if depth >= SIZE {
        return false;
      }
      entries[depth] := Key(returnPc, thumb);
      depth := depth + 1;
      ok := true;
    }

    method ShouldReturn(targetPc: Word, thumb: bool) returns (hit: bool)
      requires Valid()
      modifies this`depth
      ensures Valid()
      ensures Done(Frames(), hit) == Exec(old(Frames()), Return(targetPc, thumb))
    {
      hide Innermost, Key;
      var key := Key(targetPc, thumb);
      var i := depth;
      NothingInnermost(key);
      while i != 0
        invariant Valid() && 0 <= i <= depth == old(depth)
        invariant Innermost(Frames(), key) == Innermost(Frames()[..i], key)
      {
        var slot := i - 1;
        InnermostStep(Frames(), slot, key);
        if entries[slot] == key {
          depth := slot;
          return true;
        }
        i := slot;
      }
      hit := false;
    }

    method CancelReturn(returnPc: Word)
      requires Valid()
      modifies this`depth
      ensures Valid()
      ensures Done(Frames(), false) == Exec(old(Frames()), Cancel(returnPc))
    {
      if depth != 0 && Address(entries[depth - 1]) == Address(returnPc) {
        depth := depth - 1;
      }
    }

    /** `runtime_call_stack_depth` and `runtime_call_stack_data`: the whole buffer, stale slots included. */
    method Save() returns (data: seq<Word>, savedDepth: nat)
      requires Valid()
      ensures |data| == SIZE && savedDepth <= SIZE && data[..savedDepth] == Frames()
    {
      data, savedDepth := entries[..], depth;
    }

    method Restore(data: seq<Word>, savedDepth: nat)
      requires Valid() && (if savedDepth > SIZE then SIZE else savedDepth) <= |data|
      modifies this`depth, entries
      ensures Valid() && entries == old(entries)
      ensures Frames() == data[..if savedDepth > SIZE then SIZE else savedDepth]
    {
      var limit := if savedDepth > SIZE then SIZE else savedDepth;
      depth := limit;
      for i := 0 to limit
        invariant Valid() && entries == old(entries) && depth == limit
        invariant entries[..i] == data[..i]
      {
        entries[i] := data[i];
      }
    }

    method Do(op: Op) returns (aborted: bool, returned: bool)
      requires Valid()
      modifies this`depth, entries
      ensures Valid() && entries == old(entries)
      ensures aborted == Exec(old(Frames()), op).Aborted?
      ensures !aborted ==> Done(Frames(), returned) == Exec(old(Frames()), op)
    {
      aborted, returned := false, false;
      match op {
        case Call(pc, thumb) =>
          var ok := PushReturn(pc, thumb);
          aborted := !ok;
        case Return(pc, thumb) => returned := ShouldReturn(pc, thumb);
        case Cancel(pc) => CancelReturn(pc);
      }
    }

    /**
     Every later operation answers from the waiting frames alone, so a restored stack, whose
     slots above the depth may hold anything, cannot be told from the one that was saved.
     */
    method Perform(ops: seq<Op>) returns (aborted: bool, answers: seq<bool>)
      requires Valid()
      modifies this`depth, entries
      ensures Valid() && entries == old(entries)
      ensures answers == ExecAll(old(Frames()), ops).1 && aborted == ExecAll(old(Frames()), ops).0.Aborted?
      ensures !aborted ==> ExecAll(old(Frames()), ops).0.frames == Frames()
    {
      hide Exec;
      answers, aborted := [], false;
      ghost var start := Frames();
      for i := 0 to |ops|
        invariant Valid() && entries == old(entries)
        invariant ExecAll(start, ops).0 == ExecAll(Frames(), ops[i..]).0
        invariant ExecAll(start, ops).1 == answers + ExecAll(Frames(), ops[i..]).1
      {
        assert ops[i..][1..] == ops[i + 1..];
        var stop, returned := Do(ops[i]);
        if stop {
          return true, answers;
        }
        answers := answers + [returned];
      }
    }
  }

  // ---- Balanced call trees -------------------------------------------------------------

  /** A call, the balanced work inside it, its matching return, and what follows. */
  datatype CallTree = Idle | Nested(pc: Word, thumb: bool, inside: CallTree, next: CallTree)

  function Operations(t: CallTree): seq<Op> {
    match t
    case Idle => []
    case Nested(pc, thumb, inside, next) =>
      [Call(pc, thumb)] + (Operations(inside) + ([Return(pc, thumb)] + Operations(next)))
  }

  function Nesting(t: CallTree): nat {
    match t
    case Idle => 0
    case Nested(_, _, inside, next) =>
      if 1 + Nesting(inside) > Nesting(next) then 1 + Nesting(inside) else Nesting(next)
  }

  lemma {:induction false} ExecAllConcat(frames: seq<Word>, a: seq<Op>, b: seq<Op>)
    ensures ExecAll(frames, a + b).0 ==
      match ExecAll(frames, a).0
      case Aborted => Aborted
      case Done(next, _) => ExecAll(next, b).0
    decreases |a|
  {
    if a == [] {
      assert a + b == b;
    } else {
      assert (a + b)[1..] == a[1..] + b;
      match Exec(frames, a[0])
      case Aborted =>
      case Done(next, _) => ExecAllConcat(next, a[1..], b);
    }
  }

  /**
   Balanced calls and returns leave the stack exactly as they found it, and run without
   aborting exactly when the nesting fits in the free slots.
   */
  lemma {:induction false} BalancedCallsRestoreStack(frames: seq<Word>, t: CallTree)
    requires |frames| <= SIZE
    ensures ExecAll(frames, Operations(t)).0 == if |frames| + Nesting(t) <= SIZE then Done(frames, false) else Aborted
    decreases t
  {
    match t
    case Idle =>
    case Nested(pc, thumb, inside, next) =>
      if |frames| < SIZE {
        var inner := frames + [Key(pc, thumb)];
        var tail := [Return(pc, thumb)] + Operations(next);
        assert Operations(t)[1..] == Operations(inside) + tail;
        ExecAllConcat(inner, Operations(inside), tail);
        BalancedCallsRestoreStack(inner, inside);
        assert tail[1..] == Operations(next);
        assert inner[..|frames|] == frames;
        BalancedCallsRestoreStack(frames, next);
      }
  }

  /**
   A return unwinds to just below the innermost frame waiting for that address in that state,
   abandoning the frames above it, and changes nothing when no frame waits for it.
   */
  lemma NonLocalReturn(below: seq<Word>, pc: Word, thumb: bool, above: seq<Word>)
    requires Key(pc, thumb) !in above
    ensures Exec(below + [Key(pc, thumb)] + above, Return(pc, thumb)) == Done(below, true)
    ensures Exec(above, Return(pc, thumb)) == Done(above, false)
  {
    var frames := below + [Key(pc, thumb)] + above;
    var slot := Innermost(frames, Key(pc, thumb));
    assert frames[|below|] == Key(pc, thumb);
    assert forall j :: |below| < j < |frames| ==> frames[j] == above[j - |below| - 1];
    assert frames[..|below|] == below;
  }
}
