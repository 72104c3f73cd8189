/**
 The client that compares two sound traces in chunks: `PairedMachines.compare_audio` of
 `oracle/firmware_traversal.py`. SHA-256 is represented by the bytes it was fed.
 */
module AudioCompare {
  import opened Bytes
  import opened AudioTrace

  /** The newest frames a lagging oracle may still owe. */
  const LAG: nat := 1024

  datatype Outcome =
    | Passed
    | NotRetained
    | Overwritten
    | MovedBackwards
    | NativeMissing
    | ShortRead
    | Differs(frame: nat, left: bool, native: Sample, oracle: Sample)
    | Lagging(frames: nat)

  /** Both output streams since the last reset, and what the client knows of them. */
  datatype Track = Track(native: seq<Sample>, oracle: seq<Sample>, cursor: nat, fed: Data, nonzero: nat)

  datatype Step =
    | NativeOutput(samples: seq<Sample>)
    | OracleOutput(samples: seq<Sample>)
    | CompareAudio
    | Reset

  // ---- What one comparison does --------------------------------------------------------

  /** The first position from `i` on where the streams differ, or `end`. */
  function Divergence(a: seq<Sample>, b: seq<Sample>, i: nat, end: nat): (d: nat)
    requires i <= end <= |a| && end <= |b|
    ensures i <= d <= end
    ensures d < end ==> a[d] != b[d]
    ensures forall k :: i <= k < d ==> a[k] == b[k]
    decreases end - i
  {
    if i == end || a[i] != b[i] then i else Divergence(a, b, i + 1, end)
  }

  /** The start of the chunk that holds frame `f` when chunks are counted from `start`. */
  function ChunkOf(f: nat, start: nat): (c: nat)
    requires start <= f
    ensures start <= c <= f < c + REQUEST
  {
    f - (f - start) % 4096
  }

  predicate Retained(t: Track) {
    t.cursor >= Oldest(|t.native| / 2) && t.cursor >= Oldest(|t.oracle| / 2)
  }

  predicate Comparable(t: Track) {
    Retained(t) && t.cursor <= |t.oracle| / 2 <= |t.native| / 2
  }

  function Advance(t: Track, cursor: nat): Track
    requires t.cursor <= cursor && 2 * cursor <= |t.oracle|
  {
    var part := t.oracle[2 * t.cursor..2 * cursor];
    t.(cursor := cursor, fed := t.fed + Pcm(part), nonzero := t.nonzero + Nonzero(part))
  }

  function Compared(t: Track, ignoring: bool): (Track, Outcome) {
    var native, oracle := |t.native| / 2, |t.oracle| / 2;
    if !Retained(t) then (t, NotRetained)
    else if oracle < t.cursor then (t, MovedBackwards)
    else if native < oracle then (t, NativeMissing)
    else
      var d := Divergence(t.native, t.oracle, 2 * t.cursor, 2 * oracle);
      var stop := if d == 2 * oracle then oracle else ChunkOf(d / 2, t.cursor);
      var outcome :=
        if d < 2 * oracle && !ignoring then Differs(d / 2, d % 2 == 0, t.native[d], t.oracle[d])
        else if native - oracle > LAG then Lagging(native - oracle)
        else Passed;
      (Advance(t, stop), outcome)
  }

  function Next(t: Track, step: Step, ignoring: bool): Track {
    match step
    case NativeOutput(samples) => t.(native := t.native + samples)
    case OracleOutput(samples) => t.(oracle := t.oracle + samples)
    case CompareAudio => Compared(t, ignoring).0
    case Reset => Track([], [], 0, [], 0)
  }

  function Run(t: Track, steps: seq<Step>, ignoring: bool): Track {
    if steps == [] then t else Next(Run(t, steps[..|steps| - 1], ignoring), steps[|steps| - 1], ignoring)
  }

  /** Frames come whole. */
  predicate Whole(step: Step) {
    match step
    case NativeOutput(samples) => |samples| % 2 == 0
    case OracleOutput(samples) => |samples| % 2 == 0
    case CompareAudio => true
    case Reset => true
  }

  const START := Track([], [], 0, [], 0)

  // ---- The client ----------------------------------------------------------------------

  method FirstDivergence(a: Data, b: Data) returns (index: int)
    ensures index >= -1 && (index == -1 <==> a == b)
    ensures index >= 0 ==> index <= |a| && index <= |b| && a[..index] == b[..index]
    ensures index >= 0 ==> index == |a| || index == |b| || a[index] != b[index]
  {
    var n := if |a| < |b| then |a| else |b|;
    for i := 0 to n
      invariant a[..i] == b[..i]
    {
      if a[i] != b[i] {
        return i;
      }
    }
    assert a[..|a|] == a && b[..|b|] == b;
    return if |a| != |b| then n else -1;
  }

  /** Where two encodings first differ is where the samples first differ. */
  lemma DifferingSample(a: seq<Sample>, b: seq<Sample>, index: nat)
    requires |a| == |b| && index < 2 * |a| && Pcm(a)[..index] == Pcm(b)[..index] && Pcm(a)[index] != Pcm(b)[index]
    ensures a[index / 2] != b[index / 2] && forall k :: 0 <= k < index / 2 ==> a[k] == b[k]
    ensures SampleAt(Pcm(a), index / 2) == a[index / 2] && SampleAt(Pcm(b), index / 2) == b[index / 2]
  {
    hide SampleAt, Pcm, Low, High;
    ByteOfSample(a, index);
    ByteOfSample(b, index);
    forall k | 0 <= k < index / 2
      ensures a[k] == b[k]
    {
      PcmAt(a, k);
      PcmAt(b, k);
      SamplesAgree(Pcm(a), Pcm(b), index, k);
    }
  }

  lemma ByteOfSample(s: seq<Sample>, index: nat)
    requires index < 2 * |s|
    ensures Pcm(s)[index] == if index % 2 == 0 then Low(s[index / 2]) else High(s[index / 2])
    ensures SampleAt(Pcm(s), index / 2) == s[index / 2]
  {
    hide SampleAt, Pcm, Low, High;
    PcmAt(s, index / 2);
    assert index == 2 * (index / 2) || index == 2 * (index / 2) + 1;
  }

  lemma SamplesAgree(x: Data, y: Data, index: nat, k: nat)
    requires index <= |x| && |x| == |y| && x[..index] == y[..index] && 2 * k + 1 < index
    ensures SampleAt(x, k) == SampleAt(y, k)
  {
    assert x[..index][2 * k] == x[2 * k] && x[..index][2 * k + 1] == x[2 * k + 1];
    assert y[..index][2 * k] == y[2 * k] && y[..index][2 * k + 1] == y[2 * k + 1];
  }

  lemma {:induction false} SameSamples(a: seq<Sample>, b: seq<Sample>)
    requires |a| == |b| && Pcm(a) == Pcm(b)
    ensures a == b
  {
    forall k | 0 <= k < |a|
      ensures a[k] == b[k]
    {
      PcmAt(a, k);
      PcmAt(b, k);
    }
  }

  lemma {:induction false} DivergenceSplit(a: seq<Sample>, b: seq<Sample>, i: nat, middle: nat, end: nat)
    requires i <= middle <= end <= |a| && end <= |b|
    ensures Divergence(a, b, i, end) ==
      if Divergence(a, b, i, middle) < middle then Divergence(a, b, i, middle) else Divergence(a, b, middle, end)
    decreases middle - i
  {
    if i < middle && a[i] == b[i] {
      DivergenceSplit(a, b, i + 1, middle, end);
    }
  }

  /** Comparing two slices is comparing the streams they are cut from. */
  lemma {:induction false} DivergenceInside(a: seq<Sample>, b: seq<Sample>, lo: nat, hi: nat, s: nat)
    requires lo <= hi <= |a| && hi <= |b| && s <= hi - lo
    requires a[lo..hi][..s] == b[lo..hi][..s] && (s < hi - lo ==> a[lo + s] != b[lo + s])
    ensures Divergence(a, b, lo, hi) == lo + s
    decreases s
  {
    if s > 0 {
      assert a[lo..hi][..s][0] == a[lo] && b[lo..hi][..s][0] == b[lo];
      assert a[lo + 1..hi][..s - 1] == a[lo..hi][..s][1..] && b[lo + 1..hi][..s - 1] == b[lo..hi][..s][1..];
      DivergenceInside(a, b, lo + 1, hi, s - 1);
    }
  }

  lemma AdvanceSplit(t: Track, middle: nat, end: nat)
    requires t.cursor <= middle <= end && 2 * end <= |t.oracle|
    ensures Advance(Advance(t, middle), end) == Advance(t, end)
  {
    hide Pcm, Nonzero;
    var a, b := t.oracle[2 * t.cursor..2 * middle], t.oracle[2 * middle..2 * end];
    assert t.oracle[2 * t.cursor..2 * end] == a + b;
    PcmConcat(a, b);
    NonzeroConcat(a, b);
  }

  lemma AdvanceNothing(t: Track)
    requires 2 * t.cursor <= |t.oracle|
    ensures Advance(t, t.cursor) == t
  {
  }

  lemma ChunkFound(f: nat, start: nat, cursor: nat)
    requires start <= cursor <= f < cursor + REQUEST && (cursor - start) % 4096 == 0
    ensures ChunkOf(f, start) == cursor
  {
  }

  lemma AdvanceFrame(t: Track, cursor: nat)
    requires t.cursor <= cursor && 2 * cursor <= |t.oracle|
    ensures Advance(t, cursor) == Advance(t, cursor).(native := t.native, oracle := t.oracle, cursor := cursor)
    ensures Retained(t) ==> Retained(Advance(t, cursor))
  {
  }

  /** Whole chunks lead from `start` to `cursor`, unless that is the end. */
  predicate Chunked(start: nat, cursor: nat, end: nat)
    requires start <= cursor
  {
    (cursor - start) % 4096 == 0 || cursor == end
  }

  /** What one more chunk does to the track and to the search for the first difference. */
  lemma ChunkStep(t: Track, cursor: nat, count: nat, end: nat)
    requires t.cursor <= cursor < cursor + count <= end && Chunked(t.cursor, cursor, end)
    requires count == REQUEST || (count < REQUEST && cursor + count == end)
    requires 2 * end <= |t.native| && 2 * end <= |t.oracle|
    ensures Advance(t, cursor).native == t.native && Advance(t, cursor).oracle == t.oracle
    ensures Advance(t, cursor).cursor == cursor && Advance(t, cursor + count).cursor == cursor + count
    ensures Retained(t) ==> Retained(Advance(t, cursor)) && Retained(Advance(t, cursor + count))
    ensures Chunked(t.cursor, cursor + count, end)
    ensures Advance(Advance(t, cursor), cursor + count) == Advance(t, cursor + count)
    ensures var d := Divergence(t.native, t.oracle, 2 * cursor, 2 * (cursor + count));
      var all := Divergence(t.native, t.oracle, 2 * cursor, 2 * end);
      && (d == 2 * (cursor + count) ==> all == Divergence(t.native, t.oracle, 2 * (cursor + count), 2 * end))
      && (d < 2 * (cursor + count) ==> all == d && ChunkOf(d / 2, t.cursor) == cursor)
  {
    hide Divergence, ChunkOf, Advance, Retained;
    AdvanceFrame(t, cursor);
    AdvanceFrame(t, cursor + count);
    AdvanceSplit(t, cursor, cursor + count);
    DivergenceSplit(t.native, t.oracle, 2 * cursor, 2 * (cursor + count), 2 * end);
    var d := Divergence(t.native, t.oracle, 2 * cursor, 2 * (cursor + count));
    if d < 2 * (cursor + count) {
      ChunkFound(d / 2, t.cursor, cursor);
    }
  }

  lemma ChunkedStart(start: nat, end: nat)
    ensures Chunked(start, start, end)
  {
  }

  class PairedMachines {
    const native: Ring
    const oracle: Ring
    var cursor: nat
    var fed: Data
    var nonzero: nat

    /** The native mixer writes its trace directly, so only the oracle has output to drain. */
    ghost predicate Valid()
      reads this, native, native.trace, oracle, oracle.trace
    {
      native != oracle && native.trace != oracle.trace && native.Valid() && native.fifo == [] && oracle.Valid()
    }

    ghost function View(): Track
      reads this, native, oracle
    {
      Track(native.Stream(), oracle.Stream(), cursor, fed, nonzero)
    }

    constructor ()
      ensures Valid() && View() == START
      ensures fresh(native) && fresh(oracle) && fresh(native.trace) && fresh(oracle.trace)
    {
      native := new Ring();
      oracle := new Ring();
      cursor, fed, nonzero := 0, [], 0;
    }

    /** `reset` on both machines, then `reset_audio_tracking`. */
    method ResetAll()
      requires Valid()
      modifies this, native, oracle
      ensures Valid() && native.trace == old(native.trace) && oracle.trace == old(oracle.trace)
      ensures View() == Next(old(View()), Reset, false)
    {
      native.Reset();
      oracle.Reset();
      cursor, fed, nonzero := 0, [], 0;
    }

    method NonzeroIn(pcm: Data, ghost samples: seq<Sample>) returns (count: nat)
      requires pcm == Pcm(samples)
      ensures count == Nonzero(samples)
    {
      count := 0;
      for i := 0 to |pcm| / 2
        invariant count == Nonzero(samples[..i])
      {
        PcmAt(samples, i);
        assert samples[..i + 1][..i] == samples[..i];
        if SampleAt(pcm, i) != 0 {
          count := count + 1;
        }
      }
      assert samples[..|samples|] == samples;
    }

    /** Both machines answer one request; within what they hold, the answer is complete. */
    method Ask(count: nat) returns (replyN: Reply, replyO: Reply)
      requires Valid()
      modifies native, native.trace, oracle, oracle.trace
      ensures Valid() && oracle.fifo == [] && native.trace == old(native.trace) && oracle.trace == old(oracle.trace)
      ensures View() == old(View())
      ensures replyN.NoLongerRetained? || replyO.NoLongerRetained? <==> !Retained(View())
      ensures replyN.Reply? ==> replyN.produced == |View().native| / 2 && replyN.oldest == Oldest(replyN.produced)
      ensures replyO.Reply? ==> replyO.produced == |View().oracle| / 2 && replyO.oldest == Oldest(replyO.produced)
      ensures Retained(View()) && count <= REQUEST && 2 * (cursor + count) <= |View().native| ==>
        replyN.count == count && replyN.pcm == Pcm(View().native[2 * cursor..2 * (cursor + count)])
      ensures Retained(View()) && count <= REQUEST && 2 * (cursor + count) <= |View().oracle| ==>
        replyO.count == count && replyO.pcm == Pcm(View().oracle[2 * cursor..2 * (cursor + count)])
    {
      hide Pcm, Slot, Ring.Valid;
      replyN := native.Request(cursor, count);
      replyO := oracle.Request(cursor, count);
      native.Lengths();
      oracle.Lengths();
    }

    /** The verdict on one chunk, from the bytes of both answers. */
    method Judge(pcmN: Data, pcmO: Data, start: nat, count: nat, ghost native: seq<Sample>, ghost oracle: seq<Sample>)
      returns (outcome: Outcome)
      requires 2 * (start + count) <= |native| && 2 * (start + count) <= |oracle|
      requires pcmN == Pcm(native[2 * start..2 * (start + count)])
      requires pcmO == Pcm(oracle[2 * start..2 * (start + count)])
      ensures var d := Divergence(native, oracle, 2 * start, 2 * (start + count));
        && (d < 2 * (start + count) ==> outcome == Differs(d / 2, d % 2 == 0, native[d], oracle[d]))
        && (d == 2 * (start + count) ==> outcome == Passed && pcmN == pcmO)
    {
      hide Pcm, SampleAt, Divergence;
      ghost var lo, hi := 2 * start, 2 * (start + count);
      ghost var a, b := native[lo..hi], oracle[lo..hi];
      var index := FirstDivergence(pcmN, pcmO);
      if index >= 0 {
        DifferingSample(a, b, index);
        var sample := index / 2;
        DivergenceInside(native, oracle, lo, hi, sample);
        return Differs(start + sample / 2, sample % 2 == 0, SampleAt(pcmN, sample), SampleAt(pcmO, sample));
      }
      SameSamples(a, b);
      DivergenceInside(native, oracle, lo, hi, hi - lo);
      return Passed;
    }

    /** One turn of the loop: `Passed` when the chunk was equal. */
    method CompareChunk(count: nat) returns (outcome: Outcome)
      requires Valid() && oracle.fifo == [] && 0 < count <= REQUEST && Retained(View())
      requires 2 * (cursor + count) <= |View().native| && 2 * (cursor + count) <= |View().oracle|
      modifies this, native, native.trace, oracle, oracle.trace
      ensures Valid() && oracle.fifo == [] && native.trace == old(native.trace) && oracle.trace == old(oracle.trace)
      ensures var t, end := old(View()), 2 * (old(cursor) + count);
        var d := Divergence(t.native, t.oracle, 2 * t.cursor, end);
        && View() == (if d < end then t else Advance(t, t.cursor + count))
        && outcome == (if d < end then Differs(d / 2, d % 2 == 0, t.native[d], t.oracle[d]) else Passed)
    {
      hide Pcm, Slot, SampleAt, Nonzero, Ring.Valid, Ring.Stream, Divergence, Oldest;
      var replyN, replyO := Ask(count);
      if replyN.NoLongerRetained? || replyO.NoLongerRetained? {
        return NotRetained;
      }
      if replyN.count != count || replyO.count != count {
        return ShortRead;
      }
      ghost var t := View();
      outcome := Judge(replyN.pcm, replyO.pcm, cursor, count, t.native, t.oracle);
      if outcome == Passed {
        fed := fed + replyN.pcm;
        var counted := NonzeroIn(replyN.pcm, t.oracle[2 * cursor..2 * (cursor + count)]);
        nonzero := nonzero + counted;
        cursor := cursor + count;
      }
    }
  
    /** The loop: chunk by chunk up to `end` or the first difference. */
    method CompareChunks(end: nat) returns (outcome: Outcome)
      requires Valid() && oracle.fifo == [] && Retained(View()) && cursor <= end
      requires 2 * end <= |View().native| && 2 * end <= |View().oracle|
      modifies this, native, native.trace, oracle, oracle.trace
      ensures Valid() && native.trace == old(native.trace) && oracle.trace == old(oracle.trace)
      ensures var t := old(View());
        var d := Divergence(t.native, t.oracle, 2 * t.cursor, 2 * end);
        && View() == Advance(t, if d == 2 * end then end else ChunkOf(d / 2, t.cursor))
        && outcome == (if d < 2 * end then Differs(d / 2, d % 2 == 0, t.native[d], t.oracle[d]) else Passed)
    {
      hide Ring.Valid, Ring.Stream, Pcm, Nonzero, Divergence, Advance, ChunkOf, Retained, Chunked;
      ghost var t := View();
      ChunkedStart(t.cursor, end);
      AdvanceNothing(t);
      while cursor < end
        invariant Valid() && oracle.fifo == [] && native.trace == old(native.trace) && oracle.trace == old(oracle.trace)
        invariant t.cursor <= cursor <= end
        invariant View() == Advance(t, cursor)
        invariant Chunked(t.cursor, cursor, end)
        invariant Divergence(t.native, t.oracle, 2 * t.cursor, 2 * end) ==
          Divergence(t.native, t.oracle, 2 * cursor, 2 * end)
      {
        var count := if REQUEST < end - cursor then REQUEST else end - cursor;
        ChunkStep(t, cursor, count, end);
        outcome := CompareChunk(count);
        if outcome != Passed {
          return;
        }
      }
      return Passed;
    }

    /** `compare_audio`. */
    method Compare(ignoring: bool) returns (outcome: Outcome)
      requires Valid()
      modifies this, native, native.trace, oracle, oracle.trace
      ensures Valid() && native.trace == old(native.trace) && oracle.trace == old(oracle.trace)
      ensures (View(), outcome) == Compared(old(View()), ignoring)
    {
      hide Ring.Valid, Divergence, Advance, ChunkOf;
      var replyN, replyO := Ask(0);
      if replyN.NoLongerRetained? || replyO.NoLongerRetained? {
        return NotRetained;
      }
      if cursor < replyN.oldest || cursor < replyO.oldest {
        return Overwritten;
      }
      if replyO.produced < cursor {
        return MovedBackwards;
      }
      if replyN.produced < replyO.produced {
        return NativeMissing;
      }
      outcome := CompareChunks(replyO.produced);
      if outcome != Passed && !ignoring {
        return;
      }
      var pending := replyN.produced - replyO.produced;
      outcome := if pending > LAG then Lagging(pending) else Passed;
    }
  
    /** One event of a traversal. */
    method Do(step: Step, ignoring: bool)
      requires Valid() && Whole(step)
      modifies this, native, native.trace, oracle, oracle.trace
      ensures Valid() && native.trace == old(native.trace) && oracle.trace == old(oracle.trace)
      ensures View() == Next(old(View()), step, ignoring)
    {
      hide Ring.Valid, Compared;
      match step
      case NativeOutput(samples) =>
        native.Push(samples);
      case OracleOutput(samples) =>
        oracle.Mix(samples);
        assert oracle.Stream() == old(oracle.Stream()) + samples;
      case CompareAudio =>
        var _ := Compare(ignoring);
      case Reset =>
        ResetAll();
    }

    method Perform(steps: seq<Step>, ignoring: bool)
      requires Valid() && forall i :: 0 <= i < |steps| ==> Whole(steps[i])
      modifies this, native, native.trace, oracle, oracle.trace
      ensures Valid()
      ensures View() == Run(old(View()), steps, ignoring)
    {
      hide Ring.Valid, Next;
      for i := 0 to |steps|
        invariant Valid() && native.trace == old(native.trace) && oracle.trace == old(oracle.trace)
        invariant View() == Run(old(View()), steps[..i], ignoring)
      {
        assert steps[..i + 1][..i] == steps[..i];
        Do(steps[i], ignoring);
      }
      assert steps[..|steps|] == steps;
    }
  }

  // ---- What whole traversals keep ------------------------------------------------------

  /** Up to the cursor the streams agree, and the hash was fed exactly that prefix. */
  ghost predicate Sound(t: Track) {
    && |t.native| % 2 == 0 && |t.oracle| % 2 == 0
    && 2 * t.cursor <= |t.native| && 2 * t.cursor <= |t.oracle|
    && t.native[..2 * t.cursor] == t.oracle[..2 * t.cursor]
    && t.fed == Pcm(t.oracle[..2 * t.cursor])
    && t.nonzero == Nonzero(t.oracle[..2 * t.cursor])
  }

  lemma AdvanceKeepsSound(t: Track, cursor: nat)
    requires Sound(t) && t.cursor <= cursor && 2 * cursor <= |t.oracle| && 2 * cursor <= |t.native|
    requires forall k :: 2 * t.cursor <= k < 2 * cursor ==> t.native[k] == t.oracle[k]
    ensures Sound(Advance(t, cursor))
  {
    hide Pcm, Nonzero;
    var a, b := t.oracle[..2 * t.cursor], t.oracle[2 * t.cursor..2 * cursor];
    assert t.oracle[..2 * cursor] == a + b;
    PcmConcat(a, b);
    NonzeroConcat(a, b);
    assert t.native[2 * t.cursor..2 * cursor] == b;
    assert t.native[..2 * cursor] == t.native[..2 * t.cursor] + t.native[2 * t.cursor..2 * cursor];
  }

  lemma CompareKeepsSound(t: Track, ignoring: bool)
    requires Sound(t)
    ensures Sound(Compared(t, ignoring).0)
  {
    hide Pcm, Nonzero, Divergence, Advance, Sound;
    if Comparable(t) {
      var end := |t.oracle| / 2;
      Bounds(t);
      var d := Divergence(t.native, t.oracle, 2 * t.cursor, 2 * end);
      AdvanceKeepsSound(t, if d == 2 * end then end else ChunkOf(d / 2, t.cursor));
    }
  }

  lemma Bounds(t: Track)
    requires Sound(t)
    ensures 2 * t.cursor <= |t.native| && 2 * t.cursor <= |t.oracle|
    ensures |t.native| % 2 == 0 && |t.oracle| % 2 == 0
  {
  }

  lemma StepKeepsSound(t: Track, step: Step, ignoring: bool)
    requires Sound(t) && Whole(step)
    ensures Sound(Next(t, step, ignoring))
  {
    hide Pcm, Nonzero, Compared;
    match step
    case NativeOutput(samples) =>
      assert (t.native + samples)[..2 * t.cursor] == t.native[..2 * t.cursor];
    case OracleOutput(samples) =>
      assert (t.oracle + samples)[..2 * t.cursor] == t.oracle[..2 * t.cursor];
    case CompareAudio =>
      CompareKeepsSound(t, ignoring);
    case Reset =>
      StartIsSound();
  }

  lemma StartIsSound()
    ensures Sound(START)
  {
  }

  /** No run of outputs, comparisons and resets skips, repeats or misreads a frame. */
  lemma {:induction false} RunKeepsSound(steps: seq<Step>, ignoring: bool)
    requires forall i :: 0 <= i < |steps| ==> Whole(steps[i])
    ensures Sound(Run(START, steps, ignoring))
  {
    if steps == [] {
      StartIsSound();
    } else {
      var n := |steps| - 1;
      RunKeepsSound(steps[..n], ignoring);
      StepKeepsSound(Run(START, steps[..n], ignoring), steps[n], ignoring);
    }
  }

  /** A comparison passes exactly when everything the oracle ever output is what native output. */
  lemma PassedExactly(t: Track)
    requires Sound(t)
    ensures Compared(t, false).1 == Passed <==>
      Retained(t) && t.oracle <= t.native && |t.native| / 2 - |t.oracle| / 2 <= LAG
  {
    hide Pcm, Nonzero, Advance;
    if Comparable(t) {
      var end := |t.oracle| / 2;
      var d := Divergence(t.native, t.oracle, 2 * t.cursor, 2 * end);
      if d == 2 * end {
        forall k | 0 <= k < |t.oracle|
          ensures t.oracle[k] == t.native[k]
        {
          if k < 2 * t.cursor {
            assert t.oracle[..2 * t.cursor][k] == t.native[..2 * t.cursor][k];
          }
        }
      }
    }
  }

  /**
   The final evidence: whatever the schedule of outputs, resets and comparisons was, a passing
   comparison leaves the hash fed with the oracle's whole stream, once, and so with native's.
   */
  lemma EvidenceIsComplete(steps: seq<Step>, ignoring: bool)
    requires forall i :: 0 <= i < |steps| ==> Whole(steps[i])
    ensures var before := Run(START, steps, ignoring);
      Compared(before, false).1 == Passed ==> Complete(before, Compared(before, false).0)
  {
    hide Pcm, Nonzero, Compared;
    var before := Run(START, steps, ignoring);
    RunKeepsSound(steps, ignoring);
    if Compared(before, false).1 == Passed {
      PassedIsComplete(before);
    }
  }

  /** All of the oracle's output was compared, counted and hashed. */
  ghost predicate Complete(before: Track, t: Track) {
    && t.oracle == before.oracle && t.oracle <= before.native
    && t.cursor == |t.oracle| / 2
    && t.fed == Pcm(before.oracle)
    && t.nonzero == Nonzero(before.oracle)
  }

  lemma PassedIsComplete(before: Track)
    requires Sound(before)
    ensures Compared(before, false).1 == Passed ==> Complete(before, Compared(before, false).0)
  {
    hide Pcm, Nonzero;
    PassedExactly(before);
    CompareKeepsSound(before, false);
    var t := Compared(before, false).0;
    assert t.oracle[..|t.oracle|] == t.oracle;
  }
}
