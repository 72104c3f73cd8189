/**
 The bounded trace of produced sound: `oracle/shim/nds_oracle.cpp`, and the same structure
 in the native runtime. Frames carry ordinals; the ring keeps the newest 1048576 of them.
 `history` is what the ring refines: every sample pushed since the last reset.
 */
module AudioTrace {
  import opened Bytes

  type Sample = x: int | -32768 <= x < 32768

  const FRAMES: nat := 1048576
  const REQUEST: nat := 4096

  /** The oldest frame ordinal still held after `produced` frames. */
  function Oldest(produced: nat): nat {
    if produced > FRAMES then produced - FRAMES else 0
  }

  /** Where interleaved sample `i` of the history lives. */
  function Slot(i: nat): (s: nat)
    ensures s < 2 * FRAMES
  {
    i % 2097152
  }

  /** Samples less than one ring apart do not share a slot. */
  lemma SlotsDiffer(i: nat, j: nat)
    requires i < j < i + 2 * FRAMES
    ensures Slot(i) != Slot(j)
  {
    assert j - i == 2097152 * (j / 2097152 - i / 2097152) + (j % 2097152 - i % 2097152);
  }

  lemma FrameSlot(n: nat)
    ensures n % FRAMES * 2 == Slot(2 * n) && n % FRAMES * 2 + 1 == Slot(2 * n + 1)
  {
  }

  // ---- Samples on the wire -------------------------------------------------------------

  /** A sample as the unsigned 16-bit value it is sent as. */
  function Unsigned(x: Sample): (u: nat)
    ensures u < 65536
  {
    if x < 0 then x + 65536 else x
  }

  function Low(x: Sample): Byte { Unsigned(x) % 256 }

  function High(x: Sample): Byte { Unsigned(x) / 256 }

  /** Little-endian 16-bit samples. */
  function Pcm(s: seq<Sample>): (b: Data)
    ensures |b| == 2 * |s|
  {
    if s == [] then []
    else Pcm(s[..|s| - 1]) + [Low(s[|s| - 1]), High(s[|s| - 1])]
  }

  /** A signed little-endian read. */
  function SampleAt(b: Data, i: nat): Sample
    requires 2 * i + 1 < |b|
  {
    var low: nat, high: nat := b[2 * i], b[2 * i + 1];
    var v := low + 256 * high;
    if v >= 32768 then v - 65536 else v
  }

  lemma {:induction false} PcmAt(s: seq<Sample>, i: nat)
    requires i < |s|
    ensures Pcm(s)[2 * i] == Low(s[i]) && Pcm(s)[2 * i + 1] == High(s[i])
    ensures SampleAt(Pcm(s), i) == s[i]
  {
    var n := |s| - 1;
    if i < n {
      PcmAt(s[..n], i);
    }
  }

  lemma {:induction false} PcmConcat(a: seq<Sample>, b: seq<Sample>)
    ensures Pcm(a + b) == Pcm(a) + Pcm(b)
  {
    if b == [] {
      assert a + b == a;
    } else {
      var n := |b| - 1;
      assert (a + b)[..|a| + n] == a + b[..n];
      PcmConcat(a, b[..n]);
    }
  }

  /** How many samples are not silent. */
  function Nonzero(s: seq<Sample>): nat {
    if s == [] then 0 else Nonzero(s[..|s| - 1]) + (if s[|s| - 1] != 0 then 1 else 0)
  }

  lemma {:induction false} NonzeroConcat(a: seq<Sample>, b: seq<Sample>)
    ensures Nonzero(a + b) == Nonzero(a) + Nonzero(b)
  {
    if b == [] {
      assert a + b == a;
    } else {
      var n := |b| - 1;
      assert (a + b)[..|a| + n] == a + b[..n];
      NonzeroConcat(a, b[..n]);
    }
  }

  // ---- The ring ------------------------------------------------------------------------

  datatype Reply =
    | NoLongerRetained
    | Reply(start: nat, count: nat, oldest: nat, produced: nat, pcm: Data)

  class Ring {
    var trace: array<Sample>
    var produced: nat
    /** What the sound unit has mixed but nobody has drained. */
    var fifo: seq<Sample>
    ghost var history: seq<Sample>

    ghost predicate Valid()
      reads this, trace
    {
      && trace.Length == 2 * FRAMES
      && |history| == 2 * produced
      && |fifo| % 2 == 0
      && forall i :: 2 * Oldest(produced) <= i < 2 * produced ==> trace[Slot(i)] == history[i]
    }

    /** Everything output since the last reset. */
    ghost function Stream(): seq<Sample>
      reads this
    {
      history + fifo
    }

    lemma Lengths()
      requires Valid()
      ensures |history| == 2 * produced && |fifo| % 2 == 0
    {
    }

    constructor ()
      ensures Valid() && fresh(trace) && Stream() == [] && fifo == []
    {
      trace := new Sample[2 * FRAMES](_ => 0);
      produced := 0;
      fifo := [];
      history := [];
    }

    method Reset()
      requires Valid()
      modifies this
      ensures Valid() && trace == old(trace) && Stream() == [] && fifo == []
    {
      produced := 0;
      fifo := [];
      history := [];
    }

    method PushFrame(left: Sample, right: Sample)
      requires Valid()
      modifies this`produced, this`history, trace
      ensures Valid() && trace == old(trace) && produced == old(produced) + 1
      ensures history == old(history) + [left, right]
    {
      hide Slot;
      var pos := produced % FRAMES;
      FrameSlot(produced);
      forall i | 2 * Oldest(produced + 1) <= i < 2 * produced
        ensures Slot(i) != Slot(2 * produced) && Slot(i) != Slot(2 * produced + 1)
      {
        SlotsDiffer(i, 2 * produced);
        SlotsDiffer(i, 2 * produced + 1);
      }
      trace[pos * 2] := left;
      trace[pos * 2 + 1] := right;
      produced := produced + 1;
      history := history + [left, right];
    }

    /** `pushAudioTrace`. */
    method Push(samples: seq<Sample>)
      requires Valid() && |samples| % 2 == 0
      modifies this`produced, this`history, trace
      ensures Valid() && trace == old(trace)
      ensures produced == old(produced) + |samples| / 2 && history == old(history) + samples
    {
      hide Valid;
      for i := 0 to |samples| / 2
        invariant Valid() && trace == old(trace)
        invariant produced == old(produced) + i && history == old(history) + samples[..2 * i]
      {
        PushFrame(samples[2 * i], samples[2 * i + 1]);
        assert samples[..2 * i + 2] == samples[..2 * i] + [samples[2 * i], samples[2 * i + 1]];
      }
      assert samples[..2 * (|samples| / 2)] == samples;
    }

    /** The sound unit mixes frames that stay in its own output until they are drained. */
    method Mix(samples: seq<Sample>)
      requires Valid() && |samples| % 2 == 0
      modifies this`fifo
      ensures Valid() && fifo == old(fifo) + samples
    {
      fifo := fifo + samples;
    }

    /** `drainOracleAudio`: blocks of at most 1024 frames until the sound unit has none. */
    method Drain()
      requires Valid()
      modifies this, trace
      ensures Valid() && trace == old(trace) && fifo == [] && history == old(Stream())
      ensures old(fifo) == [] ==> produced == old(produced)
    {
      while fifo != []
        invariant Valid() && trace == old(trace) && Stream() == old(Stream())
        invariant old(fifo) == [] ==> produced == old(produced) && fifo == []
        decreases |fifo|
      {
        var take := if |fifo| < 2048 then |fifo| else 2048;
        var block := fifo[..take];
        assert fifo == block + fifo[take..];
        fifo := fifo[take..];
        Push(block);
      }
    }

    /** `copyAudioTrace`: the exact slice of the history, or nothing. */
    method Copy(start: nat, samples: array<Sample>, frames: nat) returns (take: nat)
      requires Valid() && samples.Length == 2 * frames && samples != trace
      modifies samples
      ensures start < Oldest(produced) || start >= produced ==> take == 0
      ensures Oldest(produced) <= start < produced ==>
        take == if frames < produced - start then frames else produced - start
      ensures take <= frames && (take > 0 ==> start + take <= produced)
      ensures samples[..2 * take] == if take == 0 then [] else history[2 * start..2 * (start + take)]
      ensures samples[2 * take..] == old(samples[2 * take..])
    {
      if start < Oldest(produced) || start >= produced {
        return 0;
      }
      take := if frames < produced - start then frames else produced - start;
      hide Slot;
      for i := 0 to take
        invariant forall k :: 0 <= k < 2 * i ==> samples[k] == history[2 * start + k]
        invariant forall k :: 2 * i <= k < 2 * frames ==> samples[k] == old(samples[k])
      {
        var pos := (start + i) % FRAMES;
        FrameSlot(start + i);
        samples[i * 2] := trace[pos * 2];
        samples[i * 2 + 1] := trace[pos * 2 + 1];
      }
    }

    /** The `audio_samples` request. */
    method Request(start: nat, requested: nat) returns (reply: Reply)
      requires Valid()
      modifies this, trace
      ensures Valid() && trace == old(trace) && fifo == [] && history == old(Stream())
      ensures reply.NoLongerRetained? <==> start < Oldest(produced)
      ensures reply.Reply? ==> reply.start == start && reply.oldest == Oldest(produced) && reply.produced == produced
      ensures reply.Reply? ==> reply.count == Granted(start, requested, produced)
      ensures reply.Reply? && start <= produced ==>
        reply.pcm == Pcm(history[2 * start..2 * (start + reply.count)])
      ensures reply.Reply? && start > produced ==> reply.pcm == []
    {
      hide Pcm, Slot;
      Drain();
      var count := if requested > REQUEST then REQUEST else requested;
      if start < Oldest(produced) {
        return NoLongerRetained;
      }
      var samples := new Sample[2 * count](_ => 0);
      var copied := Copy(start, samples, count);
      var pcm := Encode(samples, 2 * copied);
      reply := Reply(start, copied, Oldest(produced), produced, pcm);
    }
  }

  method Encode(samples: array<Sample>, n: nat) returns (pcm: Data)
    requires n <= samples.Length
    ensures pcm == Pcm(samples[..n])
  {
    pcm := [];
    for i := 0 to n
      invariant pcm == Pcm(samples[..i])
    {
      assert samples[..i + 1][..i] == samples[..i];
      pcm := pcm + [Low(samples[i]), High(samples[i])];
    }
  }

  /** How many frames a request gets: at most 4096, and none beyond what was produced. */
  function Granted(start: nat, requested: nat, produced: nat): nat {
    var count := if requested > REQUEST then REQUEST else requested;
    if start >= produced then 0 else if count < produced - start then count else produced - start
  }
}
