/**
 The scoped DNS responder, `tools/wfc_dns.py`: names with compression pointers
 (RFC 1035, section 4.1.4) and the reply to an A query.
 */
module WfcDns {
  import opened Bytes

  datatype Fault = NameExceedsPacket | TruncatedPointer | CompressionLoop | UnsupportedLabel | TruncatedLabel

  datatype Walked = Labels(labels: seq<Data>) | Malformed(fault: Fault)

  datatype Read = Name(name: Data, end: nat) | BadName(fault: Fault)

  const DOT: Byte := 46

  // ---- Names ---------------------------------------------------------------------------

  function IsPointer(b: Byte): bool { b >= 192 }

  /** The target of the pointer at `o`. */
  function Target(packet: Data, o: nat): (t: nat)
    requires o + 1 < |packet| && IsPointer(packet[o])
    ensures t < 16384
  {
    var high: nat, low: nat := packet[o] - 192, packet[o + 1];
    high * 256 + low
  }

  predicate IsTarget(t: nat) { t < 16384 }

  /** Everything a 14-bit pointer can name. */
  function Targets(): set<nat> { set t: nat | t < 16384 && IsTarget(t) }

  /** Bytes above 127 are dropped by the ASCII decoding. */
  function Ascii(text: Data): Data {
    if text == [] then []
    else (if text[0] < 128 then [text[0]] else []) + Ascii(text[1..])
  }

  function Join(labels: seq<Data>): Data {
    if labels == [] then []
    else if |labels| == 1 then labels[0]
    else labels[0] + [DOT] + Join(labels[1..])
  }

  function Prepend(labels: seq<Data>, w: Walked): Walked {
    match w
    case Labels(rest) => Labels(labels + rest)
    case Malformed(_) => w
  }

  /** The labels met from `o` on, when the pointers in `seen` may not be taken again. */
  function Walk(packet: Data, o: nat, seen: set<nat>): Walked
    decreases Targets() - seen, |packet| - o
  {
    if o >= |packet| then Malformed(NameExceedsPacket)
    else
      var length: nat := packet[o];
      if IsPointer(length) then
        if o + 1 >= |packet| then Malformed(TruncatedPointer)
        else
          var t := Target(packet, o);
          if t in seen then Malformed(CompressionLoop)
          else
            assert IsTarget(t) && t in Targets() - seen;
            Walk(packet, t, seen + {t})
      else if length >= 64 then Malformed(UnsupportedLabel)
      else if length == 0 then Labels([])
      else if o + 1 + length > |packet| then Malformed(TruncatedLabel)
      else Prepend([Ascii(packet[o + 1..o + 1 + length])], Walk(packet, o + 1 + length, seen))
  }

  /** Where a name ends in place: behind its first pointer or its closing zero. */
  function End(packet: Data, o: nat): (end: nat)
    ensures end > o
    decreases |packet| - o
  {
    if o >= |packet| || packet[o] == 0 then o + 1
    else if IsPointer(packet[o]) then o + 2
    else
      var length: nat := packet[o];
      if o + 1 + length > |packet| then o + 1 else End(packet, o + 1 + length)
  }

  function NameAt(packet: Data, o: nat): (read: Read)
    ensures read.Name? ==> read.end > o
  {
    match Walk(packet, o, {})
    case Labels(labels) => Name(Join(labels), End(packet, o))
    case Malformed(fault) => BadName(fault)
  }

  method JoinLabels(labels: seq<Data>) returns (name: Data)
    ensures name == Join(labels)
  {
    name := [];
    for i := |labels| downto 0
      invariant name == Join(labels[i..])
    {
      name := if i == |labels| - 1 then labels[i] else labels[i] + [DOT] + name;
      assert labels[i..][1..] == labels[i + 1..];
    }
  }

  /** One step of a walk, case by case. */
  lemma WalkHere(packet: Data, o: nat, seen: set<nat>)
    ensures o >= |packet| ==> Walk(packet, o, seen) == Malformed(NameExceedsPacket)
    ensures o < |packet| ==> var length: nat, w := packet[o], Walk(packet, o, seen);
      && (IsPointer(length) ==> End(packet, o) == o + 2)
      && (IsPointer(length) && o + 1 >= |packet| ==> w == Malformed(TruncatedPointer))
      && (IsPointer(length) && o + 1 < |packet| && Target(packet, o) in seen ==> w == Malformed(CompressionLoop))
      && (IsPointer(length) && o + 1 < |packet| && Target(packet, o) !in seen ==>
            w == Walk(packet, Target(packet, o), seen + {Target(packet, o)}))
      && (64 <= length < 192 ==> w == Malformed(UnsupportedLabel))
      && (length == 0 ==> w == Labels([]) && End(packet, o) == o + 1)
      && (0 < length < 64 && o + 1 + length > |packet| ==> w == Malformed(TruncatedLabel))
      && (0 < length < 64 && o + 1 + length <= |packet| ==>
            w == Prepend([Ascii(packet[o + 1..o + 1 + length])], Walk(packet, o + 1 + length, seen)) &&
            End(packet, o) == End(packet, o + 1 + length))
  {
    hide Ascii, Prepend;
  }

  /** `read_name`. */
  method ReadName(packet: Data, start: nat) returns (read: Read)
    ensures read == NameAt(packet, start)
  {
    hide Walk, End, Ascii, Join, Prepend;
    var labels: seq<Data> := [];
    PrependTwice([], [], Walk(packet, start, {}));
    var jumped, seen: set<nat> := false, {};
    var end: nat, offset: nat := start, start;
    while true
      invariant Walk(packet, start, {}) == Prepend(labels, Walk(packet, offset, seen))
      invariant End(packet, start) == if jumped then end else End(packet, offset)
      decreases Targets() - seen, |packet| - offset
    {
      WalkHere(packet, offset, seen);
      PrependTwice(labels, [], Walk(packet, offset, seen));
      if offset >= |packet| {
        return BadName(NameExceedsPacket);
      }
      var length: nat := packet[offset];
      if IsPointer(length) {
        if offset + 1 >= |packet| {
          return BadName(TruncatedPointer);
        }
        var target := Target(packet, offset);
        if target in seen {
          return BadName(CompressionLoop);
        }
        assert IsTarget(target) && target in Targets() - seen;
        seen := seen + {target};
        if !jumped {
          end := offset + 2;
          jumped := true;
        }
        offset := target;
        continue;
      }
      if length >= 64 {
        return BadName(UnsupportedLabel);
      }
      if length == 0 {
        if !jumped {
          end := offset + 1;
        }
        var name := JoinLabels(labels);
        return Name(name, end);
      }
      if offset + 1 + length > |packet| {
        return BadName(TruncatedLabel);
      }
      var text := Ascii(packet[offset + 1..offset + 1 + length]);
      PrependTwice(labels, [text], Walk(packet, offset + 1 + length, seen));
      labels := labels + [text];
      offset := offset + 1 + length;
    }
  }

  lemma PrependTwice(a: seq<Data>, b: seq<Data>, w: Walked)
    ensures Prepend(a, Prepend(b, w)) == Prepend(a + b, w) && Prepend([], w) == w
    ensures Prepend(a, w).Labels? <==> w.Labels?
    ensures (w.Malformed? ==> Prepend(a, w) == w) && Prepend(a, Labels([])) == Labels(a)
  {
    assert a + [] == a;
    if w.Labels? {
      assert a + (b + w.labels) == (a + b) + w.labels && [] + w.labels == w.labels;
    }
  }

  // ---- Names and the pointers already taken ----------------------------------------------

  /** The first pointer a walk from `o` meets, or -1. */
  function FirstJump(packet: Data, o: nat): int
    decreases |packet| - o
  {
    if o >= |packet| then -1
    else
      var length: nat := packet[o];
      if IsPointer(length) then
        if o + 1 >= |packet| then -1 else Target(packet, o)
      else if length == 0 || length >= 64 || o + 1 + length > |packet| then -1
      else FirstJump(packet, o + 1 + length)
  }

  lemma {:induction false} SeenJumpFails(packet: Data, o: nat, seen: set<nat>)
    requires FirstJump(packet, o) in seen
    ensures Walk(packet, o, seen).Malformed?
    decreases |packet| - o
  {
    var length: nat := packet[o];
    if !IsPointer(length) {
      SeenJumpFails(packet, o + 1 + length, seen);
    }
  }

  /** Barring a name whose own first jump was taken changes no walk that succeeds. */
  lemma {:induction false} ExtraSeen(packet: Data, o: nat, seen: set<nat>, x: nat)
    requires Walk(packet, o, seen).Labels? && FirstJump(packet, x) in seen
    ensures Walk(packet, o, seen + {x}) == Walk(packet, o, seen)
    decreases Targets() - seen, |packet| - o
  {
    var length: nat := packet[o];
    if IsPointer(length) {
      var t := Target(packet, o);
      assert IsTarget(t) && t in Targets() - seen;
      assert seen + {x} + {t} == seen + {t} + {x};
      if t == x {
        SeenJumpFails(packet, x, seen + {x});
      }
      ExtraSeen(packet, t, seen + {t}, x);
    } else if length != 0 {
      ExtraSeen(packet, o + 1 + length, seen, x);
    }
  }

  /** A name that can be read can be read through a pointer to it. */
  lemma {:induction false} SelfSeen(packet: Data, x: nat, o: nat)
    requires Walk(packet, o, {}).Labels? && FirstJump(packet, o) == FirstJump(packet, x)
    ensures Walk(packet, o, {x}) == Walk(packet, o, {})
    decreases |packet| - o
  {
    var length: nat := packet[o];
    if IsPointer(length) {
      var t := Target(packet, o);
      assert {} + {t} == {t} && {x} + {t} == {t} + {x};
      if t == x {
        SeenJumpFails(packet, x, {x});
      }
      ExtraSeen(packet, t, {t}, x);
    } else if length != 0 {
      SelfSeen(packet, x, o + 1 + length);
    }
  }

  // ---- Names that stay inside a part of the packet ---------------------------------------

  /** Reading the name at `o` succeeds and looks at no byte but those in `part`. */
  ghost predicate Reads(packet: Data, o: nat, seen: set<nat>, part: set<nat>)
    decreases Targets() - seen, |packet| - o
  {
    && o < |packet| && o in part
    && var length: nat := packet[o];
      if IsPointer(length) then
        && o + 1 < |packet| && o + 1 in part
        && Target(packet, o) !in seen
        && (assert IsTarget(Target(packet, o)); Reads(packet, Target(packet, o), seen + {Target(packet, o)}, part))
      else
        length == 0 ||
        (length < 64 && o + 1 + length <= |packet| && Span(o + 1, o + 1 + length) <= part &&
         Reads(packet, o + 1 + length, seen, part))
  }

  predicate AtLeast(k: nat, lo: nat) { lo <= k }

  /** The positions from `lo` up to `hi`. */
  function Span(lo: nat, hi: nat): set<nat> { set k: nat | k < hi && AtLeast(k, lo) }

  /** Both packets have these positions, and the same bytes there. */
  ghost predicate Agree(p: Data, q: Data, part: set<nat>) {
    forall k :: k in part ==> k < |p| && k < |q| && p[k] == q[k]
  }

  lemma AgreeOnLabel(p: Data, q: Data, part: set<nat>, i: nat, j: nat)
    requires Agree(p, q, part) && Span(i, j) <= part && i <= j <= |p|
    ensures j <= |q| || i == j
    ensures j <= |q| ==> p[i..j] == q[i..j]
  {
    assert forall k :: i <= k < j ==> k in Span(i, j);
    if i < j {
      assert j - 1 in Span(i, j);
    }
  }

  lemma {:induction false} ReadsAgree(p: Data, q: Data, o: nat, seen: set<nat>, part: set<nat>)
    requires Agree(p, q, part) && Reads(p, o, seen, part)
    ensures Reads(q, o, seen, part) && Walk(q, o, seen) == Walk(p, o, seen) && Walk(p, o, seen).Labels?
    ensures End(q, o) == End(p, o)
    decreases Targets() - seen, |p| - o
  {
    hide Ascii, Walk, End, Prepend, Span;
    WalkHere(p, o, seen);
    WalkHere(q, o, seen);
    var length: nat := p[o];
    if IsPointer(length) {
      var t := Target(p, o);
      assert IsTarget(t) && t in Targets() - seen;
      ReadsAgree(p, q, t, seen + {t}, part);
    } else if length != 0 {
      AgreeOnLabel(p, q, part, o + 1, o + 1 + length);
      PrependTwice([Ascii(p[o + 1..o + 1 + length])], [], Walk(p, o + 1 + length, seen));
      ReadsAgree(p, q, o + 1 + length, seen, part);
    }
  }

  // ---- Uncompressed names ----------------------------------------------------------------

  function Encode(labels: seq<Data>): Data
    requires Plain(labels)
  {
    if labels == [] then [0] else [|labels[0]|] + labels[0] + Encode(labels[1..])
  }

  predicate Plain(labels: seq<Data>) {
    forall i :: 0 <= i < |labels| ==> 1 <= |labels[i]| < 64
  }

  function AsciiAll(labels: seq<Data>): seq<Data> {
    if labels == [] then [] else [Ascii(labels[0])] + AsciiAll(labels[1..])
  }

  /** Reading an uncompressed name gives back its labels and ends behind it. */
  lemma {:induction false} EncodedNameReads(packet: Data, o: nat, labels: seq<Data>, lo: nat, hi: nat)
    requires Plain(labels) && lo <= o && o + |Encode(labels)| <= hi <= |packet|
    requires packet[o..o + |Encode(labels)|] == Encode(labels)
    ensures Walk(packet, o, {}) == Labels(AsciiAll(labels))
    ensures End(packet, o) == o + |Encode(labels)|
    ensures Reads(packet, o, {}, Span(lo, hi))
    decreases |labels|
  {
    hide Ascii, Encode, Walk, End;
    var name := Encode(labels);
    EncodedFirst(packet, o, labels);
    WalkHere(packet, o, {});
    if labels != [] {
      EncodedNameReads(packet, o + 1 + |labels[0]|, labels[1..], lo, hi);
    }
  }

  /** The length byte, the first label and the rest stand where they should. */
  lemma EncodedFirst(packet: Data, o: nat, labels: seq<Data>)
    requires Plain(labels) && o + |Encode(labels)| <= |packet|
    requires packet[o..o + |Encode(labels)|] == Encode(labels)
    ensures labels == [] ==> |Encode(labels)| == 1 && packet[o] == 0
    ensures labels != [] ==>
      var n, rest := |labels[0]|, o + 1 + |labels[0]|;
      && Plain(labels[1..]) && rest + |Encode(labels[1..])| == o + |Encode(labels)|
      && packet[o] == n && packet[o + 1..rest] == labels[0]
      && packet[rest..rest + |Encode(labels[1..])|] == Encode(labels[1..])
  {
    hide Encode;
    var name := Encode(labels);
    EncodedParts(labels);
    if labels == [] {
      PartAt(packet, o, name, 0, 1);
    } else {
      PartAt(packet, o, name, 0, 1);
      PartAt(packet, o, name, 1, 1 + |labels[0]|);
      PartAt(packet, o, name, 1 + |labels[0]|, |name|);
    }
  }

  lemma PartAt(packet: Data, o: nat, name: Data, i: nat, j: nat)
    requires o + |name| <= |packet| && packet[o..o + |name|] == name && i <= j <= |name|
    ensures packet[o + i..o + j] == name[i..j] && (i < j ==> packet[o + i] == name[i])
  {
    forall k | i <= k < j
      ensures packet[o + k] == name[k]
    {
      assert packet[o..o + |name|][k] == packet[o + k];
    }
  }

  lemma EncodedParts(labels: seq<Data>)
    requires Plain(labels)
    ensures labels == [] ==> Encode(labels) == [0]
    ensures labels != [] ==>
      var n, name := |labels[0]|, Encode(labels);
      && |name| == 1 + n + |Encode(labels[1..])| && name[0] == n
      && name[1..1 + n] == labels[0] && name[1 + n..] == Encode(labels[1..])
  {
  }

  // ---- The reply -------------------------------------------------------------------------

  datatype Made = Reply(bytes: Data) | Dropped

  function Word(packet: Data, o: nat): nat
    requires o + 1 < |packet|
  {
    var high: nat, low: nat := packet[o], packet[o + 1];
    high * 256 + low
  }

  function Lower(s: Data): (l: Data)
    ensures |l| == |s|
  {
    seq(|s|, i requires 0 <= i < |s| => if 65 <= s[i] <= 90 then s[i] + 32 else s[i])
  }

  function StripDots(s: Data): (r: Data)
    ensures r <= s
  {
    if s != [] && s[|s| - 1] == DOT then StripDots(s[..|s| - 1]) else s
  }

  predicate EndsWith(s: Data, tail: Data) {
    |tail| <= |s| && s[|s| - |tail|..] == tail
  }

  predicate Matches(name: Data, suffix: Data) {
    var n, s := StripDots(Lower(name)), StripDots(Lower(suffix));
    n == s || EndsWith(n, [DOT] + s)
  }

  /** A header with QR set and RD copied; `low` holds the rest of the flags. */
  function Header(packet: Data, low: Byte, counts: Data): Data
    requires |packet| >= 12
  {
    packet[..2] + [128 + packet[2] % 2, low] + counts
  }

  const ONE: Data := [0, 1]
  const REFUSED: Byte := 5
  const AVAILABLE: Byte := 0x80

  /** Pointer to the question name, type A, class IN, 60 seconds, four bytes. */
  const RECORD: Data := [0xC0, 0x0C, 0, 1, 0, 1, 0, 0, 0, 60, 0, 4]

  function MakeResponse(packet: Data, answer: Data, suffix: Data): Made {
    if |packet| < 12 then Dropped
    else if Word(packet, 4) != 1 then
      Reply(Header(packet, REFUSED, packet[4..6] + Zeros(6)) + packet[12..])
    else
      match NameAt(packet, 12)
      case BadName(_) => Dropped
      case Name(name, end) =>
        if end + 4 > |packet| then Dropped
        else
          var question := packet[12..end + 4];
          if Word(packet, end) == 1 && Word(packet, end + 2) == 1 && Matches(name, suffix) then
            Reply(Header(packet, AVAILABLE, ONE + ONE + Zeros(4)) + question + RECORD + answer)
          else
            Reply(Header(packet, REFUSED, ONE + Zeros(6)) + question)
  }

  predicate Answered(packet: Data, suffix: Data) {
    && |packet| >= 12 && Word(packet, 4) == 1
    && NameAt(packet, 12).Name?
    && NameAt(packet, 12).end + 4 <= |packet|
    && Word(packet, NameAt(packet, 12).end) == 1 && Word(packet, NameAt(packet, 12).end + 2) == 1
    && Matches(NameAt(packet, 12).name, suffix)
  }

  /** A well-formed single question, whatever it asks for. */
  predicate Asks(packet: Data) {
    && |packet| >= 12 && Word(packet, 4) == 1
    && NameAt(packet, 12).Name?
    && NameAt(packet, 12).end + 4 <= |packet|
  }

  lemma AgreeOnQuestion(packet: Data, reply: Data, hi: nat)
    requires 12 <= hi <= |packet| && hi <= |reply| && packet[12..hi] == reply[12..hi]
    ensures Agree(packet, reply, Span(12, hi))
  {
    forall k | 12 <= k < hi
      ensures packet[k] == reply[k]
    {
      assert packet[12..hi][k - 12] == packet[k] && reply[12..hi][k - 12] == reply[k];
    }
  }

  /** Every reply to a name that stays inside the question repeats that name. */
  lemma QuestionIsKept(packet: Data, answer: Data, suffix: Data)
    requires Asks(packet) && Reads(packet, 12, {}, Span(12, NameAt(packet, 12).end + 4))
    ensures MakeResponse(packet, answer, suffix).Reply?
    ensures var end, reply := NameAt(packet, 12).end, MakeResponse(packet, answer, suffix).bytes;
      && end + 4 <= |reply| && reply[12..end + 4] == packet[12..end + 4]
      && NameAt(reply, 12) == NameAt(packet, 12)
      && Reads(reply, 12, {}, Span(12, end + 4))
  {
    hide Walk, End, Reads, Matches, Join;
    var end, reply := NameAt(packet, 12).end, MakeResponse(packet, answer, suffix).bytes;
    assert |reply| >= end + 4 && reply[12..end + 4] == packet[12..end + 4];
    AgreeOnQuestion(packet, reply, end + 4);
    ReadsAgree(packet, reply, 12, {}, Span(12, end + 4));
  }

  /** A pointer to a readable name reads as that name and ends behind the pointer. */
  lemma PointerReads(packet: Data, o: nat, t: nat)
    requires o + 1 < |packet| && IsPointer(packet[o]) && Target(packet, o) == t
    requires NameAt(packet, t).Name?
    ensures NameAt(packet, o).Name? && NameAt(packet, o) == Name(NameAt(packet, t).name, o + 2)
  {
    SelfSeen(packet, t, t);
    assert {} + {t} == {t};
  }

  /** An answer's own name, the pointer behind the question, reads as the name asked for. */
  lemma AnswerNamesTheQuestion(packet: Data, answer: Data, suffix: Data)
    requires Answered(packet, suffix) && Asks(packet) && Reads(packet, 12, {}, Span(12, NameAt(packet, 12).end + 4))
    ensures var asked, reply := NameAt(packet, 12), MakeResponse(packet, answer, suffix).bytes;
      && NameAt(reply, 12) == asked
      && NameAt(reply, asked.end + 4) == Name(asked.name, asked.end + 6)
  {
    hide Walk, End, Reads, Matches, Join;
    var end, reply := NameAt(packet, 12).end, MakeResponse(packet, answer, suffix).bytes;
    QuestionIsKept(packet, answer, suffix);
    assert reply[end + 4] == 0xC0 && reply[end + 5] == 0x0C;
    PointerReads(reply, end + 4, 12);
  }

  /** For every uncompressed question: both names in the reply decode to the queried one. */
  lemma UncompressedReply(packet: Data, labels: seq<Data>, answer: Data, suffix: Data)
    requires Plain(labels) && |packet| >= 16 + |Encode(labels)| && Word(packet, 4) == 1
    requires packet[12..12 + |Encode(labels)|] == Encode(labels)
    ensures MakeResponse(packet, answer, suffix).Reply?
    ensures var end, name := 12 + |Encode(labels)|, Join(AsciiAll(labels));
      var reply := MakeResponse(packet, answer, suffix).bytes;
      && NameAt(reply, 12) == Name(name, end)
      && (Word(packet, end) == 1 && Word(packet, end + 2) == 1 && Matches(name, suffix) ==>
            NameAt(reply, end + 4) == Name(name, end + 6) && EndsWith(reply, RECORD + answer))
  {
    hide Walk, End, Reads, Matches, Join, Encode, AsciiAll;
    var end := 12 + |Encode(labels)|;
    EncodedNameReads(packet, 12, labels, 12, end + 4);
    QuestionIsKept(packet, answer, suffix);
    if Answered(packet, suffix) {
      AnswerNamesTheQuestion(packet, answer, suffix);
    }
  }

  // ---- When a reply keeps the name -----------------------------------------------------

  /**
   Where a shorter packet agrees on what it still has: a name that reads on behind its end cannot
   be read from it.
   */
  lemma {:induction false} ReadsPastTheEnd(p: Data, r: Data, o: nat, seen: set<nat>, part: set<nat>)
    requires |r| <= |p| && Agree(p, r, part * Span(0, |r|))
    requires Reads(p, o, seen, part) && !Reads(p, o, seen, part * Span(0, |r|))
    ensures Walk(r, o, seen).Malformed?
    decreases Targets() - seen, |p| - o
  {
    hide Ascii, Walk, Prepend;
    WalkHere(r, o, seen);
    if o < |r| {
      assert p[o] == r[o];
      var length: nat := p[o];
      if IsPointer(length) {
        if o + 1 < |r| {
          assert p[o + 1] == r[o + 1];
          var t := Target(p, o);
          assert IsTarget(t) && t in Targets() - seen;
          ReadsPastTheEnd(p, r, t, seen + {t}, part);
        }
      } else if length != 0 && o + 1 + length <= |r| {
        ReadsPastTheEnd(p, r, o + 1 + length, seen, part);
        PrependTwice([Ascii(r[o + 1..o + 1 + length])], [], Walk(r, o + 1 + length, seen));
      }
    }
  }

  /** The headers of a refusal and of an answer. */
  function RefusalHeader(packet: Data): (h: Data)
    requires |packet| >= 12
    ensures |h| == 12
  {
    Header(packet, REFUSED, ONE + Zeros(6))
  }

  function AnswerHeader(packet: Data): (h: Data)
    requires |packet| >= 12
    ensures |h| == 12
  {
    Header(packet, AVAILABLE, ONE + ONE + Zeros(4))
  }

  /** The header bytes that a refusal leaves as they are, and those that every reply does. */
  function KeptByRefusal(packet: Data): set<nat>
    requires |packet| >= 12
  {
    set k: nat | k < 12 && packet[k] == RefusalHeader(packet)[k]
  }

  function KeptByAll(packet: Data): set<nat>
    requires |packet| >= 12
  {
    set k: nat | k in KeptByRefusal(packet) && packet[k] == AnswerHeader(packet)[k]
  }

  /** The question's name takes no header byte but these. */
  ghost predicate AvoidsHeader(packet: Data, kept: set<nat>) { Reads(packet, 12, {}, kept + Span(12, |packet|)) }

  /** Everything the question's name reads lies in the question or at one of these header bytes. */
  ghost predicate SelfContained(packet: Data, kept: set<nat>)
    requires Asks(packet)
  {
    Reads(packet, 12, {}, kept + Span(12, NameAt(packet, 12).end + 4))
  }

  /** The reply's question names what the query asked for. */
  predicate KeepsName(packet: Data, answer: Data, suffix: Data) {
    var made := MakeResponse(packet, answer, suffix);
    made.Reply? && NameAt(made.bytes, 12) == NameAt(packet, 12)
  }

  /** A reply is one of the two headers and the question, and an answer goes on. */
  lemma ReplyParts(packet: Data, answer: Data, suffix: Data)
    requires Asks(packet)
    ensures var end, made := NameAt(packet, 12).end, MakeResponse(packet, answer, suffix);
      && made.Reply? && end + 4 <= |made.bytes| && made.bytes[12..end + 4] == packet[12..end + 4]
      && made.bytes[..12] == (if Answered(packet, suffix) then AnswerHeader(packet) else RefusalHeader(packet))
      && (!Answered(packet, suffix) ==> |made.bytes| == end + 4)
  {
    hide NameAt, Matches;
  }

  lemma AgreeOnKept(packet: Data, reply: Data, kept: set<nat>, hi: nat)
    requires 12 <= hi <= |packet| && hi <= |reply| && packet[12..hi] == reply[12..hi]
    requires forall k :: k in kept ==> k < 12 && packet[k] == reply[..12][k]
    ensures Agree(packet, reply, kept + Span(12, hi))
  {
    AgreeOnQuestion(packet, reply, hi);
  }

  lemma ContainedIsKept(packet: Data, answer: Data, suffix: Data, kept: set<nat>)
    requires Asks(packet) && SelfContained(packet, kept)
    requires kept <= if Answered(packet, suffix) then KeptByAll(packet) else KeptByRefusal(packet)
    ensures KeepsName(packet, answer, suffix)
  {
    hide Walk, End, Reads, Matches, Join, MakeResponse, Answered, RefusalHeader, AnswerHeader;
    ReplyParts(packet, answer, suffix);
    var end, reply := NameAt(packet, 12).end, MakeResponse(packet, answer, suffix).bytes;
    AgreeOnKept(packet, reply, kept, end + 4);
    ReadsAgree(packet, reply, 12, {}, kept + Span(12, end + 4));
  }

  lemma RefusalNeedsContained(packet: Data, answer: Data, suffix: Data, kept: set<nat>)
    requires Asks(packet) && !Answered(packet, suffix) && kept <= KeptByRefusal(packet)
    requires AvoidsHeader(packet, kept) && !SelfContained(packet, kept)
    ensures !KeepsName(packet, answer, suffix)
  {
    hide Walk, End, Reads, Matches, Join, MakeResponse, Answered, RefusalHeader, AnswerHeader;
    ReplyParts(packet, answer, suffix);
    var end, reply := NameAt(packet, 12).end, MakeResponse(packet, answer, suffix).bytes;
    AgreeOnKept(packet, reply, kept, end + 4);
    assert (kept + Span(12, |packet|)) * Span(0, |reply|) == kept + Span(12, end + 4);
    ReadsPastTheEnd(packet, reply, 12, {}, kept + Span(12, |packet|));
  }

  /**
   A refusal ends with the question. For a name that takes no header byte the refusal changes, it
   keeps the name exactly when question and header hold all of it.
   */
  lemma RefusalKeepsNameExactly(packet: Data, answer: Data, suffix: Data)
    requires Asks(packet) && AvoidsHeader(packet, KeptByRefusal(packet)) && !Answered(packet, suffix)
    ensures KeepsName(packet, answer, suffix) <==> SelfContained(packet, KeptByRefusal(packet))
  {
    if SelfContained(packet, KeptByRefusal(packet)) {
      ContainedIsKept(packet, answer, suffix, KeptByRefusal(packet));
    } else {
      RefusalNeedsContained(packet, answer, suffix, KeptByRefusal(packet));
    }
  }

  lemma LongSuffixMatchesNothing(name: Data)
    ensures !Matches(name, seq(|name| + 1, _ => 97))
  {
    var suffix: Data := seq(|name| + 1, _ => 97);
    assert Lower(suffix) == suffix && StripDots(suffix) == suffix;
  }

  /**
   For every question whose name takes no header byte that a reply changes: every reply to it names
   what was asked exactly when question and header hold all of its name.
   */
  lemma RepliesKeepNameExactly(packet: Data)
    requires Asks(packet) && AvoidsHeader(packet, KeptByAll(packet))
    ensures (forall answer, suffix :: KeepsName(packet, answer, suffix)) <==> SelfContained(packet, KeptByAll(packet))
  {
    hide Walk, End, Reads, Matches, Join, MakeResponse, KeptByRefusal;
    if SelfContained(packet, KeptByAll(packet)) {
      forall answer, suffix
        ensures KeepsName(packet, answer, suffix)
      {
        ContainedIsKept(packet, answer, suffix, KeptByAll(packet));
      }
    } else {
      var name := NameAt(packet, 12).name;
      var suffix: Data := seq(|name| + 1, _ => 97);
      LongSuffixMatchesNothing(name);
      RefusalNeedsContained(packet, [], suffix, KeptByAll(packet));
    }
  }

  /** Header, a question name that points behind the question, A and IN, then the name "a". */
  const STRAY: Data := Zeros(5) + [1] + Zeros(6) + [0xC0, 18, 0, 1, 0, 1] + [1, 97, 0]

  /** A compressed question is answered although its name does not survive in the reply. */
  lemma CompressedQuestionBreaks(answer: Data)
    ensures NameAt(STRAY, 12) == Name([97], 14) && Answered(STRAY, [97])
    ensures MakeResponse(STRAY, answer, [97]).Reply?
    ensures NameAt(MakeResponse(STRAY, answer, [97]).bytes, 12) == BadName(CompressionLoop)
  {
    hide MakeResponse;
    StrayReads();
    StrayIsAnswered();
    StrayReply(answer);
    var reply := MakeResponse(STRAY, answer, [97]).bytes;
    assert Target(reply, 12) == 18 && Target(reply, 18) == 12;
    assert {} + {18} == {18} && {18} + {12} == {18, 12};
    assert Walk(reply, 12, {18, 12}) == Malformed(CompressionLoop);
    assert Walk(reply, 18, {18}) == Malformed(CompressionLoop);
  }

  lemma StrayBytes()
    ensures Ascii([97]) == [97] && Matches([97], [97])
    ensures |STRAY| == 21 && STRAY[12] == 0xC0 && STRAY[13] == 18 && STRAY[18] == 1 && STRAY[19] == 97 && STRAY[20] == 0
    ensures Word(STRAY, 4) == 1 && Word(STRAY, 14) == 1 && Word(STRAY, 16) == 1
  {
    assert [97][1..] == [];
    assert STRAY[12..] == [0xC0, 18, 0, 1, 0, 1, 1, 97, 0];
    assert STRAY[12..][0] == STRAY[12] && STRAY[12..][6] == STRAY[18];
  }

  lemma StrayReads()
    ensures NameAt(STRAY, 12) == Name([97], 14)
  {
    StrayBytes();
    hide Ascii;
    assert Target(STRAY, 12) == 18;
    assert Walk(STRAY, 20, {18}) == Labels([]);
    assert STRAY[19..20] == [97];
    assert Walk(STRAY, 18, {18}) == Labels([[97]]);
    assert {} + {18} == {18};
  }

  lemma StrayIsAnswered()
    ensures Answered(STRAY, [97])
  {
    hide NameAt, Matches;
    StrayBytes();
    StrayReads();
  }

  lemma StrayReply(answer: Data)
    ensures var made := MakeResponse(STRAY, answer, [97]);
      && made.Reply? && |made.bytes| > 19
      && made.bytes[12] == 0xC0 && made.bytes[13] == 18 && made.bytes[18] == 0xC0 && made.bytes[19] == 0x0C
  {
    hide NameAt, Matches;
    StrayBytes();
    StrayReads();
    StrayIsAnswered();
  }

  /** A header whose last bytes read `1, b, 0`, and a question name that points at them. */
  function Header9(b: Byte): Data { Zeros(5) + [1] + Zeros(3) + [1, b, 0] + [0xC0, 9, 0, 1, 0, 1] }

  lemma Header9Bytes(b: Byte)
    ensures var p := Header9(b);
      && |p| == 18 && p[9] == 1 && p[10] == b && p[11] == 0 && p[12] == 0xC0 && p[13] == 9
      && Word(p, 4) == 1 && Target(p, 12) == 9 && p[10..11] == [b]
    ensures Ascii([97]) == [97] && Ascii([200]) == []
  {
    assert [97][1..] == [] && [200][1..] == [];
    assert Header9(b)[9..] == [1, b, 0, 0xC0, 9, 0, 1, 0, 1];
    assert Header9(b)[9..][3] == Header9(b)[12];
  }

  lemma Header9Reads(b: Byte)
    ensures NameAt(Header9(b), 12) == Name(Ascii([b]), 14) && Asks(Header9(b))
  {
    hide Ascii, Header9;
    Header9Bytes(b);
    var p := Header9(b);
    assert Walk(p, 11, {9}) == Labels([]);
    assert Walk(p, 9, {9}) == Labels([Ascii([b])]);
    assert {} + {9} == {9};
  }

  lemma RefusedHeader9(b: Byte, answer: Data, suffix: Data)
    requires !Answered(Header9(b), suffix)
    ensures MakeResponse(Header9(b), answer, suffix).Reply?
    ensures NameAt(MakeResponse(Header9(b), answer, suffix).bytes, 12) == Name([], 14)
  {
    hide NameAt, Matches, Answered, Header9;
    Header9Bytes(b);
    Header9Reads(b);
    ReplyParts(Header9(b), answer, suffix);
    var reply := MakeResponse(Header9(b), answer, suffix).bytes;
    assert reply[12..18][0] == reply[12] && reply[12..18][1] == reply[13] && reply[..12][9] == reply[9];
    EmptyBehindPointer(reply);
  }

  lemma EmptyBehindPointer(reply: Data)
    requires |reply| == 18 && reply[12] == 0xC0 && reply[13] == 9 && reply[9] == 0
    ensures NameAt(reply, 12) == Name([], 14)
  {
    assert Target(reply, 12) == 9 && {} + {9} == {9};
    assert Walk(reply, 9, {9}) == Labels([]);
  }

  /**
   Behind that limit no condition on which bytes are read decides: two names read the same bytes,
   all changed by the refusal, and one is lost while the other, whose one letter is dropped, is kept.
   */
  lemma HeaderNamesGoEitherWay(answer: Data, suffix: Data)
    requires !Answered(Header9(97), suffix) && !Answered(Header9(200), suffix)
    ensures !KeepsName(Header9(97), answer, suffix) && KeepsName(Header9(200), answer, suffix)
  {
    hide NameAt, Answered, Header9, MakeResponse;
    Header9Bytes(97);
    Header9Reads(97);
    Header9Reads(200);
    RefusedHeader9(97, answer, suffix);
    RefusedHeader9(200, answer, suffix);
  }

  // ---- Which names are answered ----------------------------------------------------------

  predicate Dotless(labels: seq<Data>) {
    forall i :: 0 <= i < |labels| ==> DOT !in labels[i]
  }

  /** The labels of a text, cut at every dot. */
  function Split(text: Data): (labels: seq<Data>)
    ensures labels != [] && Dotless(labels)
  {
    if text == [] then [[]]
    else
      var n := |text| - 1;
      var front := Split(text[..n]);
      var last := |front| - 1;
      if text[n] == DOT then front + [[]] else front[last := front[last] + [text[n]]]
  }

  predicate TailOf(zone: seq<Data>, labels: seq<Data>) {
    |zone| <= |labels| && labels[|labels| - |zone|..] == zone
  }

  /** Each label with a dot before it. */
  function Dotted(labels: seq<Data>): Data {
    if labels == [] then [] else Dotted(labels[..|labels| - 1]) + ([DOT] + labels[|labels| - 1])
  }

  lemma {:induction false} DottedFront(labels: seq<Data>)
    requires labels != []
    ensures Dotted(labels) == [DOT] + labels[0] + Dotted(labels[1..])
  {
    var n := |labels| - 1;
    if n > 0 {
      DottedFront(labels[..n]);
      assert labels[..n][1..] == labels[1..][..n - 1] && labels[1..][n - 1] == labels[n];
    } else {
      assert labels[..0] == [];
    }
  }

  lemma {:induction false} DottedJoin(labels: seq<Data>)
    requires labels != []
    ensures Dotted(labels) == [DOT] + Join(labels)
  {
    hide Dotted;
    DottedFront(labels);
    if |labels| > 1 {
      DottedJoin(labels[1..]);
      assert [DOT] + labels[0] + ([DOT] + Join(labels[1..])) == [DOT] + (labels[0] + [DOT] + Join(labels[1..]));
    } else {
      DottedShape(labels[1..]);
    }
  }

  lemma LastDot(x: Data, l: Data, k: nat)
    requires DOT !in l && k < |x| + 1 + |l|
    ensures (x + ([DOT] + l))[|x|] == DOT
    ensures (x + ([DOT] + l))[k] == DOT ==> k <= |x|
  {
    if k > |x| {
      assert (x + ([DOT] + l))[k] == l[k - |x| - 1];
    }
  }

  lemma TailAt(a: Data, b: Data, k: int)
    requires EndsWith(a, b)
    ensures |b| <= |a| && (|a| - |b| <= k < |a| ==> b[k - (|a| - |b|)] == a[k])
  {
  }

  /** The last dots of a text and of its ending are the same dot. */
  lemma SeamsMeet(x: Data, l: Data, y: Data, s: Data)
    requires DOT !in l && DOT !in s && EndsWith(x + ([DOT] + l), y + ([DOT] + s))
    ensures |l| == |s|
  {
    hide EndsWith;
    var a, b := x + ([DOT] + l), y + ([DOT] + s);
    TailAt(a, b, 0);
    var shift := |a| - |b|;
    LastDot(y, s, if |x| < shift then 0 else |x| - shift);
    LastDot(x, l, shift + |y|);
    TailAt(a, b, if |x| < shift then shift else |x|);
    TailAt(a, b, shift + |y|);
  }

  lemma SameSeam(x: Data, l: Data, y: Data, s: Data)
    requires |l| == |s|
    ensures EndsWith(x + ([DOT] + l), y + ([DOT] + s)) <==> EndsWith(x, y) && l == s
  {
    if |y| <= |x| {
      var k := |x| - |y|;
      assert (x + ([DOT] + l))[k..] == x[k..] + ([DOT] + l);
      assert (x[k..] + ([DOT] + l))[..|y|] == x[k..] && (x[k..] + ([DOT] + l))[|y| + 1..] == l;
      assert (y + ([DOT] + s))[..|y|] == y && (y + ([DOT] + s))[|y| + 1..] == s;
    }
  }

  lemma LastLabels(x: Data, l: Data, y: Data, s: Data)
    requires DOT !in l && DOT !in s
    ensures EndsWith(x + ([DOT] + l), y + ([DOT] + s)) <==> EndsWith(x, y) && l == s
  {
    if EndsWith(x + ([DOT] + l), y + ([DOT] + s)) {
      SeamsMeet(x, l, y, s);
    }
    if |l| == |s| {
      SameSeam(x, l, y, s);
    }
  }

  lemma {:induction false} DottedEndsWith(labels: seq<Data>, zone: seq<Data>)
    requires Dotless(labels) && Dotless(zone)
    ensures EndsWith(Dotted(labels), Dotted(zone)) <==> TailOf(zone, labels)
    decreases |zone|
  {
    hide EndsWith, TailOf, Dotted;
    DottedShape(labels);
    DottedShape(zone);
    if zone == [] || labels == [] {
      EmptyTails(Dotted(labels), Dotted(zone), labels, zone);
    } else {
      var n, z := |labels| - 1, |zone| - 1;
      DottedEndsWith(labels[..n], zone[..z]);
      LastLabels(Dotted(labels[..n]), labels[n], Dotted(zone[..z]), zone[z]);
      TailStep(labels, zone);
    }
  }

  lemma DottedShape(labels: seq<Data>)
    ensures labels == [] ==> Dotted(labels) == []
    ensures labels != [] ==>
      Dotted(labels) != [] && Dotted(labels) == Dotted(labels[..|labels| - 1]) + ([DOT] + labels[|labels| - 1])
  {
  }

  lemma EmptyTails(text: Data, end: Data, labels: seq<Data>, zone: seq<Data>)
    requires (labels == [] <==> text == []) && (zone == [] <==> end == []) && (labels == [] || zone == [])
    ensures EndsWith(text, end) <==> TailOf(zone, labels)
  {
  }

  lemma TailStep(labels: seq<Data>, zone: seq<Data>)
    requires labels != [] && zone != []
    ensures var n, z := |labels| - 1, |zone| - 1;
      TailOf(zone, labels) <==> TailOf(zone[..z], labels[..n]) && labels[n] == zone[z]
  {
    var n, z := |labels| - 1, |zone| - 1;
    if |zone| <= |labels| {
      var k := |labels| - |zone|;
      assert labels[..n][k..] == labels[k..][..z];
      assert labels[k..] == labels[k..][..z] + [labels[n]];
      assert zone == zone[..z] + [zone[z]];
    }
  }

  lemma DottedGrows(labels: seq<Data>, b: Byte)
    requires labels != []
    ensures var last := |labels| - 1;
      Dotted(labels[last := labels[last] + [b]]) == Dotted(labels) + [b]
  {
    var last := |labels| - 1;
    var grown := labels[last := labels[last] + [b]];
    assert grown[..last] == labels[..last] && grown[last] == labels[last] + [b];
    assert [DOT] + (labels[last] + [b]) == ([DOT] + labels[last]) + [b];
    assert Dotted(grown) == Dotted(labels[..last]) + ([DOT] + grown[last]);
  }

  lemma {:induction false} DottedSplit(text: Data)
    ensures Dotted(Split(text)) == [DOT] + text
  {
    if text == [] {
      var one: seq<Data> := [[]];
      assert one[..0] == [] && Dotted(one) == [DOT];
    } else {
      var n := |text| - 1;
      var front := Split(text[..n]);
      var last := |front| - 1;
      DottedSplit(text[..n]);
      assert text == text[..n] + [text[n]];
      if text[n] == DOT {
        assert (front + [[]])[..|front|] == front;
      } else {
        DottedGrows(front, text[n]);
      }
    }
  }

  lemma DotAhead(n: Data, s: Data)
    requires |s| < |n|
    ensures ([DOT] + n)[|n| - |s|..] == n[|n| - |s| - 1..]
  {
  }

  /**
   The suffix test on strings, for any two strings: letter case and closing dots aside, the labels
   of the name end with the labels of the suffix.
   */
  lemma MatchesExactly(name: Data, suffix: Data)
    ensures Matches(name, suffix) <==> TailOf(Split(StripDots(Lower(suffix))), Split(StripDots(Lower(name))))
  {
    hide Dotted, Lower, StripDots, Split, TailOf;
    var n, s := StripDots(Lower(name)), StripDots(Lower(suffix));
    DottedSplit(n);
    DottedSplit(s);
    if |s| < |n| {
      DotAhead(n, s);
    } else if |s| == |n| {
      assert ([DOT] + n)[0..] == [DOT] + n && ([DOT] + n)[1..] == n && ([DOT] + s)[1..] == s;
    }
    DottedEndsWith(Split(n), Split(s));
  }

  // ---- The test on lists of labels -------------------------------------------------------

  /** Labels as host names have them: not empty, no dot inside. */
  predicate Host(labels: seq<Data>) {
    Dotless(labels) && forall i :: 0 <= i < |labels| ==> labels[i] != []
  }

  function LowerAll(labels: seq<Data>): (l: seq<Data>)
    ensures |l| == |labels|
  {
    seq(|labels|, i requires 0 <= i < |labels| => Lower(labels[i]))
  }

  /** Different label lists read differently, so cutting undoes joining. */
  lemma SplitJoin(labels: seq<Data>)
    requires Dotless(labels) && labels != []
    ensures Split(Join(labels)) == labels
  {
    hide Dotted, Split, Join;
    DottedJoin(labels);
    DottedSplit(Join(labels));
    SameDotted(Split(Join(labels)), labels);
  }

  lemma SameDotted(a: seq<Data>, b: seq<Data>)
    requires Dotless(a) && Dotless(b) && Dotted(a) == Dotted(b)
    ensures a == b
  {
    hide Dotted;
    assert Dotted(a)[0..] == Dotted(b);
    DottedEndsWith(a, b);
    DottedEndsWith(b, a);
    assert a[0..] == a && b[0..] == b;
  }

  lemma {:induction false} LowerJoin(labels: seq<Data>)
    ensures Lower(Join(labels)) == Join(LowerAll(labels))
  {
    if |labels| > 1 {
      LowerJoin(labels[1..]);
      assert LowerAll(labels)[1..] == LowerAll(labels[1..]);
      assert Lower(Join(labels)) == Lower(labels[0]) + [DOT] + Lower(Join(labels[1..]));
    }
  }

  lemma {:induction false} JoinIsStripped(labels: seq<Data>)
    requires Host(labels)
    ensures StripDots(Join(labels)) == Join(labels)
    ensures labels != [] ==> Join(labels) != [] && Join(labels)[|Join(labels)| - 1] != DOT
  {
    if |labels| > 1 {
      JoinIsStripped(labels[1..]);
    } else if |labels| == 1 {
      var l := labels[0];
      assert l[|l| - 1] in l;
    }
  }

  lemma LowerKeepsHost(labels: seq<Data>)
    requires Host(labels)
    ensures Host(LowerAll(labels))
  {
    forall i | 0 <= i < |labels|
      ensures LowerAll(labels)[i] != [] && DOT !in LowerAll(labels)[i]
    {
      assert LowerAll(labels)[i] == Lower(labels[i]);
      assert |Lower(labels[i])| == |labels[i]|;
      assert forall k :: 0 <= k < |labels[i]| ==> labels[i][k] in labels[i];
    }
  }

  /** So a host name is answered exactly when it is the zone or lies below it, letter case aside. */
  lemma HostsMatchExactly(labels: seq<Data>, zone: seq<Data>)
    requires Host(labels) && Host(zone) && zone != []
    ensures Matches(Join(labels), Join(zone)) <==> TailOf(LowerAll(zone), LowerAll(labels))
  {
    hide Join, Lower, StripDots, Split, Dotted;
    var l, z := LowerAll(labels), LowerAll(zone);
    LowerJoin(labels);
    LowerJoin(zone);
    LowerKeepsHost(labels);
    LowerKeepsHost(zone);
    JoinIsStripped(l);
    JoinIsStripped(z);
    MatchesExactly(Join(labels), Join(zone));
    SplitJoin(z);
    if labels != [] {
      SplitJoin(l);
    } else {
      NothingAbove(z);
    }
  }

  lemma NothingAbove(zone: seq<Data>)
    requires Host(zone) && zone != []
    ensures !TailOf(zone, Split(Join([])))
  {
    assert Split([]) == [[]] && Join([]) == [];
    assert zone[|zone| - 1] != [];
  }
}
