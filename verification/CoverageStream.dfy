/**
 The incremental manifest reader of `tools/coverage_stream.py`: a sliding window over a file
 that arrives in pieces, and the walk that yields manifest members one at a time.
 */
module CoverageStream {
  import opened Bytes
  import opened Json
  import opened JsonPrefixes

  // ---- The accept test of `value()` ----------------------------------------------------

  /** A decode that ended before the edge of the buffer. */
  predicate Accepted(buffer: Text) {
    ParseValue(buffer).Parsed? && ParseValue(buffer).rest != []
  }

  lemma NumberStaysNumber(b: Text, m: Text)
    requires ParseValue(b).Parsed? && ParseValue(b).value.Number?
    ensures NumberLength(b) > 0 && NumberLength(b + m) > 0
    ensures ParseValue(b) == ParseNumber(b) && ParseValue(b + m) == ParseNumber(b + m)
  {
    ValueIsNumber(b);
    IntegerLengthExtends(b, m);
    NumberIsValue(b + m);
  }

  /** An accepted decode is final unless the whole text holds a fraction or exponent there. */
  lemma AcceptedIsFinal(b: Text, m: Text)
    requires Accepted(b)
    requires ParseValue(b + m).Parsed? ==> Integral(ParseValue(b + m).value)
    ensures ParseValue(b + m) == Parsed(ParseValue(b).value, ParseValue(b).rest + m)
  {
    var p := ParseValue(b);
    if Closed(p.value, p.rest) {
      ValueExtends(b, m);
    } else {
      NumberStaysNumber(b, m);
      IntegralLexeme(b + m);
      IntegerNumberExtends(b, m);
      CutExtends(b, m, NumberLength(b));
    }
  }

  lemma {:induction false} DigitRunPrefix(s: Text, k: nat)
    requires k <= |s|
    ensures DigitRun(s[..k]) == if DigitRun(s) < k then DigitRun(s) else k
  {
    if k > 0 && IsDigit(s[0]) {
      assert s[..k][1..] == s[1..][..k - 1];
      DigitRunPrefix(s[1..], k - 1);
    }
  }

  lemma IntegerLengthPrefix(s: Text, k: nat)
    requires 0 < IntegerLength(s) < k <= |s|
    ensures IntegerLength(s[..k]) == IntegerLength(s)
  {
    if s[0] == MINUS {
      assert s[..k][1..] == s[1..][..k - 1];
      DigitRunPrefix(s[1..], k - 1);
    } else {
      DigitRunPrefix(s, k);
    }
  }

  /** A fractional number cut one character into its fraction or exponent reads as its integer part. */
  lemma FractionIsCutShort(u: Text)
    requires NumberLength(u) > IntegerLength(u)
    ensures var k := IntegerLength(u) + 1;
      k <= |u| && ParseValue(u[..k]) == Parsed(Number(u[..k - 1]), [u[k - 1]])
  {
    hide IntegerLength, FractionLength, ExponentLength;
    var i := IntegerLength(u);
    var b := u[..i + 1];
    NumberHasInteger(u);
    IntegerLengthPrefix(u, i + 1);
    assert b[i..] == [u[i]];
    OneCharacterTail(u[i]);
    NumberIsValue(b);
    assert b[..i] == u[..i];
  }

  lemma OneCharacterTail(c: int)
    ensures FractionLength([c]) == 0 && ExponentLength([c]) == 0
  {
    assert [c][1..] == [];
  }

  lemma FractionMisleads(u: Text)
    requires ParseValue(u).Parsed? && !Integral(ParseValue(u).value)
    ensures var k := IntegerLength(u) + 1;
      k <= |u| && Accepted(u[..k]) && ParseValue(u[..k]).value != ParseValue(u).value
  {
    ValueIsNumber(u);
    IntegralLexeme(u);
    FractionIsCutShort(u);
  }

  /**
   Exactly when the accept test can be trusted: every prefix it accepts decodes to the value of
   the whole text, if and only if that value is not a number with a fraction or an exponent.
   */
  lemma AcceptTestIsExact(u: Text)
    ensures (forall k :: 0 <= k <= |u| && Accepted(u[..k]) ==>
               ParseValue(u) == Parsed(ParseValue(u[..k]).value, ParseValue(u[..k]).rest + u[k..]))
       <==> (ParseValue(u).Parsed? ==> Integral(ParseValue(u).value))
  {
    if ParseValue(u).Parsed? && !Integral(ParseValue(u).value) {
      FractionMisleads(u);
    } else {
      forall k | 0 <= k <= |u| && Accepted(u[..k])
        ensures ParseValue(u) == Parsed(ParseValue(u[..k]).value, ParseValue(u[..k]).rest + u[k..])
      {
        assert u[..k] + u[k..] == u;
        AcceptedIsFinal(u[..k], u[k..]);
      }
    }
  }

  // ---- One character at a time ---------------------------------------------------------

  /** No shorter prefix passed the accept test. */
  ghost predicate NoneAccepted(text: Text, n: nat) { forall k: nat :: k < n && k <= |text| ==> !Accepted(text[..k]) }

  /** The first prefix to pass reaches at most one character past the value. */
  lemma FirstLeavesOne(text: Text, n: nat)
    requires n <= |text| && NoneAccepted(text, n)
    ensures ParseValue(text[..n]).Parsed? ==> |ParseValue(text[..n]).rest| <= 1
  {
    hide ParseValue;
    var p := ParseValue(text[..n]);
    if p.Parsed? && |p.rest| >= 2 {
      var b, m := text[..n - 1], [text[n - 1]];
      assert b + m == text[..n];
      ValueShrinks(b, m);
      assert false;
    }
  }

  /** And no number that has a fraction gets through whole: it would have passed at the mark. */
  lemma FirstCutsFractions(text: Text, n: nat)
    requires n <= |text| && NoneAccepted(text, n) && ParseValue(text[..n]).Parsed?
    requires Decoded(ParseValue(text), ParseValue(text[..n]).value, ParseValue(text[..n]).rest + text[n..])
    requires ParseValue(text).Parsed? && !Integral(ParseValue(text).value)
    ensures MarkAhead(ParseValue(text[..n]).rest + text[n..])
  {
    hide ParseValue, Integral, MarkAhead;
    FractionEnds(text);
    FractionMisleads(text);
    assert !NoneAccepted(text, IntegerLength(text) + 2);
  }

  /** A fraction or exponent takes two characters at least. */
  lemma FractionEnds(u: Text)
    requires ParseValue(u).Parsed? && !Integral(ParseValue(u).value)
    ensures |u| - |ParseValue(u).rest| >= IntegerLength(u) + 2
  {
    ValueIsNumber(u);
    IntegralLexeme(u);
  }

  /** What a decode of the first `n` characters says once it may be trusted. */
  lemma Trusted(text: Text, n: nat)
    requires n <= |text| && ParseValue(text[..n]).Parsed?
    requires ParseValue(text[..n]).rest != [] || n == |text|
    ensures var p, whole := ParseValue(text[..n]), ParseValue(text);
      && whole.Parsed? && Decoded(whole, p.value, p.rest + text[n..])
      && (NoneAccepted(text, n) ==> |p.rest| <= 1)
      && (NoneAccepted(text, n) && !Integral(whole.value) ==> MarkAhead(p.rest + text[n..]))
  {
    hide ParseValue, Integral, MarkAhead, NoneAccepted;
    assert text[..n] + text[n..] == text;
    DecodeAgrees(text[..n], text[n..]);
    if n == |text| {
      assert ParseValue(text[..n]).rest + text[n..] == ParseValue(text[..n]).rest;
    }
    if NoneAccepted(text, n) {
      FirstLeavesOne(text, n);
      if !Integral(ParseValue(text).value) {
        FirstCutsFractions(text, n);
      }
    }
  }

  lemma NothingAccepted(text: Text, n: nat)
    ensures n <= 1 ==> NoneAccepted(text, n)
  {
  }

  lemma NoneAcceptedYet(text: Text, n: nat)
    requires n <= |text|
    ensures NoneAccepted(text, n) && !Accepted(text[..n]) ==> NoneAccepted(text, n + 1)
  {
    hide Accepted;
  }

  // ---- The window ----------------------------------------------------------------------

  const MAX_CHUNK: nat := 0x1000_0000

  class Window {
    const most: nat       // the most characters the handle delivers at once
    var file: Text        // what the handle has not delivered yet
    var baseChunk: nat
    var chunk: nat
    var buf: Text
    var pos: nat
    var eof: bool

    ghost predicate Valid()
      reads this
    {
      pos <= |buf| && 0 < most && 0 < baseChunk && 0 < chunk && (eof ==> file == [])
    }

    /** The unconsumed text: what is left of the buffer and the rest of the file. */
    ghost function Unread(): Text
      requires Valid()
      reads this
    {
      buf[pos..] + file
    }

    /** The file arrives one character at a time, and no more than one is waiting. */
    ghost predicate Slow()
      reads this
    {
      most == 1 && |buf| - pos <= 1
    }

    constructor (text: Text, chunk: nat, most: nat)
      requires chunk > 0 && most > 0
      ensures Valid() && Unread() == text && this.most == most && (most == 1 ==> Slow())
    {
      this.most := most;
      file, baseChunk, this.chunk, buf, pos, eof := text, chunk, chunk, [], 0, false;
    }

    /** The handle: any amount up to `limit` and its own bound, but nothing only at the end of the file. */
    method Read(limit: nat) returns (data: Text)
      requires limit > 0 && most > 0
      modifies this`file
      ensures |data| <= most
      ensures data + file == old(file) && (data == [] <==> old(file) == [])
    {
      if file == [] {
        return [];
      }
      var n :| 1 <= n <= limit && n <= most && n <= |file|;
      data := file[..n];
      file := file[n..];
    }

    method Pull() returns (more: bool)
      requires Valid()
      modifies this
      ensures Valid() && Unread() == old(Unread())
      ensures more ==> |file| < old(|file|)
      ensures !more ==> eof && buf == old(buf) && pos == old(pos)
      ensures more ==> |buf| - pos >= old(|buf| - pos)
      ensures more && most == 1 ==> |buf| - pos == old(|buf| - pos) + 1
    {
      if eof {
        return false;
      }
      var data := Read(chunk);
      if data == [] {
        eof := true;
        return false;
      }
      ghost var before := buf[pos..];
      if pos != 0 {
        buf := buf[pos..];
        pos := 0;
      }
      assert buf[pos..] == before;
      buf := buf + data;
      assert buf[pos..] == before + data;
      chunk := if chunk * 2 < MAX_CHUNK then chunk * 2 else MAX_CHUNK;
      more := true;
    }

    method Settle()
      requires Valid()
      modifies this`chunk
      ensures Valid() && Unread() == old(Unread()) && (old(Slow()) ==> Slow())
    {
      chunk := baseChunk;
    }

    method SkipSpaces()
      requires Valid()
      modifies this
      ensures Valid() && Unread() == SkipSpace(old(Unread()))
      ensures pos < |buf| || Unread() == []
      ensures old(Slow()) ==> Slow()
    {
      while true
        invariant Valid() && SkipSpace(Unread()) == SkipSpace(old(Unread()))
        invariant old(Slow()) ==> Slow()
        decreases |file|
      {
        ghost var outer := file;
        while pos < |buf| && IsSpace(buf[pos])
          invariant Valid() && SkipSpace(Unread()) == SkipSpace(old(Unread()))
          invariant file == outer && (old(Slow()) ==> Slow())
          decreases |buf| - pos
        {
          assert Unread()[0] == buf[pos] && Unread()[1..] == buf[pos + 1..] + file;
          pos := pos + 1;
        }
        if pos < |buf| {
          assert Unread()[0] == buf[pos];
          return;
        }
        var more := Pull();
        if !more {
          assert Unread() == [];
          return;
        }
      }
    }

    /** The next character after white space, empty at the end of the text. */
    method Peek() returns (c: Text)
      requires Valid()
      modifies this
      ensures Valid() && Unread() == SkipSpace(old(Unread())) && c == Head(Unread())
      ensures c != [] ==> pos < |buf|
      ensures old(Slow()) ==> Slow()
    {
      SkipSpaces();
      if pos >= |buf| {
        return [];
      }
      assert Unread()[0] == buf[pos];
      c := [buf[pos]];
    }

    /** Consumes one expected character. */
    method Take(expected: int) returns (ok: bool)
      requires Valid()
      modifies this
      ensures Valid() && ok == (Head(SkipSpace(old(Unread()))) == [expected])
      ensures Unread() == if ok then SkipSpace(old(Unread()))[1..] else SkipSpace(old(Unread()))
      ensures old(Slow()) ==> Slow()
    {
      var got := Peek();
      if got != [expected] {
        return false;
      }
      assert Unread()[1..] == buf[pos + 1..] + file;
      pos := pos + 1;
      ok := true;
    }

    /** One turn of the loop in `value`: a decode of what is there, and a pull if that may not be trusted. */
    method Attempt(ghost text: Text, ghost slow: bool) returns (done: bool, ok: bool, v: Value)
      requires Valid() && Unread() == text && (slow ==> most == 1 && NoneAccepted(text, |buf| - pos))
      modifies this
      ensures Valid()
      ensures !done ==> |file| < old(|file|) && Unread() == text && (slow ==> NoneAccepted(text, |buf| - pos))
      ensures done ==> (ok <==> ParseValue(text).Parsed?) && |Unread()| <= |text|
      ensures done && ok ==> Decoded(ParseValue(text), v, Unread()) && |Unread()| < |text|
      ensures done && ok && slow ==> Slow() && (!Integral(ParseValue(text).value) ==> MarkAhead(Unread()))
    {
      hide ParseValue, Integral, NoneAccepted, Decoded, MarkAhead;
      var p := ParseValue(buf[pos..]);
      ghost var n := |buf| - pos;
      assert text[..n] == buf[pos..] && text[n..] == file;
      NoneAcceptedYet(text, n);
      v := Literal([]);
      if p.Fail? {
        var more := Pull();
        assert !more ==> text[..n] == text;
        return !more, false, v;
      }
      var end := |buf| - |p.rest|;
      SuffixOfParse(buf[pos..]);
      assert buf[end..] == p.rest;
      var more := false;
      if end >= |buf| && !eof {
        more := Pull();
      }
      if more {
        return false, true, v;
      }
      Trusted(text, n);
      pos := end;
      Settle();
      return true, true, p.value;
    }

    /**
     Decodes one value, however the file arrives. It fails exactly when the decode of the whole
     remaining text fails, and is that decode unless a number was cut short before its fraction or
     exponent; then the cursor is left on the mark.
     */
    method Next() returns (ok: bool, v: Value)
      requires Valid()
      modifies this
      ensures Valid() && (ok ==> |Unread()| < old(|Unread()|)) && |Unread()| <= old(|Unread()|)
      ensures ok <==> ParseValue(SkipSpace(old(Unread()))).Parsed?
      ensures ok ==> Decoded(ParseValue(SkipSpace(old(Unread()))), v, Unread())
      ensures ok && old(Slow()) ==> Slow()
      ensures ok && old(Slow()) && !Integral(ParseValue(SkipSpace(old(Unread()))).value) ==> MarkAhead(Unread())
    {
      hide ParseValue, SkipSpace, Integral, NoneAccepted, Decoded, MarkAhead;
      SkipSpaces();
      ghost var text, slow := Unread(), old(Slow());
      NothingAccepted(text, |buf| - pos);
      v := Literal([]);
      while true
        invariant Valid() && Unread() == text
        invariant slow ==> most == 1 && NoneAccepted(text, |buf| - pos)
        decreases |file|
      {
        var done;
        done, ok, v := Attempt(text, slow);
        if done {
          return;
        }
      }
    }
  }

  function Head(s: Text): Text { if s == [] then [] else s[..1] }

  /** The text goes on with what may lengthen a number. */
  predicate MarkAhead(s: Text) { s != [] && (s[0] == DOT || IsExponentMark(s[0])) }

  /** The whole text's decode, or a number cut short in front of its fraction or exponent. */
  ghost predicate Decoded(whole: Parse<Value>, v: Value, rest: Text) {
    && whole.Parsed?
    && (whole == Parsed(v, rest) || (!Integral(whole.value) && v.Number? && MarkAhead(rest)))
  }

  /** What a decode of the buffered part says about the whole text. */
  lemma DecodeAgrees(b: Text, m: Text)
    ensures Accepted(b) ==> Decoded(ParseValue(b + m), ParseValue(b).value, ParseValue(b).rest + m)
    ensures m == [] ==> ParseValue(b + m) == ParseValue(b)
  {
    assert b + [] == b;
    if Accepted(b) {
      var p, whole := ParseValue(b), ParseValue(b + m);
      if whole.Parsed? ==> Integral(whole.value) {
        AcceptedIsFinal(b, m);
      } else if Closed(p.value, p.rest) {
        ValueExtends(b, m);
      }
    }
  }
}
