/**
 The other half of prefix stability: a value of the whole text that ends before the edge of a
 prefix is already found in that prefix.
 */
module JsonPrefixes {
  import opened Bytes
  import opened Json

  lemma SpaceShrinks(b: Text, m: Text)
    requires |SkipSpace(b + m)| > |m|
    ensures SkipSpace(b) != [] && SkipSpace(b + m) == SkipSpace(b) + m
  {
    if SkipSpace(b) == [] {
      SpaceIsPassed(b, m);
    } else {
      SkipSpaceExtends(b, m);
    }
  }

  lemma {:induction false} SpaceIsPassed(b: Text, m: Text)
    requires SkipSpace(b) == []
    ensures SkipSpace(b + m) == SkipSpace(m)
  {
    if b == [] {
      assert b + m == m;
    } else {
      Tail(b, m);
      SpaceIsPassed(b[1..], m);
    }
  }

  // ---- Numbers -------------------------------------------------------------------------

  lemma DigitRunShrinks(b: Text, m: Text)
    requires DigitRun(b + m) < |b|
    ensures DigitRun(b) == DigitRun(b + m)
  {
    DigitRunExtends(b, m);
  }

  lemma IntegerLengthShrinks(b: Text, m: Text)
    requires 0 < IntegerLength(b + m) < |b|
    ensures IntegerLength(b) == IntegerLength(b + m)
  {
    Tail(b, m);
    if b[0] == MINUS {
      Tail(b[1..], m);
      DigitRunExtends(b[1..], m);
    } else {
      DigitRunExtends(b, m);
    }
  }

  lemma FractionLengthShrinks(b: Text, m: Text)
    requires FractionLength(b + m) < |b|
    ensures FractionLength(b) == FractionLength(b + m)
  {
    Tail(b, m);
    DigitRunExtends(b[1..], m);
  }

  lemma ExponentLengthShrinks(b: Text, m: Text)
    requires ExponentLength(b + m) < |b|
    ensures ExponentLength(b) == ExponentLength(b + m)
  {
    if |b| >= 2 && IsExponentMark(b[0]) {
      var sign := if b[1] == MINUS || b[1] == '+' as int then 2 else 1;
      assert (b + m)[sign..] == b[sign..] + m;
      DigitRunExtends(b[sign..], m);
    }
  }

  lemma MantissaShrinks(b: Text, m: Text)
    requires 0 < MantissaLength(b + m) < |b|
    ensures MantissaLength(b) == MantissaLength(b + m)
  {
    hide IntegerLength, FractionLength;
    var i := IntegerLength(b + m);
    IntegerLengthShrinks(b, m);
    assert (b + m)[i..] == b[i..] + m;
    FractionLengthShrinks(b[i..], m);
  }

  lemma NumberShrinks(b: Text, m: Text)
    requires 0 < NumberLength(b + m) < |b|
    ensures NumberLength(b) == NumberLength(b + m)
  {
    hide MantissaLength, ExponentLength;
    var f := MantissaLength(b + m);
    MantissaShrinks(b, m);
    assert (b + m)[f..] == b[f..] + m;
    ExponentLengthShrinks(b[f..], m);
  }

  // ---- Values --------------------------------------------------------------------------

  /** The parse of the whole text is that of the prefix, with the remainder behind it. */
  ghost predicate Same<A>(p: Parse<A>, whole: Parse<A>, m: Text) {
    p.Parsed? && whole == Parsed(p.value, p.rest + m)
  }

  /** The whole text's parse ends inside the prefix. */
  ghost predicate Inside<A>(whole: Parse<A>, m: Text) { whole.Parsed? && |whole.rest| > |m| }

  lemma {:induction false} UnitsShrink(b: Text, m: Text)
    requires Inside(ParseUnits(b + m), m)
    ensures Same(ParseUnits(b), ParseUnits(b + m), m)
    decreases |b|
  {
    Tail(b, m);
    if b[0] == BACKSLASH {
      if (b + m)[1] == 'u' as int {
        assert (b + m)[6..] == b[6..] + m;
        UnitsShrink(b[6..], m);
      } else {
        assert (b + m)[2..] == b[2..] + m;
        UnitsShrink(b[2..], m);
      }
    } else if b[0] != QUOTE {
      UnitsShrink(b[1..], m);
    }
  }

  lemma LiteralShrinks(name: Text, b: Text, m: Text)
    requires Inside(ParseLiteral(name, b + m), m)
    ensures Same(ParseLiteral(name, b), ParseLiteral(name, b + m), m)
  {
    assert |name| < |b|;
    CutExtends(b, m, |name|);
  }

  lemma LiteralAtShrinks(b: Text, m: Text)
    requires |b| >= 2
    ensures LiteralAt(b + m) == LiteralAt(b)
  {
    hide T;
  }

  lemma LiteralIsLong(s: Text)
    requires s != []
    ensures LiteralAt(s) != [] ==> |LiteralAt(s)| >= 3
  {
  }

  lemma NumberAtomShrinks(b: Text, m: Text)
    requires b != [] && LiteralAt(b + m) == [] && Inside(ParseNumber(b + m), m)
    ensures Same(ParseAtom(b), ParseAtom(b + m), m)
  {
    hide LiteralAt, MantissaLength, IntegerLength, ExponentLength, ParseLiteral;
    NumberShrinks(b, m);
    if LiteralAt(b) != [] {
      LiteralAtExtends(b, m);
    }
    CutExtends(b, m, NumberLength(b));
  }

  lemma AtomShrinks(b: Text, m: Text)
    requires b != [] && Inside(ParseAtom(b + m), m)
    ensures Same(ParseAtom(b), ParseAtom(b + m), m)
  {
    hide LiteralAt, ParseNumber;
    if LiteralAt(b + m) == [] {
      NumberAtomShrinks(b, m);
    } else {
      LiteralIsLong(b + m);
      LiteralAtShrinks(b, m);
      LiteralShrinks(LiteralAt(b), b, m);
    }
  }

  lemma {:induction false} ValueShrinks(b: Text, m: Text)
    requires Inside(ParseValue(b + m), m)
    ensures Same(ParseValue(b), ParseValue(b + m), m)
    decreases |b|, 1
  {
    hide ParseAtom, ParseObject, ParseArray, ParseUnits;
    assert b == [] ==> b + m == m;
    Tail(b, m);
    if b[0] == QUOTE {
      UnitsShrink(b[1..], m);
    } else if b[0] == LBRACE {
      ObjectShrinks(b, m);
    } else if b[0] == LBRACKET {
      ArrayShrinks(b, m);
    } else {
      AtomShrinks(b, m);
    }
  }

  lemma {:induction false} ObjectShrinks(b: Text, m: Text)
    requires b != [] && Inside(ParseObject(b + m), m)
    ensures Same(ParseObject(b), ParseObject(b + m), m)
    decreases |b|, 0
  {
    hide ParseMembers;
    Tail(b, m);
    SpaceShrinks(b[1..], m);
    var r := SkipSpace(b[1..]);
    Tail(r, m);
    if r[0] != RBRACE {
      MembersShrink(r, m);
    }
  }

  lemma {:induction false} ArrayShrinks(b: Text, m: Text)
    requires b != [] && Inside(ParseArray(b + m), m)
    ensures Same(ParseArray(b), ParseArray(b + m), m)
    decreases |b|, 0
  {
    hide ParseElements;
    Tail(b, m);
    SpaceShrinks(b[1..], m);
    var r := SkipSpace(b[1..]);
    Tail(r, m);
    if r[0] != RBRACKET {
      ElementsShrink(r, m);
    }
  }

  lemma {:induction false} ElementsShrink(b: Text, m: Text)
    requires Inside(ParseElements(b + m), m)
    ensures Same(ParseElements(b), ParseElements(b + m), m)
    decreases |b|, 2
  {
    hide ParseValue, SkipSpace;
    ValueShrinks(b, m);
    var after := ParseValue(b).rest;
    SpaceShrinks(after, m);
    var r := SkipSpace(after);
    Tail(r, m);
    if r[0] == COMMA {
      SpaceShrinks(r[1..], m);
      ElementsShrink(SkipSpace(r[1..]), m);
    }
  }

  lemma {:induction false} MembersShrink(b: Text, m: Text)
    requires Inside(ParseMembers(b + m), m)
    ensures Same(ParseMembers(b), ParseMembers(b + m), m)
    decreases |b|, 2
  {
    Tail(b, m);
    UnitsShrink(b[1..], m);
    var units := ParseUnits(b[1..]);
    SpaceShrinks(units.rest, m);
    var c := SkipSpace(units.rest);
    Tail(c, m);
    AfterKeyShrinks(c[1..], JoinPairs(units.value), m);
  }

  lemma {:induction false} AfterKeyShrinks(b: Text, key: Text, m: Text)
    requires Inside(ParseAfterKey(b + m, key), m)
    ensures Same(ParseAfterKey(b, key), ParseAfterKey(b + m, key), m)
    decreases |b|, 2
  {
    hide ParseValue, ParseMembers, SkipSpace;
    SpaceShrinks(b, m);
    var start := SkipSpace(b);
    ValueShrinks(start, m);
    var after := ParseValue(start).rest;
    SpaceShrinks(after, m);
    var r := SkipSpace(after);
    Tail(r, m);
    if r[0] == COMMA {
      SpaceShrinks(r[1..], m);
      MembersShrink(SkipSpace(r[1..]), m);
    }
  }
}
