/**
 JSON text as Python's `json.JSONDecoder.raw_decode` reads it. A parser takes the text from
 the cursor on and gives back the value and the text after it.
 */
module Json {
  import opened Bytes

  function T(s: string): (t: Text)
    ensures |t| == |s| && forall i :: 0 <= i < |s| ==> t[i] == s[i] as int
  {
    seq(|s|, i requires 0 <= i < |s| => s[i] as int)
  }

  const QUOTE := '\"' as int
  const BACKSLASH := '\\' as int
  const COMMA := ',' as int
  const COLON := ':' as int
  const LBRACE := '{' as int
  const RBRACE := '}' as int
  const LBRACKET := '[' as int
  const RBRACKET := ']' as int
  const DOT := '.' as int
  const MINUS := '-' as int

  datatype Value =
    | Literal(name: Text)
    | Number(lexeme: Text)
    | String(text: Text)
    | Array(items: seq<Value>)
    | Object(members: seq<Member>)

  datatype Member = Member(key: Text, value: Value)

  datatype Parse<T> = Fail | Parsed(value: T, rest: Text)

  predicate IsSpace(c: int) { c == ' ' as int || c == '\t' as int || c == '\r' as int || c == '\n' as int }

  function SkipSpace(s: Text): (r: Text)
    ensures |r| <= |s| && (r != [] ==> !IsSpace(r[0]))
  {
    if s != [] && IsSpace(s[0]) then SkipSpace(s[1..]) else s
  }

  // ---- Numbers -------------------------------------------------------------------------

  predicate IsDigit(c: int) { '0' as int <= c <= '9' as int }

  predicate IsExponentMark(c: int) { c == 'e' as int || c == 'E' as int }

  function DigitRun(s: Text): (n: nat)
    ensures n <= |s|
    ensures forall i :: 0 <= i < n ==> IsDigit(s[i])
    ensures n < |s| ==> !IsDigit(s[n])
  {
    if s != [] && IsDigit(s[0]) then 1 + DigitRun(s[1..]) else 0
  }

  /** Length of the integer part, 0 when there is none. */
  function NaturalLength(s: Text): (n: nat)
    ensures n <= |s|
    ensures forall i :: 0 <= i < n ==> IsDigit(s[i])
  {
    if s == [] || !IsDigit(s[0]) then 0
    else if s[0] == '0' as int then 1
    else DigitRun(s)
  }

  function IntegerLength(s: Text): (n: nat)
    ensures n <= |s|
    ensures forall i :: 0 <= i < n ==> IsDigit(s[i]) || s[i] == MINUS
    ensures n > 0 ==> IsDigit(s[0]) || (s[0] == MINUS && |s| >= 2 && IsDigit(s[1]))
  {
    if s != [] && s[0] == MINUS then
      var n := NaturalLength(s[1..]);
      if n == 0 then 0 else n + 1
    else NaturalLength(s)
  }

  function FractionLength(s: Text): (n: nat)
    ensures n <= |s| && (n > 0 ==> s[0] == DOT)
  {
    if |s| >= 2 && s[0] == DOT && IsDigit(s[1]) then 1 + DigitRun(s[1..]) else 0
  }

  function ExponentLength(s: Text): (n: nat)
    ensures n <= |s| && (n > 0 ==> IsExponentMark(s[0]))
  {
    if s == [] || !IsExponentMark(s[0]) then 0
    else
      var sign := if |s| >= 2 && (s[1] == MINUS || s[1] == '+' as int) then 2 else 1;
      var digits := DigitRun(s[sign..]);
      if digits == 0 then 0 else sign + digits
  }

  /** Integer part and fraction. */
  function MantissaLength(s: Text): (n: nat)
    ensures IntegerLength(s) <= n <= |s|
    ensures IntegerLength(s) == 0 ==> n == 0
  {
    var i := IntegerLength(s);
    if i == 0 then 0 else i + FractionLength(s[i..])
  }

  /** Length of the number at the cursor, 0 when there is none. */
  function NumberLength(s: Text): (n: nat)
    ensures MantissaLength(s) <= n <= |s|
    ensures IntegerLength(s) == 0 ==> n == 0
  {
    var f := MantissaLength(s);
    if f == 0 then 0 else f + ExponentLength(s[f..])
  }

  function ParseNumber(s: Text): Parse<Value> {
    var n := NumberLength(s);
    if n == 0 then Fail else Parsed(Number(s[..n]), s[n..])
  }

  // ---- Strings -------------------------------------------------------------------------

  function HexDigit(c: int): int {
    if IsDigit(c) then c - '0' as int
    else if 'a' as int <= c <= 'f' as int then c - 'a' as int + 10
    else if 'A' as int <= c <= 'F' as int then c - 'A' as int + 10
    else -1
  }

  /** The character a one-letter escape stands for, or -1. */
  function Escape(c: int): int {
    if c == QUOTE || c == BACKSLASH || c == '/' as int then c
    else if c == 'b' as int then 8
    else if c == 'f' as int then 12
    else if c == 'n' as int then 10
    else if c == 'r' as int then 13
    else if c == 't' as int then 9
    else -1
  }

  /** A string body after its opening quote, as UTF-16 units and raw characters. */
  function ParseUnits(s: Text): (p: Parse<Text>)
    ensures p.Parsed? ==> |p.rest| < |s|
    decreases |s|
  {
    if s == [] then Fail
    else if s[0] == QUOTE then Parsed([], s[1..])
    else if s[0] == BACKSLASH then
      if |s| < 2 then Fail
      else if s[1] == 'u' as int then
        if |s| < 6 || HexDigit(s[2]) < 0 || HexDigit(s[3]) < 0 || HexDigit(s[4]) < 0 || HexDigit(s[5]) < 0 then Fail
        else
          var unit := ((HexDigit(s[2]) * 16 + HexDigit(s[3])) * 16 + HexDigit(s[4])) * 16 + HexDigit(s[5]);
          Prepend(unit, ParseUnits(s[6..]))
      else if Escape(s[1]) < 0 then Fail
      else Prepend(Escape(s[1]), ParseUnits(s[2..]))
    else if s[0] < 32 then Fail
    else Prepend(s[0], ParseUnits(s[1..]))
  }

  function Prepend(c: int, p: Parse<Text>): Parse<Text> {
    match p
    case Fail => Fail
    case Parsed(cs, rest) => Parsed([c] + cs, rest)
  }

  /** Surrogate pairs written as two escapes become one character. */
  function JoinPairs(units: Text): Text {
    if |units| >= 2 && 0xD800 <= units[0] < 0xDC00 && 0xDC00 <= units[1] < 0xE000 then
      [0x10000 + (units[0] - 0xD800) * 0x400 + (units[1] - 0xDC00)] + JoinPairs(units[2..])
    else if units != [] then [units[0]] + JoinPairs(units[1..])
    else []
  }

  // ---- Values --------------------------------------------------------------------------

  function ParseLiteral(name: Text, s: Text): Parse<Value> {
    if name <= s then Parsed(Literal(name), s[|name|..]) else Fail
  }

  function ParseString(s: Text): (p: Parse<Value>)
    requires s != []
    ensures p.Parsed? ==> |p.rest| < |s|
  {
    match ParseUnits(s[1..])
    case Fail => Fail
    case Parsed(units, rest) => Parsed(String(JoinPairs(units)), rest)
  }

  /** The one literal a first character can start; empty where only a number can. */
  function LiteralAt(s: Text): Text
    requires s != []
  {
    if s[0] == 'n' as int then T("null")
    else if s[0] == 't' as int then T("true")
    else if s[0] == 'f' as int then T("false")
    else if s[0] == 'N' as int then T("NaN")
    else if s[0] == 'I' as int then T("Infinity")
    else if s[0] == MINUS && |s| >= 2 && s[1] == 'I' as int then T("-Infinity")
    else []
  }

  function ParseAtom(s: Text): (p: Parse<Value>)
    requires s != []
    ensures p.Parsed? ==> |p.rest| < |s| && (p.value.Literal? || p.value.Number?)
  {
    if LiteralAt(s) != [] then ParseLiteral(LiteralAt(s), s) else ParseNumber(s)
  }

  /** `raw_decode` at the cursor. */
  function ParseValue(s: Text): (p: Parse<Value>)
    ensures p.Parsed? ==> |p.rest| < |s|
    decreases |s|, 1
  {
    if s == [] then Fail
    else if s[0] == QUOTE then ParseString(s)
    else if s[0] == LBRACE then ParseObject(s)
    else if s[0] == LBRACKET then ParseArray(s)
    else ParseAtom(s)
  }

  function ParseObject(s: Text): (p: Parse<Value>)
    requires s != []
    ensures p.Parsed? ==> |p.rest| < |s| && p.value.Object?
    decreases |s|, 0
  {
    var r := SkipSpace(s[1..]);
    if r != [] && r[0] == RBRACE then Parsed(Object([]), r[1..])
    else
      match ParseMembers(r)
      case Fail => Fail
      case Parsed(members, rest) => Parsed(Object(members), rest)
  }

  function ParseArray(s: Text): (p: Parse<Value>)
    requires s != []
    ensures p.Parsed? ==> |p.rest| < |s| && p.value.Array?
    decreases |s|, 0
  {
    var r := SkipSpace(s[1..]);
    if r != [] && r[0] == RBRACKET then Parsed(Array([]), r[1..])
    else
      match ParseElements(r)
      case Fail => Fail
      case Parsed(items, rest) => Parsed(Array(items), rest)
  }

  /** Array elements after the opening bracket, at the first one. */
  function ParseElements(s: Text): (p: Parse<seq<Value>>)
    ensures p.Parsed? ==> |p.rest| < |s|
    decreases |s|, 2
  {
    match ParseValue(s)
    case Fail => Fail
    case Parsed(v, after) =>
      var r := SkipSpace(after);
      if r == [] then Fail
      else if r[0] == RBRACKET then Parsed([v], r[1..])
      else if r[0] != COMMA then Fail
      else
        match ParseElements(SkipSpace(r[1..]))
        case Fail => Fail
        case Parsed(vs, rest) => Parsed([v] + vs, rest)
  }

  /** Object members after the opening brace, at the first key. */
  function ParseMembers(s: Text): (p: Parse<seq<Member>>)
    ensures p.Parsed? ==> |p.rest| < |s|
    decreases |s|, 2
  {
    if s == [] || s[0] != QUOTE then Fail
    else
      match ParseUnits(s[1..])
      case Fail => Fail
      case Parsed(units, afterKey) =>
        var c := SkipSpace(afterKey);
        if c == [] || c[0] != COLON then Fail else ParseAfterKey(c[1..], JoinPairs(units))
  }

  /** The part of a member list that follows a key and its colon. */
  function ParseAfterKey(s: Text, key: Text): (p: Parse<seq<Member>>)
    ensures p.Parsed? ==> |p.rest| < |s|
    decreases |s|, 2
  {
    match ParseValue(SkipSpace(s))
    case Fail => Fail
    case Parsed(v, after) =>
      var r := SkipSpace(after);
      if r == [] then Fail
      else if r[0] == RBRACE then Parsed([Member(key, v)], r[1..])
      else if r[0] != COMMA then Fail
      else
        match ParseMembers(SkipSpace(r[1..]))
        case Fail => Fail
        case Parsed(ms, rest) => Parsed([Member(key, v)] + ms, rest)
  }

  // ---- Reading on: what a parse of a prefix says about the whole text ------------------

  /** A number with no fraction and no exponent. */
  predicate Integral(v: Value) {
    v.Number? ==> forall i :: 0 <= i < |v.lexeme| ==> v.lexeme[i] != DOT && !IsExponentMark(v.lexeme[i])
  }

  lemma {:induction false} SkipSpaceExtends(s: Text, m: Text)
    requires SkipSpace(s) != []
    ensures SkipSpace(s + m) == SkipSpace(s) + m
  {
    if IsSpace(s[0]) {
      assert (s + m)[1..] == s[1..] + m;
      SkipSpaceExtends(s[1..], m);
    }
  }

  lemma {:induction false} DigitRunExtends(s: Text, m: Text)
    ensures DigitRun(s + m) >= DigitRun(s)
    ensures DigitRun(s) < |s| ==> DigitRun(s + m) == DigitRun(s)
  {
    if s != [] {
      assert (s + m)[1..] == s[1..] + m;
      DigitRunExtends(s[1..], m);
    }
  }

  lemma IntegerLengthExtends(s: Text, m: Text)
    requires IntegerLength(s) > 0
    ensures IntegerLength(s + m) > 0
    ensures IntegerLength(s) < |s| ==> IntegerLength(s + m) == IntegerLength(s)
  {
    assert s[0] == MINUS ==> (s + m)[1..] == s[1..] + m;
    DigitRunExtends(s, m);
    DigitRunExtends(s[1..], m);
  }

  lemma FractionLengthExtends(s: Text, m: Text)
    ensures FractionLength(s) > 0 ==> FractionLength(s + m) > 0
    ensures FractionLength(s) < |s| && (FractionLength(s) > 0 || s[0] != DOT) ==>
              FractionLength(s + m) == FractionLength(s)
  {
    if |s| >= 2 {
      assert (s + m)[1..] == s[1..] + m;
      DigitRunExtends(s[1..], m);
    }
  }

  lemma ExponentLengthExtends(s: Text, m: Text)
    ensures ExponentLength(s) > 0 ==> ExponentLength(s + m) > 0
    ensures ExponentLength(s) < |s| && (ExponentLength(s) > 0 || !IsExponentMark(s[0])) ==>
              ExponentLength(s + m) == ExponentLength(s)
  {
    if ExponentLength(s) > 0 {
      var sign := if |s| >= 2 && (s[1] == MINUS || s[1] == '+' as int) then 2 else 1;
      assert (s + m)[sign..] == s[sign..] + m;
      DigitRunExtends(s[sign..], m);
    }
  }

  lemma MantissaExtends(s: Text, m: Text)
    requires 0 < MantissaLength(s) < |s|
    requires MantissaLength(s) > IntegerLength(s) || s[MantissaLength(s)] != DOT
    ensures MantissaLength(s + m) == MantissaLength(s)
  {
    hide IntegerLength, FractionLength, ExponentLength;
    var i := IntegerLength(s);
    IntegerLengthExtends(s, m);
    assert (s + m)[i..] == s[i..] + m;
    FractionLengthExtends(s[i..], m);
  }

  /** A number that ends inside the text, not at a fraction or exponent mark, is final. */
  lemma NumberExtends(s: Text, m: Text)
    requires 0 < NumberLength(s) < |s|
    requires s[NumberLength(s)] != DOT && !IsExponentMark(s[NumberLength(s)])
    ensures NumberLength(s + m) == NumberLength(s)
  {
    var f := MantissaLength(s);
    assert NumberLength(s) > f ==> IsExponentMark(s[f..][0]);
    MantissaExtends(s, m);
    assert (s + m)[f..] == s[f..] + m;
    ExponentLengthExtends(s[f..], m);
  }

  /** A number of the whole text without fraction or exponent is found by every prefix that reaches past it. */
  lemma IntegerNumberExtends(s: Text, m: Text)
    requires 0 < NumberLength(s) < |s|
    requires NumberLength(s + m) == IntegerLength(s + m)
    ensures NumberLength(s + m) == NumberLength(s)
  {
    hide IntegerLength, FractionLength, ExponentLength;
    var i := IntegerLength(s);
    IntegerLengthExtends(s, m);
    assert (s + m)[i..] == s[i..] + m;
    FractionLengthExtends(s[i..], m);
    ExponentLengthExtends(s[i..], m);
  }

  lemma IntegralLexeme(s: Text)
    requires NumberLength(s) > 0
    ensures Integral(Number(s[..NumberLength(s)])) <==> NumberLength(s) == IntegerLength(s)
  {
    var i, n := IntegerLength(s), NumberLength(s);
    if n > i {
      assert s[..n][i] == s[i..][0];
      assert FractionLength(s[i..]) == 0 ==> ExponentLength(s[i..]) > 0;
    }
  }

  lemma {:induction false} UnitsExtend(s: Text, m: Text)
    requires ParseUnits(s).Parsed?
    ensures ParseUnits(s + m) == Parsed(ParseUnits(s).value, ParseUnits(s).rest + m)
    decreases |s|
  {
    assert (s + m)[1..] == s[1..] + m;
    if s[0] == QUOTE {
    } else if s[0] == BACKSLASH {
      if s[1] == 'u' as int {
        assert (s + m)[6..] == s[6..] + m;
        UnitsExtend(s[6..], m);
      } else {
        assert (s + m)[2..] == s[2..] + m;
        UnitsExtend(s[2..], m);
      }
    } else {
      UnitsExtend(s[1..], m);
    }
  }

  /** Where a number stands, the value is that number. */
  lemma NumberIsValue(s: Text)
    requires NumberLength(s) > 0
    ensures ParseValue(s) == ParseNumber(s)
  {
    hide LiteralAt, ParseNumber, NumberLength, IntegerLength, ParseString, ParseObject, ParseArray;
    NumberHasInteger(s);
    NumberStart(s);
  }

  lemma ValueIsNumber(s: Text)
    requires ParseValue(s).Parsed? && ParseValue(s).value.Number?
    ensures NumberLength(s) > 0 && ParseValue(s) == ParseNumber(s)
  {
    assert ParseValue(s) == ParseAtom(s);
    assert LiteralAt(s) == [];
  }

  /** A parsed value no longer text could lengthen. */
  predicate Closed(v: Value, rest: Text) {
    v.Number? ==> rest != [] && rest[0] != DOT && !IsExponentMark(rest[0])
  }

  lemma Tail(s: Text, m: Text)
    requires s != []
    ensures (s + m)[0] == s[0] && (s + m)[1..] == s[1..] + m
  {
  }

  lemma LiteralExtends(name: Text, s: Text, m: Text)
    requires name <= s
    ensures ParseLiteral(name, s + m) == Parsed(Literal(name), s[|name|..] + m)
  {
    assert (s + m)[|name|..] == s[|name|..] + m;
  }

  lemma CutExtends(s: Text, m: Text, n: nat)
    requires n <= |s|
    ensures (s + m)[..n] == s[..n] && (s + m)[n..] == s[n..] + m
  {
  }

  /** What a literal starts with never starts a number. */
  lemma NumberStart(s: Text)
    requires s != [] && IntegerLength(s) > 0
    ensures LiteralAt(s) == [] && s[0] != QUOTE && s[0] != LBRACE && s[0] != LBRACKET
  {
    hide NaturalLength, T;
  }

  lemma LiteralAtExtends(s: Text, m: Text)
    requires s != [] && LiteralAt(s) != []
    ensures LiteralAt(s + m) == LiteralAt(s)
  {
    hide T;
    assert (s + m)[0] == s[0] && (|s| >= 2 ==> (s + m)[1] == s[1]);
  }

  lemma LiteralAtomExtends(s: Text, m: Text)
    requires s != [] && LiteralAt(s) != [] && ParseAtom(s).Parsed?
    ensures ParseAtom(s + m) == Parsed(ParseAtom(s).value, ParseAtom(s).rest + m)
  {
    LiteralAtExtends(s, m);
    hide LiteralAt;
    LiteralExtends(LiteralAt(s), s, m);
  }

  lemma NumberAtomExtends(s: Text, m: Text)
    requires s != [] && LiteralAt(s) == [] && ParseAtom(s).Parsed? && Closed(ParseAtom(s).value, ParseAtom(s).rest)
    ensures ParseAtom(s + m) == Parsed(ParseAtom(s).value, ParseAtom(s).rest + m)
  {
    hide LiteralAt, IntegerLength, MantissaLength, NumberLength;
    NumberExtends(s, m);
    NumberHasInteger(s + m);
    NumberStart(s + m);
    CutExtends(s, m, NumberLength(s));
  }

  lemma NumberHasInteger(s: Text)
    requires NumberLength(s) > 0
    ensures s != [] && IntegerLength(s) > 0
  {
    hide IntegerLength, FractionLength, ExponentLength;
  }

  lemma AtomExtends(s: Text, m: Text)
    requires s != [] && ParseAtom(s).Parsed? && Closed(ParseAtom(s).value, ParseAtom(s).rest)
    ensures ParseAtom(s + m) == Parsed(ParseAtom(s).value, ParseAtom(s).rest + m)
  {
    hide ParseAtom, LiteralAt;
    if LiteralAt(s) != [] {
      LiteralAtomExtends(s, m);
    } else {
      NumberAtomExtends(s, m);
    }
  }

  /** Prefix stability: a closed parse of a prefix is the parse of the whole. */
  lemma {:induction false} ValueExtends(s: Text, m: Text)
    requires ParseValue(s).Parsed? && Closed(ParseValue(s).value, ParseValue(s).rest)
    ensures ParseValue(s + m) == Parsed(ParseValue(s).value, ParseValue(s).rest + m)
    decreases |s|, 1
  {
    Tail(s, m);
    if s[0] == QUOTE {
      UnitsExtend(s[1..], m);
    } else if s[0] == LBRACE {
      ObjectExtends(s, m);
    } else if s[0] == LBRACKET {
      ArrayExtends(s, m);
    } else {
      AtomExtends(s, m);
    }
  }

  lemma {:induction false} ObjectExtends(s: Text, m: Text)
    requires s != [] && ParseObject(s).Parsed?
    ensures ParseObject(s + m) == Parsed(ParseObject(s).value, ParseObject(s).rest + m)
    decreases |s|, 0
  {
    Tail(s, m);
    var r := SkipSpace(s[1..]);
    if r != [] {
      SkipSpaceExtends(s[1..], m);
      Tail(r, m);
      if r[0] != RBRACE {
        MembersExtend(r, m);
      }
    }
  }

  lemma {:induction false} ArrayExtends(s: Text, m: Text)
    requires s != [] && ParseArray(s).Parsed?
    ensures ParseArray(s + m) == Parsed(ParseArray(s).value, ParseArray(s).rest + m)
    decreases |s|, 0
  {
    Tail(s, m);
    var r := SkipSpace(s[1..]);
    if r != [] {
      SkipSpaceExtends(s[1..], m);
      Tail(r, m);
      if r[0] != RBRACKET {
        ElementsExtend(r, m);
      }
    }
  }

  lemma {:induction false} ElementsExtend(s: Text, m: Text)
    requires ParseElements(s).Parsed?
    ensures ParseElements(s + m) == Parsed(ParseElements(s).value, ParseElements(s).rest + m)
    decreases |s|, 2
  {
    var after := ParseValue(s).rest;
    var r := SkipSpace(after);
    ValueExtends(s, m);
    SkipSpaceExtends(after, m);
    Tail(r, m);
    if r[0] == COMMA {
      SkipSpaceExtends(r[1..], m);
      ElementsExtend(SkipSpace(r[1..]), m);
    }
  }

  lemma {:induction false} MembersExtend(s: Text, m: Text)
    requires ParseMembers(s).Parsed?
    ensures ParseMembers(s + m) == Parsed(ParseMembers(s).value, ParseMembers(s).rest + m)
    decreases |s|, 2
  {
    Tail(s, m);
    UnitsExtend(s[1..], m);
    var units := ParseUnits(s[1..]);
    SkipSpaceExtends(units.rest, m);
    var c := SkipSpace(units.rest);
    Tail(c, m);
    AfterKeyExtends(c[1..], JoinPairs(units.value), m);
  }

  lemma {:induction false} AfterKeyExtends(s: Text, key: Text, m: Text)
    requires ParseAfterKey(s, key).Parsed?
    ensures ParseAfterKey(s + m, key) == Parsed(ParseAfterKey(s, key).value, ParseAfterKey(s, key).rest + m)
    decreases |s|, 2
  {
    hide ParseAtom, ParseString;
    SkipSpaceExtends(s, m);
    var start := SkipSpace(s);
    var after := ParseValue(start).rest;
    ValueExtends(start, m);
    SkipSpaceExtends(after, m);
    var r := SkipSpace(after);
    Tail(r, m);
    if r[0] == COMMA {
      SkipSpaceExtends(r[1..], m);
      MembersExtend(SkipSpace(r[1..]), m);
    }
  }

  // ---- A parse consumes a prefix -------------------------------------------------------

  ghost predicate Suffix(r: Text, s: Text) { |r| <= |s| && r == s[|s| - |r|..] }

  lemma SuffixTrans(a: Text, b: Text, c: Text)
    requires Suffix(a, b) && Suffix(b, c)
    ensures Suffix(a, c)
  {
  }

  lemma {:induction false} SuffixOfSpace(s: Text)
    ensures Suffix(SkipSpace(s), s)
  {
    if s != [] && IsSpace(s[0]) {
      SuffixOfSpace(s[1..]);
    }
  }

  lemma {:induction false} SuffixOfUnits(s: Text)
    requires ParseUnits(s).Parsed?
    ensures Suffix(ParseUnits(s).rest, s)
    decreases |s|
  {
    if s[0] == BACKSLASH {
      SuffixOfUnits(if s[1] == 'u' as int then s[6..] else s[2..]);
    } else if s[0] != QUOTE {
      SuffixOfUnits(s[1..]);
    }
  }

  /** Over white space, one character, and white space again. */
  lemma SuffixOfStep(a: Text, s: Text)
    requires Suffix(a, s) && SkipSpace(a) != []
    ensures Suffix(SkipSpace(a)[1..], s) && Suffix(SkipSpace(SkipSpace(a)[1..]), s)
  {
    var r := SkipSpace(a);
    SuffixOfSpace(a);
    SuffixTrans(r, a, s);
    SuffixOfSpace(r[1..]);
    SuffixTrans(SkipSpace(r[1..]), r[1..], s);
  }

  lemma SuffixOfAtom(s: Text)
    requires s != [] && ParseAtom(s).Parsed?
    ensures Suffix(ParseAtom(s).rest, s)
  {
    hide LiteralAt, NumberLength;
  }

  lemma SuffixBehind(a: Text, s: Text)
    requires s != [] && Suffix(a, SkipSpace(s[1..]))
    ensures Suffix(a, s)
  {
    SuffixOfSpace(s[1..]);
    SuffixTrans(SkipSpace(s[1..]), s[1..], s);
    SuffixTrans(a, SkipSpace(s[1..]), s);
  }

  lemma {:induction false} SuffixOfObject(s: Text)
    requires s != [] && ParseObject(s).Parsed?
    ensures Suffix(ParseObject(s).rest, s)
    decreases |s|, 0
  {
    hide Suffix;
    var r := SkipSpace(s[1..]);
    if r != [] && r[0] == RBRACE {
      SuffixCut(r);
    } else {
      SuffixOfMembers(r);
    }
    SuffixBehind(ParseObject(s).rest, s);
  }

  lemma {:induction false} SuffixOfArray(s: Text)
    requires s != [] && ParseArray(s).Parsed?
    ensures Suffix(ParseArray(s).rest, s)
    decreases |s|, 0
  {
    hide Suffix;
    var r := SkipSpace(s[1..]);
    if r != [] && r[0] == RBRACKET {
      SuffixCut(r);
    } else {
      SuffixOfElements(r);
    }
    SuffixBehind(ParseArray(s).rest, s);
  }

  lemma SuffixCut(r: Text)
    requires r != []
    ensures Suffix(r[1..], r)
  {
  }

  lemma {:induction false} SuffixOfParse(s: Text)
    requires ParseValue(s).Parsed?
    ensures Suffix(ParseValue(s).rest, s)
    decreases |s|, 1
  {
    hide Suffix, ParseAtom, ParseObject, ParseArray;
    if s[0] == QUOTE {
      SuffixOfUnits(s[1..]);
      SuffixCut(s);
      SuffixTrans(ParseValue(s).rest, s[1..], s);
    } else if s[0] == LBRACE {
      SuffixOfObject(s);
    } else if s[0] == LBRACKET {
      SuffixOfArray(s);
    } else {
      SuffixOfAtom(s);
    }
  }

  lemma {:induction false} SuffixOfElements(s: Text)
    requires ParseElements(s).Parsed?
    ensures Suffix(ParseElements(s).rest, s)
    decreases |s|, 2
  {
    var after := ParseValue(s).rest;
    SuffixOfParse(s);
    SuffixOfStep(after, s);
    if SkipSpace(after)[0] == COMMA {
      var next := SkipSpace(SkipSpace(after)[1..]);
      SuffixOfElements(next);
      SuffixTrans(ParseElements(s).rest, next, s);
    }
  }

  lemma {:induction false} SuffixOfMembers(s: Text)
    requires ParseMembers(s).Parsed?
    ensures Suffix(ParseMembers(s).rest, s)
    decreases |s|, 2
  {
    var units := ParseUnits(s[1..]);
    var afterColon := SkipSpace(units.rest)[1..];
    SuffixOfUnits(s[1..]);
    SuffixOfStep(units.rest, s);
    SuffixOfAfterKey(afterColon, JoinPairs(units.value));
    SuffixTrans(ParseMembers(s).rest, afterColon, s);
  }

  lemma {:induction false} SuffixOfAfterKey(s: Text, key: Text)
    requires ParseAfterKey(s, key).Parsed?
    ensures Suffix(ParseAfterKey(s, key).rest, s)
    decreases |s|, 2
  {
    hide ParseAtom, ParseString;
    var start := SkipSpace(s);
    var after := ParseValue(start).rest;
    SuffixOfSpace(s);
    SuffixOfParse(start);
    SuffixTrans(after, start, s);
    SuffixOfStep(after, s);
    if SkipSpace(after)[0] == COMMA {
      var next := SkipSpace(SkipSpace(after)[1..]);
      SuffixOfMembers(next);
      SuffixTrans(ParseAfterKey(s, key).rest, next, s);
    }
  }
}
