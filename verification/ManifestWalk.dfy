/**
 `stream_manifest`: the walk over the top-level object, and the proof that it yields the
 flattening of a whole-document parse.
 */
module ManifestWalk {
  import opened Bytes
  import opened Json
  import opened CoverageStream

  datatype Event = Scalar(path: Text, value: Value) | Item(path: Text, value: Value)

  /** Some named array lies below this path. */
  predicate LeadsTo(path: Text, keys: seq<Text>) {
    exists k :: k in keys && path + [DOT] <= k
  }

  // ---- The flattening of a parsed document ---------------------------------------------

  function Items(path: Text, items: seq<Value>): seq<Event> {
    if items == [] then [] else [Item(path, items[0])] + Items(path, items[1..])
  }

  function FlattenMember(path: Text, v: Value, keys: seq<Text>): seq<Event>
    decreases v
  {
    if path in keys && v.Array? then Items(path, v.items)
    else if LeadsTo(path, keys) && v.Object? then Flatten(v.members, path + [DOT], keys)
    else [Scalar(path, v)]
  }

  function Flatten(members: seq<Member>, prefix: Text, keys: seq<Text>): seq<Event>
    decreases members
  {
    if members == [] then []
    else FlattenMember(prefix + members[0].key, members[0].value, keys) + Flatten(members[1..], prefix, keys)
  }

  // ---- The walk over the remaining text ------------------------------------------------

  /** The events yielded, whether the walk ended well, and the text left after it. */
  datatype Walk = Walk(events: seq<Event>, ok: bool, rest: Text)

  function After(done: seq<Event>, w: Walk): Walk { w.(events := done + w.events) }

  function WalkItems(s: Text, path: Text): (w: Walk)
    ensures w.ok ==> |w.rest| < |s|
    decreases |s|
  {
    match ParseValue(SkipSpace(s))
    case Fail => Walk([], false, s)
    case Parsed(v, after) =>
      var r := SkipSpace(after);
      if Head(r) == [COMMA] then After([Item(path, v)], WalkItems(r[1..], path))
      else Walk([Item(path, v)], Head(r) == [RBRACKET], if r == [] then r else r[1..])
  }

  /** An array whose elements are yielded, from its bracket on. */
  function WalkArray(s: Text, path: Text): (w: Walk)
    requires s != []
    ensures w.ok ==> |w.rest| < |s|
    decreases |s|
  {
    var first := SkipSpace(s[1..]);
    if Head(first) == [RBRACKET] then Walk([], true, first[1..]) else WalkItems(first, path)
  }

  function WalkMember(s: Text, path: Text, keys: seq<Text>): (w: Walk)
    ensures w.ok ==> |w.rest| < |s|
    decreases |s|, 1
  {
    var r := SkipSpace(s);
    if path in keys && Head(r) == [LBRACKET] then WalkArray(r, path)
    else if LeadsTo(path, keys) && Head(r) == [LBRACE] then WalkObject(r, path + [DOT], keys)
    else
      match ParseValue(r)
      case Fail => Walk([], false, r)
      case Parsed(v, after) => Walk([Scalar(path, v)], true, after)
  }

  function WalkMembers(s: Text, prefix: Text, keys: seq<Text>): (w: Walk)
    ensures w.ok ==> |w.rest| < |s|
    decreases |s|, 2
  {
    match ParseValue(SkipSpace(s))
    case Fail => Walk([], false, s)
    case Parsed(key, afterKey) =>
      var c := SkipSpace(afterKey);
      if !key.String? || Head(c) != [COLON] then Walk([], false, c)
      else WalkAfterKey(c[1..], key.text, prefix, keys)
  }

  /** The part of a member list that follows a key and its colon. */
  function WalkAfterKey(s: Text, key: Text, prefix: Text, keys: seq<Text>): (w: Walk)
    ensures w.ok ==> |w.rest| < |s|
    decreases |s|, 2
  {
    var member := WalkMember(s, prefix + key, keys);
    if !member.ok then member
    else
      var r := SkipSpace(member.rest);
      if Head(r) == [COMMA] then After(member.events, WalkMembers(r[1..], prefix, keys))
      else Walk(member.events, Head(r) == [RBRACE], if r == [] then r else r[1..])
  }

  function WalkObject(s: Text, prefix: Text, keys: seq<Text>): (w: Walk)
    ensures w.ok ==> |w.rest| < |s|
    decreases |s|, 0
  {
    var r := SkipSpace(s);
    if Head(r) != [LBRACE] then Walk([], false, r)
    else
      var first := SkipSpace(r[1..]);
      if Head(first) == [RBRACE] then Walk([], true, first[1..]) else WalkMembers(first, prefix, keys)
  }

  // ---- The walk is the flattening ------------------------------------------------------

  lemma {:induction false} SkipTwice(s: Text)
    ensures SkipSpace(SkipSpace(s)) == SkipSpace(s)
  {
    if s != [] && IsSpace(s[0]) {
      SkipTwice(s[1..]);
    }
  }

  lemma {:induction false} ItemsAgree(s: Text, path: Text)
    ensures WalkItems(s, path).ok <==> ParseElements(SkipSpace(s)).Parsed?
    ensures WalkItems(s, path).ok ==>
      var p := ParseElements(SkipSpace(s));
      WalkItems(s, path).events == Items(path, p.value) && WalkItems(s, path).rest == p.rest
    decreases |s|
  {
    hide ParseAtom, ParseString;
    var p := ParseValue(SkipSpace(s));
    if p.Parsed? {
      var r := SkipSpace(p.rest);
      assert Items(path, [p.value]) == [Item(path, p.value)] by { assert [p.value][1..] == []; }
      if Head(r) == [COMMA] {
        ItemsAgree(r[1..], path);
        var tail := ParseElements(SkipSpace(r[1..]));
        if tail.Parsed? {
          assert ([p.value] + tail.value)[1..] == tail.value;
        }
      }
    }
  }

  lemma ArrayAgrees(s: Text, path: Text)
    requires Head(s) == [LBRACKET]
    ensures WalkArray(s, path).ok <==> ParseValue(s).Parsed?
    ensures WalkArray(s, path).ok ==>
      && ParseValue(s).value.Array?
      && WalkArray(s, path).events == Items(path, ParseValue(s).value.items)
      && WalkArray(s, path).rest == ParseValue(s).rest
  {
    hide ParseAtom, ParseString;
    var first := SkipSpace(s[1..]);
    SkipTwice(s[1..]);
    if Head(first) != [RBRACKET] {
      ItemsAgree(first, path);
    }
  }

  lemma {:induction false} MemberAgrees(s: Text, path: Text, keys: seq<Text>)
    ensures WalkMember(s, path, keys).ok <==> ParseValue(SkipSpace(s)).Parsed?
    ensures WalkMember(s, path, keys).ok ==>
      var p, w := ParseValue(SkipSpace(s)), WalkMember(s, path, keys);
      w.events == FlattenMember(path, p.value, keys) && w.rest == p.rest
    decreases |s|, 1
  {
    hide ParseAtom, ParseString;
    var r := SkipSpace(s);
    NotABracket(r);
    if path in keys && Head(r) == [LBRACKET] {
      ArrayAgrees(r, path);
    } else if LeadsTo(path, keys) && Head(r) == [LBRACE] {
      SkipTwice(s);
      ObjectAgrees(r, path + [DOT], keys);
    }
  }

  lemma NotABracket(s: Text)
    ensures ParseValue(s).Parsed? ==>
      && (ParseValue(s).value.Array? <==> Head(s) == [LBRACKET])
      && (ParseValue(s).value.Object? <==> Head(s) == [LBRACE])
      && (ParseValue(s).value.String? <==> Head(s) == [QUOTE])
  {
  }

  lemma {:induction false} AfterKeyAgrees(s: Text, key: Text, prefix: Text, keys: seq<Text>)
    ensures WalkAfterKey(s, key, prefix, keys).ok <==> ParseAfterKey(s, key).Parsed?
    ensures WalkAfterKey(s, key, prefix, keys).ok ==>
      var p, w := ParseAfterKey(s, key), WalkAfterKey(s, key, prefix, keys);
      w.events == Flatten(p.value, prefix, keys) && w.rest == p.rest
    decreases |s|, 2
  {
    hide ParseValue, ParseMembers, WalkMembers, Flatten, FlattenMember, WalkMember;
    MemberAgrees(s, prefix + key, keys);
    var v := ParseValue(SkipSpace(s));
    if v.Parsed? {
      var r := SkipSpace(v.rest);
      if Head(r) == [COMMA] {
        MembersAgree(r[1..], prefix, keys);
        var tail := ParseMembers(SkipSpace(r[1..]));
        if tail.Parsed? {
          FlattenCons(key, v.value, tail.value, prefix, keys);
        }
      } else if Head(r) == [RBRACE] {
        FlattenOne(key, v.value, prefix, keys);
        assert ParseAfterKey(s, key) == Parsed([Member(key, v.value)], r[1..]);
      } else {
        assert ParseAfterKey(s, key).Fail?;
      }
    }
  }

  lemma {:induction false} MembersAgree(s: Text, prefix: Text, keys: seq<Text>)
    ensures WalkMembers(s, prefix, keys).ok <==> ParseMembers(SkipSpace(s)).Parsed?
    ensures WalkMembers(s, prefix, keys).ok ==>
      var p, w := ParseMembers(SkipSpace(s)), WalkMembers(s, prefix, keys);
      w.events == Flatten(p.value, prefix, keys) && w.rest == p.rest
    decreases |s|, 3
  {
    hide ParseAtom, ParseObject, ParseArray, Flatten, WalkAfterKey, ParseAfterKey;
    var start := SkipSpace(s);
    NotABracket(start);
    var key := ParseValue(start);
    if key.Parsed? && key.value.String? {
      var c := SkipSpace(key.rest);
      if Head(c) == [COLON] {
        AfterKeyAgrees(c[1..], key.value.text, prefix, keys);
      }
    }
  }

  lemma FlattenCons(key: Text, v: Value, tail: seq<Member>, prefix: Text, keys: seq<Text>)
    ensures Flatten([Member(key, v)] + tail, prefix, keys) ==
      FlattenMember(prefix + key, v, keys) + Flatten(tail, prefix, keys)
  {
    assert ([Member(key, v)] + tail)[1..] == tail;
  }

  lemma FlattenOne(key: Text, v: Value, prefix: Text, keys: seq<Text>)
    ensures Flatten([Member(key, v)], prefix, keys) == FlattenMember(prefix + key, v, keys)
  {
    FlattenCons(key, v, [], prefix, keys);
    assert [Member(key, v)] + [] == [Member(key, v)];
  }

  lemma FlattenNothing(prefix: Text, keys: seq<Text>)
    ensures Flatten([], prefix, keys) == []
  {
  }

  lemma {:induction false} ObjectAgrees(s: Text, prefix: Text, keys: seq<Text>)
    ensures WalkObject(s, prefix, keys).ok <==>
      ParseValue(SkipSpace(s)).Parsed? && ParseValue(SkipSpace(s)).value.Object?
    ensures WalkObject(s, prefix, keys).ok ==>
      var p, w := ParseValue(SkipSpace(s)), WalkObject(s, prefix, keys);
      w.events == Flatten(p.value.members, prefix, keys) && w.rest == p.rest
    decreases |s|, 0
  {
    hide ParseAtom, ParseString, ParseMembers, ParseArray, WalkMembers, Flatten;
    var r := SkipSpace(s);
    NotABracket(r);
    FlattenNothing(prefix, keys);
    if Head(r) == [LBRACE] {
      var first := SkipSpace(r[1..]);
      SkipTwice(r[1..]);
      if Head(first) != [RBRACE] {
        MembersAgree(first, prefix, keys);
      }
    }
  }

  // ---- The walk through the window -----------------------------------------------------

  /** No value the walk hands out is a number with a fraction or an exponent. */
  ghost predicate AllIntegral(events: seq<Event>) {
    forall i :: 0 <= i < |events| ==> Integral(events[i].value)
  }

  /** The same event, but with a number that lost its fraction or exponent. */
  predicate CutShort(d: Event, e: Event) {
    !Integral(e.value) && d.value.Number? && d == e.(value := d.value)
  }

  /** All that was handed out is right, except perhaps the last value. */
  ghost predicate Delivered(events: seq<Event>, all: seq<Event>) {
    && |events| <= |all|
    && (forall i :: 0 <= i < |events| - 1 ==> events[i] == all[i])
    && (events != [] ==> var last := |events| - 1; events[last] == all[last] || CutShort(events[last], all[last]))
  }

  /** A streamed outcome against the walk over the text: an end is right, an error spurious only for fractions. */
  ghost predicate Faithful(w: Walk, events: seq<Event>, ok: bool, rest: Text) {
    && Delivered(events, w.events)
    && (ok ==> w == Walk(events, true, rest))
    && (AllIntegral(w.events) ==> events == w.events && ok == w.ok)
  }

  /** The same for one member's value: if its last number was cut short, the text goes on with the mark. */
  ghost predicate Nearly(w: Walk, events: seq<Event>, ok: bool, rest: Text) {
    && Delivered(events, w.events)
    && (ok ==> w.ok && (w == Walk(events, true, rest) || (MarkAhead(rest) && !AllIntegral(w.events))))
    && (AllIntegral(w.events) ==> events == w.events && ok == w.ok)
  }

  lemma IntegralNone()
    ensures AllIntegral([])
  {
  }

  lemma IntegralOne(e: Event)
    ensures AllIntegral([e]) <==> Integral(e.value)
  {
    assert [e][0] == e;
  }

  lemma IntegralParts(a: seq<Event>, b: seq<Event>)
    ensures AllIntegral(a + b) <==> AllIntegral(a) && AllIntegral(b)
  {
    assert forall i :: 0 <= i < |a| ==> a[i] == (a + b)[i];
    assert forall i :: 0 <= i < |b| ==> b[i] == (a + b)[|a| + i];
  }

  lemma DeliveredAfter(done: seq<Event>, events: seq<Event>, all: seq<Event>)
    requires Delivered(events, all)
    ensures Delivered(done + events, done + all)
  {
  }

  /** A loop that has already delivered `done` goes on faithfully from `now`. */
  lemma FaithfulAfter(done: seq<Event>, now: Walk, events: seq<Event>, ok: bool, rest: Text)
    requires Faithful(now, events, ok, rest)
    ensures Faithful(After(done, now), done + events, ok, rest)
  {
    hide AllIntegral, Delivered;
    DeliveredAfter(done, events, now.events);
    IntegralParts(done, now.events);
  }

  lemma AfterTwice(a: seq<Event>, b: seq<Event>, w: Walk)
    ensures After(a, After(b, w)) == After(a + b, w) && After([], w) == w
  {
    assert a + (b + w.events) == (a + b) + w.events;
  }

  lemma NothingDelivered(all: seq<Event>)
    ensures Delivered([], all)
  {
  }

  /** What the walk does at one element. */
  lemma ItemHere(s: Text, path: Text)
    ensures var p := ParseValue(SkipSpace(s));
      && (p.Fail? ==> WalkItems(s, path) == Walk([], false, s))
      && (p.Parsed? ==>
        var r := SkipSpace(p.rest);
        && WalkItems(s, path).events != [] && WalkItems(s, path).events[0] == Item(path, p.value)
        && (Head(r) == [COMMA] ==> WalkItems(s, path) == After([Item(path, p.value)], WalkItems(r[1..], path)))
        && (Head(r) == [RBRACKET] ==> WalkItems(s, path) == Walk([Item(path, p.value)], true, r[1..]))
        && (Head(r) != [COMMA] && Head(r) != [RBRACKET] ==>
              !WalkItems(s, path).ok && WalkItems(s, path).events == [Item(path, p.value)]))
  {
  }

  /** A single delivered value, exact or cut short. */
  lemma FirstDelivered(d: Event, all: seq<Event>)
    requires all != [] && (d == all[0] || CutShort(d, all[0]))
    ensures Delivered([d], all) && (CutShort(d, all[0]) ==> !AllIntegral(all))
  {
  }

  /** One turn of the array loop: an element and the separator after it. */
  method StreamItem(window: Window, path: Text) returns (events: seq<Event>, ok: bool, more: bool)
    requires window.Valid()
    modifies window
    ensures window.Valid() && |window.Unread()| <= old(|window.Unread()|)
    ensures !more ==> Faithful(WalkItems(old(window.Unread()), path), events, ok, window.Unread())
    ensures more && ok ==> WalkItems(old(window.Unread()), path) == After(events, WalkItems(window.Unread(), path))
    ensures more ==> ok
    ensures ok ==> |window.Unread()| < old(|window.Unread()|)
    ensures ok && old(window.Slow()) ==> window.Slow() && AllIntegral(events)
  {
    hide ParseValue, WalkItems, AllIntegral, Delivered, Window.Unread;
    events, ok, more := [], false, false;
    ghost var s := window.Unread();
    ghost var now, p := WalkItems(s, path), ParseValue(SkipSpace(s));
    ItemHere(s, path);
    NothingDelivered(now.events);
    var decoded, v := window.Next();
    if !decoded {
      return;
    }
    events := [Item(path, v)];
    IntegralOne(events[0]);
    FirstDelivered(Item(path, v), now.events);
    ghost var rest := window.Unread();
    MarkIsNoSpace(rest);
    SpaceSkipped(SkipSpace(rest));
    var next := window.Peek();
    more := next == [COMMA];
    ok := window.Take(if more then COMMA else RBRACKET);
  }

  lemma MarkIsNoSpace(s: Text)
    ensures MarkAhead(s) ==> SkipSpace(s) == s && Head(s) != [COMMA] && Head(s) != [RBRACKET] && Head(s) != [RBRACE]
  {
  }

  method StreamItems(window: Window, path: Text) returns (events: seq<Event>, ok: bool)
    requires window.Valid()
    modifies window
    ensures window.Valid() && |window.Unread()| <= old(|window.Unread()|)
    ensures Faithful(WalkItems(old(window.Unread()), path), events, ok, window.Unread())
    ensures ok ==> |window.Unread()| < old(|window.Unread()|)
    ensures ok && old(window.Slow()) ==> window.Slow() && AllIntegral(events)
  {
    hide ParseValue, WalkItems, After, Faithful, AllIntegral, Delivered, Window.Unread;
    events := [];
    ghost var whole := WalkItems(window.Unread(), path);
    AfterTwice([], [], whole);
    IntegralNone();
    while true
      invariant window.Valid() && |window.Unread()| <= old(|window.Unread()|)
      invariant old(window.Slow()) ==> window.Slow() && AllIntegral(events)
      invariant whole == After(events, WalkItems(window.Unread(), path))
      decreases |window.Unread()|
    {
      ghost var now := WalkItems(window.Unread(), path);
      var piece, done, more := StreamItem(window, path);
      IntegralParts(events, piece);
      if !more {
        FaithfulAfter(events, now, piece, done, window.Unread());
        return events + piece, done;
      }
      AfterTwice(events, piece, WalkItems(window.Unread(), path));
      events := events + piece;
    }
  }

  lemma SpaceSkipped(r: Text)
    requires r != [] ==> !IsSpace(r[0])
    ensures SkipSpace(r) == r
  {
  }

  method StreamArray(window: Window, path: Text) returns (events: seq<Event>, ok: bool)
    requires window.Valid() && Head(window.Unread()) == [LBRACKET]
    modifies window
    ensures window.Valid()
    ensures Faithful(WalkArray(old(window.Unread()), path), events, ok, window.Unread())
    ensures |window.Unread()| < old(|window.Unread()|)
    ensures ok && old(window.Slow()) ==> window.Slow() && AllIntegral(events)
  {
    hide WalkItems, Window.Unread;
    SpaceSkipped(window.Unread());
    ok := window.Take(LBRACKET);
    ghost var first := SkipSpace(window.Unread());
    SpaceSkipped(first);
    var next := window.Peek();
    if next == [RBRACKET] {
      ok := window.Take(RBRACKET);
      events := [];
    } else {
      events, ok := StreamItems(window, path);
    }
  }

  ghost function WalkScalar(s: Text, path: Text): Walk {
    match ParseValue(s)
    case Fail => Walk([], false, s)
    case Parsed(v, after) => Walk([Scalar(path, v)], true, after)
  }

  method StreamScalar(window: Window, path: Text) returns (events: seq<Event>, ok: bool)
    requires window.Valid()
    modifies window
    ensures window.Valid() && |window.Unread()| <= old(|window.Unread()|)
    ensures Nearly(WalkScalar(SkipSpace(old(window.Unread())), path), events, ok, window.Unread())
    ensures ok ==> |window.Unread()| < old(|window.Unread()|)
    ensures ok && old(window.Slow()) ==> window.Slow() && (AllIntegral(events) || MarkAhead(window.Unread()))
  {
    hide ParseValue, AllIntegral, Delivered, Window.Unread;
    ghost var w := WalkScalar(SkipSpace(window.Unread()), path);
    NothingDelivered(w.events);
    var v: Value;
    ok, v := window.Next();
    events := if ok then [Scalar(path, v)] else [];
    if ok {
      IntegralOne(events[0]);
      FirstDelivered(Scalar(path, v), w.events);
    }
  }

  method StreamMember(window: Window, path: Text, keys: seq<Text>) returns (events: seq<Event>, ok: bool)
    requires window.Valid()
    modifies window
    ensures window.Valid() && |window.Unread()| <= old(|window.Unread()|)
    ensures Nearly(WalkMember(old(window.Unread()), path, keys), events, ok, window.Unread())
    ensures ok ==> |window.Unread()| < old(|window.Unread()|)
    ensures ok && old(window.Slow()) ==> window.Slow() && (AllIntegral(events) || MarkAhead(window.Unread()))
    decreases |window.Unread()|, 1
  {
    hide ParseValue, WalkArray, WalkObject, AllIntegral, Delivered, Window.Unread;
    ghost var r := SkipSpace(window.Unread());
    SpaceSkipped(r);
    var next: Text := [];
    if path in keys {
      next := window.Peek();
    }
    if path in keys && next == [LBRACKET] {
      events, ok := StreamArray(window, path);
    } else {
      var below := LeadsTo(path, keys);
      if below {
        next := window.Peek();
      }
      if below && next == [LBRACE] {
        events, ok := StreamObject(window, path + [DOT], keys);
      } else {
        events, ok := StreamScalar(window, path);
      }
    }
  }

  /** `_object`. */
  method StreamObject(window: Window, prefix: Text, keys: seq<Text>) returns (events: seq<Event>, ok: bool)
    requires window.Valid()
    modifies window
    ensures window.Valid() && |window.Unread()| <= old(|window.Unread()|)
    ensures Faithful(WalkObject(old(window.Unread()), prefix, keys), events, ok, window.Unread())
    ensures ok ==> |window.Unread()| < old(|window.Unread()|)
    ensures ok && old(window.Slow()) ==> window.Slow() && AllIntegral(events)
    decreases |window.Unread()|, 0
  {
    hide ParseValue, WalkMembers, AllIntegral, Window.Unread;
    events := [];
    IntegralNone();
    ok := window.Take(LBRACE);
    if !ok {
      return;
    }
    SpaceSkipped(SkipSpace(window.Unread()));
    var next := window.Peek();
    if next == [RBRACE] {
      ok := window.Take(RBRACE);
      return;
    }
    events, ok := StreamMembers(window, prefix, keys);
  }

  /** The loop of `_object`, from the first key on. */
  method StreamMembers(window: Window, prefix: Text, keys: seq<Text>) returns (events: seq<Event>, ok: bool)
    requires window.Valid()
    modifies window
    ensures window.Valid() && |window.Unread()| <= old(|window.Unread()|)
    ensures Faithful(WalkMembers(old(window.Unread()), prefix, keys), events, ok, window.Unread())
    ensures ok ==> |window.Unread()| < old(|window.Unread()|)
    ensures ok && old(window.Slow()) ==> window.Slow() && AllIntegral(events)
    decreases |window.Unread()|, 3
  {
    hide ParseValue, WalkMembers, After, Faithful, AllIntegral, Delivered, Window.Unread;
    events := [];
    ghost var whole := WalkMembers(window.Unread(), prefix, keys);
    AfterTwice([], [], whole);
    IntegralNone();
    while true
      invariant window.Valid() && |window.Unread()| <= old(|window.Unread()|)
      invariant old(window.Slow()) ==> window.Slow() && AllIntegral(events)
      invariant whole == After(events, WalkMembers(window.Unread(), prefix, keys))
      decreases |window.Unread()|
    {
      ghost var now := WalkMembers(window.Unread(), prefix, keys);
      var piece, done, more := StreamKeyed(window, prefix, keys);
      IntegralParts(events, piece);
      if !more {
        FaithfulAfter(events, now, piece, done, window.Unread());
        return events + piece, done;
      }
      AfterTwice(events, piece, WalkMembers(window.Unread(), prefix, keys));
      events := events + piece;
    }
  }

  /** What the walk does after a key and its colon. */
  lemma AfterKeyHere(s: Text, key: Text, prefix: Text, keys: seq<Text>)
    ensures var member, w := WalkMember(s, prefix + key, keys), WalkAfterKey(s, key, prefix, keys);
      && (!member.ok ==> w == member)
      && (member.ok ==>
        var r := SkipSpace(member.rest);
        && member.events <= w.events
        && (Head(r) == [COMMA] ==> w == After(member.events, WalkMembers(r[1..], prefix, keys)))
        && (Head(r) == [RBRACE] ==> w == Walk(member.events, true, r[1..]))
        && (Head(r) != [COMMA] && Head(r) != [RBRACE] ==> !w.ok && w.events == member.events))
  {
    hide WalkMember, WalkMembers;
  }

  lemma KeyHere(s: Text, prefix: Text, keys: seq<Text>)
    ensures var p, w := ParseValue(SkipSpace(s)), WalkMembers(s, prefix, keys);
      && (p.Fail? || !p.value.String? || Head(SkipSpace(p.rest)) != [COLON] ==> !w.ok && w.events == [])
      && (p.Parsed? && p.value.String? && Head(SkipSpace(p.rest)) == [COLON] ==>
            w == WalkAfterKey(SkipSpace(p.rest)[1..], p.value.text, prefix, keys))
  {
    hide ParseValue, WalkAfterKey;
  }

  lemma DeliveredWider(events: seq<Event>, some: seq<Event>, all: seq<Event>)
    requires Delivered(events, some) && some <= all
    ensures Delivered(events, all) && (!AllIntegral(some) ==> !AllIntegral(all))
  {
  }

  /** One turn of the loop in `_object`: a key, its value, and the separator after it. */
  method StreamKeyed(window: Window, prefix: Text, keys: seq<Text>) returns (events: seq<Event>, ok: bool, more: bool)
    requires window.Valid()
    modifies window
    ensures window.Valid() && |window.Unread()| <= old(|window.Unread()|)
    ensures !more ==> Faithful(WalkMembers(old(window.Unread()), prefix, keys), events, ok, window.Unread())
    ensures more ==> ok
    ensures more ==>
      WalkMembers(old(window.Unread()), prefix, keys) == After(events, WalkMembers(window.Unread(), prefix, keys))
    ensures ok ==> |window.Unread()| < old(|window.Unread()|)
    ensures ok && old(window.Slow()) ==> window.Slow() && AllIntegral(events)
    decreases |window.Unread()|, 2
  {
    hide ParseValue, WalkMembers, WalkMember, WalkAfterKey, AllIntegral, Delivered, Window.Unread;
    events, ok, more := [], false, false;
    ghost var now, p := WalkMembers(window.Unread(), prefix, keys), ParseValue(SkipSpace(window.Unread()));
    KeyHere(window.Unread(), prefix, keys);
    NothingDelivered(now.events);
    var decoded, key := window.Next();
    if !decoded || !key.String? {
      return;
    }
    ghost var c := SkipSpace(window.Unread());
    var colon := window.Take(COLON);
    if !colon {
      return;
    }
    events, ok, more := StreamValue(window, key.text, prefix, keys);
  }

  /** The rest of that turn, after the colon. */
  method StreamValue(window: Window, key: Text, prefix: Text, keys: seq<Text>)
    returns (events: seq<Event>, ok: bool, more: bool)
    requires window.Valid()
    modifies window
    ensures window.Valid() && |window.Unread()| <= old(|window.Unread()|)
    ensures !more ==> Faithful(WalkAfterKey(old(window.Unread()), key, prefix, keys), events, ok, window.Unread())
    ensures more ==> ok
    ensures more ==>
      WalkAfterKey(old(window.Unread()), key, prefix, keys) == After(events, WalkMembers(window.Unread(), prefix, keys))
    ensures ok ==> |window.Unread()| < old(|window.Unread()|)
    ensures ok && old(window.Slow()) ==> window.Slow() && AllIntegral(events)
    decreases |window.Unread()|, 2
  {
    hide ParseValue, WalkMembers, WalkMember, WalkAfterKey, AllIntegral, Delivered, Window.Unread;
    more := false;
    ghost var s := window.Unread();
    ghost var member, now := WalkMember(s, prefix + key, keys), WalkAfterKey(s, key, prefix, keys);
    AfterKeyHere(s, key, prefix, keys);
    events, ok := StreamMember(window, prefix + key, keys);
    DeliveredWider(events, member.events, if member.ok then now.events else member.events);
    if !ok {
      return;
    }
    ghost var rest := window.Unread();
    MarkIsNoSpace(rest);
    SpaceSkipped(SkipSpace(rest));
    var next := window.Peek();
    more := next == [COMMA];
    ok := window.Take(if more then COMMA else RBRACE);
  }

  /**
   `stream_manifest`, for every document, every chunk size and every way the file may arrive. If it
   finishes, the document parses to an object and exactly its flattening was yielded. It finishes on
   every such document that hands out no fraction or exponent number directly; on the others it may
   stop with an error, and only the last value yielded before that may have lost its fraction. That
   condition is exact: arriving one character at a time, no such document is finished.
   */
  method StreamManifest(text: Text, keys: seq<Text>, chunk: nat, most: nat) returns (events: seq<Event>, ok: bool)
    requires chunk > 0 && most > 0
    ensures var whole := ParseValue(SkipSpace(text));
      var good := whole.Parsed? && whole.value.Object?;
      && (ok ==> good && events == Flatten(whole.value.members, [], keys))
      && (good && AllIntegral(Flatten(whole.value.members, [], keys)) ==> ok)
      && (good ==> Delivered(events, Flatten(whole.value.members, [], keys)))
      && (most == 1 ==> (ok <==> good && AllIntegral(Flatten(whole.value.members, [], keys))))
  {
    hide Window.Unread, WalkObject, AllIntegral, Delivered, ParseValue, Flatten, SkipSpace;
    ObjectAgrees(text, [], keys);
    var window := new Window(text, chunk, most);
    events, ok := StreamObject(window, [], keys);
  }
}
