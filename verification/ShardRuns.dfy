/**
 Candidate roots and the bounded batch loop of `tools/compile_live_shards.py`, over whole
 sequences of compiler runs on one cache.
 */
module ShardRuns {
  import opened ShardIndex

  // ---- Entry lists ---------------------------------------------------------------------

  datatype Entry = Entry(root: Root, hits: nat, kinds: set<string>)

  predicate Before(a: Root, b: Root) {
    a.addr < b.addr || (a.addr == b.addr && a.mode.Arm? && b.mode.Thumb?)
  }

  ghost predicate Sorted(rs: seq<Root>) {
    rs == [] || ((forall r :: r in rs[1..] ==> Before(rs[0], r)) && Sorted(rs[1..]))
  }

  ghost function Members(rs: seq<Root>): (s: set<Root>)
    ensures forall r :: r in s <==> r in rs
  {
    set r | r in rs
  }

  function RootSeq(es: seq<Entry>): (rs: seq<Root>)
    ensures |rs| == |es|
  {
    if es == [] then [] else [es[0].root] + RootSeq(es[1..])
  }

  ghost function Roots(es: seq<Entry>): set<Root> { Members(RootSeq(es)) }

  /** Total observations of one root. */
  function Hits(es: seq<Entry>, root: Root): nat {
    if es == [] then 0 else (if es[0].root == root then es[0].hits else 0) + Hits(es[1..], root)
  }

  /** Every kind one root was observed as. */
  function Kinds(es: seq<Entry>, root: Root): set<string> {
    if es == [] then {} else (if es[0].root == root then es[0].kinds else {}) + Kinds(es[1..], root)
  }

  /** Counts one more observation into a list ordered by address and mode. */
  function Count(es: seq<Entry>, e: Entry): seq<Entry> {
    if es == [] then [e]
    else if es[0].root == e.root then [Entry(e.root, es[0].hits + e.hits, es[0].kinds + e.kinds)] + es[1..]
    else if Before(e.root, es[0].root) then [e] + es
    else [es[0]] + Count(es[1..], e)
  }

  lemma {:induction false} CountAddsHits(es: seq<Entry>, e: Entry, root: Root)
    ensures Hits(Count(es, e), root) == Hits(es, root) + (if root == e.root then e.hits else 0)
    ensures Kinds(Count(es, e), root) == Kinds(es, root) + (if root == e.root then e.kinds else {})
  {
    if es != [] && es[0].root != e.root && !Before(e.root, es[0].root) {
      CountAddsHits(es[1..], e, root);
      assert Count(es, e)[1..] == Count(es[1..], e);
    }
  }

  function Insert(rs: seq<Root>, r: Root): seq<Root> {
    if rs == [] then [r]
    else if rs[0] == r then rs
    else if Before(r, rs[0]) then [r] + rs
    else [rs[0]] + Insert(rs[1..], r)
  }

  lemma {:induction false} CountInserts(es: seq<Entry>, e: Entry)
    ensures RootSeq(Count(es, e)) == Insert(RootSeq(es), e.root)
  {
    if es == [] {
      assert RootSeq([e]) == [e.root];
    } else {
      assert RootSeq(es)[1..] == RootSeq(es[1..]);
      CountInserts(es[1..], e);
    }
  }

  lemma {:induction false} InsertMembers(rs: seq<Root>, r: Root)
    ensures forall x :: x in Insert(rs, r) <==> x in rs || x == r
  {
    if rs != [] {
      InsertMembers(rs[1..], r);
      assert rs == [rs[0]] + rs[1..];
    }
  }

  /** Any two roots are equal or ordered. */
  lemma BeforeIsTotal(a: Root, b: Root)
    ensures a == b || Before(a, b) || Before(b, a)
  {
  }

  lemma BeforeAll(first: Root, rs: seq<Root>, r: Root)
    requires Sorted([first] + rs) && Before(r, first)
    ensures forall x :: x in [first] + rs ==> Before(r, x)
  {
    assert ([first] + rs)[1..] == rs;
  }

  lemma SortedCons(first: Root, rs: seq<Root>)
    ensures Sorted([first] + rs) <==> Sorted(rs) && forall x :: x in rs ==> Before(first, x)
  {
    assert ([first] + rs)[1..] == rs;
  }

  lemma {:induction false} InsertKeepsOrder(rs: seq<Root>, r: Root)
    requires Sorted(rs)
    ensures Sorted(Insert(rs, r)) && Members(Insert(rs, r)) == Members(rs) + {r}
  {
    InsertSorts(rs, r);
    InsertMembers(rs, r);
  }

  lemma {:induction false} InsertSorts(rs: seq<Root>, r: Root)
    requires Sorted(rs)
    ensures Sorted(Insert(rs, r))
  {
    hide Sorted, Before;
    if rs == [] {
      SortedCons(r, []);
      NothingYet();
      assert [r] == [r] + [];
    } else {
      var first, rest := rs[0], rs[1..];
      assert rs == [first] + rest;
      SortedCons(first, rest);
      BeforeIsTotal(first, r);
      if Before(r, first) {
        BeforeAll(first, rest, r);
        SortedCons(r, rs);
      } else {
        InsertSorts(rest, r);
        InsertMembers(rest, r);
        SortedCons(first, Insert(rest, r));
      }
    }
  }

  lemma {:induction false} RootsConcat(a: seq<Entry>, b: seq<Entry>)
    ensures RootSeq(a + b) == RootSeq(a) + RootSeq(b)
    ensures Roots(a + b) == Roots(a) + Roots(b)
  {
    if a == [] {
      assert a + b == b;
    } else {
      assert (a + b)[1..] == a[1..] + b;
      RootsConcat(a[1..], b);
    }
  }

  lemma {:induction false} HitsConcat(a: seq<Entry>, b: seq<Entry>, root: Root)
    ensures Hits(a + b, root) == Hits(a, root) + Hits(b, root)
    ensures Kinds(a + b, root) == Kinds(a, root) + Kinds(b, root)
  {
    if a == [] {
      assert a + b == b;
    } else {
      assert (a + b)[1..] == a[1..] + b;
      HitsConcat(a[1..], b, root);
    }
  }

  /** What `merge_entries` keeps of two lists: every root, its hits added up, its kinds united. */
  ghost predicate IsMerge(merged: seq<Entry>, left: seq<Entry>, right: seq<Entry>) {
    && Sorted(RootSeq(merged)) && Roots(merged) == Roots(left) + Roots(right)
    && (forall root :: Hits(merged, root) == Hits(left, root) + Hits(right, root))
    && (forall root :: Kinds(merged, root) == Kinds(left, root) + Kinds(right, root))
  }

  /** One more entry counted in. */
  lemma CountMerges(before: seq<Entry>, some: seq<Entry>, e: Entry)
    requires IsMerge(before, some, [])
    ensures IsMerge(Count(before, e), some + [e], [])
  {
    hide Sorted, Count, Insert, Members, Hits, Kinds, RootSeq;
    CountInserts(before, e);
    InsertKeepsOrder(RootSeq(before), e.root);
    RootsConcat(some, [e]);
    OneEntry(e);
    NothingYet();
    forall root
      ensures Hits(Count(before, e), root) == Hits(some + [e], root)
      ensures Kinds(Count(before, e), root) == Kinds(some + [e], root)
    {
      CountAddsHits(before, e, root);
      HitsConcat(some, [e], root);
    }
  }

  lemma NothingYet()
    ensures Sorted([]) && IsMerge([], [], []) && forall root :: Hits([], root) == 0 && Kinds([], root) == {}
  {
  }

  lemma OneEntry(e: Entry)
    ensures Roots([e]) == {e.root} && Roots([]) == {}
    ensures forall root :: Hits([e], root) == if root == e.root then e.hits else 0
    ensures forall root :: Kinds([e], root) == if root == e.root then e.kinds else {}
  {
    assert [e][1..] == [];
    assert RootSeq([e]) == [e.root];
  }

  lemma MergeOfConcat(merged: seq<Entry>, left: seq<Entry>, right: seq<Entry>)
    requires IsMerge(merged, left + right, [])
    ensures IsMerge(merged, left, right)
  {
    hide Sorted, Members;
    RootsConcat(left, right);
    OneEntry(Entry(Root(0, Mode.Arm), 0, {}));
    forall root
      ensures Hits(merged, root) == Hits(left, root) + Hits(right, root)
      ensures Kinds(merged, root) == Kinds(left, root) + Kinds(right, root)
    {
      HitsConcat(left, right, root);
    }
  }

  /** `merge_entries`: one ordered list, hits added up and kinds united root by root. */
  method MergeEntries(left: seq<Entry>, right: seq<Entry>) returns (merged: seq<Entry>)
    ensures RootSeq(merged) == SortRoots(Roots(left) + Roots(right))
    ensures forall root :: Hits(merged, root) == Hits(left, root) + Hits(right, root)
    ensures forall root :: Kinds(merged, root) == Kinds(left, root) + Kinds(right, root)
  {
    merged := [];
    var all := left + right;
    NothingYet();
    {
      hide IsMerge, Count;
      for i := 0 to |all|
        invariant IsMerge(merged, all[..i], [])
      {
        CountMerges(merged, all[..i], all[i]);
        assert all[..i + 1] == all[..i] + [all[i]];
        merged := Count(merged, all[i]);
      }
      assert all[..|all|] == all;
      MergeOfConcat(merged, left, right);
    }
    SortedIsUnique(RootSeq(merged), SortRoots(Roots(left) + Roots(right)));
  }

  ghost predicate IsFirst(first: Root, s: set<Root>) {
    first in s && forall r :: r in s && r != first ==> Before(first, r)
  }

  lemma {:induction false} HasFirst(s: set<Root>)
    requires s != {}
    ensures exists first :: IsFirst(first, s)
  {
    var some :| some in s;
    var rest := s - {some};
    if rest == {} {
      assert s == {some};
      assert IsFirst(some, s);
    } else {
      HasFirst(rest);
      var other :| IsFirst(other, rest);
      if Before(other, some) {
        assert IsFirst(other, s);
      } else {
        assert IsFirst(some, s) by {
          forall r | r in s && r != some
            ensures Before(some, r)
          {
            assert r in rest;
          }
        }
      }
    }
  }

  /** The roots of a set in the order `merge_entries` sorts them. */
  ghost function SortRoots(s: set<Root>): (rs: seq<Root>)
    ensures Sorted(rs) && Members(rs) == s
  {
    if s == {} then []
    else
      HasFirst(s);
      var first :| IsFirst(first, s);
      var tail := SortRoots(s - {first});
      assert forall r :: r in tail ==> r in Members(tail);
      [first] + tail
  }

  lemma MembersOfNonEmpty(rs: seq<Root>)
    ensures rs != [] ==> Members(rs) != {}
  {
    if rs != [] {
      assert rs[0] in Members(rs);
    }
  }

  /** Sorting leaves no choice: a set of roots has one ordered list. */
  lemma {:induction false} SortedIsUnique(a: seq<Root>, b: seq<Root>)
    requires Sorted(a) && Sorted(b) && Members(a) == Members(b)
    ensures a == b
    decreases |a|
  {
    MembersOfNonEmpty(a);
    MembersOfNonEmpty(b);
    if a != [] {
      assert a[0] in Members(b);
      assert b[0] in Members(a);
      assert a == [a[0]] + a[1..] && b == [b[0]] + b[1..];
      assert Members(a[1..]) == Members(a) - {a[0]};
      assert Members(b[1..]) == Members(b) - {b[0]};
      SortedIsUnique(a[1..], b[1..]);
    }
  }

  // ---- One run: the bounded batch ------------------------------------------------------

  datatype Candidate = Candidate(generation: Generation, roots: seq<Root>)

  function Key(provider: string, c: Candidate): WorkKey { WorkKey(provider, c.generation, c.roots) }

  /** What compiling a page comes to: a library, a permanent refusal, or an error worth retrying. */
  datatype Build = Built(dll: string) | Refused(unsupported: bool) | Broken

  /** The cache: the index and the library files on disk. */
  datatype Cache = Cache(captures: Captures, libraries: set<string>)

  /** The skip test: refused for good, or published and the library file still there. */
  predicate Satisfied(cache: Cache, key: WorkKey) {
    key in cache.captures &&
    (cache.captures[key].Rejected? || cache.captures[key].dll in cache.libraries)
  }

  function AfterBuild(cache: Cache, key: WorkKey, build: Build): Cache {
    match build
    case Built(dll) =>
      Cache(cache.captures[key := Published(key.generation, key.roots, dll)], cache.libraries + {dll})
    case Refused(unsupported) =>
      cache.(captures := cache.captures[key := Rejected(key.generation, unsupported)])
    case Broken => cache
  }

  datatype Tally = Tally(
    cache: Cache, ok: nat, failed: nat, skipped: nat, attempted: nat, pending: seq<Candidate>)

  /** The whole batch, from its first candidate on, with `attempted` builds already spent. */
  function Batch(cs: seq<Candidate>, cache: Cache, provider: string, cap: nat, attempted: nat,
                 builds: WorkKey -> Build): Tally
    decreases |cs|
  {
    if cs == [] then Tally(cache, 0, 0, 0, attempted, [])
    else
      var key := Key(provider, cs[0]);
      if Satisfied(cache, key) then
        var t := Batch(cs[1..], cache, provider, cap, attempted, builds);
        t.(skipped := t.skipped + 1)
      else if attempted >= cap then
        var t := Batch(cs[1..], cache, provider, cap, attempted, builds);
        t.(pending := [cs[0]] + t.pending)
      else
        var t := Batch(cs[1..], AfterBuild(cache, key, builds(key)), provider, cap, attempted + 1, builds);
        match builds(key)
        case Built(_) => t.(ok := t.ok + 1)
        case Refused(_) => t.(skipped := t.skipped + 1)
        case Broken => t.(failed := t.failed + 1, pending := [cs[0]] + t.pending)
  }

  /** The batch from candidate `i` on, one candidate further. */
  lemma BatchFrom(
    cs: seq<Candidate>, i: nat, cache: Cache, provider: string, cap: nat, attempted: nat, builds: WorkKey -> Build)
    requires i < |cs|
    ensures var key := Key(provider, cs[i]);
      var used := Satisfied(cache, key) || attempted >= cap;
      var next := if used then cache else AfterBuild(cache, key, builds(key));
      var spent := if used then attempted else attempted + 1;
      Batch(cs[i..], cache, provider, cap, attempted, builds) ==
      Counted(Batch(cs[i + 1..], next, provider, cap, spent, builds), cs[i],
              Outcome(cache, key, attempted >= cap, builds(key)))
  {
    assert cs[i..][1..] == cs[i + 1..];
  }

  datatype Fate = Compiled | Skipped | Postponed | Failed

  /** What becomes of one candidate. */
  function Outcome(cache: Cache, key: WorkKey, full: bool, build: Build): Fate {
    if Satisfied(cache, key) then Skipped
    else if full then Postponed
    else if build.Built? then Compiled
    else if build.Refused? then Skipped
    else Failed
  }

  function Counted(t: Tally, c: Candidate, fate: Fate): Tally {
    match fate
    case Compiled => t.(ok := t.ok + 1)
    case Skipped => t.(skipped := t.skipped + 1)
    case Postponed => t.(pending := [c] + t.pending)
    case Failed => t.(failed := t.failed + 1, pending := [c] + t.pending)
  }

  /** The loop in `main`. */
  method RunBatch(cs: seq<Candidate>, cache0: Cache, provider: string, cap: nat, builds: WorkKey -> Build)
    returns (tally: Tally)
    ensures tally == Batch(cs, cache0, provider, cap, 0, builds)
  {
    hide Batch, Satisfied, AfterBuild;
    var cache := cache0;
    var ok, failed, skipped, attempted := 0, 0, 0, 0;
    var pending: seq<Candidate> := [];
    assert cs[0..] == cs;
    for i := 0 to |cs|
      invariant attempted >= 0 && ok >= 0 && failed >= 0 && skipped >= 0
      invariant var t := Batch(cs[i..], cache, provider, cap, attempted, builds);
        Batch(cs, cache0, provider, cap, 0, builds) ==
        Tally(t.cache, ok + t.ok, failed + t.failed, skipped + t.skipped, t.attempted, pending + t.pending)
    {
      var key := Key(provider, cs[i]);
      BatchFrom(cs, i, cache, provider, cap, attempted, builds);
      if Satisfied(cache, key) {
        skipped := skipped + 1;
        continue;
      }
      if attempted >= cap {
        pending := pending + [cs[i]];
        continue;
      }
      attempted := attempted + 1;
      var build := builds(key);
      cache := AfterBuild(cache, key, build);
      match build {
        case Built(_) => ok := ok + 1;
        case Refused(_) => skipped := skipped + 1;
        case Broken =>
          failed := failed + 1;
          pending := pending + [cs[i]];
      }
    }
    assert cs[|cs|..] == [];
    EmptyBatch(cache, provider, cap, attempted, builds);
    tally := Tally(cache, ok, failed, skipped, attempted, pending);
  }

  lemma EmptyBatch(cache: Cache, provider: string, cap: nat, attempted: nat, builds: WorkKey -> Build)
    ensures Batch([], cache, provider, cap, attempted, builds) == Tally(cache, 0, 0, 0, attempted, [])
  {
  }

  predicate Subsequence(xs: seq<Candidate>, ys: seq<Candidate>) {
    xs == [] ||
    (ys != [] && ((xs[0] == ys[0] && Subsequence(xs[1..], ys[1..])) || Subsequence(xs, ys[1..])))
  }

  /**
   Every candidate ends up compiled, skipped or pending; the cap bounds the attempts; what is
   left keeps its order; and everything not left is satisfied from now on.
   */
  lemma {:induction false} BatchAccounts(
    cs: seq<Candidate>, cache: Cache, provider: string, cap: nat, attempted: nat, builds: WorkKey -> Build)
    ensures var t := Batch(cs, cache, provider, cap, attempted, builds);
      && t.ok + t.skipped + |t.pending| == |cs|
      && t.failed <= |t.pending|
      && attempted <= t.attempted <= (if attempted > cap then attempted else cap)
      && Subsequence(t.pending, cs)
      && (forall c :: c in cs && c !in t.pending ==> Satisfied(t.cache, Key(provider, c)))
    decreases |cs|
  {
    hide Batch, Satisfied, AfterBuild;
    if cs == [] {
      EmptyBatch(cache, provider, cap, attempted, builds);
    } else {
      var key := Key(provider, cs[0]);
      var used := Satisfied(cache, key) || attempted >= cap;
      var next := if used then cache else AfterBuild(cache, key, builds(key));
      var spent := if used then attempted else attempted + 1;
      BatchFrom(cs, 0, cache, provider, cap, attempted, builds);
      assert cs[0..] == cs;
      BatchAccounts(cs[1..], next, provider, cap, spent, builds);
      var t := Batch(cs, cache, provider, cap, attempted, builds);
      var u := Batch(cs[1..], next, provider, cap, spent, builds);
      AttemptSatisfies(cache, key, builds(key));
      if cs[0] !in t.pending {
        BatchKeepsSatisfied(cs[1..], next, provider, cap, spent, builds, key);
      }
      assert t.pending == u.pending || (t.pending == [cs[0]] + u.pending && t.pending[1..] == u.pending);
      assert cs == [cs[0]] + cs[1..];
    }
  }

  lemma AttemptSatisfies(cache: Cache, key: WorkKey, build: Build)
    ensures Satisfied(AfterBuild(cache, key, build), key) <==> Satisfied(cache, key) || !build.Broken?
  {
  }

  /** Nothing a batch does makes a satisfied key unsatisfied. */
  lemma {:induction false} BatchKeepsSatisfied(
    cs: seq<Candidate>, cache: Cache, provider: string, cap: nat, attempted: nat, builds: WorkKey -> Build,
    key: WorkKey)
    requires Satisfied(cache, key)
    ensures Satisfied(Batch(cs, cache, provider, cap, attempted, builds).cache, key)
    decreases |cs|
  {
    if cs != [] {
      var first := Key(provider, cs[0]);
      if Satisfied(cache, first) || attempted >= cap {
        BatchKeepsSatisfied(cs[1..], cache, provider, cap, attempted, builds, key);
      } else {
        var next := AfterBuild(cache, first, builds(first));
        BatchKeepsSatisfied(cs[1..], next, provider, cap, attempted + 1, builds, key);
      }
    }
  }
}
