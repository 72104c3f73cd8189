/** Whole sequences of compiler runs: coverage only grows, reruns settle, backlogs drain. */
module ShardHistory {
  import opened ShardIndex
  import opened ShardRuns

  // ---- Candidates ----------------------------------------------------------------------

  /** The library recorded under `k` was compiled from root `r` of generation `g`. */
  predicate Publishes(captures: Captures, k: WorkKey, g: Generation, r: Root) {
    k in captures && captures[k].Published? && captures[k].generation == g && r in captures[k].roots
  }

  /** Every root some published library of this page generation was compiled from. */
  ghost function PublishedRoots(captures: Captures, g: Generation): (roots: set<Root>)
    ensures forall r :: r in roots <==> exists k :: Publishes(captures, k, g, r)
  {
    set k, r | k in captures && captures[k].Published? && r in captures[k].roots && Publishes(captures, k, g, r) :: r
  }

  lemma PublishedRootsAfter(captures: Captures, key: WorkKey, record: Record, g: Generation)
    requires key !in captures
    ensures PublishedRoots(captures[key := record], g) == PublishedRoots(captures, g) +
      (if record.Published? && record.generation == g then Members(record.roots) else {})
  {
    var after := captures[key := record];
    assert forall k, r :: k != key ==> (Publishes(after, k, g, r) <==> Publishes(captures, k, g, r));
    forall r | r in PublishedRoots(captures, g)
      ensures r in PublishedRoots(after, g)
    {
      var k :| Publishes(captures, k, g, r);
      assert Publishes(after, k, g, r);
    }
    forall r | record.Published? && record.generation == g && r in record.roots
      ensures r in PublishedRoots(after, g)
    {
      assert Publishes(after, key, g, r);
    }
  }

  /** The candidate of a page generation: what was observed now and what was compiled before. */
  ghost function CandidateOf(g: Generation, observed: set<Root>, captures: Captures): Candidate {
    Candidate(g, SortRoots(observed + PublishedRoots(captures, g)))
  }

  /** Entries nobody observed this time: no hits, and only the kind that says so. */
  ghost predicate Unobserved(es: seq<Entry>) {
    && (forall root :: Hits(es, root) == 0)
    && (forall root :: Kinds(es, root) == if root in Roots(es) then {"published"} else {})
  }

  lemma UnobservedConcat(a: seq<Entry>, b: seq<Entry>)
    requires Unobserved(a) && Unobserved(b)
    ensures Unobserved(a + b) && Roots(a + b) == Roots(a) + Roots(b)
  {
    hide Hits, Kinds;
    RootsConcat(a, b);
    forall root
      ensures Hits(a + b, root) == 0 && Kinds(a + b, root) == if root in Roots(a + b) then {"published"} else {}
    {
      HitsConcat(a, b, root);
    }
  }

  lemma UnobservedOne(e: Entry)
    requires e.hits == 0 && e.kinds == {"published"}
    ensures Unobserved([e])
  {
    OneEntry(e);
    forall root
      ensures Hits([e], root) == 0 && Kinds([e], root) == if root == e.root then {"published"} else {}
    {
      assert [e][1..] == [] && Kinds([], root) == {};
      assert Kinds([e], root) == (if e.root == root then e.kinds else {}) + {};
    }
  }

  lemma NothingUnobserved()
    ensures Unobserved([]) && Roots([]) == {}
  {
  }

  /** `generation_entries`, for one generation: the published roots as zero-hit entries. */
  method PublishedEntries(captures: Captures, g: Generation) returns (entries: seq<Entry>)
    ensures Roots(entries) == PublishedRoots(captures, g) && Unobserved(entries)
  {
    hide Unobserved, Roots, PublishedRoots;
    entries := [];
    var todo := captures.Keys;
    ghost var done: Captures := map[];
    NothingUnobserved();
    while todo != {}
      invariant todo <= captures.Keys
      invariant done == map k | k in captures && k !in todo :: captures[k]
      invariant Roots(entries) == PublishedRoots(done, g) && Unobserved(entries)
      decreases todo
    {
      var key :| key in todo;
      var record := captures[key];
      PublishedRootsAfter(done, key, record, g);
      done := done[key := record];
      if record.Published? && record.generation == g {
        UnobservedConcat(entries, ZeroHits(record.roots));
        ZeroHitsRoots(record.roots);
        entries := entries + ZeroHits(record.roots);
      }
      todo := todo - {key};
    }
    assert done == captures;
  }

  lemma {:induction false} ZeroHitsRoots(rs: seq<Root>)
    ensures Roots(ZeroHits(rs)) == Members(rs)
  {
  }

  function ZeroHits(rs: seq<Root>): (es: seq<Entry>)
    ensures RootSeq(es) == rs && Unobserved(es)
  {
    if rs == [] then []
    else
      var rest := ZeroHits(rs[1..]);
      var one := Entry(rs[0], 0, {"published"});
      UnobservedOne(one);
      UnobservedConcat([one], rest);
      assert ([one] + rest)[1..] == rest;
      [one] + rest
  }

  /** The root list `collect_candidates` builds for one page generation. */
  method MakeCandidate(g: Generation, observed: seq<Entry>, captures: Captures)
    returns (c: Candidate, merged: seq<Entry>)
    ensures c == CandidateOf(g, Roots(observed), captures)
    ensures forall root :: Hits(merged, root) == Hits(observed, root)
    ensures forall root ::
      Kinds(merged, root) == Kinds(observed, root) + if root in PublishedRoots(captures, g) then {"published"} else {}
  {
    var published := PublishedEntries(captures, g);
    merged := MergeEntries(observed, published);
    c := Candidate(g, RootSeq(merged));
  }

  // ---- When recording keeps published roots --------------------------------------------

  /** Some other library of the generation was compiled from this root too. */
  ghost predicate CoveredElsewhere(captures: Captures, key: WorkKey, g: Generation, r: Root) {
    exists k :: k != key && Publishes(captures, k, g, r)
  }

  /**
   A record keeps the published roots of a generation exactly when it republishes the roots of
   the entry it overwrites, or other libraries cover them.
   */
  lemma RecordKeepsRootsExactly(captures: Captures, key: WorkKey, record: Record, g: Generation)
    ensures PublishedRoots(captures, g) <= PublishedRoots(captures[key := record], g) <==>
      forall r :: Publishes(captures, key, g, r) ==>
        (record.Published? && record.generation == g && r in record.roots) || CoveredElsewhere(captures, key, g, r)
  {
    var after := captures[key := record];
    assert forall k, r :: k != key ==> (Publishes(after, k, g, r) <==> Publishes(captures, k, g, r));
    assert forall r ::
      Publishes(after, key, g, r) <==> record.Published? && record.generation == g && r in record.roots;
    assert forall r ::
      r in PublishedRoots(after, g) <==> Publishes(after, key, g, r) || CoveredElsewhere(captures, key, g, r);
    assert forall r ::
      r in PublishedRoots(captures, g) <==> Publishes(captures, key, g, r) || CoveredElsewhere(captures, key, g, r);
  }

  /** Every record is about the key it is filed under; older ones may have recorded no roots. */
  ghost predicate Described(captures: Captures) {
    forall k :: k in captures ==>
      && captures[k].generation == k.generation
      && (captures[k].Published? ==> forall r :: r in captures[k].roots ==> r in k.roots)
  }

  /** The record of `key` is the only one that remembers some root of its page. */
  ghost predicate AloneKnows(captures: Captures, key: WorkKey) {
    exists r :: Publishes(captures, key, key.generation, r) && !CoveredElsewhere(captures, key, key.generation, r)
  }

  /**
   One build that the skip test did not prevent keeps the published roots of a page except in one
   case: the compiler refuses a page whose library is gone, and no other record knows its roots.
   */
  lemma BuildKeepsRootsExactly(cache: Cache, key: WorkKey, build: Build, g: Generation)
    requires Described(cache.captures)
    ensures PublishedRoots(cache.captures, g) <= PublishedRoots(AfterBuild(cache, key, build).captures, g) <==>
      !(key.generation == g && build.Refused? && AloneKnows(cache.captures, key))
    ensures Described(AfterBuild(cache, key, build).captures)
  {
    hide PublishedRoots;
    if !build.Broken? {
      RecordKeepsRootsExactly(cache.captures, key, AfterBuild(cache, key, build).captures[key], g);
    }
  }

  /**
   Without the libraries the guarantee fails: delete the file of a published page, let its
   recompilation be refused, and the refusal overwrites the record that remembered its roots.
   */
  lemma LostLibraryLosesRoots(provider: string, g: Generation, r: Root, dll: string)
    ensures var c := Candidate(g, [r]);
      var key := Key(provider, c);
      var cache := Cache(map[key := Published(g, [r], dll)], {});
      var after := Batch([c], cache, provider, 1, 0, (_) => Refused(true)).cache;
      r in PublishedRoots(cache.captures, g) && r !in PublishedRoots(after.captures, g)
  {
    var c := Candidate(g, [r]);
    var key := Key(provider, c);
    var cache := Cache(map[key := Published(g, [r], dll)], {});
    assert Publishes(cache.captures, key, g, r);
    var builds: WorkKey -> Build := (_) => Refused(true);
    assert Batch([c], cache, provider, 1, 0, builds).cache == AfterBuild(cache, key, Refused(true));
    assert AfterBuild(cache, key, Refused(true)).captures == map[key := Rejected(g, true)];
  }

  // ---- What one batch does to one page ---------------------------------------------------

  /** Both indexes hold the same records of the page generation. */
  ghost predicate SameRecords(a: Captures, b: Captures, g: Generation) {
    forall k: WorkKey :: k.generation == g ==> (k in a <==> k in b) && (k in a && k in b ==> a[k] == b[k])
  }

  lemma SamePublished(a: Captures, b: Captures, g: Generation)
    requires Described(a) && Described(b) && SameRecords(a, b, g)
    ensures PublishedRoots(a, g) == PublishedRoots(b, g)
    ensures forall k: WorkKey :: k.generation == g ==> (AloneKnows(a, k) <==> AloneKnows(b, k))
  {
    assert forall k, r :: Publishes(a, k, g, r) <==> Publishes(b, k, g, r);
    assert forall k, r :: CoveredElsewhere(a, k, g, r) <==> CoveredElsewhere(b, k, g, r);
  }

  /** A batch without a candidate of the page leaves its records alone. */
  lemma {:induction false} BatchElsewhere(
    cs: seq<Candidate>, cache: Cache, provider: string, cap: nat, attempted: nat, builds: WorkKey -> Build,
    g: Generation)
    requires Described(cache.captures) && forall c :: c in cs ==> c.generation != g
    ensures var after := Batch(cs, cache, provider, cap, attempted, builds).cache.captures;
      Described(after) && SameRecords(cache.captures, after, g)
    decreases |cs|
  {
    if cs != [] {
      var key := Key(provider, cs[0]);
      assert cs[0].generation != g;
      if Satisfied(cache, key) || attempted >= cap {
        BatchElsewhere(cs[1..], cache, provider, cap, attempted, builds, g);
      } else {
        BatchElsewhere(cs[1..], AfterBuild(cache, key, builds(key)), provider, cap, attempted + 1, builds, g);
      }
    }
  }

  lemma {:induction false} BatchSplit(
    a: seq<Candidate>, b: seq<Candidate>, cache: Cache, provider: string, cap: nat, attempted: nat,
    builds: WorkKey -> Build)
    ensures var t := Batch(a, cache, provider, cap, attempted, builds);
      Batch(a + b, cache, provider, cap, attempted, builds).cache ==
      Batch(b, t.cache, provider, cap, t.attempted, builds).cache
    decreases |a|
  {
    if a == [] {
      assert a + b == b;
    } else {
      assert (a + b)[1..] == a[1..] + b;
      var key := Key(provider, a[0]);
      if Satisfied(cache, key) || attempted >= cap {
        BatchSplit(a[1..], b, cache, provider, cap, attempted, builds);
      } else {
        BatchSplit(a[1..], b, AfterBuild(cache, key, builds(key)), provider, cap, attempted + 1, builds);
      }
    }
  }

  // ---- Sequences of runs ---------------------------------------------------------------

  predicate Distinct(gs: seq<Generation>) {
    forall i, j :: 0 <= i < j < |gs| ==> gs[i] != gs[j]
  }

  /** Pages in scheduling order; they are the keys of a dictionary. */
  type Order = gs: seq<Generation> | Distinct(gs) witness []

  /** One invocation: the admitted pages in scheduling order, what was observed, and the outside world. */
  datatype Invocation = Invocation(
    order: Order, observed: map<Generation, set<Root>>, provider: string, cap: nat, builds: WorkKey -> Build)

  ghost function Observed(run: Invocation, g: Generation): set<Root> {
    if g in run.observed then run.observed[g] else {}
  }

  ghost function Candidates(run: Invocation, captures: Captures): (cs: seq<Candidate>)
    ensures |cs| == |run.order|
    ensures forall i :: 0 <= i < |cs| ==> cs[i] == CandidateOf(run.order[i], Observed(run, run.order[i]), captures)
  {
    seq(|run.order|, i requires 0 <= i < |run.order| =>
      CandidateOf(run.order[i], Observed(run, run.order[i]), captures))
  }

  ghost function Once(run: Invocation, cache: Cache): Tally {
    Batch(Candidates(run, cache.captures), cache, run.provider, run.cap, 0, run.builds)
  }

  /** What the batch has done when it comes to candidate `i`. */
  ghost function Upto(run: Invocation, cache: Cache, i: nat): Tally
    requires i <= |run.order|
  {
    Batch(Candidates(run, cache.captures)[..i], cache, run.provider, run.cap, 0, run.builds)
  }

  /** The run compiles candidate `i` rather than skipping or postponing it. */
  ghost predicate Attempts(run: Invocation, cache: Cache, i: nat)
    requires i < |run.order|
  {
    var t := Upto(run, cache, i);
    t.attempted < run.cap && !Satisfied(t.cache, Key(run.provider, Candidates(run, cache.captures)[i]))
  }

  /** The run's compiler refuses candidate `i`, of which the lost library's record alone knew some root. */
  ghost predicate ForgetsAt(run: Invocation, cache: Cache, i: nat)
    requires i < |run.order|
  {
    var key := Key(run.provider, Candidates(run, cache.captures)[i]);
    Attempts(run, cache, i) && run.builds(key).Refused? && AloneKnows(cache.captures, key)
  }

  ghost predicate Forgets(run: Invocation, cache: Cache, g: Generation) {
    exists i :: 0 <= i < |run.order| && run.order[i] == g && ForgetsAt(run, cache, i)
  }

  lemma OnceElsewhere(run: Invocation, cache: Cache, g: Generation)
    requires Described(cache.captures) && g !in run.order
    ensures var after := Once(run, cache).cache.captures;
      && Described(after) && SameRecords(cache.captures, after, g)
      && PublishedRoots(after, g) == PublishedRoots(cache.captures, g)
  {
    hide Batch, PublishedRoots, SortRoots;
    var cs := Candidates(run, cache.captures);
    forall c | c in cs
      ensures c.generation != g
    {
      var i :| 0 <= i < |cs| && cs[i] == c;
      assert run.order[i] in run.order;
    }
    BatchElsewhere(cs, cache, run.provider, run.cap, 0, run.builds, g);
    SamePublished(cache.captures, Once(run, cache).cache.captures, g);
  }

  /** What a run leaves of one page's records: those before it, changed by at most its one build. */
  lemma OnceHere(run: Invocation, cache: Cache, i: nat)
    requires Described(cache.captures) && i < |run.order|
    ensures var g, after := run.order[i], Once(run, cache).cache.captures;
      var key, before := Key(run.provider, Candidates(run, cache.captures)[i]), Upto(run, cache, i).cache;
      && Described(before.captures) && SameRecords(cache.captures, before.captures, g)
      && Described(after)
      && var built := AfterBuild(before, key, run.builds(key)).captures;
        SameRecords(if Attempts(run, cache, i) then built else before.captures, after, g)
  {
    hide Batch, PublishedRoots, SortRoots, AfterBuild;
    var cs, g := Candidates(run, cache.captures), run.order[i];
    forall j | 0 <= j < |cs| && j != i
      ensures cs[j].generation != g
    {
      assert run.order[j] != run.order[i];
    }
    BatchElsewhere(cs[..i], cache, run.provider, run.cap, 0, run.builds, g);
    assert cs == cs[..i] + cs[i..];
    BatchSplit(cs[..i], cs[i..], cache, run.provider, run.cap, 0, run.builds);
    var t := Upto(run, cache, i);
    assert cs[i..][1..] == cs[i + 1..];
    BatchOne(cs[i..], t.cache, run.provider, run.cap, t.attempted, run.builds);
    if Attempts(run, cache, i) {
      var key := Key(run.provider, cs[i]);
      DescribedAfterBuild(t.cache, key, run.builds(key));
      var built := AfterBuild(t.cache, key, run.builds(key));
      BatchElsewhere(cs[i + 1..], built, run.provider, run.cap, t.attempted + 1, run.builds, g);
    } else {
      BatchElsewhere(cs[i + 1..], t.cache, run.provider, run.cap, t.attempted, run.builds, g);
    }
  }

  lemma DescribedAfterBuild(cache: Cache, key: WorkKey, build: Build)
    requires Described(cache.captures)
    ensures Described(AfterBuild(cache, key, build).captures)
  {
  }

  lemma BatchOne(
    cs: seq<Candidate>, cache: Cache, provider: string, cap: nat, attempted: nat, builds: WorkKey -> Build)
    requires cs != []
    ensures var key := Key(provider, cs[0]);
      Batch(cs, cache, provider, cap, attempted, builds).cache ==
      if attempted < cap && !Satisfied(cache, key)
      then Batch(cs[1..], AfterBuild(cache, key, builds(key)), provider, cap, attempted + 1, builds).cache
      else Batch(cs[1..], cache, provider, cap, attempted, builds).cache
  {
  }

  /** A run keeps the published roots of a page exactly when it does not forget it. */
  lemma RunKeepsRootsExactly(run: Invocation, cache: Cache, g: Generation)
    requires Described(cache.captures)
    ensures Described(Once(run, cache).cache.captures)
    ensures PublishedRoots(cache.captures, g) <= PublishedRoots(Once(run, cache).cache.captures, g) <==>
      !Forgets(run, cache, g)
  {
    hide Batch, PublishedRoots, SortRoots, AfterBuild, AloneKnows, Once, Attempts, Described;
    if g !in run.order {
      OnceElsewhere(run, cache, g);
    } else {
      var i :| 0 <= i < |run.order| && run.order[i] == g;
      assert Forgets(run, cache, g) <==> ForgetsAt(run, cache, i);
      OnceHere(run, cache, i);
      var key, before := Key(run.provider, Candidates(run, cache.captures)[i]), Upto(run, cache, i).cache;
      var after := Once(run, cache).cache.captures;
      SamePublished(cache.captures, before.captures, g);
      if Attempts(run, cache, i) {
        BuildKeepsRootsExactly(before, key, run.builds(key), g);
        SamePublished(AfterBuild(before, key, run.builds(key)).captures, after, g);
      } else {
        SamePublished(before.captures, after, g);
      }
    }
  }

  // ---- When nothing can be forgotten -----------------------------------------------------

  /** Every missing library of the page is one the compiler would not refuse to build again. */
  ghost predicate Recoverable(cache: Cache, builds: WorkKey -> Build, g: Generation) {
    forall k :: k in cache.captures && cache.captures[k].Published? && k.generation == g ==>
      cache.captures[k].dll in cache.libraries || !builds(k).Refused?
  }

  lemma RecoverableIsKept(run: Invocation, cache: Cache, g: Generation)
    requires Described(cache.captures) && Recoverable(cache, run.builds, g)
    ensures !Forgets(run, cache, g)
  {
    hide Batch, SortRoots, PublishedRoots;
    forall i | 0 <= i < |run.order| && run.order[i] == g
      ensures !ForgetsAt(run, cache, i)
    {
      var cs := Candidates(run, cache.captures);
      var key := Key(run.provider, cs[i]);
      if Satisfied(cache, key) {
        BatchKeepsSatisfied(cs[..i], cache, run.provider, run.cap, 0, run.builds, key);
      }
    }
  }

  lemma {:induction false} RefusalsBuildNothing(
    cs: seq<Candidate>, cache: Cache, provider: string, cap: nat, attempted: nat, builds: WorkKey -> Build)
    requires forall key :: builds(key).Refused?
    ensures var t := Batch(cs, cache, provider, cap, attempted, builds);
      t.cache.libraries == cache.libraries && t.attempted <= attempted + |cs|
    decreases |cs|
  {
    if cs != [] {
      var key := Key(provider, cs[0]);
      if Satisfied(cache, key) || attempted >= cap {
        RefusalsBuildNothing(cs[1..], cache, provider, cap, attempted, builds);
      } else {
        RefusalsBuildNothing(cs[1..], AfterBuild(cache, key, builds(key)), provider, cap, attempted + 1, builds);
      }
    }
  }

  /**
   What can be said before a run: it keeps the page's published roots whatever the compiler does
   and however many pages it may build, exactly when the candidate's library is there or its roots
   are known elsewhere.
   */
  lemma SafeBeforehandExactly(run: Invocation, cache: Cache, i: nat)
    requires Described(cache.captures) && i < |run.order|
    ensures var key := Key(run.provider, Candidates(run, cache.captures)[i]);
      (forall cap: nat, builds: WorkKey -> Build ::
         !Forgets(run.(cap := cap, builds := builds), cache, run.order[i])) <==>
      Satisfied(cache, key) || !AloneKnows(cache.captures, key)
  {
    hide Batch, SortRoots, PublishedRoots, AloneKnows;
    var cs, g := Candidates(run, cache.captures), run.order[i];
    var key := Key(run.provider, cs[i]);
    if Satisfied(cache, key) || !AloneKnows(cache.captures, key) {
      forall cap: nat, builds: WorkKey -> Build
        ensures !Forgets(run.(cap := cap, builds := builds), cache, g)
      {
        var other := run.(cap := cap, builds := builds);
        assert Candidates(other, cache.captures) == cs;
        if Satisfied(cache, key) {
          BatchKeepsSatisfied(cs[..i], cache, run.provider, cap, 0, builds, key);
        }
        assert !ForgetsAt(other, cache, i);
      }
    } else {
      var builds: WorkKey -> Build := (_) => Refused(true);
      var worst := run.(cap := i + 1, builds := builds);
      assert Candidates(worst, cache.captures) == cs;
      RefusalsBuildNothing(cs[..i], cache, run.provider, i + 1, 0, builds);
      OnceHere(worst, cache, i);
      assert ForgetsAt(worst, cache, i);
      assert Forgets(worst, cache, g);
    }
  }

  // ---- What batches add ------------------------------------------------------------------

  lemma BuildAdds(cache: Cache, key: WorkKey, build: Build, g: Generation)
    requires Described(cache.captures)
    ensures PublishedRoots(AfterBuild(cache, key, build).captures, g)
         <= PublishedRoots(cache.captures, g) + (if key.generation == g then Members(key.roots) else {})
  {
    var before, after := cache.captures, AfterBuild(cache, key, build).captures;
    forall r | r in PublishedRoots(after, g)
      ensures r in PublishedRoots(before, g) || (key.generation == g && r in Members(key.roots))
    {
      var k :| Publishes(after, k, g, r);
      assert k != key ==> Publishes(before, k, g, r);
      assert k == key && build.Broken? ==> Publishes(before, k, g, r);
    }
  }

  /** Whatever is missing, a batch adds to a page only roots of that page's candidates. */
  lemma {:induction false} BatchAddsOnly(
    cs: seq<Candidate>, cache: Cache, provider: string, cap: nat, attempted: nat, builds: WorkKey -> Build,
    g: Generation, limit: set<Root>)
    requires Described(cache.captures) && PublishedRoots(cache.captures, g) <= limit
    requires forall c :: c in cs && c.generation == g ==> Members(c.roots) <= limit
    ensures var after := Batch(cs, cache, provider, cap, attempted, builds).cache.captures;
      Described(after) && PublishedRoots(after, g) <= limit
    decreases |cs|
  {
    hide PublishedRoots;
    if cs != [] {
      var key := Key(provider, cs[0]);
      if Satisfied(cache, key) || attempted >= cap {
        BatchAddsOnly(cs[1..], cache, provider, cap, attempted, builds, g, limit);
      } else {
        BuildAdds(cache, key, builds(key), g);
        DescribedAfterBuild(cache, key, builds(key));
        assert cs[0].generation == g ==> Members(cs[0].roots) <= limit;
        BatchAddsOnly(cs[1..], AfterBuild(cache, key, builds(key)), provider, cap, attempted + 1, builds, g, limit);
      }
    }
  }

  /** Whatever candidates it is given, a batch loses no root of a page that is recoverable. */
  lemma {:induction false} BatchGrows(
    cs: seq<Candidate>, cache: Cache, provider: string, cap: nat, attempted: nat, builds: WorkKey -> Build,
    g: Generation)
    requires Described(cache.captures) && Recoverable(cache, builds, g)
    ensures var after := Batch(cs, cache, provider, cap, attempted, builds).cache;
      Described(after.captures) && PublishedRoots(cache.captures, g) <= PublishedRoots(after.captures, g)
    decreases |cs|
  {
    hide PublishedRoots;
    if cs != [] {
      var key := Key(provider, cs[0]);
      if Satisfied(cache, key) || attempted >= cap {
        BatchGrows(cs[1..], cache, provider, cap, attempted, builds, g);
      } else {
        BuildKeepsRootsExactly(cache, key, builds(key), g);
        BatchGrows(cs[1..], AfterBuild(cache, key, builds(key)), provider, cap, attempted + 1, builds, g);
      }
    }
  }

  // ---- Histories -------------------------------------------------------------------------

  /** Between runs anything may happen to the library files. */
  datatype Event = Vanish(lost: set<string>) | Compile(run: Invocation)

  ghost function After(event: Event, cache: Cache): Cache {
    match event
    case Vanish(lost) => cache.(libraries := cache.libraries - lost)
    case Compile(run) => Once(run, cache).cache
  }

  ghost function All(events: seq<Event>, cache: Cache): Cache
    decreases |events|
  {
    if events == [] then cache else All(events[1..], After(events[0], cache))
  }

  /** No run of the history takes the forgetting branch for this page. */
  ghost predicate NeverForgets(events: seq<Event>, cache: Cache, g: Generation)
    decreases |events|
  {
    events == [] ||
    ((events[0].Compile? ==> !Forgets(events[0].run, cache, g)) &&
     NeverForgets(events[1..], After(events[0], cache), g))
  }

  /** At no event does the page lose a published root. */
  ghost predicate Grows(events: seq<Event>, cache: Cache, g: Generation)
    decreases |events|
  {
    events == [] ||
    (PublishedRoots(cache.captures, g) <= PublishedRoots(After(events[0], cache).captures, g) &&
     Grows(events[1..], After(events[0], cache), g))
  }

  lemma EventKeepsRootsExactly(event: Event, cache: Cache, g: Generation)
    requires Described(cache.captures)
    ensures Described(After(event, cache).captures)
    ensures PublishedRoots(cache.captures, g) <= PublishedRoots(After(event, cache).captures, g) <==>
      (event.Compile? ==> !Forgets(event.run, cache, g))
  {
    hide Batch, PublishedRoots, Once, Forgets, Described;
    if event.Compile? {
      RunKeepsRootsExactly(event.run, cache, g);
    }
  }

  /**
   Over any history of runs and vanishing libraries: a page's published roots never shrink,
   exactly when no run refuses a page whose roots only the record of a lost library knew.
   */
  lemma {:induction false} HistoryGrowsExactly(events: seq<Event>, cache: Cache, g: Generation)
    requires Described(cache.captures)
    ensures Described(All(events, cache).captures)
    ensures Grows(events, cache, g) <==> NeverForgets(events, cache, g)
    ensures NeverForgets(events, cache, g) ==>
      PublishedRoots(cache.captures, g) <= PublishedRoots(All(events, cache).captures, g)
    decreases |events|
  {
    hide PublishedRoots, Described, After, Forgets;
    if events != [] {
      EventKeepsRootsExactly(events[0], cache, g);
      HistoryGrowsExactly(events[1..], After(events[0], cache), g);
    }
  }

  /** Runs that find every library, or could build it again, forget nothing. */
  ghost predicate AlwaysRecoverable(events: seq<Event>, cache: Cache, g: Generation)
    decreases |events|
  {
    events == [] ||
    ((events[0].Compile? ==> Recoverable(cache, events[0].run.builds, g)) &&
     AlwaysRecoverable(events[1..], After(events[0], cache), g))
  }

  lemma {:induction false} RecoverableNeverForgets(events: seq<Event>, cache: Cache, g: Generation)
    requires Described(cache.captures) && AlwaysRecoverable(events, cache, g)
    ensures NeverForgets(events, cache, g)
    decreases |events|
  {
    hide PublishedRoots, Described, After, Forgets, Recoverable;
    if events != [] {
      EventKeepsRootsExactly(events[0], cache, g);
      if events[0].Compile? {
        RecoverableIsKept(events[0].run, cache, g);
      }
      RecoverableNeverForgets(events[1..], After(events[0], cache), g);
    }
  }

  /**
   Main result. Whatever runs happened and whatever libraries vanished in between, if no run took
   the forgetting branch for these page bytes, they are compiled now from at least every root set
   that was ever published for them.
   */
  lemma CoverageOnlyGrows(cache: Cache, between: seq<Event>, run: Invocation, i: nat, k: WorkKey)
    requires Described(cache.captures) && k in cache.captures && cache.captures[k].Published?
    requires i < |run.order| && run.order[i] == k.generation
    requires NeverForgets(between, cache, k.generation)
    ensures var c := Candidates(run, All(between, cache).captures)[i];
      Members(cache.captures[k].roots) <= Members(c.roots) && Observed(run, k.generation) <= Members(c.roots)
  {
    HistoryGrowsExactly(between, cache, k.generation);
    forall r | r in Members(cache.captures[k].roots)
      ensures r in PublishedRoots(cache.captures, k.generation)
    {
      assert Publishes(cache.captures, k, k.generation, r);
    }
  }

  // ---- Reruns --------------------------------------------------------------------------

  lemma CandidateIsStable(run: Invocation, cache: Cache, i: nat)
    requires Described(cache.captures) && i < |run.order| && !Forgets(run, cache, run.order[i])
    ensures Candidates(run, Once(run, cache).cache.captures)[i] == Candidates(run, cache.captures)[i]
  {
    hide PublishedRoots, Batch, SortRoots;
    var g, cs := run.order[i], Candidates(run, cache.captures);
    var all := Observed(run, g) + PublishedRoots(cache.captures, g);
    forall c | c in cs && c.generation == g
      ensures Members(c.roots) <= all
    {
      var j :| 0 <= j < |cs| && cs[j] == c;
      assert j == i by { assert run.order[j] == g; }
    }
    BatchAddsOnly(cs, cache, run.provider, run.cap, 0, run.builds, g, all);
    RunKeepsRootsExactly(run, cache, g);
    assert Observed(run, g) + PublishedRoots(Once(run, cache).cache.captures, g) == all;
  }

  /** Recompiling changes no candidate: the same observations name the same work afterwards. */
  lemma CandidatesAreStable(run: Invocation, cache: Cache)
    requires Described(cache.captures) && forall g :: g in run.order ==> !Forgets(run, cache, g)
    ensures Candidates(run, Once(run, cache).cache.captures) == Candidates(run, cache.captures)
  {
    hide PublishedRoots, Batch, SortRoots, Once, Forgets;
    var again := Candidates(run, Once(run, cache).cache.captures);
    forall i | 0 <= i < |run.order|
      ensures again[i] == Candidates(run, cache.captures)[i]
    {
      assert run.order[i] in run.order;
      CandidateIsStable(run, cache, i);
    }
  }

  /**
   Running again over the same pages and provider asks for exactly the same work on every page the
   first run did not forget, and skips it unless the first run left it pending.
   */
  lemma RerunSkipsRecorded(run: Invocation, cache: Cache, i: nat)
    requires Described(cache.captures) && i < |run.order| && !Forgets(run, cache, run.order[i])
    requires Candidates(run, cache.captures)[i] !in Once(run, cache).pending
    ensures var again := Once(run, cache).cache;
      Candidates(run, again.captures)[i] == Candidates(run, cache.captures)[i] &&
      Satisfied(again, Key(run.provider, Candidates(run, again.captures)[i]))
  {
    CandidateIsStable(run, cache, i);
    BatchAccounts(Candidates(run, cache.captures), cache, run.provider, run.cap, 0, run.builds);
  }

  // ---- Draining a backlog --------------------------------------------------------------

  /** Candidates a run would still have to build. */
  function Backlog(cs: seq<Candidate>, cache: Cache, provider: string): nat {
    if cs == [] then 0
    else (if Satisfied(cache, Key(provider, cs[0])) then 0 else 1) + Backlog(cs[1..], cache, provider)
  }

  ghost predicate AllSucceed(builds: WorkKey -> Build) { forall key :: builds(key).Built? }

  ghost predicate DistinctCandidates(cs: seq<Candidate>) {
    forall i, j :: 0 <= i < j < |cs| ==> cs[i] != cs[j]
  }

  /** No build happens to bring back the missing library of another record. */
  ghost predicate OwnLibraries(cache: Cache, builds: WorkKey -> Build) {
    forall key, k |
      k in cache.captures && k != key && cache.captures[k].Published? && cache.captures[k].dll !in cache.libraries
      :: builds(key).Built? ==> builds(key).dll != cache.captures[k].dll
  }

  /** Building one key changes no other candidate's standing. */
  lemma {:induction false} BacklogUnaffected(
    cs: seq<Candidate>, cache: Cache, provider: string, key: WorkKey, builds: WorkKey -> Build)
    requires OwnLibraries(cache, builds) && (forall c :: c in cs ==> Key(provider, c) != key)
    ensures Backlog(cs, AfterBuild(cache, key, builds(key)), provider) == Backlog(cs, cache, provider)
    decreases |cs|
  {
    if cs != [] {
      BacklogUnaffected(cs[1..], cache, provider, key, builds);
      assert Key(provider, cs[0]) != key;
    }
  }

  lemma OwnLibrariesAfter(cache: Cache, key: WorkKey, builds: WorkKey -> Build)
    requires OwnLibraries(cache, builds)
    ensures OwnLibraries(AfterBuild(cache, key, builds(key)), builds)
  {
  }

  /** When every build succeeds a batch works off the cap and leaves the rest pending. */
  lemma {:induction false} BatchDrains(
    cs: seq<Candidate>, cache: Cache, provider: string, cap: nat, attempted: nat, builds: WorkKey -> Build)
    requires OwnLibraries(cache, builds) && DistinctCandidates(cs) && AllSucceed(builds) && attempted <= cap
    ensures var t := Batch(cs, cache, provider, cap, attempted, builds);
      var backlog := Backlog(cs, cache, provider);
      && |t.pending| == (if backlog <= cap - attempted then 0 else backlog - (cap - attempted))
      && Backlog(cs, t.cache, provider) == |t.pending|
      && OwnLibraries(t.cache, builds)
    decreases |cs|
  {
    hide OwnLibraries;
    if cs != [] {
      var key, rest := Key(provider, cs[0]), cs[1..];
      assert DistinctCandidates(rest);
      if Satisfied(cache, key) {
        BatchDrains(rest, cache, provider, cap, attempted, builds);
        BatchKeepsSatisfied(rest, cache, provider, cap, attempted, builds, key);
      } else if attempted >= cap {
        BatchDrains(rest, cache, provider, cap, attempted, builds);
        BatchAtCap(rest, cache, provider, cap, attempted, builds);
      } else {
        var next := AfterBuild(cache, key, builds(key));
        assert builds(key).Built?;
        forall c | c in rest
          ensures Key(provider, c) != key
        {
          var j :| 0 <= j < |rest| && rest[j] == c;
          assert cs[0] != cs[j + 1];
        }
        BacklogUnaffected(rest, cache, provider, key, builds);
        OwnLibrariesAfter(cache, key, builds);
        BatchDrains(rest, next, provider, cap, attempted + 1, builds);
        BatchKeepsSatisfied(rest, next, provider, cap, attempted + 1, builds, key);
      }
    }
  }

  lemma {:induction false} BatchAtCap(
    cs: seq<Candidate>, cache: Cache, provider: string, cap: nat, attempted: nat, builds: WorkKey -> Build)
    requires attempted >= cap
    ensures Batch(cs, cache, provider, cap, attempted, builds).cache == cache
    decreases |cs|
  {
    if cs != [] {
      BatchAtCap(cs[1..], cache, provider, cap, attempted, builds);
    }
  }

  /** The same invocation, `k` times over. */
  ghost function Repeat(run: Invocation, k: nat): seq<Event> {
    seq(k, _ => Compile(run))
  }

  /** One successful run on its own. */
  lemma RunDrains(run: Invocation, cache: Cache)
    requires Described(cache.captures) && OwnLibraries(cache, run.builds) && AllSucceed(run.builds)
    ensures var cs, after := Candidates(run, cache.captures), Once(run, cache).cache;
      var n := Backlog(cs, cache, run.provider);
      && Described(after.captures) && OwnLibraries(after, run.builds) && Candidates(run, after.captures) == cs
      && Backlog(cs, after, run.provider) == (if n <= run.cap then 0 else n - run.cap)
  {
    hide Batch, OwnLibraries, PublishedRoots, SortRoots, Described, Backlog;
    var cs := Candidates(run, cache.captures);
    forall i, j | 0 <= i < j < |cs|
      ensures cs[i] != cs[j]
    {
      assert cs[i].generation == run.order[i] && cs[j].generation == run.order[j];
    }
    CandidatesAreStable(run, cache);
    BatchDrains(cs, cache, run.provider, run.cap, 0, run.builds);
    EventKeepsRootsExactly(Compile(run), cache, Generation(0, 0, ""));
  }

  function Remaining(n: nat, cap: nat, k: nat): nat {
    if n <= k * cap then 0 else n - k * cap
  }

  lemma RemainingStep(n: nat, cap: nat, k: nat)
    ensures Remaining(if n <= cap then 0 else n - cap, cap, k) == Remaining(n, cap, k + 1)
  {
    assert (k + 1) * cap == k * cap + cap;
  }

  lemma {:induction false} RunsDrain(run: Invocation, cache: Cache, k: nat)
    requires Described(cache.captures) && OwnLibraries(cache, run.builds) && AllSucceed(run.builds)
    ensures var cs, after := Candidates(run, cache.captures), All(Repeat(run, k), cache);
      && Candidates(run, after.captures) == cs
      && Backlog(cs, after, run.provider) == Remaining(Backlog(cs, cache, run.provider), run.cap, k)
    decreases k
  {
    hide Backlog, Candidates, OwnLibraries, Described, Once;
    if k > 0 {
      RunDrains(run, cache);
      assert Repeat(run, k)[1..] == Repeat(run, k - 1);
      RunsDrain(run, Once(run, cache).cache, k - 1);
      RemainingStep(Backlog(Candidates(run, cache.captures), cache, run.provider), run.cap, k - 1);
    }
  }

  /** With a fixed set of `n` candidates and no failures, the queue empties in exactly ceil(n / cap) runs. */
  lemma BacklogEmptiesOnTime(run: Invocation, cache: Cache, k: nat)
    requires Described(cache.captures) && OwnLibraries(cache, run.builds) && AllSucceed(run.builds) && run.cap > 0
    ensures var n := Backlog(Candidates(run, cache.captures), cache, run.provider);
      Backlog(Candidates(run, cache.captures), All(Repeat(run, k), cache), run.provider) == 0
      <==> k >= (n + run.cap - 1) / run.cap
  {
    hide Backlog, Candidates, All, Repeat, OwnLibraries, Described;
    RunsDrain(run, cache, k);
    CeilingDivision(Backlog(Candidates(run, cache.captures), cache, run.provider), run.cap, k);
  }

  // ---- Draining without any assumption on the libraries ------------------------------------

  /** A successful build shortens a backlog or leaves it alone, whatever else its library brings back. */
  lemma {:induction false} BacklogShrinks(
    cs: seq<Candidate>, cache: Cache, provider: string, key: WorkKey, build: Build)
    requires build.Built?
    ensures Backlog(cs, AfterBuild(cache, key, build), provider) <= Backlog(cs, cache, provider)
    decreases |cs|
  {
    if cs != [] {
      BacklogShrinks(cs[1..], cache, provider, key, build);
    }
  }

  lemma {:induction false} BatchDrainsAtLeast(
    cs: seq<Candidate>, cache: Cache, provider: string, cap: nat, attempted: nat, builds: WorkKey -> Build)
    requires AllSucceed(builds) && attempted <= cap
    ensures Backlog(cs, Batch(cs, cache, provider, cap, attempted, builds).cache, provider) <=
      Remaining(Backlog(cs, cache, provider), cap - attempted, 1)
    decreases |cs|
  {
    if cs != [] {
      var key, rest := Key(provider, cs[0]), cs[1..];
      if Satisfied(cache, key) {
        BatchDrainsAtLeast(rest, cache, provider, cap, attempted, builds);
        BatchKeepsSatisfied(rest, cache, provider, cap, attempted, builds, key);
      } else if attempted >= cap {
        BatchAtCap(cs, cache, provider, cap, attempted, builds);
      } else {
        var next := AfterBuild(cache, key, builds(key));
        assert builds(key).Built?;
        BacklogShrinks(rest, cache, provider, key, builds(key));
        BatchDrainsAtLeast(rest, next, provider, cap, attempted + 1, builds);
        BatchKeepsSatisfied(rest, next, provider, cap, attempted + 1, builds, key);
      }
    }
  }

  lemma {:induction false} RunsDrainAtLeast(run: Invocation, cache: Cache, k: nat)
    requires Described(cache.captures) && AllSucceed(run.builds)
    ensures var cs, after := Candidates(run, cache.captures), All(Repeat(run, k), cache);
      Backlog(cs, after, run.provider) <= Remaining(Backlog(cs, cache, run.provider), run.cap, k)
    decreases k
  {
    hide Backlog, Candidates, Described, Once, Batch;
    var n := Backlog(Candidates(run, cache.captures), cache, run.provider);
    if k > 0 {
      var cs, next := Candidates(run, cache.captures), Once(run, cache).cache;
      CandidatesAreStable(run, cache);
      EventKeepsRootsExactly(Compile(run), cache, Generation(0, 0, ""));
      OnceDrains(run, cache);
      assert Repeat(run, k)[1..] == Repeat(run, k - 1);
      RunsDrainAtLeast(run, next, k - 1);
      RemainingStep(n, run.cap, k - 1);
      RemainingOrder(Backlog(cs, next, run.provider), Remaining(n, run.cap, 1), run.cap, k - 1);
    }
  }

  lemma OnceDrains(run: Invocation, cache: Cache)
    requires AllSucceed(run.builds)
    ensures var cs := Candidates(run, cache.captures);
      Backlog(cs, Once(run, cache).cache, run.provider) <= Remaining(Backlog(cs, cache, run.provider), run.cap, 1)
  {
    hide Backlog, Candidates, Batch;
    BatchDrainsAtLeast(Candidates(run, cache.captures), cache, run.provider, run.cap, 0, run.builds);
  }

  lemma RemainingOrder(a: nat, b: nat, cap: nat, k: nat)
    requires a <= b
    ensures Remaining(a, cap, k) <= Remaining(b, cap, k)
  {
  }

  /** With a fixed set of `n` candidates and no failures, the queue is empty after ceil(n / cap) runs at the latest. */
  lemma BacklogEmptiesAtLatest(run: Invocation, cache: Cache, k: nat)
    requires Described(cache.captures) && AllSucceed(run.builds) && run.cap > 0
    ensures var n := Backlog(Candidates(run, cache.captures), cache, run.provider);
      k >= (n + run.cap - 1) / run.cap ==>
        Backlog(Candidates(run, cache.captures), All(Repeat(run, k), cache), run.provider) == 0
  {
    hide Backlog, Candidates, All, Repeat, Described;
    RunsDrainAtLeast(run, cache, k);
    CeilingDivision(Backlog(Candidates(run, cache.captures), cache, run.provider), run.cap, k);
  }

  lemma TimesOrder(a: int, b: int, c: nat)
    requires a <= b
    ensures a * c <= b * c
  {
  }

  lemma CeilingDivision(n: nat, cap: nat, k: nat)
    requires cap > 0
    ensures Remaining(n, cap, k) == 0 <==> k >= (n + cap - 1) / cap
  {
    var q, r := (n + cap - 1) / cap, (n + cap - 1) % cap;
    var product := q * cap;
    assert n + cap - 1 == product + r;
    if k >= q {
      TimesOrder(q, k, cap);
    } else {
      TimesOrder(k, q - 1, cap);
      assert (q - 1) * cap == product - cap;
    }
  }
}
