/**
 Joining captured pages into images: `assemble_runs` of `tools/ingest_coverage_manifests.py`.
 */
module AssembleRuns {
  import opened Bytes
  import opened ShardIndex
  import opened ShardRuns

  /** One captured version of a page with its entry points; digests of equal length order as numbers. */
  datatype Page = Page(addr: nat, sha: nat, bytes: Data, entries: seq<Entry>)

  /** A run of pages, its first address, and the image assembled from their bytes. */
  datatype Run = Run(start: nat, pages: seq<Page>, blob: Data)

  ghost predicate Uniform(pages: seq<Page>, size: nat) {
    forall i :: 0 <= i < |pages| ==> |pages[i].bytes| == size
  }

  // ---- Counting versions ---------------------------------------------------------------

  /** How many captured versions an address has. */
  function Versions(pages: seq<Page>, addr: nat): nat {
    if pages == [] then 0
    else Versions(pages[..|pages| - 1], addr) + (if pages[|pages| - 1].addr == addr then 1 else 0)
  }

  method CountVersions(pages: seq<Page>) returns (count: map<nat, nat>)
    ensures forall a: nat :: (if a in count then count[a] else 0) == Versions(pages, a)
  {
    count := map[];
    for i := 0 to |pages|
      invariant forall a: nat :: (if a in count then count[a] else 0) == Versions(pages[..i], a)
    {
      var addr := pages[i].addr;
      assert pages[..i + 1][..i] == pages[..i];
      count := count[addr := (if addr in count then count[addr] else 0) + 1];
    }
    assert pages[..|pages|] == pages;
  }

  // ---- Sorting -------------------------------------------------------------------------

  predicate Follows(a: Page, b: Page) { a.addr > b.addr || (a.addr == b.addr && a.sha > b.sha) }

  ghost predicate Sorted(pages: seq<Page>) {
    forall i, j :: 0 <= i < j < |pages| ==> !Follows(pages[i], pages[j])
  }

  function Put(pages: seq<Page>, p: Page): (put: seq<Page>)
    ensures multiset(put) == multiset(pages) + multiset{p}
  {
    if pages == [] || Follows(pages[0], p) then [p] + pages
    else
      assert pages == [pages[0]] + pages[1..];
      [pages[0]] + Put(pages[1..], p)
  }

  lemma {:induction false} PutKeepsOrder(pages: seq<Page>, p: Page)
    requires Sorted(pages)
    ensures Sorted(Put(pages, p))
  {
    if pages != [] && !Follows(pages[0], p) {
      var tail := Put(pages[1..], p);
      PutKeepsOrder(pages[1..], p);
      forall j | 0 <= j < |tail|
        ensures !Follows(pages[0], tail[j])
      {
        assert tail[j] in multiset(tail);
        assert tail[j] == p || tail[j] in pages[1..];
      }
    }
  }

  method SortPages(pages: seq<Page>) returns (sorted: seq<Page>)
    ensures multiset(sorted) == multiset(pages) && Sorted(sorted)
  {
    sorted := [];
    for i := 0 to |pages|
      invariant multiset(sorted) == multiset(pages[..i]) && Sorted(sorted)
    {
      PutKeepsOrder(sorted, pages[i]);
      assert pages[..i + 1] == pages[..i] + [pages[i]];
      sorted := Put(sorted, pages[i]);
    }
    assert pages[..|pages|] == pages;
  }

  // ---- Runs ----------------------------------------------------------------------------

  /** Page `j` may follow page `j - 1`: adjacent, and both addresses unambiguous. */
  predicate Joins(items: seq<Page>, captured: seq<Page>, size: nat, j: int)
    requires 0 < j < |items|
  {
    && Versions(captured, items[j - 1].addr) == 1
    && items[j].addr == items[j - 1].addr + size
    && Versions(captured, items[j].addr) == 1
  }

  ghost function RunEnd(items: seq<Page>, captured: seq<Page>, size: nat, j: nat): (hi: nat)
    requires 0 < j <= |items|
    ensures j <= hi <= |items|
    ensures forall k :: j <= k < hi ==> Joins(items, captured, size, k)
    ensures hi < |items| ==> !Joins(items, captured, size, hi)
    decreases |items| - j
  {
    if j == |items| || !Joins(items, captured, size, j) then j else RunEnd(items, captured, size, j + 1)
  }

  function Joined(pages: seq<Page>): Data {
    if pages == [] then [] else Joined(pages[..|pages| - 1]) + pages[|pages| - 1].bytes
  }

  /** The maximal runs from item `lo` on. */
  ghost function Runs(items: seq<Page>, captured: seq<Page>, size: nat, lo: nat): seq<Run>
    requires lo <= |items|
    decreases |items| - lo
  {
    if lo == |items| then []
    else
      var hi := RunEnd(items, captured, size, lo + 1);
      [Run(items[lo].addr, items[lo..hi], Joined(items[lo..hi]))] + Runs(items, captured, size, hi)
  }

  lemma RunEndHere(items: seq<Page>, captured: seq<Page>, size: nat, j: nat)
    requires 0 < j <= |items|
    ensures RunEnd(items, captured, size, j) ==
      if j == |items| || !Joins(items, captured, size, j) then j else RunEnd(items, captured, size, j + 1)
  {
  }

  lemma RunsHere(items: seq<Page>, captured: seq<Page>, size: nat, lo: nat, hi: nat)
    requires lo < hi <= |items| && RunEnd(items, captured, size, lo + 1) == hi
    ensures Runs(items, captured, size, lo) ==
      [Run(items[lo].addr, items[lo..hi], Joined(items[lo..hi]))] + Runs(items, captured, size, hi)
  {
  }

  lemma JoinedStep(items: seq<Page>, lo: nat, hi: nat)
    requires lo <= hi < |items|
    ensures Joined(items[lo..hi + 1]) == Joined(items[lo..hi]) + items[hi].bytes
    ensures Joined(items[lo..lo]) == []
  {
    assert items[lo..hi + 1][..hi - lo] == items[lo..hi];
  }

  /** The extension loop from one item on; the page size is read off that first item. */
  method Extend(items: seq<Page>, captured: seq<Page>, count: map<nat, nat>, lo: nat)
    returns (run: Run, hi: nat)
    requires lo < |items| && forall a: nat :: (if a in count then count[a] else 0) == Versions(captured, a)
    ensures hi == RunEnd(items, captured, |items[lo].bytes|, lo + 1) && lo < hi <= |items|
    ensures run == Run(items[lo].addr, items[lo..hi], Joined(items[lo..hi]))
  {
    hide RunEnd, Versions, Joined;
    var size := |items[lo].bytes|;
    var blob, previous := items[lo].bytes, items[lo].addr;
    hi := lo + 1;
    JoinedStep(items, lo, lo);
    while hi < |items| && previous in count && count[previous] == 1
      invariant lo < hi <= |items| && previous == items[hi - 1].addr
      invariant RunEnd(items, captured, size, lo + 1) == RunEnd(items, captured, size, hi)
      invariant blob == Joined(items[lo..hi])
    {
      RunEndHere(items, captured, size, hi);
      var next := items[hi];
      if next.addr != previous + size {
        break;
      }
      if !(next.addr in count && count[next.addr] == 1) {
        break;
      }
      JoinedStep(items, lo, hi);
      blob := blob + next.bytes;
      previous := next.addr;
      hi := hi + 1;
    }
    RunEndHere(items, captured, size, hi);
    run := Run(items[lo].addr, items[lo..hi], blob);
  }

  lemma NoRuns(items: seq<Page>, captured: seq<Page>, size: nat)
    ensures Runs(items, captured, size, |items|) == []
  {
  }

  lemma UniformOrder(a: seq<Page>, b: seq<Page>, size: nat)
    requires multiset(a) == multiset(b) && Uniform(a, size)
    ensures Uniform(b, size)
  {
    forall i | 0 <= i < |b|
      ensures |b[i].bytes| == size
    {
      assert b[i] in multiset(b);
      assert b[i] in multiset(a);
    }
  }

  // ---- The entry points of a run ---------------------------------------------------------

  ghost function TotalRoots(pages: seq<Page>): set<Root> {
    if pages == [] then {} else TotalRoots(pages[..|pages| - 1]) + Roots(pages[|pages| - 1].entries)
  }

  function TotalHits(pages: seq<Page>, root: Root): nat {
    if pages == [] then 0 else TotalHits(pages[..|pages| - 1], root) + Hits(pages[|pages| - 1].entries, root)
  }

  function TotalKinds(pages: seq<Page>, root: Root): set<string> {
    if pages == [] then {} else TotalKinds(pages[..|pages| - 1], root) + Kinds(pages[|pages| - 1].entries, root)
  }

  /** The list holds every entry point of the pages once, in order, with all its hits and kinds. */
  ghost predicate Gathers(es: seq<Entry>, pages: seq<Page>) {
    && ShardRuns.Sorted(RootSeq(es)) && Roots(es) == TotalRoots(pages)
    && (forall root :: Hits(es, root) == TotalHits(pages, root))
    && (forall root :: Kinds(es, root) == TotalKinds(pages, root))
  }

  lemma GatherOne(es: seq<Entry>, pages: seq<Page>, merged: seq<Entry>)
    requires pages != [] && Gathers(es, pages[..|pages| - 1])
    requires RootSeq(merged) == SortRoots(Roots(es) + Roots(pages[|pages| - 1].entries))
    requires forall root :: Hits(merged, root) == Hits(es, root) + Hits(pages[|pages| - 1].entries, root)
    requires forall root :: Kinds(merged, root) == Kinds(es, root) + Kinds(pages[|pages| - 1].entries, root)
    ensures Gathers(merged, pages)
  {
    hide ShardRuns.Sorted;
  }

  lemma NothingYet()
    ensures Gathers([], []) && Climbing([]) && OutputCpus([]) == {} && forall todo :: Below({}, todo)
  {
  }

  /** The loop that merges the entries of a run's pages, page by page. */
  method GatherEntries(pages: seq<Page>) returns (es: seq<Entry>)
    ensures Gathers(es, pages)
  {
    hide Gathers;
    es := [];
    NothingYet();
    for i := 0 to |pages|
      invariant Gathers(es, pages[..i])
    {
      var merged := MergeEntries(es, pages[i].entries);
      assert pages[..i + 1][..i] == pages[..i];
      GatherOne(es, pages[..i + 1], merged);
      es := merged;
    }
    assert pages[..|pages|] == pages;
  }

  predicate InRange(root: Root, lo: nat, hi: nat) { lo <= root.addr < hi }

  /** `held` is the ordered part of `from` whose addresses lie in the range. */
  ghost predicate Within(held: seq<Entry>, from: seq<Entry>, lo: nat, hi: nat) {
    && ShardRuns.Sorted(RootSeq(held))
    && (forall root :: root in Roots(held) <==> root in Roots(from) && InRange(root, lo, hi))
    && (forall root :: InRange(root, lo, hi) ==> Hits(held, root) == Hits(from, root))
    && (forall root :: InRange(root, lo, hi) ==> Kinds(held, root) == Kinds(from, root))
  }

  function Restrict(es: seq<Entry>, lo: nat, hi: nat): seq<Entry> {
    if es == [] then []
    else if InRange(es[0].root, lo, hi) then [es[0]] + Restrict(es[1..], lo, hi)
    else Restrict(es[1..], lo, hi)
  }

  lemma {:induction false} RestrictOne(es: seq<Entry>, lo: nat, hi: nat, root: Root)
    ensures root in RootSeq(Restrict(es, lo, hi)) <==> root in RootSeq(es) && InRange(root, lo, hi)
    ensures InRange(root, lo, hi) ==> Hits(Restrict(es, lo, hi), root) == Hits(es, root)
    ensures InRange(root, lo, hi) ==> Kinds(Restrict(es, lo, hi), root) == Kinds(es, root)
  {
    if es != [] {
      RestrictOne(es[1..], lo, hi, root);
      assert ([es[0]] + Restrict(es[1..], lo, hi))[1..] == Restrict(es[1..], lo, hi);
    }
  }

  lemma {:induction false} RestrictSorts(es: seq<Entry>, lo: nat, hi: nat)
    requires ShardRuns.Sorted(RootSeq(es))
    ensures ShardRuns.Sorted(RootSeq(Restrict(es, lo, hi)))
  {
    hide Before, InRange;
    if es != [] {
      var rest := Restrict(es[1..], lo, hi);
      SortedCons(es[0].root, RootSeq(es[1..]));
      RestrictSorts(es[1..], lo, hi);
      forall x | x in RootSeq(rest)
        ensures Before(es[0].root, x)
      {
        RestrictOne(es[1..], lo, hi, x);
      }
      SortedCons(es[0].root, RootSeq(rest));
      assert ([es[0]] + rest)[1..] == rest;
    }
  }

  lemma RestrictIsWithin(es: seq<Entry>, lo: nat, hi: nat)
    requires ShardRuns.Sorted(RootSeq(es))
    ensures Within(Restrict(es, lo, hi), es, lo, hi)
  {
    hide ShardRuns.Sorted, RootSeq, Hits, Kinds, Restrict;
    RestrictSorts(es, lo, hi);
    forall root
      ensures root in Roots(Restrict(es, lo, hi)) <==> root in Roots(es) && InRange(root, lo, hi)
      ensures InRange(root, lo, hi) ==> Hits(Restrict(es, lo, hi), root) == Hits(es, root)
      ensures InRange(root, lo, hi) ==> Kinds(Restrict(es, lo, hi), root) == Kinds(es, root)
    {
      RestrictOne(es, lo, hi, root);
    }
  }

  /**
   A run's entry points: those of its pages that lie in its image, each with all their hits and
   kinds; where its pages have none at all, the session's.
   */
  ghost predicate Attributed(run: Run, held: seq<Entry>, session: seq<Entry>) {
    && ShardRuns.Sorted(RootSeq(held))
    && forall root ::
        var from := if TotalRoots(run.pages) == {} then Roots(session) else TotalRoots(run.pages);
        (root in Roots(held) <==> root in from && InRange(root, run.start, run.start + |run.blob|)) &&
        (root in Roots(held) ==> Counted(run, held, session, root))
  }

  ghost predicate Counted(run: Run, held: seq<Entry>, session: seq<Entry>, root: Root) {
    if TotalRoots(run.pages) == {} then
      Hits(held, root) == Hits(session, root) && Kinds(held, root) == Kinds(session, root)
    else
      Hits(held, root) == TotalHits(run.pages, root) && Kinds(held, root) == TotalKinds(run.pages, root)
  }

  /** The entries that end up beside one run. */
  method Attribute(run: Run, session: seq<Entry>) returns (held: seq<Entry>)
    ensures Attributed(run, held, session)
  {
    hide Gathers, Within, Attributed, ShardRuns.Sorted, Hits, Kinds, RootSeq, SortRoots, InRange;
    var es := GatherEntries(run.pages);
    var known := es;
    if es == [] && session != [] {
      known := MergeEntries(session, []);
    }
    held := [];
    GatheredSorted(es, run.pages);
    for i := |known| downto 0
      invariant held == Restrict(known[i..], run.start, run.start + |run.blob|)
    {
      assert known[i..][1..] == known[i + 1..];
      if InRange(known[i].root, run.start, run.start + |run.blob|) {
        held := [known[i]] + held;
      }
    }
    assert known[0..] == known;
    RestrictIsWithin(known, run.start, run.start + |run.blob|);
    if es == [] && session != [] {
      OneEntry(session[0]);
      ShardRuns.NothingYet();
      FromSession(run, known, held, session);
    } else {
      FromPages(run, known, held, session);
    }
  }

  lemma GatheredSorted(es: seq<Entry>, pages: seq<Page>)
    requires Gathers(es, pages)
    ensures ShardRuns.Sorted(RootSeq(es)) && (es == [] <==> TotalRoots(pages) == {})
  {
    if es != [] {
      assert RootSeq(es)[0] in Roots(es);
    }
  }

  lemma FromPages(run: Run, known: seq<Entry>, held: seq<Entry>, session: seq<Entry>)
    requires Gathers(known, run.pages) && Within(held, known, run.start, run.start + |run.blob|)
    requires known == [] ==> session == []
    ensures Attributed(run, held, session)
  {
    GatheredSorted(known, run.pages);
  }

  lemma FromSession(run: Run, known: seq<Entry>, held: seq<Entry>, session: seq<Entry>)
    requires Gathers([], run.pages) && Within(held, known, run.start, run.start + |run.blob|)
    requires Roots(known) == Roots(session)
    requires forall root :: Hits(known, root) == Hits(session, root) && Kinds(known, root) == Kinds(session, root)
    ensures Attributed(run, held, session)
  {
    GatheredSorted([], run.pages);
  }

  /** The runs of one CPU's unresolved pages, and each run's entries; `items` is the sorted list. */
  method Assemble(unresolved: seq<Page>, captured: seq<Page>, session: seq<Entry>, ghost size: nat)
    returns (runs: seq<Run>, held: seq<seq<Entry>>, items: seq<Page>)
    requires Uniform(unresolved, size)
    ensures multiset(items) == multiset(unresolved) && Sorted(items)
    ensures runs == Runs(items, captured, size, 0)
    ensures |held| == |runs| && forall r :: 0 <= r < |runs| ==> Attributed(runs[r], held[r], session)
  {
    hide RunEnd, Runs, Joined, Versions, Attributed, Sorted;
    var count := CountVersions(captured);
    items := SortPages(unresolved);
    UniformOrder(unresolved, items, size);
    runs, held := [], [];
    var index := 0;
    while index < |items|
      invariant 0 <= index <= |items|
      invariant Runs(items, captured, size, 0) == runs + Runs(items, captured, size, index)
      invariant |held| == |runs| && forall r :: 0 <= r < |runs| ==> Attributed(runs[r], held[r], session)
    {
      assert |items[index].bytes| == size;
      var run, hi := Extend(items, captured, count, index);
      RunsHere(items, captured, size, index, hi);
      var entries := Attribute(run, session);
      runs := runs + [run];
      held := held + [entries];
      index := hi;
    }
    NoRuns(items, captured, size);
  }

  // ---- What the runs are ---------------------------------------------------------------

  function Pages(runs: seq<Run>): seq<Page> {
    if runs == [] then [] else runs[0].pages + Pages(runs[1..])
  }

  /** Every page lands in exactly one run, in order. */
  lemma {:induction false} RunsPartition(items: seq<Page>, captured: seq<Page>, size: nat, lo: nat)
    requires lo <= |items|
    ensures Pages(Runs(items, captured, size, lo)) == items[lo..]
    decreases |items| - lo
  {
    if lo < |items| {
      var hi := RunEnd(items, captured, size, lo + 1);
      RunsPartition(items, captured, size, hi);
      RunsHere(items, captured, size, lo, hi);
      assert items[lo..] == items[lo..hi] + items[hi..];
    }
  }

  /** Where page `k` of a run starts in its image. */
  function By(k: nat, size: nat): nat { k * size }

  lemma ByNext(k: nat, size: nat)
    ensures By(0, size) == 0 && By(k + 1, size) == By(k, size) + size
  {
  }

  /** A run whose pages follow each other without a gap and whose image is theirs. */
  ghost predicate Sound(run: Run, captured: seq<Page>, size: nat) {
    && run.pages != []
    && |run.blob| == By(|run.pages|, size)
    && (forall k :: 0 <= k < |run.pages| ==> At(run, size, k))
    && (|run.pages| > 1 ==> forall k :: 0 <= k < |run.pages| ==> Versions(captured, run.pages[k].addr) == 1)
  }

  /** The image holds page `k`'s bytes at page `k`'s address. */
  ghost predicate At(run: Run, size: nat, k: nat)
    requires k < |run.pages|
  {
    && run.pages[k].addr == run.start + By(k, size)
    && By(k, size) + size <= |run.blob|
    && run.blob[By(k, size)..By(k, size) + size] == run.pages[k].bytes
  }

  lemma SliceOfFront(a: Data, b: Data, lo: nat, hi: nat)
    requires lo <= hi <= |a|
    ensures (a + b)[lo..hi] == a[lo..hi]
  {
  }

  lemma {:induction false} JoinedLength(pages: seq<Page>, size: nat)
    requires Uniform(pages, size)
    ensures |Joined(pages)| == By(|pages|, size)
  {
    hide By;
    ByNext(if pages == [] then 0 else |pages| - 1, size);
    if pages != [] {
      JoinedLength(pages[..|pages| - 1], size);
    }
  }

  lemma {:induction false} JoinedAt(pages: seq<Page>, size: nat, k: nat)
    requires Uniform(pages, size) && k < |pages|
    ensures By(k, size) + size <= |Joined(pages)|
    ensures Joined(pages)[By(k, size)..By(k, size) + size] == pages[k].bytes
  {
    hide By;
    var n := |pages| - 1;
    var front := pages[..n];
    JoinedLength(front, size);
    if k < n {
      JoinedAt(front, size, k);
      SliceOfFront(Joined(front), pages[n].bytes, By(k, size), By(k, size) + size);
    }
  }

  /** Pages taken one after the other while they join are spaced by the page size. */
  lemma {:induction false} Spaced(items: seq<Page>, captured: seq<Page>, size: nat, lo: nat, hi: nat, k: nat)
    requires lo + k < hi <= |items| && forall j :: lo < j < hi ==> Joins(items, captured, size, j)
    ensures items[lo + k].addr == items[lo].addr + By(k, size)
    ensures hi > lo + 1 ==> Versions(captured, items[lo + k].addr) == 1
  {
    hide By;
    ByNext(if k == 0 then 0 else k - 1, size);
    if k > 0 {
      Spaced(items, captured, size, lo, hi, k - 1);
      assert Joins(items, captured, size, lo + k);
    } else if hi > lo + 1 {
      assert Joins(items, captured, size, lo + 1);
    }
  }

  lemma RunIsSound(items: seq<Page>, captured: seq<Page>, size: nat, lo: nat, hi: nat)
    requires Uniform(items, size) && lo < hi <= |items| && RunEnd(items, captured, size, lo + 1) == hi
    ensures Sound(Run(items[lo].addr, items[lo..hi], Joined(items[lo..hi])), captured, size)
  {
    hide Joined, Versions, By;
    var pages := items[lo..hi];
    var run := Run(items[lo].addr, pages, Joined(pages));
    JoinedLength(pages, size);
    forall k | 0 <= k < |pages|
      ensures At(run, size, k) && (|pages| > 1 ==> Versions(captured, pages[k].addr) == 1)
    {
      JoinedAt(pages, size, k);
      Spaced(items, captured, size, lo, hi, k);
    }
  }

  /** Each run places its pages' bytes at their addresses and crosses no ambiguous one. */
  lemma {:induction false} RunsAreSound(items: seq<Page>, captured: seq<Page>, size: nat, lo: nat, r: nat)
    requires Uniform(items, size) && lo <= |items| && r < |Runs(items, captured, size, lo)|
    ensures Sound(Runs(items, captured, size, lo)[r], captured, size)
    decreases r
  {
    hide Joined, Versions, Sound;
    var hi := RunEnd(items, captured, size, lo + 1);
    RunsHere(items, captured, size, lo, hi);
    if r == 0 {
      RunIsSound(items, captured, size, lo, hi);
    } else {
      RunsAreSound(items, captured, size, hi, r - 1);
    }
  }

  function Last(run: Run): Page
    requires run.pages != []
  {
    run.pages[|run.pages| - 1]
  }

  /** Two runs that one longer run could have held: adjacent and unambiguous at the seam. */
  predicate Joinable(a: Run, b: Run, captured: seq<Page>, size: nat)
    requires a.pages != [] && b.pages != []
  {
    && Versions(captured, Last(a).addr) == 1
    && b.pages[0].addr == Last(a).addr + size
    && Versions(captured, b.pages[0].addr) == 1
  }

  lemma NeighboursDiffer(items: seq<Page>, captured: seq<Page>, size: nat, lo: nat, hi: nat, next: nat)
    requires lo < hi < next <= |items| && RunEnd(items, captured, size, lo + 1) == hi
    ensures !Joinable(Run(items[lo].addr, items[lo..hi], Joined(items[lo..hi])),
                      Run(items[hi].addr, items[hi..next], Joined(items[hi..next])), captured, size)
  {
    hide Joined, Versions;
    assert !Joins(items, captured, size, hi);
  }

  /** Neighbouring runs could not have been joined. */
  lemma {:induction false} RunsAreMaximal(items: seq<Page>, captured: seq<Page>, size: nat, lo: nat, r: nat)
    requires lo <= |items| && r + 1 < |Runs(items, captured, size, lo)|
    ensures var runs := Runs(items, captured, size, lo);
      runs[r].pages != [] && runs[r + 1].pages != [] && !Joinable(runs[r], runs[r + 1], captured, size)
    decreases r
  {
    hide Joined, Versions, Joinable;
    var hi := RunEnd(items, captured, size, lo + 1);
    RunsHere(items, captured, size, lo, hi);
    if r == 0 {
      var next := RunEnd(items, captured, size, hi + 1);
      RunsHere(items, captured, size, hi, next);
      NeighboursDiffer(items, captured, size, lo, hi, next);
    } else {
      RunsAreMaximal(items, captured, size, hi, r - 1);
    }
  }

  // ---- All CPUs --------------------------------------------------------------------------

  datatype Capture = Capture(cpu: nat, page: Page)

  /** The pages of one CPU, in capture order. */
  function OfCpu(cs: seq<Capture>, cpu: nat): seq<Page> {
    if cs == [] then []
    else OfCpu(cs[..|cs| - 1], cpu) + (if cs[|cs| - 1].cpu == cpu then [cs[|cs| - 1].page] else [])
  }

  datatype Output = Output(cpu: nat, items: seq<Page>, runs: seq<Run>, held: seq<seq<Entry>>)

  function Session(sessions: map<nat, seq<Entry>>, cpu: nat): seq<Entry> {
    if cpu in sessions then sessions[cpu] else []
  }

  /** One CPU's part of the answer. */
  ghost predicate Assembled(
    o: Output, unresolved: seq<Capture>, captured: seq<Capture>, sessions: map<nat, seq<Entry>>, size: nat)
  {
    && multiset(o.items) == multiset(OfCpu(unresolved, o.cpu)) && Sorted(o.items)
    && o.runs == Runs(o.items, OfCpu(captured, o.cpu), size, 0)
    && |o.held| == |o.runs|
    && forall r :: 0 <= r < |o.runs| ==> Attributed(o.runs[r], o.held[r], Session(sessions, o.cpu))
  }

  ghost predicate IsLowest(low: nat, s: set<nat>) {
    low in s && forall x :: x in s ==> low <= x
  }

  lemma LowestWith(low: nat, rest: set<nat>, some: nat)
    requires IsLowest(low, rest)
    ensures IsLowest(if low < some then low else some, rest + {some})
  {
  }

  lemma {:induction false} Lowest(s: set<nat>)
    requires s != {}
    ensures exists low :: IsLowest(low, s)
  {
    hide IsLowest;
    var some :| some in s;
    var rest := s - {some};
    assert s == rest + {some};
    if rest == {} {
      LowestAlone(some);
    } else {
      Lowest(rest);
      var low :| IsLowest(low, rest);
      LowestWith(low, rest, some);
    }
  }

  lemma LowestAlone(some: nat)
    ensures IsLowest(some, {} + {some})
  {
  }

  lemma {:induction false} UniformPart(cs: seq<Capture>, cpu: nat, size: nat)
    requires forall i :: 0 <= i < |cs| ==> |cs[i].page.bytes| == size
    ensures Uniform(OfCpu(cs, cpu), size)
  {
    if cs != [] {
      UniformPart(cs[..|cs| - 1], cpu, size);
    }
  }

  method AssembleCpu(
    unresolved: seq<Capture>, captured: seq<Capture>, sessions: map<nat, seq<Entry>>, ghost size: nat, cpu: nat)
    returns (o: Output)
    requires forall i :: 0 <= i < |unresolved| ==> |unresolved[i].page.bytes| == size
    ensures o.cpu == cpu && Assembled(o, unresolved, captured, sessions, size)
  {
    hide OfCpu, Runs, Attributed, Sorted;
    UniformPart(unresolved, cpu, size);
    var runs, held, items := Assemble(OfCpu(unresolved, cpu), OfCpu(captured, cpu), Session(sessions, cpu), size);
    o := Output(cpu, items, runs, held);
  }

  function Cpus(cs: seq<Capture>): set<nat> { set c | c in cs :: c.cpu }

  function OutputCpus(out: seq<Output>): (s: set<nat>)
    ensures forall i :: 0 <= i < |out| ==> out[i].cpu in s
  {
    if out == [] then {} else OutputCpus(out[..|out| - 1]) + {out[|out| - 1].cpu}
  }

  ghost predicate Climbing(out: seq<Output>) {
    forall i, j :: 0 <= i < j < |out| ==> out[i].cpu < out[j].cpu
  }

  lemma ClimbOn(out: seq<Output>, o: Output)
    requires Climbing(out) && forall c :: c in OutputCpus(out) ==> c < o.cpu
    ensures Climbing(out + [o]) && OutputCpus(out + [o]) == OutputCpus(out) + {o.cpu}
  {
    assert (out + [o])[..|out|] == out;
    forall i, j | 0 <= i < j < |out + [o]|
      ensures (out + [o])[i].cpu < (out + [o])[j].cpu
    {
      assert out[i].cpu in OutputCpus(out);
    }
  }

  ghost predicate Below(done: set<nat>, todo: set<nat>) {
    forall c, d :: c in done && d in todo ==> c < d
  }

  lemma BelowMoves(done: set<nat>, todo: set<nat>, cpu: nat)
    requires Below(done, todo) && cpu in todo && forall c :: c in todo ==> cpu <= c
    ensures Below(done + {cpu}, todo - {cpu}) && forall c :: c in done ==> c < cpu
  {
  }

  method TakeLowest(todo: set<nat>) returns (low: nat)
    requires todo != {}
    ensures low in todo && forall c :: c in todo ==> low <= c
  {
    Lowest(todo);
    assert exists low :: low in todo && forall c :: c in todo ==> low <= c by {
      var some :| IsLowest(some, todo);
    }
    low :| low in todo && forall c :: c in todo ==> low <= c;
  }

  /** `assemble_runs`: every CPU that has unresolved pages, in ascending order. */
  method AssembleAll(unresolved: seq<Capture>, captured: seq<Capture>, sessions: map<nat, seq<Entry>>, ghost size: nat)
    returns (out: seq<Output>)
    requires forall i :: 0 <= i < |unresolved| ==> |unresolved[i].page.bytes| == size
    ensures Climbing(out) && OutputCpus(out) == Cpus(unresolved)
    ensures forall i :: 0 <= i < |out| ==> Assembled(out[i], unresolved, captured, sessions, size)
  {
    hide Assembled, OutputCpus, Climbing, Below, Cpus;
    var todo := Cpus(unresolved);
    out := [];
    NothingYet();
    while todo != {}
      invariant todo <= Cpus(unresolved) && OutputCpus(out) == Cpus(unresolved) - todo
      invariant Below(OutputCpus(out), todo) && Climbing(out)
      invariant forall i :: 0 <= i < |out| ==> Assembled(out[i], unresolved, captured, sessions, size)
      decreases todo
    {
      var cpu := TakeLowest(todo);
      BelowMoves(OutputCpus(out), todo, cpu);
      var o := AssembleCpu(unresolved, captured, sessions, size, cpu);
      ClimbOn(out, o);
      out := out + [o];
      todo := todo - {cpu};
    }
  }

}
