/**
 From the bitmaps of a session to its seeds: the record loop, the caller fold, the removal of
 owned rows, and the spans and seeds of both CPUs, as `main` of
 `tools/ingest_coverage_manifests.py` chains them.
 */
module CoverageTotals {
  import opened Bytes
  import opened ShardIndex
  import opened ShardRuns
  import RootHits
  import opened HotSpans

  /** A record of the root map: bitmaps and block counters of one page of one CPU. */
  datatype BitmapRecord = BitmapRecord(cpu: nat, base: nat, arm: Data, thumb: Data, blocks: seq<nat>)
  {
    /** The roots it names, in the order it yields them. */
    function Roots(): seq<Root> {
      var found := RootHits.Found(arm, thumb, base);
      if blocks == [] then found else RootHits.SortAll(found)
    }

    /** The counters of the blocks that some named root occupies. */
    function Hits(): nat {
      RootHits.FoundAbove(arm, thumb, base);
      if blocks == [] then 0 else RootHits.OccupiedTotal(Roots(), base, blocks, |blocks|)
    }

    /** What it gives to each root. */
    function Shares(): (shares: seq<nat>)
      ensures |shares| == |Roots()|
    {
      RootHits.FoundAbove(arm, thumb, base);
      if blocks == [] then seq(|Roots()|, _ => 0)
      else seq(|Roots()|, i requires 0 <= i < |Roots()| => RootHits.ShareOf(Roots(), i, base, blocks))
    }
  }

  /** Interpreted addresses by CPU. */
  type Session = map<nat, HitMap>

  const CPUS: set<nat> := {9, 7}

  // ---- The record loop -----------------------------------------------------------------

  /** The counters that one CPU's records bring along. */
  function CpuHits(records: seq<BitmapRecord>, cpu: nat): nat {
    if records == [] then 0
    else
      var rest, last := records[..|records| - 1], records[|records| - 1];
      CpuHits(rest, cpu) + (if last.cpu == cpu then last.Hits() else 0)
  }

  /** What one CPU's records give to one root. */
  function RootGain(records: seq<BitmapRecord>, cpu: nat, r: Root): nat {
    if records == [] then 0
    else
      var rest, last := records[..|records| - 1], records[|records| - 1];
      RootGain(rest, cpu, r) + (if last.cpu == cpu then SharesOf(last.Roots(), last.Shares(), r) else 0)
  }

  ghost predicate NamedFor(records: seq<BitmapRecord>, cpu: nat, r: Root) {
    exists rec :: rec in records && rec.cpu == cpu && r in rec.Roots()
  }

  /** A record that names roots of a CPU there is not ends the run with a `KeyError`. */
  predicate Placed(rec: BitmapRecord) { rec.cpu in CPUS || rec.Roots() == [] }

  /** What the records make of one CPU's map. */
  ghost predicate Gathers(records: seq<BitmapRecord>, cpu: nat, m: HitMap) {
    && Total(m) == CpuHits(records, cpu)
    && (forall r :: Held(m, r) == RootGain(records, cpu, r))
    && (forall r :: r in m <==> NamedFor(records, cpu, r))
  }

  lemma NothingGathered(cpu: nat)
    ensures Gathers([], cpu, map[])
  {
  }

  /** One record's pairs go to its own CPU's map. */
  method AddRecord(m0: HitMap, rec: BitmapRecord) returns (m: HitMap)
    ensures Total(m) == Total(m0) + rec.Hits()
    ensures forall r :: Held(m, r) == Held(m0, r) + SharesOf(rec.Roots(), rec.Shares(), r)
    ensures m.Keys == m0.Keys + Members(rec.Roots())
  {
    hide Total, RootHits.OccupiedTotal, RootHits.ShareOf, SharesOf, RootHits.SortAll, RootHits.Found;
    var rs, shares := RootHits.RootAddresses(rec.arm, rec.thumb, rec.base, rec.blocks);
    assert rs == rec.Roots() && shares == rec.Shares();
    m := AddHits(m0, rs, shares);
  }

  lemma GatherStep(records: seq<BitmapRecord>, i: nat, cpu: nat, m: HitMap, next: HitMap)
    requires i < |records| && Gathers(records[..i], cpu, m)
    requires var rec := records[i];
      if rec.cpu == cpu then
        && Total(next) == Total(m) + rec.Hits()
        && (forall r :: Held(next, r) == Held(m, r) + SharesOf(rec.Roots(), rec.Shares(), r))
        && next.Keys == m.Keys + Members(rec.Roots())
      else next == m
    ensures Gathers(records[..i + 1], cpu, next)
  {
    hide Total, SharesOf, BitmapRecord.Roots, BitmapRecord.Shares, BitmapRecord.Hits;
    var before, after, rec := records[..i], records[..i + 1], records[i];
    assert after == before + [rec] && after[..i] == before;
    forall r
      ensures NamedFor(after, cpu, r) <==> NamedFor(before, cpu, r) || (rec.cpu == cpu && r in rec.Roots())
    {
      if NamedFor(before, cpu, r) {
        var other :| other in before && other.cpu == cpu && r in other.Roots();
        assert other in after;
      } else if rec.cpu == cpu && r in rec.Roots() {
        assert rec in after;
      }
    }
  }

  lemma NoRoots(rec: BitmapRecord)
    requires rec.Roots() == []
    ensures forall r :: SharesOf(rec.Roots(), rec.Shares(), r) == 0
    ensures rec.Hits() == 0
  {
    NobodyOccupies(rec, |rec.blocks|);
  }

  lemma {:induction false} NobodyOccupies(rec: BitmapRecord, n: nat)
    requires rec.Roots() == [] && n <= |rec.blocks|
    ensures RootHits.OccupiedTotal([], rec.base, rec.blocks, n) == 0
  {
    if n > 0 {
      NobodyOccupies(rec, n - 1);
    }
  }

  /** The record loop of `main`: every CPU's map holds exactly what its records name and count. */
  method AddRecords(records: seq<BitmapRecord>) returns (roots: Session, ok: bool)
    ensures ok <==> forall rec :: rec in records ==> Placed(rec)
    ensures ok ==> roots.Keys == CPUS && forall cpu | cpu in CPUS :: Gathers(records, cpu, roots[cpu])
  {
    hide Total, SharesOf, Gathers, BitmapRecord.Roots, BitmapRecord.Shares, BitmapRecord.Hits;
    roots, ok := map cpu | cpu in CPUS :: map[], true;
    forall cpu | cpu in CPUS
      ensures Gathers([], cpu, map[])
    {
      NothingGathered(cpu);
    }
    for i := 0 to |records|
      invariant roots.Keys == CPUS && forall cpu | cpu in CPUS :: Gathers(records[..i], cpu, roots[cpu])
      invariant forall rec :: rec in records[..i] ==> Placed(rec)
    {
      var rec := records[i];
      var next := roots;
      if rec.cpu in CPUS {
        var m := AddRecord(roots[rec.cpu], rec);
        next := roots[rec.cpu := m];
      } else if rec.Roots() != [] {
        assert rec in records && !Placed(rec);
        ok := false;
        return;
      }
      forall cpu | cpu in CPUS
        ensures Gathers(records[..i + 1], cpu, next[cpu])
      {
        GatherStep(records, i, cpu, roots[cpu], next[cpu]);
      }
      assert records[..i + 1] == records[..i] + [rec];
      roots := next;
    }
    assert records[..|records|] == records;
  }

  // ---- Callers and owned rows ----------------------------------------------------------

  /** `d[key] = d.get(key, 0) + n`. */
  function Plus(m: HitMap, r: Root, n: nat): HitMap { m[r := Held(m, r) + n] }

  /** `del d[key]`. */
  function Drop(m: HitMap, r: Root): HitMap { m - {r} }

  lemma PlusAdds(m: HitMap, r: Root, n: nat)
    ensures Total(Plus(m, r, n)) == Total(m) + n
    ensures forall q :: q in Plus(m, r, n) <==> q in m || q == r
    ensures forall q :: Held(Plus(m, r, n), q) == Held(m, q) + if q == r then n else 0
  {
    hide Total;
    TotalAfterUpdate(m, r, Held(m, r) + n);
  }

  lemma DropTakes(m: HitMap, r: Root)
    requires r in m
    ensures Total(Drop(m, r)) == Total(m) - m[r] && |Drop(m, r)| < |m|
    ensures forall q :: q in Drop(m, r) <==> q in m && q != r
    ensures forall q :: Held(Drop(m, r), q) == Held(m, q) - if q == r then m[r] else 0
  {
    hide Total;
    TotalWithout(m, r);
    assert |Drop(m, r).Keys| == |m.Keys - {r}|;
  }

  lemma NothingHeld()
    ensures Total(map[]) == 0 && forall r :: Held(map[], r) == 0
  {
  }

  /** Two maps together hold what two others do. */
  ghost predicate SameTogether(a: HitMap, b: HitMap, c: HitMap, d: HitMap) {
    && (forall r :: r in a || r in b <==> r in c || r in d)
    && Total(a) + Total(b) == Total(c) + Total(d)
    && forall r :: Held(a, r) + Held(b, r) == Held(c, r) + Held(d, r)
  }

  /** One caller's hits move into the map. */
  lemma MoveOne(m: HitMap, todo: HitMap, r: Root, c: HitMap, d: HitMap)
    requires r in todo && SameTogether(m, todo, c, d)
    ensures SameTogether(Plus(m, r, todo[r]), Drop(todo, r), c, d) && |Drop(todo, r)| < |todo|
  {
    hide Total, Held, Plus, Drop;
    PlusAdds(m, r, todo[r]);
    DropTakes(todo, r);
  }

  /** `interpreted[cpu][key] = interpreted[cpu].get(key, 0) + hits`, for every caller. */
  method FoldCallers(m0: HitMap, callers: HitMap) returns (m: HitMap)
    ensures Total(m) == Total(m0) + Total(callers) && forall r :: r in m <==> r in m0 || r in callers
    ensures forall r :: Held(m, r) == Held(m0, r) + Held(callers, r)
  {
    hide SameTogether, Plus, Drop, Total, Held;
    m := m0;
    var todo := callers;
    Together(m, todo);
    while todo != map[]
      invariant SameTogether(m, todo, m0, callers)
      decreases |todo|
    {
      var r :| r in todo;
      MoveOne(m, todo, r, m0, callers);
      m := Plus(m, r, todo[r]);
      todo := Drop(todo, r);
    }
    MovedAll(m, m0, callers);
  }

  lemma MovedAll(m: HitMap, m0: HitMap, callers: HitMap)
    requires SameTogether(m, map[], m0, callers)
    ensures Total(m) == Total(m0) + Total(callers) && forall r :: r in m <==> r in m0 || r in callers
    ensures forall r :: Held(m, r) == Held(m0, r) + Held(callers, r)
  {
  }

  lemma Together(a: HitMap, b: HitMap)
    ensures SameTogether(a, b, a, b)
  {
  }

  /** What the build owns no row for, and the part that it does. */
  function Unowned(m: HitMap, owned: set<Root>): HitMap { m - owned }

  function OwnedPart(m: HitMap, owned: set<Root>): HitMap { map r | r in m && r in owned :: m[r] }

  /** One more owned address moves from the one part to the other. */
  lemma OwnOneMore(m: HitMap, owned: set<Root>, r: Root)
    requires r !in owned
    ensures r in m ==>
      && r in Unowned(m, owned) && Unowned(m, owned)[r] == m[r]
      && Unowned(m, owned + {r}) == Drop(Unowned(m, owned), r)
      && OwnedPart(m, owned + {r}) == Plus(OwnedPart(m, owned), r, m[r])
      && |OwnedPart(m, owned + {r})| == |OwnedPart(m, owned)| + 1
    ensures r !in m ==>
      Unowned(m, owned + {r}) == Unowned(m, owned) && OwnedPart(m, owned + {r}) == OwnedPart(m, owned)
  {
    if r in m {
      assert OwnedPart(m, owned + {r}).Keys == OwnedPart(m, owned).Keys + {r};
    }
  }

  lemma NothingOwned(m: HitMap, owned: set<Root>)
    ensures OwnedPart(m, {}) == map[] && Unowned(m, {}) == m
    ensures OwnedPart(m, owned * m.Keys) == OwnedPart(m, owned) && Unowned(m, owned * m.Keys) == Unowned(m, owned)
  {
  }

  /** Deletes every owned address and counts them; what it takes away and what it leaves are the whole map. */
  method RemoveOwned(m0: HitMap, owned: set<Root>) returns (m: HitMap, count: nat)
    ensures m == Unowned(m0, owned) && count == |OwnedPart(m0, owned)|
    ensures Total(m) + Total(OwnedPart(m0, owned)) == Total(m0)
  {
    hide Total, OwnedPart, Unowned, Plus, Drop;
    m, count := m0, 0;
    var todo := m0.Keys;
    ghost var done: set<Root> := {};
    NothingOwned(m0, owned);
    NothingHeld();
    while todo != {}
      invariant todo <= m0.Keys && done == owned * (m0.Keys - todo)
      invariant m == Unowned(m0, done) && count == |OwnedPart(m0, done)|
      invariant Total(m) + Total(OwnedPart(m0, done)) == Total(m0)
      decreases todo
    {
      var r :| r in todo;
      if r in owned {
        OwnOneMore(m0, done, r);
        DropTakes(m, r);
        PlusAdds(OwnedPart(m0, done), r, m0[r]);
        m, count := Drop(m, r), count + 1;
        done := done + {r};
      }
      todo := todo - {r};
    }
    assert done == owned * m0.Keys;
  }

  // ---- Both CPUs -----------------------------------------------------------------------

  /** Everything seen interpreted on one CPU: its roots and, when promoted, its callers. */
  ghost predicate Observed(roots: HitMap, callers: HitMap, promoteCallers: bool, seen: HitMap) {
    var extra: HitMap := if promoteCallers then callers else map[];
    && Total(seen) == Total(roots) + Total(extra)
    && (forall r :: Held(seen, r) == Held(roots, r) + Held(extra, r))
    && (forall r :: r in seen <==> r in roots || r in extra)
  }

  /** The map the spans of one CPU are cut from. */
  method Interpret(roots: HitMap, callers: HitMap, promoteCallers: bool, owned: set<Root>)
    returns (m: HitMap, count: nat, ghost seen: HitMap)
    ensures Observed(roots, callers, promoteCallers, seen)
    ensures m == Unowned(seen, owned) && count == |OwnedPart(seen, owned)|
    ensures Total(m) + Total(OwnedPart(seen, owned)) == Total(seen)
  {
    hide Total, Held, OwnedPart, Unowned;
    m := roots;
    NothingHeld();
    if promoteCallers {
      m := FoldCallers(roots, callers);
    }
    seen := m;
    m, count := RemoveOwned(m, owned);
  }

  lemma {:induction false} StartsAreHits(rs: seq<Root>, hits: HitMap, mode: Mode, lo: nat)
    requires lo <= |rs| && Hit(rs, hits) && Ascending(rs, mode)
    ensures forall s :: s in Spans(rs, hits, mode, lo) ==> StartOf(s) in hits
    decreases |rs| - lo
  {
    if lo < |rs| {
      StartsAreHits(rs, hits, mode, RunEnd(rs, mode, lo + 1));
      assert StartOf(Spans(rs, hits, mode, lo)[0]) == rs[lo];
    }
  }

  /** A hot list starts spans only at addresses of the map, and every address of the map is in one. */
  ghost predicate Fits(m: HitMap, spans: seq<Span>) {
    && (forall s :: s in spans ==> StartOf(s) in m)
    && (forall r :: r in m ==> exists s :: s in spans && s.mode == r.mode && Holds(s, r.addr))
  }

  lemma InEither(spans: seq<Span>, arm: seq<Span>, thumb: seq<Span>)
    requires multiset(spans) == multiset(arm) + multiset(thumb)
    ensures forall s :: s in spans <==> s in arm || s in thumb
  {
    forall s
      ensures s in spans <==> s in arm || s in thumb
    {
      assert s in spans <==> s in multiset(spans);
    }
  }

  lemma CoveredByMode(m: HitMap, mode: Mode, r: Root)
    requires Hit(AddressesOf(m, mode), m) && r in m && r.mode == mode
    ensures exists s :: s in Spans(AddressesOf(m, mode), m, mode, 0) && s.mode == r.mode && Holds(s, r.addr)
  {
    hide Spans;
    var rs := AddressesOf(m, mode);
    SortedIsAscending(rs, mode);
    var i :| 0 <= i < |rs| && rs[i] == r;
    SpansCover(rs, m, mode, 0, i);
    SpansOfMode(rs, m, mode, 0);
    var k :| 0 <= k < |Spans(rs, m, mode, 0)| && Holds(Spans(rs, m, mode, 0)[k], r.addr);
    assert Spans(rs, m, mode, 0)[k] in Spans(rs, m, mode, 0);
  }

  lemma HotSpansFit(m: HitMap, spans: seq<Span>)
    requires IsHot(m, spans)
    ensures Fits(m, spans)
  {
    hide Spans, Ranked, Entries, Total, DistinctStarts, Holds;
    var arm, thumb := AddressesOf(m, Mode.Arm), AddressesOf(m, Thumb);
    SortedIsAscending(arm, Mode.Arm);
    SortedIsAscending(thumb, Thumb);
    StartsAreHits(arm, m, Mode.Arm, 0);
    StartsAreHits(thumb, m, Thumb, 0);
    InEither(spans, Spans(arm, m, Mode.Arm, 0), Spans(thumb, m, Thumb, 0));
    forall r | r in m
      ensures exists s :: s in spans && s.mode == r.mode && Holds(s, r.addr)
    {
      CoveredByMode(m, r.mode, r);
    }
  }

  /** A seed of one CPU. */
  datatype Seed = Seed(cpu: nat, root: Root)

  /** `hot_ranges`: every CPU's spans. */
  method AllHotRanges(interpreted: Session) returns (hot: map<nat, seq<Span>>)
    ensures hot.Keys == interpreted.Keys
    ensures forall cpu | cpu in hot :: IsHot(interpreted[cpu], hot[cpu])
  {
    hide IsHot;
    hot := map[];
    var todo := interpreted.Keys;
    while todo != {}
      invariant todo <= interpreted.Keys && hot.Keys == interpreted.Keys - todo
      invariant forall cpu | cpu in hot :: IsHot(interpreted[cpu], hot[cpu])
      decreases todo
    {
      var cpu :| cpu in todo;
      var spans := HotRanges(interpreted[cpu]);
      hot := hot[cpu := spans];
      todo := todo - {cpu};
    }
  }

  /** One CPU's seeds among those of all. */
  function SeedsOf(seeds: map<Seed, nat>, cpu: nat): HitMap {
    map seed | seed in seeds && seed.cpu == cpu :: seed.root := seeds[seed]
  }

  /** One CPU's seeds, keyed as seeds. */
  function Keyed(cpu: nat, part: HitMap): map<Seed, nat> {
    map seed | seed in (set r | r in part :: Seed(cpu, r)) :: part[seed.root]
  }

  lemma SeedsOfHolds(seeds: map<Seed, nat>, cpu: nat)
    ensures forall r :: r in SeedsOf(seeds, cpu) <==> Seed(cpu, r) in seeds
    ensures forall r :: r in SeedsOf(seeds, cpu) ==> SeedsOf(seeds, cpu)[r] == seeds[Seed(cpu, r)]
  {
    forall r
      ensures r in SeedsOf(seeds, cpu) <==> Seed(cpu, r) in seeds
    {
      if Seed(cpu, r) in seeds {
        assert Seed(cpu, r).root == r;
      }
    }
  }

  lemma KeyedHolds(cpu: nat, part: HitMap)
    ensures forall seed :: seed in Keyed(cpu, part) <==> seed.cpu == cpu && seed.root in part
    ensures forall seed :: seed in Keyed(cpu, part) ==> Keyed(cpu, part)[seed] == part[seed.root]
  {
    forall seed: Seed | seed.cpu == cpu && seed.root in part
      ensures seed in Keyed(cpu, part)
    {
      assert seed == Seed(cpu, seed.root);
    }
  }

  /** Adding one CPU's seeds gives that CPU its own and leaves the others theirs. */
  lemma KeyedApart(seeds: map<Seed, nat>, cpu: nat, part: HitMap, other: nat)
    requires SeedsOf(seeds, cpu) == map[]
    ensures SeedsOf(seeds + Keyed(cpu, part), other) == if other == cpu then part else SeedsOf(seeds, other)
    ensures forall seed :: seed in seeds + Keyed(cpu, part) ==> seed in seeds || seed.cpu == cpu
  {
    hide SeedsOf, Keyed;
    var all := seeds + Keyed(cpu, part);
    SeedsOfHolds(seeds, other);
    SeedsOfHolds(all, other);
    KeyedHolds(cpu, part);
    forall r
      ensures r in SeedsOf(all, other) <==> r in if other == cpu then part else SeedsOf(seeds, other)
    {
      assert Seed(other, r) in all <==> Seed(other, r) in seeds || Seed(other, r) in Keyed(cpu, part);
    }
  }

  lemma NoSeeds()
    ensures forall cpu :: SeedsOf(map[], cpu) == map[]
  {
  }

  /** `select_span_seeds`: every CPU's seeds and statistics. */
  method SelectAll(hot: map<nat, seq<Span>>, promote: bool, minHits: nat, limit: int)
    returns (seeds: map<Seed, nat>, stats: map<nat, Stats>)
    ensures stats.Keys == hot.Keys && forall seed :: seed in seeds ==> seed.cpu in hot
    ensures forall cpu | cpu in hot :: IsSelection(hot[cpu], promote, minHits, limit, SeedsOf(seeds, cpu), stats[cpu])
  {
    hide IsSelection, SeedsOf, Keyed;
    seeds, stats := map[], map[];
    NoSeeds();
    var todo := hot.Keys;
    while todo != {}
      invariant todo <= hot.Keys && stats.Keys == hot.Keys - todo
      invariant forall seed :: seed in seeds ==> seed.cpu in hot
      invariant forall cpu | cpu in todo :: SeedsOf(seeds, cpu) == map[]
      invariant forall cpu | cpu in stats ::
        IsSelection(hot[cpu], promote, minHits, limit, SeedsOf(seeds, cpu), stats[cpu])
      decreases todo
    {
      var cpu :| cpu in todo;
      var part, counts := SelectSeeds(hot[cpu], promote, minHits, limit);
      forall other
        ensures SeedsOf(seeds + Keyed(cpu, part), other) == if other == cpu then part else SeedsOf(seeds, other)
      {
        KeyedApart(seeds, cpu, part, other);
      }
      KeyedApart(seeds, cpu, part, cpu);
      seeds, stats := seeds + Keyed(cpu, part), stats[cpu := counts];
      todo := todo - {cpu};
    }
  }

  // ---- From records to seeds -----------------------------------------------------------

  /** What one CPU's map, spans and seeds have to do with its records, callers and owned rows. */
  ghost predicate Reported(
    roots: HitMap, callers: HitMap, promoteCallers: bool, owned: set<Root>, seen: HitMap, spans: seq<Span>)
  {
    && Observed(roots, callers, promoteCallers, seen)
    && IsHot(Unowned(seen, owned), spans)
    && Entries(spans) + Total(OwnedPart(seen, owned)) == Total(seen)
  }

  /**
   The chain of `main`, for any records, callers and owned rows: per CPU the spans carry the
   counters of its records' occupied blocks and its callers' hits, less what the owned addresses had.
   */
  method Report(records: seq<BitmapRecord>, callers: Session, promoteCallers: bool, owned: map<nat, set<Root>>,
                promote: bool, minHits: nat, limit: int)
    returns (ok: bool, roots: Session, hot: map<nat, seq<Span>>, seeds: map<Seed, nat>, stats: map<nat, Stats>,
             alreadyOwned: nat, ghost seen: Session)
    requires callers.Keys == CPUS && owned.Keys == CPUS
    ensures ok <==> forall rec :: rec in records ==> Placed(rec)
    ensures ok ==> roots.Keys == hot.Keys == stats.Keys == seen.Keys == CPUS
    ensures ok ==> forall cpu | cpu in CPUS ::
      && Gathers(records, cpu, roots[cpu])
      && Reported(roots[cpu], callers[cpu], promoteCallers, owned[cpu], seen[cpu], hot[cpu])
      && IsSelection(hot[cpu], promote, minHits, limit, SeedsOf(seeds, cpu), stats[cpu])
    ensures ok ==> forall cpu | cpu in CPUS ::
      Entries(hot[cpu]) + Total(OwnedPart(seen[cpu], owned[cpu])) ==
      CpuHits(records, cpu) + (if promoteCallers then Total(callers[cpu]) else 0)
    ensures ok ==> forall seed | seed in seeds :: seed.cpu in CPUS && seed.root !in owned[seed.cpu]
    ensures ok ==> alreadyOwned == |OwnedPart(seen[9], owned[9])| + |OwnedPart(seen[7], owned[7])|
  {
    hide Gathers, IsSelection, IsHot, Observed, OwnedPart, Unowned, Entries, Total, Placed, SeedsOf, CpuHits;
    roots, ok := AddRecords(records);
    hot, seeds, stats, alreadyOwned, seen := map[], map[], map[], 0, map[];
    if !ok {
      return;
    }
    var interpreted, removed;
    interpreted, removed, seen := InterpretAll(roots, callers, promoteCallers, owned);
    alreadyOwned := removed;
    hot := AllHotRanges(interpreted);
    seeds, stats := SelectAll(hot, promote, minHits, limit);
    forall cpu | cpu in CPUS
      ensures Reported(roots[cpu], callers[cpu], promoteCallers, owned[cpu], seen[cpu], hot[cpu])
      ensures Entries(hot[cpu]) + Total(OwnedPart(seen[cpu], owned[cpu])) ==
        CpuHits(records, cpu) + (if promoteCallers then Total(callers[cpu]) else 0)
    {
      SameTotals(records, cpu, roots[cpu], callers[cpu], promoteCallers, seen[cpu]);
      HotCarriesAll(interpreted[cpu], hot[cpu]);
    }
    forall seed | seed in seeds
      ensures seed.cpu in CPUS && seed.root !in owned[seed.cpu]
    {
      var cpu := seed.cpu;
      SeedIsUnowned(seed, seeds, seen[cpu], owned[cpu], hot[cpu], promote, minHits, limit, stats[cpu]);
    }
  }

  method InterpretAll(roots: Session, callers: Session, promoteCallers: bool, owned: map<nat, set<Root>>)
    returns (interpreted: Session, alreadyOwned: nat, ghost seen: Session)
    requires roots.Keys == callers.Keys == owned.Keys == CPUS
    ensures interpreted.Keys == seen.Keys == CPUS
    ensures forall cpu | cpu in CPUS ::
      && Observed(roots[cpu], callers[cpu], promoteCallers, seen[cpu])
      && interpreted[cpu] == Unowned(seen[cpu], owned[cpu])
      && Total(interpreted[cpu]) + Total(OwnedPart(seen[cpu], owned[cpu])) == Total(seen[cpu])
    ensures alreadyOwned == |OwnedPart(seen[9], owned[9])| + |OwnedPart(seen[7], owned[7])|
  {
    hide Observed, OwnedPart, Unowned, Total;
    var arm9, removed9, seen9 := Interpret(roots[9], callers[9], promoteCallers, owned[9]);
    var arm7, removed7, seen7 := Interpret(roots[7], callers[7], promoteCallers, owned[7]);
    interpreted, alreadyOwned, seen := map[9 := arm9, 7 := arm7], removed9 + removed7, map[9 := seen9, 7 := seen7];
  }

  lemma SameTotals(
    records: seq<BitmapRecord>, cpu: nat, roots: HitMap, callers: HitMap, promoteCallers: bool, seen: HitMap)
    requires Gathers(records, cpu, roots) && Observed(roots, callers, promoteCallers, seen)
    ensures Total(seen) == CpuHits(records, cpu) + (if promoteCallers then Total(callers) else 0)
  {
    hide Total;
    NothingHeld();
  }

  lemma HotCarriesAll(m: HitMap, spans: seq<Span>)
    requires IsHot(m, spans)
    ensures Entries(spans) == Total(m)
  {
  }

  lemma SeedIsUnowned(seed: Seed, seeds: map<Seed, nat>, seen: HitMap, owned: set<Root>, spans: seq<Span>,
                      promote: bool, minHits: nat, limit: int, stats: Stats)
    requires seed in seeds && IsHot(Unowned(seen, owned), spans)
    requires IsSelection(spans, promote, minHits, limit, SeedsOf(seeds, seed.cpu), stats)
    ensures seed.root !in owned
  {
    hide IsHot, Total, Entries, EntriesAt;
    assert seed.root in SeedsOf(seeds, seed.cpu);
    HotSpansFit(Unowned(seen, owned), spans);
    ChosenAreListed(spans, minHits, limit);
  }

  lemma ChosenAreListed(spans: seq<Span>, minHits: nat, limit: int)
    ensures forall s :: s in Chosen(spans, minHits, limit) ==> s in spans && s.entries >= minHits
  {
    hide Qualifying;
    QualifyingAreListed(spans, minHits);
  }

  lemma {:induction false} QualifyingAreListed(spans: seq<Span>, minHits: nat)
    ensures forall s :: s in Qualifying(spans, minHits) ==> s in spans && s.entries >= minHits
  {
    if spans != [] {
      QualifyingAreListed(spans[1..], minHits);
    }
  }

  /** Every observed address is owned already or lies in a span of its CPU and mode. */
  lemma EveryRootIsAccountedFor(
    roots: HitMap, callers: HitMap, promoteCallers: bool, owned: set<Root>, seen: HitMap, spans: seq<Span>, r: Root)
    requires Reported(roots, callers, promoteCallers, owned, seen, spans)
    requires r in roots || (promoteCallers && r in callers)
    ensures r in owned || exists s :: s in spans && s.mode == r.mode && Holds(s, r.addr)
  {
    hide IsHot, Total, Entries, Holds;
    HotSpansFit(Unowned(seen, owned), spans);
  }

  /** Each promoted span has the seed at its start, with exactly its own entries, and there is no other seed. */
  lemma SeedsAreThePromotedSpans(m: HitMap, spans: seq<Span>, minHits: nat, limit: int, seeds: HitMap, stats: Stats)
    requires IsHot(m, spans) && IsSelection(spans, true, minHits, limit, seeds, stats)
    ensures forall s :: s in Chosen(spans, minHits, limit) ==> StartOf(s) in seeds && seeds[StartOf(s)] == s.entries
    ensures forall r :: r in seeds ==> SomeStartsAt(Chosen(spans, minHits, limit), r)
    ensures |seeds| == |Chosen(spans, minHits, limit)|
  {
    hide Total, Entries, EntriesAt, Chosen, Ranked;
    var chosen := Chosen(spans, minHits, limit);
    forall s | s in chosen
      ensures StartOf(s) in seeds && seeds[StartOf(s)] == s.entries
    {
      var i :| 0 <= i < |chosen| && chosen[i] == s;
      ChosenSeedIsItsSpan(spans, minHits, limit, i);
      assert SomeStartsAt(chosen, StartOf(s));
    }
    ChosenStartsDiffer(spans, minHits, limit);
    StartsCounted(chosen);
    assert seeds.Keys == set s | s in chosen :: StartOf(s);
  }

  lemma {:induction false} StartsCounted(spans: seq<Span>)
    requires DistinctStarts(spans)
    ensures |set s | s in spans :: StartOf(s)| == |spans|
  {
    if spans != [] {
      var n := |spans| - 1;
      var before := set s | s in spans[..n] :: StartOf(s);
      StartsCounted(spans[..n]);
      assert spans == spans[..n] + [spans[n]];
      assert (set s | s in spans :: StartOf(s)) == before + {StartOf(spans[n])};
      assert StartOf(spans[n]) !in before;
    }
  }
}
