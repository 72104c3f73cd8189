/**
 Interpreted spans: `hot_ranges` and `select_span_seeds` of `tools/ingest_coverage_manifests.py`.
 */
module HotSpans {
  import opened ShardIndex
  import opened ShardRuns
  import RootHits

  /** Hits per interpreted address of one CPU. */
  type HitMap = map<Root, nat>

  function Stride(mode: Mode): nat { if mode.Arm? then 4 else 2 }

  /** A run of interpreted instructions, from its first address to its last. */
  datatype Span = Span(start: nat, last: nat, mode: Mode, entries: nat) {
    function End(): nat { last + Stride(mode) }
  }

  // ---- Totals --------------------------------------------------------------------------

  /** All hits of a map. */
  ghost function Total(m: HitMap): nat {
    if m == map[] then 0
    else
      var r :| r in m;
      m[r] + Total(m - {r})
  }

  lemma {:induction false} TotalWithout(m: HitMap, r: Root)
    requires r in m
    ensures Total(m) == m[r] + Total(m - {r})
    decreases |m|
  {
    var first :| first in m && Total(m) == m[first] + Total(m - {first});
    if first != r {
      TotalWithout(m - {first}, r);
      TotalWithout(m - {r}, first);
      assert m - {first} - {r} == m - {r} - {first};
    }
  }

  lemma TotalAfterUpdate(m: HitMap, r: Root, n: nat)
    ensures Total(m[r := n]) == Total(m) - (if r in m then m[r] else 0) + n
  {
    TotalWithout(m[r := n], r);
    assert m[r := n] - {r} == m - {r};
    if r in m {
      TotalWithout(m, r);
    } else {
      assert m - {r} == m;
    }
  }

  lemma SumStep(xs: seq<nat>, i: nat)
    requires i < |xs|
    ensures RootHits.Sum(xs[..i + 1]) == RootHits.Sum(xs[..i]) + xs[i]
  {
    assert xs[..i + 1][..i] == xs[..i];
  }

  lemma NoShares()
    ensures RootHits.Sum([]) == 0 && forall r :: SharesOf([], [], r) == 0
  {
  }

  /** `d.get(key, 0)`. */
  function Held(m: HitMap, r: Root): nat { if r in m then m[r] else 0 }

  /** All the shares that a list of yielded pairs gives one root. */
  function SharesOf(rs: seq<Root>, shares: seq<nat>, r: Root): nat
    requires |rs| == |shares|
  {
    if rs == [] then 0
    else SharesOf(rs[..|rs| - 1], shares[..|rs| - 1], r) + (if rs[|rs| - 1] == r then shares[|rs| - 1] else 0)
  }

  lemma SharesStep(rs: seq<Root>, shares: seq<nat>, i: nat)
    requires i < |rs| == |shares|
    ensures forall r ::
      SharesOf(rs[..i + 1], shares[..i + 1], r) ==
      SharesOf(rs[..i], shares[..i], r) + if rs[i] == r then shares[i] else 0
  {
    assert rs[..i + 1][..i] == rs[..i] && shares[..i + 1][..i] == shares[..i];
  }

  /** Adds one bitmap record's shares to the map: each root gains exactly its own. */
  method AddHits(m0: HitMap, rs: seq<Root>, shares: seq<nat>) returns (m: HitMap)
    requires |rs| == |shares|
    ensures forall r :: Held(m, r) == Held(m0, r) + SharesOf(rs, shares, r)
    ensures Total(m) == Total(m0) + RootHits.Sum(shares)
    ensures m.Keys == m0.Keys + Members(rs)
  {
    hide Total, RootHits.Sum, SharesOf;
    m := m0;
    NoShares();
    for i := 0 to |rs|
      invariant forall r :: Held(m, r) == Held(m0, r) + SharesOf(rs[..i], shares[..i], r)
      invariant Total(m) == Total(m0) + RootHits.Sum(shares[..i])
      invariant m.Keys == m0.Keys + Members(rs[..i])
    {
      TotalAfterUpdate(m, rs[i], (if rs[i] in m then m[rs[i]] else 0) + shares[i]);
      SumStep(shares, i);
      SharesStep(rs, shares, i);
      assert rs[..i + 1] == rs[..i] + [rs[i]];
      m := m[rs[i] := (if rs[i] in m then m[rs[i]] else 0) + shares[i]];
    }
    assert rs[..|rs|] == rs && shares[..|rs|] == shares;
  }

  // ---- Addresses of one mode -----------------------------------------------------------

  /** `sorted(a for a, m in hits if m == mode)`. */
  method SortedAddresses(hits: HitMap, mode: Mode) returns (rs: seq<Root>)
    ensures Sorted(rs) && Members(rs) == set r | r in hits && r.mode == mode
  {
    rs := [];
    var todo := hits.Keys;
    while todo != {}
      invariant todo <= hits.Keys
      invariant Sorted(rs) && Members(rs) == set r | r in hits && r !in todo && r.mode == mode
      decreases todo
    {
      var r :| r in todo;
      if r.mode == mode {
        InsertKeepsOrder(rs, r);
        rs := Insert(rs, r);
      }
      todo := todo - {r};
    }
  }

  /** Addresses of one mode, strictly ascending. */
  ghost predicate Ascending(rs: seq<Root>, mode: Mode) {
    && (forall i :: 0 <= i < |rs| ==> rs[i].mode == mode)
    && (forall i, j :: 0 <= i < j < |rs| ==> rs[i].addr < rs[j].addr)
  }

  lemma {:induction false} SortedIsAscending(rs: seq<Root>, mode: Mode)
    requires Sorted(rs) && forall r :: r in rs ==> r.mode == mode
    ensures Ascending(rs, mode)
  {
    if rs != [] {
      SortedIsAscending(rs[1..], mode);
      forall j | 0 < j < |rs|
        ensures rs[0].addr < rs[j].addr
      {
        assert rs[j] == rs[1..][j - 1] && rs[1..][j - 1] in rs[1..];
      }
      forall i, j | 0 <= i < j < |rs|
        ensures rs[i].addr < rs[j].addr
      {
        if i > 0 {
          assert rs[i] == rs[1..][i - 1] && rs[j] == rs[1..][j - 1];
        }
      }
      forall i | 0 <= i < |rs|
        ensures rs[i].mode == mode
      {
        assert rs[i] in rs;
      }
    }
  }

  // ---- Cutting runs --------------------------------------------------------------------

  ghost predicate Hit(rs: seq<Root>, hits: HitMap) { forall i :: 0 <= i < |rs| ==> rs[i] in hits }

  /** Hits of the addresses from position `lo` up to `hi`. */
  ghost function HitsOf(rs: seq<Root>, hits: HitMap, lo: nat, hi: nat): nat
    requires lo <= hi <= |rs| && Hit(rs, hits)
  {
    if lo == hi then 0 else HitsOf(rs, hits, lo, hi - 1) + hits[rs[hi - 1]]
  }

  /** Address `j` is more than one instruction past the one before it. */
  predicate Gap(rs: seq<Root>, mode: Mode, j: int)
    requires 0 < j < |rs|
  {
    rs[j].addr - rs[j - 1].addr > Stride(mode)
  }

  /** Where the run that holds position `j - 1` ends: the next gap, or the end of the list. */
  ghost function RunEnd(rs: seq<Root>, mode: Mode, j: nat): (hi: nat)
    requires 0 < j <= |rs|
    ensures j <= hi <= |rs|
    ensures forall k :: j <= k < hi ==> !Gap(rs, mode, k)
    ensures hi < |rs| ==> Gap(rs, mode, hi)
    decreases |rs| - j
  {
    if j == |rs| || Gap(rs, mode, j) then j else RunEnd(rs, mode, j + 1)
  }

  /** The maximal runs from position `lo` on. */
  ghost function Spans(rs: seq<Root>, hits: HitMap, mode: Mode, lo: nat): seq<Span>
    requires lo <= |rs| && Hit(rs, hits)
    decreases |rs| - lo
  {
    if lo == |rs| then []
    else
      var hi := RunEnd(rs, mode, lo + 1);
      [Span(rs[lo].addr, rs[hi - 1].addr, mode, HitsOf(rs, hits, lo, hi))] + Spans(rs, hits, mode, hi)
  }

  lemma RunEndHere(rs: seq<Root>, mode: Mode, j: nat)
    requires 0 < j <= |rs|
    ensures RunEnd(rs, mode, j) == if j == |rs| || Gap(rs, mode, j) then j else RunEnd(rs, mode, j + 1)
  {
  }

  lemma SpansHere(rs: seq<Root>, hits: HitMap, mode: Mode, lo: nat, hi: nat)
    requires lo < hi <= |rs| && Hit(rs, hits) && RunEnd(rs, mode, lo + 1) == hi
    ensures Spans(rs, hits, mode, lo) ==
      [Span(rs[lo].addr, rs[hi - 1].addr, mode, HitsOf(rs, hits, lo, hi))] + Spans(rs, hits, mode, hi)
    ensures Spans(rs, hits, mode, |rs|) == []
  {
  }

  /** The cutting loop of `hot_ranges`. */
  method CutRuns(rs: seq<Root>, hits: HitMap, mode: Mode) returns (spans: seq<Span>)
    requires Hit(rs, hits)
    ensures spans == Spans(rs, hits, mode, 0)
  {
    hide Spans, RunEnd, HitsOf;
    spans := [];
    if rs == [] {
      assert Spans(rs, hits, mode, 0) == [] by { NoSpans(rs, hits, mode); }
      return;
    }
    var start, previous, total := rs[0].addr, rs[0].addr, hits[rs[0]];
    ghost var lo := 0;
    HitsOfStep(rs, hits, 0);
    for i := 1 to |rs|
      invariant 0 <= lo < i && start == rs[lo].addr && previous == rs[i - 1].addr
      invariant total == HitsOf(rs, hits, lo, i)
      invariant RunEnd(rs, mode, lo + 1) == RunEnd(rs, mode, i)
      invariant Spans(rs, hits, mode, 0) == spans + Spans(rs, hits, mode, lo)
    {
      var addr := rs[i].addr;
      RunEndHere(rs, mode, i);
      HitsOfStep(rs, hits, i);
      if addr - previous <= Stride(mode) {
        total := total + hits[rs[i]];
        previous := addr;
        continue;
      }
      SpansHere(rs, hits, mode, lo, i);
      spans := spans + [Span(start, previous, mode, total)];
      start, previous, total := addr, addr, hits[rs[i]];
      lo := i;
    }
    RunEndHere(rs, mode, |rs|);
    SpansHere(rs, hits, mode, lo, |rs|);
    spans := spans + [Span(start, previous, mode, total)];
  }

  lemma HitsOfStep(rs: seq<Root>, hits: HitMap, i: nat)
    requires i < |rs| && Hit(rs, hits)
    ensures HitsOf(rs, hits, i, i) == 0 && HitsOf(rs, hits, i, i + 1) == hits[rs[i]]
    ensures forall lo: nat :: lo <= i ==> HitsOf(rs, hits, lo, i + 1) == HitsOf(rs, hits, lo, i) + hits[rs[i]]
  {
  }

  lemma NoSpans(rs: seq<Root>, hits: HitMap, mode: Mode)
    requires rs == []
    ensures Spans(rs, hits, mode, 0) == []
  {
  }

  lemma {:induction false} HitsOfParts(rs: seq<Root>, hits: HitMap, lo: nat, mid: nat, hi: nat)
    requires lo <= mid <= hi <= |rs| && Hit(rs, hits)
    ensures HitsOf(rs, hits, lo, hi) == HitsOf(rs, hits, lo, mid) + HitsOf(rs, hits, mid, hi)
  {
    if mid < hi {
      HitsOfParts(rs, hits, lo, mid, hi - 1);
    }
  }

  function Entries(spans: seq<Span>): nat {
    if spans == [] then 0 else spans[0].entries + Entries(spans[1..])
  }

  /** Cutting loses no hit. */
  lemma {:induction false} SpansKeepHits(rs: seq<Root>, hits: HitMap, mode: Mode, lo: nat)
    requires lo <= |rs| && Hit(rs, hits)
    ensures Entries(Spans(rs, hits, mode, lo)) == HitsOf(rs, hits, lo, |rs|)
    decreases |rs| - lo
  {
    if lo < |rs| {
      var hi := RunEnd(rs, mode, lo + 1);
      SpansKeepHits(rs, hits, mode, hi);
      HitsOfParts(rs, hits, lo, hi, |rs|);
    }
  }

  /** Spans in address order, no two close enough to be one: disjoint and maximal. */
  ghost predicate Separated(spans: seq<Span>) {
    && (forall k :: 0 <= k < |spans| ==> spans[k].start <= spans[k].last)
    && (forall k, l :: 0 <= k < l < |spans| ==> spans[k].End() < spans[l].start)
  }

  /** The span holds this address. */
  predicate Holds(s: Span, addr: nat) { s.start <= addr <= s.last }

  /** The spans from `lo` on start no earlier than address `lo`. */
  ghost predicate StartAfter(spans: seq<Span>, addr: nat) {
    forall k :: 0 <= k < |spans| ==> addr <= spans[k].start
  }

  lemma SeparatedCons(first: Span, rest: seq<Span>, addr: nat)
    requires Separated(rest) && StartAfter(rest, addr) && first.start <= first.last && first.End() < addr
    ensures Separated([first] + rest) && StartAfter([first] + rest, first.start)
  {
    var spans := [first] + rest;
    assert forall k :: 1 <= k < |spans| ==> spans[k] == rest[k - 1];
  }

  /** The spans of one mode are disjoint, in order, and no two neighbours could be joined. */
  lemma {:induction false} SpansAreSeparated(rs: seq<Root>, hits: HitMap, mode: Mode, lo: nat)
    requires lo <= |rs| && Hit(rs, hits) && Ascending(rs, mode)
    ensures Separated(Spans(rs, hits, mode, lo))
    ensures lo < |rs| ==> StartAfter(Spans(rs, hits, mode, lo), rs[lo].addr)
    decreases |rs| - lo
  {
    if lo < |rs| {
      var hi := RunEnd(rs, mode, lo + 1);
      SpansAreSeparated(rs, hits, mode, hi);
      SpansHere(rs, hits, mode, lo, hi);
      var first := Span(rs[lo].addr, rs[hi - 1].addr, mode, HitsOf(rs, hits, lo, hi));
      if hi < |rs| {
        SeparatedCons(first, Spans(rs, hits, mode, hi), rs[hi].addr);
      }
    }
  }

  /** Every address lies in a span. */
  lemma {:induction false} SpansCover(rs: seq<Root>, hits: HitMap, mode: Mode, lo: nat, i: nat)
    requires lo <= i < |rs| && Hit(rs, hits) && Ascending(rs, mode)
    ensures exists k :: 0 <= k < |Spans(rs, hits, mode, lo)| && Holds(Spans(rs, hits, mode, lo)[k], rs[i].addr)
    decreases |rs| - lo
  {
    var hi := RunEnd(rs, mode, lo + 1);
    var spans, rest := Spans(rs, hits, mode, lo), Spans(rs, hits, mode, hi);
    if i < hi {
      assert Holds(spans[0], rs[i].addr);
    } else {
      SpansCover(rs, hits, mode, hi, i);
      var k :| 0 <= k < |rest| && Holds(rest[k], rs[i].addr);
      assert Holds(spans[k + 1], rs[i].addr);
    }
  }

  /** Inside a span no two consecutive addresses are more than one instruction apart. */
  lemma {:induction false} SpansAreContiguous(rs: seq<Root>, hits: HitMap, mode: Mode, lo: nat, k: nat, j: nat)
    requires lo <= |rs| && Hit(rs, hits) && Ascending(rs, mode)
    requires k < |Spans(rs, hits, mode, lo)| && lo < j < |rs|
    requires Spans(rs, hits, mode, lo)[k].start < rs[j].addr <= Spans(rs, hits, mode, lo)[k].last
    ensures !Gap(rs, mode, j)
    decreases |rs| - lo
  {
    hide Spans, HitsOf, Gap;
    var hi := RunEnd(rs, mode, lo + 1);
    SpansHere(rs, hits, mode, lo, hi);
    if k > 0 {
      SpansAreSeparated(rs, hits, mode, hi);
      if j > hi {
        SpansAreContiguous(rs, hits, mode, hi, k - 1, j);
      }
    }
  }

  // ---- Ranking -------------------------------------------------------------------------

  /** Hottest first, then by start address; ARM spans are listed first and the sort is stable. */
  predicate Hotter(a: Span, b: Span) {
    a.entries > b.entries ||
    (a.entries == b.entries && (a.start < b.start || (a.start == b.start && (a.mode.Arm? || b.mode.Thumb?))))
  }

  ghost predicate Ranked(spans: seq<Span>) {
    forall i, j :: 0 <= i < j < |spans| ==> Hotter(spans[i], spans[j])
  }

  function PutSpan(spans: seq<Span>, s: Span): (put: seq<Span>)
    ensures multiset(put) == multiset(spans) + multiset{s}
    ensures Entries(put) == Entries(spans) + s.entries
  {
    if spans == [] then [s]
    else if !Hotter(spans[0], s) then
      assert ([s] + spans)[1..] == spans;
      [s] + spans
    else
      assert spans == [spans[0]] + spans[1..];
      var tail := PutSpan(spans[1..], s);
      assert ([spans[0]] + tail)[1..] == tail;
      [spans[0]] + tail
  }

  lemma {:induction false} PutSpanKeepsRank(spans: seq<Span>, s: Span)
    requires Ranked(spans)
    ensures Ranked(PutSpan(spans, s))
  {
    if spans != [] && Hotter(spans[0], s) {
      var tail := PutSpan(spans[1..], s);
      PutSpanKeepsRank(spans[1..], s);
      forall j | 0 <= j < |tail|
        ensures Hotter(spans[0], tail[j])
      {
        assert tail[j] in multiset(tail);
        assert tail[j] == s || tail[j] in spans[1..];
      }
    }
  }

  lemma EntriesFrom(spans: seq<Span>, i: nat)
    requires i < |spans|
    ensures Entries(spans[i..]) == spans[i].entries + Entries(spans[i + 1..])
  {
    assert spans[i..][1..] == spans[i + 1..];
  }

  /** `spans.sort(key=...)`. */
  method Rank(spans: seq<Span>) returns (ranked: seq<Span>)
    ensures multiset(ranked) == multiset(spans) && Ranked(ranked) && Entries(ranked) == Entries(spans)
  {
    hide PutSpan, Ranked, Entries;
    ranked := [];
    NothingYet();
    for i := 0 to |spans|
      invariant multiset(ranked) == multiset(spans[..i]) && Ranked(ranked)
      invariant Entries(ranked) + Entries(spans[i..]) == Entries(spans)
    {
      PutSpanKeepsRank(ranked, spans[i]);
      assert spans[..i + 1] == spans[..i] + [spans[i]];
      EntriesFrom(spans, i);
      ranked := PutSpan(ranked, spans[i]);
    }
    assert spans[..|spans|] == spans && spans[|spans|..] == [];
  }

  // ---- hot_ranges ----------------------------------------------------------------------

  ghost function AddressesOf(hits: HitMap, mode: Mode): (rs: seq<Root>)
    ensures Sorted(rs) && forall r :: r in rs <==> r in hits && r.mode == mode
  {
    var rs := SortRoots(set r | r in hits && r.mode == mode);
    assert forall r :: r in rs <==> r in Members(rs);
    rs
  }

  ghost function ListHits(rs: seq<Root>, m: HitMap): nat {
    if rs == [] then 0 else (if rs[0] in m then m[rs[0]] else 0) + ListHits(rs[1..], m)
  }

  lemma {:induction false} ListHitsWithout(rs: seq<Root>, m: HitMap, r: Root)
    requires r !in rs
    ensures ListHits(rs, m - {r}) == ListHits(rs, m)
  {
    if rs != [] {
      ListHitsWithout(rs[1..], m, r);
    }
  }

  ghost predicate Distinct(rs: seq<Root>) { rs == [] || (rs[0] !in rs[1..] && Distinct(rs[1..])) }

  /** Listing every key once adds up the whole map. */
  lemma {:induction false} ListingIsTotal(rs: seq<Root>, m: HitMap)
    requires Distinct(rs) && forall r :: r in rs <==> r in m
    ensures ListHits(rs, m) == Total(m)
    decreases |rs|
  {
    if rs == [] {
      assert m == map[];
    } else {
      assert rs == [rs[0]] + rs[1..];
      TotalWithout(m, rs[0]);
      ListHitsWithout(rs[1..], m, rs[0]);
      ListingIsTotal(rs[1..], m - {rs[0]});
    }
  }

  lemma {:induction false} DistinctConcat(a: seq<Root>, b: seq<Root>)
    requires Sorted(a) && Sorted(b) && forall r :: r in a ==> r !in b
    ensures Distinct(a + b)
    decreases |a|
  {
    if a == [] {
      assert a + b == b;
      SortedIsDistinct(b);
    } else {
      assert a == [a[0]] + a[1..];
      assert (a + b)[1..] == a[1..] + b;
      DistinctConcat(a[1..], b);
    }
  }

  lemma {:induction false} SortedIsDistinct(rs: seq<Root>)
    requires Sorted(rs)
    ensures Distinct(rs)
  {
    if rs != [] {
      SortedIsDistinct(rs[1..]);
    }
  }

  lemma {:induction false} ListHitsConcat(a: seq<Root>, b: seq<Root>, m: HitMap)
    ensures ListHits(a + b, m) == ListHits(a, m) + ListHits(b, m)
  {
    if a == [] {
      assert a + b == b;
    } else {
      assert (a + b)[1..] == a[1..] + b;
      ListHitsConcat(a[1..], b, m);
    }
  }

  lemma {:induction false} HitsOfSuffix(rs: seq<Root>, hits: HitMap, lo: nat)
    requires lo <= |rs| && Hit(rs, hits)
    ensures HitsOf(rs, hits, lo, |rs|) == ListHits(rs[lo..], hits)
    decreases |rs| - lo
  {
    if lo < |rs| {
      HitsOfSuffix(rs, hits, lo + 1);
      HitsOfParts(rs, hits, lo, lo + 1, |rs|);
      assert rs[lo..][1..] == rs[lo + 1..];
    }
  }

  /** The two modes' addresses, listed one after the other, are the whole map. */
  lemma ModesAddUp(hits: HitMap)
    ensures ListHits(AddressesOf(hits, Mode.Arm), hits) + ListHits(AddressesOf(hits, Thumb), hits) == Total(hits)
  {
    hide AddressesOf;
    var a, t := AddressesOf(hits, Mode.Arm), AddressesOf(hits, Thumb);
    DistinctConcat(a, t);
    forall r
      ensures r in a + t <==> r in hits
    {
      assert r in hits ==> r.mode == Mode.Arm || r.mode == Thumb;
    }
    ListingIsTotal(a + t, hits);
    ListHitsConcat(a, t, hits);
  }

  method RunsOfMode(hits: HitMap, mode: Mode) returns (spans: seq<Span>)
    ensures Hit(AddressesOf(hits, mode), hits) && Ascending(AddressesOf(hits, mode), mode)
    ensures spans == Spans(AddressesOf(hits, mode), hits, mode, 0)
    ensures Entries(spans) == ListHits(AddressesOf(hits, mode), hits)
  {
    var rs := SortedAddresses(hits, mode);
    SortedIsUnique(rs, AddressesOf(hits, mode));
    SortedIsAscending(rs, mode);
    assert forall i :: 0 <= i < |rs| ==> rs[i] in rs;
    spans := CutRuns(rs, hits, mode);
    SpansKeepHits(rs, hits, mode, 0);
    HitsOfSuffix(rs, hits, 0);
    assert rs[0..] == rs;
  }

  /** The spans of both modes, ranked, without a hit lost and without two starts alike. */
  ghost predicate IsHot(hits: HitMap, spans: seq<Span>) {
    && Hit(AddressesOf(hits, Mode.Arm), hits) && Hit(AddressesOf(hits, Thumb), hits)
    && multiset(spans) == multiset(Spans(AddressesOf(hits, Mode.Arm), hits, Mode.Arm, 0)) +
        multiset(Spans(AddressesOf(hits, Thumb), hits, Thumb, 0))
    && Ranked(spans) && Entries(spans) == Total(hits)
    && DistinctStarts(spans)
  }

  /**
   `hot_ranges` for one CPU: the maximal runs of each mode, hottest first, and no hit lost on the
   way from the map to the ranked spans.
   */
  method HotRanges(hits: HitMap) returns (spans: seq<Span>)
    ensures IsHot(hits, spans)
  {
    hide AddressesOf, Spans, DistinctStarts, Entries, Total, Ranked;
    var arm := RunsOfMode(hits, Mode.Arm);
    var thumb := RunsOfMode(hits, Thumb);
    spans := Rank(arm + thumb);
    SpansAreSeparated(AddressesOf(hits, Mode.Arm), hits, Mode.Arm, 0);
    SpansAreSeparated(AddressesOf(hits, Thumb), hits, Thumb, 0);
    SpansOfMode(AddressesOf(hits, Mode.Arm), hits, Mode.Arm, 0);
    SpansOfMode(AddressesOf(hits, Thumb), hits, Thumb, 0);
    SeparatedStarts(arm, thumb);
    StartsDistinctInAnyOrder(arm + thumb, spans);
    EntriesConcat(arm, thumb);
    ModesAddUp(hits);
  }

  lemma {:induction false} EntriesConcat(a: seq<Span>, b: seq<Span>)
    ensures Entries(a + b) == Entries(a) + Entries(b)
  {
    if a == [] {
      assert a + b == b;
    } else {
      assert (a + b)[1..] == a[1..] + b;
      EntriesConcat(a[1..], b);
    }
  }

  // ---- select_span_seeds ---------------------------------------------------------------

  function Qualifying(spans: seq<Span>, minHits: nat): seq<Span> {
    if spans == [] then []
    else (if spans[0].entries >= minHits then [spans[0]] else []) + Qualifying(spans[1..], minHits)
  }

  /** The spans promoted to seeds: the first `limit` qualifying ones, or all when there is no limit. */
  function Chosen(spans: seq<Span>, minHits: nat, limit: int): seq<Span> {
    var q := Qualifying(spans, minHits);
    if 0 < limit < |q| then q[..limit] else q
  }

  lemma {:induction false} QualifyingIsRanked(spans: seq<Span>, minHits: nat)
    requires Ranked(spans)
    ensures Ranked(Qualifying(spans, minHits))
    ensures forall s :: s in Qualifying(spans, minHits) <==> s in spans && s.entries >= minHits
  {
    if spans != [] {
      QualifyingIsRanked(spans[1..], minHits);
      var rest := Qualifying(spans[1..], minHits);
      assert spans == [spans[0]] + spans[1..];
      forall j | 0 <= j < |rest|
        ensures Hotter(spans[0], rest[j])
      {
        assert rest[j] in rest && rest[j] in spans[1..];
      }
    }
  }

  /** How many of the first `n` positions are picked, and what the picked spans carry. */
  ghost function Picked(picks: set<nat>, n: nat): nat {
    if n == 0 then 0 else Picked(picks, n - 1) + (if n - 1 in picks then 1 else 0)
  }

  ghost function PickedTotal(q: seq<Span>, picks: set<nat>, n: nat): nat
    requires n <= |q|
  {
    if n == 0 then 0 else PickedTotal(q, picks, n - 1) + (if n - 1 in picks then q[n - 1].entries else 0)
  }

  lemma {:induction false} PickedIsSmall(picks: set<nat>, n: nat)
    ensures Picked(picks, n) <= n && Picked(picks, n) <= |picks|
    decreases n
  {
    if n > 0 {
      PickedIsSmall(picks, n - 1);
      if n - 1 in picks {
        PickedIsSmall(picks - {n - 1}, n - 1);
        PickedWithout(picks, n - 1);
      }
    }
  }

  lemma {:induction false} PickedWithout(picks: set<nat>, n: nat)
    ensures Picked(picks - {n}, n) == Picked(picks, n)
  {
    PickedAgree(picks - {n}, picks, n);
  }

  lemma {:induction false} PickedAgree(a: set<nat>, b: set<nat>, n: nat)
    requires forall k :: 0 <= k < n ==> (k in a <==> k in b)
    ensures Picked(a, n) == Picked(b, n)
  {
    if n > 0 {
      PickedAgree(a, b, n - 1);
    }
  }

  lemma {:induction false} EntriesSnoc(q: seq<Span>, k: nat)
    requires k < |q|
    ensures Entries(q[..k + 1]) == Entries(q[..k]) + q[k].entries
  {
    assert q[..k + 1] == q[..k] + [q[k]];
    EntriesConcat(q[..k], [q[k]]);
    assert [q[k]][1..] == [];
  }

  lemma {:induction false} PrefixIsBest(q: seq<Span>, picks: set<nat>, n: nat)
    requires Ranked(q) && n <= |q|
    ensures Picked(picks, n) <= n && PickedTotal(q, picks, n) <= Entries(q[..Picked(picks, n)])
  {
    if n > 0 {
      PrefixIsBest(q, picks, n - 1);
      if n - 1 in picks {
        EntriesSnoc(q, Picked(picks, n - 1));
      }
    }
  }

  lemma {:induction false} EntriesOfPrefix(q: seq<Span>, k: nat, l: nat)
    requires k <= l <= |q|
    ensures Entries(q[..k]) <= Entries(q[..l])
  {
    if k < l {
      EntriesOfPrefix(q, k, l - 1);
      EntriesSnoc(q, l - 1);
    }
  }

  /** No choice of at most `limit` qualifying spans carries more hits than the promoted ones. */
  lemma ChosenIsBest(spans: seq<Span>, minHits: nat, limit: int, picks: set<nat>)
    requires Ranked(spans) && limit > 0 && |picks| <= limit
    ensures PickedTotal(Qualifying(spans, minHits), picks, |Qualifying(spans, minHits)|) <=
      Entries(Chosen(spans, minHits, limit))
  {
    var q := Qualifying(spans, minHits);
    QualifyingIsRanked(spans, minHits);
    PrefixIsBest(q, picks, |q|);
    PickedIsSmall(picks, |q|);
    var most := if limit < |q| then limit else |q|;
    EntriesOfPrefix(q, Picked(picks, |q|), most);
    assert q[..|q|] == q;
  }

  /** What the spans that start at one root carry together. */
  function EntriesAt(spans: seq<Span>, r: Root): nat {
    if spans == [] then 0
    else
      var front, s := spans[..|spans| - 1], spans[|spans| - 1];
      EntriesAt(front, r) + (if StartOf(s) == r then s.entries else 0)
  }

  predicate SomeStartsAt(spans: seq<Span>, r: Root) { exists s :: s in spans && r == StartOf(s) }

  function StartOf(s: Span): Root { Root(s.start, s.mode) }

  lemma EntriesAtStep(spans: seq<Span>, i: nat)
    requires i < |spans|
    ensures forall r ::
      EntriesAt(spans[..i + 1], r) == EntriesAt(spans[..i], r) + if StartOf(spans[i]) == r then spans[i].entries else 0
  {
    assert spans[..i + 1][..i] == spans[..i];
  }

  lemma StartsStep(spans: seq<Span>, i: nat)
    requires i < |spans|
    ensures forall r :: SomeStartsAt(spans[..i + 1], r) <==> SomeStartsAt(spans[..i], r) || StartOf(spans[i]) == r
  {
    var before, next := spans[..i], spans[..i + 1];
    assert next == before + [spans[i]];
    forall r
      ensures SomeStartsAt(next, r) <==> SomeStartsAt(before, r) || StartOf(spans[i]) == r
    {
      if StartOf(spans[i]) == r {
        assert spans[i] in next;
      } else if SomeStartsAt(before, r) {
        var s :| s in before && r == StartOf(s);
        assert s in next;
      }
    }
  }

  datatype Stats = Stats(spans: nat, aboveMinHits: nat, promoted: nat, entriesPromoted: nat, entriesTotal: nat)

  method SumEntries(spans: seq<Span>) returns (sum: nat)
    ensures sum == Entries(spans)
  {
    sum := 0;
    for i := 0 to |spans|
      invariant sum == Entries(spans[..i])
    {
      EntriesSnoc(spans, i);
      sum := sum + spans[i].entries;
    }
    assert spans[..|spans|] == spans;
  }

  /** Each root is seeded with what the chosen spans that start there carry, and the counts are right. */
  ghost predicate IsSelection(
    spans: seq<Span>, promote: bool, minHits: nat, limit: int, seeds: HitMap, stats: Stats)
  {
    var chosen := Chosen(spans, minHits, limit);
    && (!promote ==> seeds == map[] && stats.promoted == stats.entriesPromoted == 0)
    && (promote ==>
          && (forall r :: Held(seeds, r) == EntriesAt(chosen, r))
          && (forall r :: r in seeds <==> SomeStartsAt(chosen, r))
          && stats.promoted == |chosen| && Total(seeds) == stats.entriesPromoted == Entries(chosen))
    && stats.spans == |spans| && stats.entriesTotal == Entries(spans)
    && stats.aboveMinHits == |Qualifying(spans, minHits)|
  }

  /** The promotion loop of `select_span_seeds`: one seed per chosen span, at its start, with its entries. */
  method SelectSeeds(spans: seq<Span>, promote: bool, minHits: nat, limit: int) returns (seeds: HitMap, stats: Stats)
    ensures IsSelection(spans, promote, minHits, limit, seeds, stats)
  {
    var qualifying, chosen := Qualifying(spans, minHits), Chosen(spans, minHits, limit);
    seeds := map[];
    if promote {
      seeds := Promote(chosen);
    }
    var carried := SumEntries(chosen);
    var all := SumEntries(spans);
    stats := Stats(|spans|, |qualifying|, if promote then |chosen| else 0, if promote then carried else 0, all);
  }

  method Promote(chosen: seq<Span>) returns (seeds: HitMap)
    ensures Total(seeds) == Entries(chosen)
    ensures forall r :: Held(seeds, r) == EntriesAt(chosen, r)
    ensures forall r :: r in seeds <==> SomeStartsAt(chosen, r)
  {
    hide Total, Entries, EntriesAt, SomeStartsAt;
    seeds := map[];
    NothingYet();
    for i := 0 to |chosen|
      invariant Total(seeds) == Entries(chosen[..i])
      invariant forall r :: Held(seeds, r) == EntriesAt(chosen[..i], r)
      invariant forall r :: r in seeds <==> SomeStartsAt(chosen[..i], r)
    {
      var s := chosen[i];
      var key := StartOf(s);
      TotalAfterUpdate(seeds, key, Held(seeds, key) + s.entries);
      EntriesSnoc(chosen, i);
      EntriesAtStep(chosen, i);
      StartsStep(chosen, i);
      ghost var before := seeds;
      seeds := seeds[key := Held(seeds, key) + s.entries];
      assert forall r :: Held(seeds, r) == Held(before, r) + if key == r then s.entries else 0;
    }
    assert chosen[..|chosen|] == chosen;
  }

  lemma NothingYet()
    ensures Ranked([]) && Total(map[]) == 0 && Entries([]) == 0
    ensures forall r :: EntriesAt([], r) == 0 && !SomeStartsAt([], r)
  {
  }

  // ---- Each span keeps its own seed ----------------------------------------------------------

  ghost predicate DistinctStarts(spans: seq<Span>) {
    forall i, j :: 0 <= i < j < |spans| ==> StartOf(spans[i]) != StartOf(spans[j])
  }

  /** Where no two spans start at the same root, a seed carries exactly its own span's entries. */
  lemma {:induction false} SeedIsItsSpan(spans: seq<Span>, i: nat)
    requires DistinctStarts(spans) && i < |spans|
    ensures EntriesAt(spans, StartOf(spans[i])) == spans[i].entries
  {
    var n := |spans| - 1;
    if i < n {
      SeedIsItsSpan(spans[..n], i);
    } else {
      NoSpanStarts(spans[..n], StartOf(spans[n]));
    }
  }

  /** So each seed promoted from spans with distinct starts carries exactly its own span's entries. */
  lemma ChosenSeedIsItsSpan(spans: seq<Span>, minHits: nat, limit: int, i: nat)
    requires DistinctStarts(spans) && i < |Chosen(spans, minHits, limit)|
    ensures var chosen := Chosen(spans, minHits, limit);
      EntriesAt(chosen, StartOf(chosen[i])) == chosen[i].entries
  {
    ChosenStartsDiffer(spans, minHits, limit);
    SeedIsItsSpan(Chosen(spans, minHits, limit), i);
  }

  /** Choosing keeps starts distinct. */
  lemma ChosenStartsDiffer(spans: seq<Span>, minHits: nat, limit: int)
    requires DistinctStarts(spans)
    ensures DistinctStarts(Chosen(spans, minHits, limit))
  {
    QualifyingStartsDiffer(spans, minHits);
  }

  lemma {:induction false} QualifyingStartsDiffer(spans: seq<Span>, minHits: nat)
    requires DistinctStarts(spans)
    ensures DistinctStarts(Qualifying(spans, minHits))
    ensures forall s :: s in Qualifying(spans, minHits) ==> s in spans
  {
    if spans != [] {
      var rest := Qualifying(spans[1..], minHits);
      QualifyingStartsDiffer(spans[1..], minHits);
      forall j | 0 <= j < |rest|
        ensures StartOf(rest[j]) != StartOf(spans[0])
      {
        assert rest[j] in rest && rest[j] in spans[1..];
      }
    }
  }

  lemma {:induction false} NoSpanStarts(spans: seq<Span>, r: Root)
    requires forall i :: 0 <= i < |spans| ==> StartOf(spans[i]) != r
    ensures EntriesAt(spans, r) == 0
  {
    if spans != [] {
      NoSpanStarts(spans[..|spans| - 1], r);
    }
  }

  lemma {:induction false} SpansOfMode(rs: seq<Root>, hits: HitMap, mode: Mode, lo: nat)
    requires lo <= |rs| && Hit(rs, hits)
    ensures forall s :: s in Spans(rs, hits, mode, lo) ==> s.mode == mode
    decreases |rs| - lo
  {
    if lo < |rs| {
      SpansOfMode(rs, hits, mode, RunEnd(rs, mode, lo + 1));
    }
  }

  lemma SeparatedStarts(arm: seq<Span>, thumb: seq<Span>)
    requires Separated(arm) && Separated(thumb)
    requires (forall s :: s in arm ==> s.mode == Mode.Arm) && (forall s :: s in thumb ==> s.mode == Thumb)
    ensures DistinctStarts(arm + thumb)
  {
    var all := arm + thumb;
    forall i, j | 0 <= i < j < |all|
      ensures StartOf(all[i]) != StartOf(all[j])
    {
      assert i < |arm| ==> all[i] == arm[i] && arm[i] in arm;
      assert i >= |arm| ==> all[i] == thumb[i - |arm|];
      assert j < |arm| ==> all[j] == arm[j];
      assert j >= |arm| ==> all[j] == thumb[j - |arm|] && thumb[j - |arm|] in thumb;
    }
  }

  /** Distinct starts do not depend on the order of the spans. */
  lemma {:induction false} StartsDistinctInAnyOrder(a: seq<Span>, b: seq<Span>)
    requires DistinctStarts(a) && multiset(a) == multiset(b)
    ensures DistinctStarts(b)
  {
    forall i, j | 0 <= i < j < |b|
      ensures StartOf(b[i]) != StartOf(b[j])
    {
      assert b[i] in multiset(a) && b[j] in multiset(a);
      var k :| 0 <= k < |a| && a[k] == b[i];
      var l :| 0 <= l < |a| && a[l] == b[j];
      if b[i] == b[j] {
        TwiceIn(b, i, j);
        OnceIn(a, k);
      }
    }
  }

  lemma TwiceIn(b: seq<Span>, i: nat, j: nat)
    requires i < j < |b| && b[i] == b[j]
    ensures multiset(b)[b[i]] >= 2
  {
    assert b == b[..j] + [b[j]] + b[j + 1..];
    assert b[..j][i] == b[i] && b[i] in multiset(b[..j]);
  }

  lemma OnceIn(a: seq<Span>, k: nat)
    requires DistinctStarts(a) && k < |a|
    ensures multiset(a)[a[k]] == 1
  {
    assert a == a[..k] + [a[k]] + a[k + 1..];
    assert a[k] !in a[..k] && a[k] !in a[k + 1..];
    assert a[k] !in multiset(a[..k]) && a[k] !in multiset(a[k + 1..]);
  }
}
