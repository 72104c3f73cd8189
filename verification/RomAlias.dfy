/**
 Finding captured pages in the ROM's own images: `tools/rom_alias.py`. Modules keep the order
 the dictionary holds them in and are named by their position.
 */
module RomAlias {
  import opened Bytes

  const PROBE: nat := 256

  datatype Place = Place(name: nat, offset: nat)

  datatype Found = Nowhere | At(place: Place)

  datatype Captured = Captured(cpu: nat, addr: nat, bytes: Data)

  type Modules = seq<Data>

  // ---- What is looked for ----------------------------------------------------------------

  /** The page's bytes stand at this place. */
  predicate Holds(modules: Modules, p: Place, page: Data) {
    p.name < |modules| && p.offset + |page| <= |modules[p.name]| &&
    modules[p.name][p.offset..p.offset + |page|] == page
  }

  predicate Before(p: Place, q: Place) {
    p.name < q.name || (p.name == q.name && p.offset < q.offset)
  }

  predicate Aligned(p: Place) { p.offset % 4 == 0 }

  /** A scan over every module's word-aligned offsets, in order, would stop exactly there. */
  ghost predicate FirstMatch(modules: Modules, page: Data, found: Found) {
    match found
    case Nowhere => forall p | Aligned(p) :: !Holds(modules, p, page)
    case At(place) =>
      && Aligned(place) && Holds(modules, place, page)
      && forall p | Aligned(p) && Before(p, place) :: !Holds(modules, p, page)
  }

  // ---- The index -------------------------------------------------------------------------

  /** The offsets of one module that are indexed, `range(0, max(0, len - 256), 4)`, from `offset` on. */
  function Offsets(modules: Modules, name: nat, offset: nat): seq<Place>
    requires name < |modules|
    decreases |modules[name]| - offset
  {
    if offset + PROBE >= |modules[name]| then []
    else [Place(name, offset)] + Offsets(modules, name, offset + 4)
  }

  function Indexed(modules: Modules, name: nat): seq<Place>
    requires name <= |modules|
    decreases |modules| - name
  {
    if name == |modules| then [] else Offsets(modules, name, 0) + Indexed(modules, name + 1)
  }

  /** The places of `places`, in order, whose next 256 bytes are `probe`. */
  function Bucket(modules: Modules, places: seq<Place>, probe: Data): seq<Place> {
    if places == [] then []
    else
      var rest, last := places[..|places| - 1], places[|places| - 1];
      Bucket(modules, rest, probe) + (if |probe| == PROBE && Holds(modules, last, probe) then [last] else [])
  }

  /** The first of `places` that holds the whole page. */
  function First(modules: Modules, places: seq<Place>, page: Data): Found {
    if places == [] then Nowhere
    else if Holds(modules, places[0], page) then At(places[0])
    else First(modules, places[1..], page)
  }

  function Probe(page: Data): Data {
    if |page| <= PROBE then page else page[..PROBE]
  }

  /** What the index finds for a page. */
  function Locate(modules: Modules, page: Data): Found {
    First(modules, Bucket(modules, Indexed(modules, 0), Probe(page)), page)
  }

  // ---- Classifying captured pages --------------------------------------------------------

  datatype Key = Key(cpu: nat, name: nat, base: int)

  datatype Span = Span(addrs: set<nat>, offsets: set<nat>)

  type Aliases = map<Key, Span>

  /** The load base that puts the place at the page's address. */
  function KeyOf(page: Captured, place: Place): Key {
    Key(page.cpu, place.name, page.addr - place.offset)
  }

  function Add(aliases: Aliases, page: Captured, place: Place): Aliases {
    var key := KeyOf(page, place);
    var slot := if key in aliases then aliases[key] else Span({}, {});
    aliases[key := Span(slot.addrs + {page.addr}, slot.offsets + {place.offset})]
  }

  function Classify(modules: Modules, pages: seq<Captured>): (Aliases, seq<Captured>) {
    if pages == [] then (map[], [])
    else
      var (aliases, unresolved) := Classify(modules, pages[..|pages| - 1]);
      var page := pages[|pages| - 1];
      match Locate(modules, page.bytes)
      case Nowhere => (aliases, unresolved + [page])
      case At(place) => (Add(aliases, page, place), unresolved)
  }

  // ---- The class -------------------------------------------------------------------------

  function Entry(index: map<Data, seq<Place>>, probe: Data): seq<Place> {
    if probe in index then index[probe] else []
  }

  /** The dictionary lists, for every probe, the places of `places` that hold it. */
  ghost predicate Indexes(index: map<Data, seq<Place>>, modules: Modules, places: seq<Place>) {
    forall probe: Data :: Entry(index, probe) == Bucket(modules, places, probe)
  }

  /** One more place under its own probe. */
  lemma IndexOne(index: map<Data, seq<Place>>, modules: Modules, places: seq<Place>, place: Place)
    requires Indexes(index, modules, places)
    requires place.name < |modules| && place.offset + PROBE < |modules[place.name]|
    ensures var own := modules[place.name][place.offset..place.offset + PROBE];
      Indexes(index[own := Entry(index, own) + [place]], modules, places + [place])
  {
    hide Bucket;
    BucketGrows(modules, places, place);
  }

  class RomImages {
    const modules: Modules
    var built: bool
    var index: map<Data, seq<Place>>

    ghost predicate Valid()
      reads this
    {
      built ==> Indexes(index, modules, Indexed(modules, 0))
    }

    constructor (modules: Modules)
      ensures Valid() && this.modules == modules && !built
    {
      this.modules := modules;
      built := false;
      index := map[];
    }

    /** One module's part of the index. */
    method AddModule(name: nat, index: map<Data, seq<Place>>, ghost done: seq<Place>)
      returns (grown: map<Data, seq<Place>>)
      requires name < |modules|
      requires Indexes(index, modules, done)
      ensures Indexes(grown, modules, done + Offsets(modules, name, 0))
    {
      hide Bucket, Offsets, Indexes, Entry;
      var blob := modules[name];
      grown := index;
      var offset := 0;
      ghost var seen: seq<Place> := [];
      assert done + seen == done;
      while offset + PROBE < |blob|
        invariant Offsets(modules, name, 0) == seen + Offsets(modules, name, offset)
        invariant Indexes(grown, modules, done + seen)
      {
        var probe, place := blob[offset..offset + PROBE], Place(name, offset);
        OffsetsHere(modules, name, offset);
        IndexOne(grown, modules, done + seen, place);
        assert done + (seen + [place]) == (done + seen) + [place];
        grown := grown[probe := Entry(grown, probe) + [place]];
        seen := seen + [place];
        offset := offset + 4;
      }
      OffsetsHere(modules, name, offset);
      assert seen + [] == seen;
    }

    /** `_build_index`. */
    method BuildIndex()
      requires Valid()
      modifies this
      ensures Valid() && built
    {
      hide Bucket, Offsets;
      var grown: map<Data, seq<Place>> := map[];
      ghost var done: seq<Place> := [];
      NoBuckets(modules);
      for name := 0 to |modules|
        invariant Indexed(modules, 0) == done + Indexed(modules, name)
        invariant Indexes(grown, modules, done)
      {
        grown := AddModule(name, grown, done);
        ghost var own, rest := Offsets(modules, name, 0), Indexed(modules, name + 1);
        assert done + (own + rest) == (done + own) + rest;
        done := done + Offsets(modules, name, 0);
      }
      assert done + [] == done;
      index, built := grown, true;
    }

    /** `locate`. */
    method Find(page: Data) returns (found: Found)
      requires Valid()
      modifies this
      ensures Valid() && built && found == Locate(modules, page)
    {
      hide Bucket, Indexed, First, Probe;
      if !built {
        BuildIndex();
      }
      var places := Entry(index, Probe(page));
      found := FirstOf(places, page);
    }

    /** `resolve`. */
    method Resolve(pages: seq<Captured>) returns (aliases: Aliases, unresolved: seq<Captured>)
      requires Valid()
      modifies this
      ensures Valid()
      ensures (aliases, unresolved) == Classify(modules, pages)
    {
      hide Bucket, Indexed, First, Probe, Locate;
      aliases, unresolved := map[], [];
      for i := 0 to |pages|
        invariant Valid() && (aliases, unresolved) == Classify(modules, pages[..i])
      {
        assert pages[..i + 1][..i] == pages[..i];
        var found := Find(pages[i].bytes);
        if found == Nowhere {
          unresolved := unresolved + [pages[i]];
        } else {
          var key := KeyOf(pages[i], found.place);
          var slot := if key in aliases then aliases[key] else Span({}, {});
          aliases := aliases[key := Span(slot.addrs + {pages[i].addr}, slot.offsets + {found.place.offset})];
        }
      }
      assert pages[..|pages|] == pages;
    }

    method FirstOf(places: seq<Place>, page: Data) returns (found: Found)
      requires exists within :: places == Bucket(modules, within, Probe(page))
      ensures found == First(modules, places, page)
    {
      hide Bucket, Probe, Holds, Cut;
      ghost var within :| places == Bucket(modules, within, Probe(page));
      for i := 0 to |places|
        invariant First(modules, places, page) == First(modules, places[i..], page)
      {
        assert places[i..][1..] == places[i + 1..];
        BucketHolds(modules, within, Probe(page), i);
        SliceTest(modules, places[i], page);
        var offset := places[i].offset;
        if Cut(modules[places[i].name], offset, offset + |page|) == page {
          return At(places[i]);
        }
      }
      return Nowhere;
    }
  }

  /** Slicing that stops at the end. */
  function Cut(blob: Data, lo: nat, hi: nat): Data {
    if lo >= |blob| || hi <= lo then [] else if hi > |blob| then blob[lo..] else blob[lo..hi]
  }

  lemma SliceTest(modules: Modules, p: Place, page: Data)
    requires p.name < |modules| && p.offset <= |modules[p.name]|
    ensures Cut(modules[p.name], p.offset, p.offset + |page|) == page <==> Holds(modules, p, page)
  {
  }

  lemma {:induction false} BucketHolds(modules: Modules, places: seq<Place>, probe: Data, i: nat)
    requires i < |Bucket(modules, places, probe)|
    ensures var p := Bucket(modules, places, probe)[i];
      Holds(modules, p, probe) && p.name < |modules| && p.offset <= |modules[p.name]|
  {
    var rest := Bucket(modules, places[..|places| - 1], probe);
    if i < |rest| {
      BucketHolds(modules, places[..|places| - 1], probe, i);
    }
  }

  lemma NoBuckets(modules: Modules)
    ensures forall probe: Data :: Bucket(modules, [], probe) == []
  {
  }

  lemma OffsetsHere(modules: Modules, name: nat, offset: nat)
    requires name < |modules|
    ensures Offsets(modules, name, offset) ==
      if offset + PROBE >= |modules[name]| then [] else [Place(name, offset)] + Offsets(modules, name, offset + 4)
  {
  }

  lemma BucketGrows(modules: Modules, places: seq<Place>, place: Place)
    requires place.name < |modules| && place.offset + PROBE < |modules[place.name]|
    ensures var own := modules[place.name][place.offset..place.offset + PROBE];
      forall probe: Data :: Bucket(modules, places + [place], probe) ==
        Bucket(modules, places, probe) + (if probe == own then [place] else [])
  {
    assert (places + [place])[..|places|] == places;
  }

  // ---- The index against the scan --------------------------------------------------------

  /** The places the index covers: those that leave more than 256 bytes in their module. */
  predicate Covered(modules: Modules, p: Place) {
    Aligned(p) && p.name < |modules| && p.offset + PROBE < |modules[p.name]|
  }

  ghost predicate Ordered(places: seq<Place>) {
    forall i, j :: 0 <= i < j < |places| ==> Before(places[i], places[j])
  }

  lemma {:induction false} OffsetsExact(modules: Modules, name: nat, offset: nat)
    requires name < |modules| && offset % 4 == 0
    ensures Ordered(Offsets(modules, name, offset))
    ensures forall p ::
      p in Offsets(modules, name, offset) <==> Covered(modules, p) && p.name == name && p.offset >= offset
    decreases |modules[name]| - offset
  {
    if offset + PROBE < |modules[name]| {
      OffsetsExact(modules, name, offset + 4);
    }
  }

  lemma {:induction false} IndexedExact(modules: Modules, name: nat)
    requires name <= |modules|
    ensures Ordered(Indexed(modules, name))
    ensures forall p :: p in Indexed(modules, name) <==> Covered(modules, p) && p.name >= name
    decreases |modules| - name
  {
    if name < |modules| {
      OffsetsExact(modules, name, 0);
      IndexedExact(modules, name + 1);
    }
  }

  lemma {:induction false} FirstExact(modules: Modules, places: seq<Place>, page: Data)
    requires Ordered(places)
    ensures match First(modules, places, page)
      case Nowhere => forall p :: p in places ==> !Holds(modules, p, page)
      case At(place) =>
        && place in places && Holds(modules, place, page)
        && forall p :: p in places && Before(p, place) ==> !Holds(modules, p, page)
  {
    if places != [] && !Holds(modules, places[0], page) {
      FirstExact(modules, places[1..], page);
    }
  }

  lemma FirstAppend(modules: Modules, places: seq<Place>, last: Place, page: Data)
    ensures First(modules, places + [last], page) ==
      if First(modules, places, page).At? then First(modules, places, page)
      else if Holds(modules, last, page) then At(last) else Nowhere
    decreases |places|
  {
    if places != [] {
      assert (places + [last])[1..] == places[1..] + [last];
      FirstAppend(modules, places[1..], last, page);
    }
  }

  lemma HoldsProbe(modules: Modules, p: Place, page: Data)
    requires |page| >= PROBE && Holds(modules, p, page)
    ensures Holds(modules, p, Probe(page))
  {
    assert modules[p.name][p.offset..p.offset + |page|][..PROBE] == modules[p.name][p.offset..p.offset + PROBE];
  }

  /** Looking only where the first 256 bytes match loses no place. */
  lemma {:induction false} BucketSuffices(modules: Modules, places: seq<Place>, page: Data)
    requires |page| >= PROBE
    ensures First(modules, Bucket(modules, places, Probe(page)), page) == First(modules, places, page)
  {
    hide Holds;
    if places != [] {
      var n := |places| - 1;
      var rest := Bucket(modules, places[..n], Probe(page));
      assert places == places[..n] + [places[n]];
      BucketSuffices(modules, places[..n], page);
      FirstAppend(modules, places[..n], places[n], page);
      FirstAppend(modules, rest, places[n], page);
      if Holds(modules, places[n], page) {
        HoldsProbe(modules, places[n], page);
      }
      assert rest + [] == rest;
    }
  }

  /** Every page of at least 256 bytes: the first place that leaves more than 256 bytes. */
  lemma LocateFinds(modules: Modules, page: Data)
    requires |page| >= PROBE
    ensures match Locate(modules, page)
      case Nowhere => forall p | Covered(modules, p) :: !Holds(modules, p, page)
      case At(place) =>
        && Covered(modules, place) && Holds(modules, place, page)
        && forall p | Covered(modules, p) && Before(p, place) :: !Holds(modules, p, page)
  {
    hide Holds, Bucket, First, Indexed;
    var places := Indexed(modules, 0);
    BucketSuffices(modules, places, page);
    IndexedExact(modules, 0);
    FirstExact(modules, places, page);
  }

  lemma {:induction false} ShortPageHasNoBucket(modules: Modules, places: seq<Place>, page: Data)
    requires |page| < PROBE
    ensures Bucket(modules, places, Probe(page)) == []
  {
    if places != [] {
      ShortPageHasNoBucket(modules, places[..|places| - 1], page);
    }
  }

  /** A page shorter than the probe is found nowhere. */
  lemma ShortPageIsNowhere(modules: Modules, page: Data)
    requires |page| < PROBE
    ensures Locate(modules, page) == Nowhere
  {
    ShortPageHasNoBucket(modules, Indexed(modules, 0), page);
  }

  lemma LongPageIsFound(modules: Modules, page: Data)
    requires |page| > PROBE
    ensures FirstMatch(modules, page, Locate(modules, page))
  {
    hide Locate, First;
    LocateFinds(modules, page);
    assert forall p | Aligned(p) && Holds(modules, p, page) :: Covered(modules, p);
  }

  lemma LastPageIsMissed(page: Data)
    requires |page| <= PROBE
    ensures !FirstMatch([page], page, Locate([page], page))
  {
    hide First, Bucket;
    var modules := [page];
    assert Offsets(modules, 0, 0) == [] && Indexed(modules, 1) == [];
    assert Indexed(modules, 0) == [];
    NoBuckets(modules);
    assert modules[0][0..0 + |page|] == page;
    assert Holds(modules, Place(0, 0), page) && Aligned(Place(0, 0));
    EmptyFirst(modules, page);
  }

  lemma EmptyFirst(modules: Modules, page: Data)
    ensures First(modules, [], page) == Nowhere
  {
  }

  /** The index agrees with the scan on every set of images exactly for pages longer than 256 bytes. */
  lemma LocateIsExact(page: Data)
    ensures (forall modules: Modules :: FirstMatch(modules, page, Locate(modules, page))) <==> |page| > PROBE
  {
    hide FirstMatch, Locate;
    if |page| > PROBE {
      forall modules: Modules
        ensures FirstMatch(modules, page, Locate(modules, page))
      {
        LongPageIsFound(modules, page);
      }
    } else {
      LastPageIsMissed(page);
    }
  }

  // ---- What a resolved address means -----------------------------------------------------

  ghost predicate Resolves(modules: Modules, page: Captured, key: Key, addr: nat) {
    && page.addr == addr
    && var found := Locate(modules, page.bytes);
      found.At? && key == KeyOf(page, found.place)
  }

  /** An address is reported under a base exactly when some page captured there resolves to it. */
  lemma {:induction false} ResolvedExactly(modules: Modules, pages: seq<Captured>, key: Key, addr: nat)
    ensures var aliases := Classify(modules, pages).0;
      key in aliases && addr in aliases[key].addrs <==>
      exists i :: 0 <= i < |pages| && Resolves(modules, pages[i], key, addr)
  {
    hide Locate;
    if pages != [] {
      var n := |pages| - 1;
      ResolvedExactly(modules, pages[..n], key, addr);
      var before, after := Classify(modules, pages[..n]).0, Classify(modules, pages).0;
      assert key in after && addr in after[key].addrs <==>
        (key in before && addr in before[key].addrs) || Resolves(modules, pages[n], key, addr);
      assert forall i :: 0 <= i < n ==> pages[i] == pages[..n][i];
    }
  }

  /** The page captured at `addr` is module content that this base puts there. */
  ghost predicate Shows(modules: Modules, page: Captured, key: Key, addr: nat) {
    && page.addr == addr && page.cpu == key.cpu
    && addr >= key.base && Holds(modules, Place(key.name, addr - key.base), page.bytes)
  }

  /** A reported address really shows module bytes at the reported base. */
  lemma AliasIsVerbatim(modules: Modules, pages: seq<Captured>, key: Key, addr: nat)
    requires key in Classify(modules, pages).0 && addr in Classify(modules, pages).0[key].addrs
    ensures exists i :: 0 <= i < |pages| && Shows(modules, pages[i], key, addr)
  {
    hide Holds, Classify, First, Bucket, Indexed;
    ResolvedExactly(modules, pages, key, addr);
    var i :| 0 <= i < |pages| && Resolves(modules, pages[i], key, addr);
    if |pages[i].bytes| >= PROBE {
      LocateFinds(modules, pages[i].bytes);
      assert Shows(modules, pages[i], key, addr);
    } else {
      ShortPageIsNowhere(modules, pages[i].bytes);
    }
  }

  /** Pages that resolve nowhere are kept, all of them and no others. */
  lemma {:induction false} UnresolvedExactly(modules: Modules, pages: seq<Captured>, page: Captured)
    ensures multiset(Classify(modules, pages).1)[page] ==
      if Locate(modules, page.bytes) == Nowhere then multiset(pages)[page] else 0
  {
    hide Locate, Add;
    if pages != [] {
      var n := |pages| - 1;
      UnresolvedExactly(modules, pages[..n], page);
      assert pages == pages[..n] + [pages[n]];
    }
  }
}
