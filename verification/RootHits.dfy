/**
 Root bitmaps and their block counters: `root_addresses` of `tools/ingest_coverage_manifests.py`,
 which `root_entries` of `tools/compile_live_shards.py` repeats.
 */
module RootHits {
  import opened Bytes
  import opened Division
  import opened ShardIndex
  import opened ShardRuns

  const PAGE_SIZE: nat := 4096

  // ---- Which addresses a bitmap names --------------------------------------------------

  predicate BitSet(byte: Byte, bit: nat)
    requires bit < 8
  {
    (byte / [1, 2, 4, 8, 16, 32, 64, 128][bit]) % 2 == 1
  }

  /** Position `n` of a bitmap, counted in bits. */
  predicate Set(raw: Data, n: nat) { n / 8 < |raw| && BitSet(raw[n / 8], n % 8) }

  /** The address of bit `n`: ARM roots at word stride, Thumb roots at halfword stride. */
  function AddressOf(base: nat, mode: Mode, n: nat): nat {
    if mode.Arm? then base + 4 * n else base + 2 * n
  }

  /** The roots named by the first `n` bits, in bitmap order. */
  function Named(raw: Data, base: nat, mode: Mode, n: nat): seq<Root> {
    if n == 0 then []
    else Named(raw, base, mode, n - 1) + (if Set(raw, n - 1) then [Root(AddressOf(base, mode, n - 1), mode)] else [])
  }

  lemma BitPosition(byteIndex: nat, bit: nat)
    requires bit < 8
    ensures (8 * byteIndex + bit) / 8 == byteIndex && (8 * byteIndex + bit) % 8 == bit
  {
  }

  /** The two nested loops over bytes and bits; an all-zero byte is skipped whole. */
  method Decode(raw: Data, base: nat, mode: Mode) returns (found: seq<Root>)
    ensures found == Named(raw, base, mode, 8 * |raw|)
  {
    hide BitSet, AddressOf;
    found := [];
    for byteIndex := 0 to |raw|
      invariant found == Named(raw, base, mode, 8 * byteIndex)
    {
      if raw[byteIndex] == 0 {
        ZeroByte(raw, base, mode, byteIndex, 8);
      } else {
        for bit := 0 to 8
          invariant found == Named(raw, base, mode, 8 * byteIndex + bit)
        {
          var n := 8 * byteIndex + bit;
          BitPosition(byteIndex, bit);
          assert Named(raw, base, mode, n + 1) ==
            Named(raw, base, mode, n) + if Set(raw, n) then [Root(AddressOf(base, mode, n), mode)] else [];
          if BitSet(raw[byteIndex], bit) {
            found := found + [Root(AddressOf(base, mode, n), mode)];
          }
        }
      }
    }
  }

  lemma ZeroHasNoBits(bit: nat)
    requires bit < 8
    ensures !BitSet(0, bit)
  {
  }

  lemma {:induction false} ZeroByte(raw: Data, base: nat, mode: Mode, byteIndex: nat, bits: nat)
    requires byteIndex < |raw| && raw[byteIndex] == 0 && bits <= 8
    ensures Named(raw, base, mode, 8 * byteIndex + bits) == Named(raw, base, mode, 8 * byteIndex)
  {
    hide BitSet, AddressOf;
    if bits > 0 {
      ZeroByte(raw, base, mode, byteIndex, bits - 1);
      BitPosition(byteIndex, bits - 1);
      ZeroHasNoBits(bits - 1);
      assert !Set(raw, 8 * byteIndex + bits - 1);
    }
  }

  ghost predicate NamedAt(raw: Data, base: nat, mode: Mode, k: nat, root: Root) {
    Set(raw, k) && root == Root(AddressOf(base, mode, k), mode)
  }

  /** The address set survives exactly: a root is named precisely when its bit is set. */
  lemma {:induction false} NamedExactly(raw: Data, base: nat, mode: Mode, n: nat, root: Root)
    ensures root in Named(raw, base, mode, n) <==> exists k :: 0 <= k < n && NamedAt(raw, base, mode, k, root)
  {
    hide Set, AddressOf;
    if n > 0 {
      NamedExactly(raw, base, mode, n - 1, root);
      assert root in Named(raw, base, mode, n) <==>
        root in Named(raw, base, mode, n - 1) || NamedAt(raw, base, mode, n - 1, root);
    }
  }

  // ---- Spreading block counters --------------------------------------------------------

  /** The counter block an address falls into. */
  function BlockOf(root: Root, base: nat, blocks: nat): (b: nat)
    requires blocks > 0 && base <= root.addr
    ensures b < blocks
  {
    var b := ((root.addr - base) * blocks) / PAGE_SIZE;
    if b < blocks - 1 then b else blocks - 1
  }

  ghost predicate Above(rs: seq<Root>, base: nat) { forall i :: 0 <= i < |rs| ==> base <= rs[i].addr }

  /** How many of the first `n` roots lie in block `b`. */
  function Occupancy(rs: seq<Root>, n: nat, base: nat, blocks: nat, b: nat): nat
    requires n <= |rs| && blocks > 0 && Above(rs, base)
  {
    if n == 0 then 0
    else Occupancy(rs, n - 1, base, blocks, b) + (if BlockOf(rs[n - 1], base, blocks) == b then 1 else 0)
  }

  /** What the first `n` shares give to block `b`. */
  function Given(rs: seq<Root>, shares: seq<nat>, n: nat, base: nat, blocks: nat, b: nat): nat
    requires n <= |rs| && n <= |shares| && blocks > 0 && Above(rs, base)
  {
    if n == 0 then 0
    else
      Given(rs, shares, n - 1, base, blocks, b) +
      (if BlockOf(rs[n - 1], base, blocks) == b then shares[n - 1] else 0)
  }

  function Min(a: nat, b: nat): nat { if a < b then a else b }

  /** `sorted(found)`, by insertion. */
  function SortAll(rs: seq<Root>): (sorted: seq<Root>)
    ensures |sorted| == |rs| && multiset(sorted) == multiset(rs)
  {
    if rs == [] then []
    else
      assert rs == rs[..|rs| - 1] + [rs[|rs| - 1]];
      Put(SortAll(rs[..|rs| - 1]), rs[|rs| - 1])
  }

  function Put(rs: seq<Root>, r: Root): (put: seq<Root>)
    ensures |put| == |rs| + 1 && multiset(put) == multiset(rs) + multiset{r}
  {
    if rs == [] || !Before(rs[0], r) then [r] + rs
    else
      assert rs == [rs[0]] + rs[1..];
      [rs[0]] + Put(rs[1..], r)
  }

  /** Ascending by address, ARM before Thumb. */
  ghost predicate Ascending(rs: seq<Root>) {
    forall i, j :: 0 <= i < j < |rs| ==> !Before(rs[j], rs[i])
  }

  lemma {:induction false} PutAscends(rs: seq<Root>, r: Root)
    requires Ascending(rs)
    ensures Ascending(Put(rs, r))
  {
    if rs != [] && Before(rs[0], r) {
      var tail := Put(rs[1..], r);
      PutAscends(rs[1..], r);
      forall j | 0 <= j < |tail|
        ensures !Before(tail[j], rs[0])
      {
        assert tail[j] in multiset(tail);
        assert tail[j] == r || tail[j] in rs[1..];
      }
    }
  }

  lemma {:induction false} SortAllAscends(rs: seq<Root>)
    ensures Ascending(SortAll(rs))
  {
    if rs != [] {
      SortAllAscends(rs[..|rs| - 1]);
      PutAscends(SortAll(rs[..|rs| - 1]), rs[|rs| - 1]);
    }
  }

  /** The share of root `i`: the quotient, and one more while the remainder lasts. */
  function ShareOf(rs: seq<Root>, i: nat, base: nat, blocks: seq<nat>): nat
    requires i < |rs| && blocks != [] && Above(rs, base)
  {
    var b := BlockOf(rs[i], base, |blocks|);
    OccupancyGrows(rs, i + 1, |rs|, base, |blocks|, b);
    var n := Occupancy(rs, |rs|, base, |blocks|, b);
    Quotient(blocks[b], n) + (if Occupancy(rs, i, base, |blocks|, b) < Remainder(blocks[b], n) then 1 else 0)
  }

  function Left(a: nat, used: nat): nat { if a < used then 0 else a - used }

  lemma ShareHere(rs: seq<Root>, i: nat, base: nat, blocks: seq<nat>)
    requires i < |rs| && blocks != [] && Above(rs, base)
    ensures var b := BlockOf(rs[i], base, |blocks|);
      var n := Occupancy(rs, |rs|, base, |blocks|, b);
      n > 0 && ShareOf(rs, i, base, blocks) ==
        Quotient(blocks[b], n) +
        (if Left(Remainder(blocks[b], n), Occupancy(rs, i, base, |blocks|, b)) > 0 then 1 else 0)
  {
    hide BlockOf, Quotient, Remainder;
    OccupancyGrows(rs, i + 1, |rs|, base, |blocks|, BlockOf(rs[i], base, |blocks|));
  }

  lemma UsedUp()
    ensures forall a: nat :: Left(a, 0) == a
    ensures forall a: nat, used: nat :: Left(a, used + 1) == if Left(a, used) == 0 then 0 else Left(a, used) - 1
  {
  }

  /** The dictionaries of the spreading loop before root `i`: occupancies, and what is left of the remainders. */
  ghost predicate Ready(
    per: map<nat, nat>, remainder: map<nat, nat>, rs: seq<Root>, i: nat, base: nat, blocks: seq<nat>)
    requires i <= |rs| && blocks != [] && Above(rs, base)
  {
    && remainder.Keys == per.Keys
    && (forall b :: b in per <==> Occupancy(rs, |rs|, base, |blocks|, b) > 0)
    && (forall b :: b in per ==> b < |blocks| && per[b] == Occupancy(rs, |rs|, base, |blocks|, b) && per[b] > 0)
    && (forall b :: b in per ==>
          remainder[b] == Left(Remainder(blocks[b], per[b]), Occupancy(rs, i, base, |blocks|, b)))
  }

  /** One turn: the share is the root's, and the dictionaries are ready for the next root. */
  lemma ReadyStep(per: map<nat, nat>, remainder: map<nat, nat>, rs: seq<Root>, i: nat, base: nat, blocks: seq<nat>)
    requires i < |rs| && blocks != [] && Above(rs, base) && Ready(per, remainder, rs, i, base, blocks)
    ensures var b := BlockOf(rs[i], base, |blocks|);
      && b in per && b in remainder && per[b] > 0
      && ShareOf(rs, i, base, blocks) == Quotient(blocks[b], per[b]) + (if remainder[b] != 0 then 1 else 0)
      && Ready(per, if remainder[b] != 0 then remainder[b := remainder[b] - 1] else remainder, rs, i + 1, base, blocks)
  {
    hide BlockOf, Quotient, Remainder, Occupancy, ShareOf, Left;
    var b := BlockOf(rs[i], base, |blocks|);
    ShareHere(rs, i, base, blocks);
    OccupancySteps(rs, i, base, |blocks|);
    UsedUp();
  }

  /** The spreading loop, with its dictionary of remainders. */
  method Spread(rs: seq<Root>, base: nat, blocks: seq<nat>) returns (shares: seq<nat>)
    requires blocks != [] && Above(rs, base)
    ensures |shares| == |rs|
    ensures forall i :: 0 <= i < |rs| ==> shares[i] == ShareOf(rs, i, base, blocks)
  {
    hide Occupancy, ShareOf, Quotient, Remainder, Left;
    OccupancyStarts(rs, base, |blocks|);
    UsedUp();
    var size := |blocks|;
    var per := CountBlocks(rs, base, size);
    var remainder := map b | b in per :: blocks[b] % per[b];
    forall b | b in per
      ensures remainder[b] == Remainder(blocks[b], per[b])
    {
      DividesBySubtraction(blocks[b], per[b]);
    }
    assert Ready(per, remainder, rs, 0, base, blocks);
    shares := SpreadFrom(rs, base, blocks, per, remainder);
  }

  method SpreadFrom(rs: seq<Root>, base: nat, blocks: seq<nat>, per: map<nat, nat>, start: map<nat, nat>)
    returns (shares: seq<nat>)
    requires blocks != [] && Above(rs, base) && Ready(per, start, rs, 0, base, blocks)
    ensures |shares| == |rs|
    ensures forall i :: 0 <= i < |rs| ==> shares[i] == ShareOf(rs, i, base, blocks)
  {
    hide BlockOf, Quotient, Remainder, Occupancy, ShareOf, Ready;
    var remainder := start;
    shares := [];
    for i := 0 to |rs|
      invariant |shares| == i && Ready(per, remainder, rs, i, base, blocks)
      invariant forall j :: 0 <= j < i ==> shares[j] == ShareOf(rs, j, base, blocks)
    {
      ReadyStep(per, remainder, rs, i, base, blocks);
      var b := BlockOf(rs[i], base, |blocks|);
      DividesBySubtraction(blocks[b], per[b]);
      var share := blocks[b] / per[b];
      if remainder[b] != 0 {
        share := share + 1;
        remainder := remainder[b := remainder[b] - 1];
      }
      shares := shares + [share];
    }
  }

  /** What the first `n` roots receive in a block, from the shares alone. */
  lemma {:induction false} GivenSoFar(rs: seq<Root>, shares: seq<nat>, n: nat, base: nat, blocks: seq<nat>, b: nat)
    requires n <= |rs| == |shares| && blocks != [] && Above(rs, base) && b < |blocks|
    requires forall i :: 0 <= i < |rs| ==> shares[i] == ShareOf(rs, i, base, blocks)
    requires Occupancy(rs, |rs|, base, |blocks|, b) > 0
    ensures var k, all := Occupancy(rs, n, base, |blocks|, b), Occupancy(rs, |rs|, base, |blocks|, b);
      Given(rs, shares, n, base, |blocks|, b) == Times(k, Quotient(blocks[b], all)) + Min(Remainder(blocks[b], all), k)
  {
    hide BlockOf, Quotient, Remainder;
    if n > 0 {
      GivenSoFar(rs, shares, n - 1, base, blocks, b);
      assert shares[n - 1] == ShareOf(rs, n - 1, base, blocks);
    }
  }

  /**
   Spreading conserves hits block by block: the shares of an occupied block add up to its counter,
   and any two of them differ by at most one.
   */
  lemma SpreadConservesHits(rs: seq<Root>, shares: seq<nat>, base: nat, blocks: seq<nat>, b: nat)
    requires |rs| == |shares| && blocks != [] && Above(rs, base) && b < |blocks|
    requires forall i :: 0 <= i < |rs| ==> shares[i] == ShareOf(rs, i, base, blocks)
    requires Occupancy(rs, |rs|, base, |blocks|, b) > 0
    ensures Given(rs, shares, |rs|, base, |blocks|, b) == blocks[b]
    ensures forall i, j | 0 <= i < |rs| && 0 <= j < |rs| ::
      BlockOf(rs[i], base, |blocks|) == b && BlockOf(rs[j], base, |blocks|) == b ==> shares[i] <= shares[j] + 1
  {
    hide BlockOf, Quotient, Remainder;
    GivenSoFar(rs, shares, |rs|, base, blocks, b);
    DivisionParts(blocks[b], Occupancy(rs, |rs|, base, |blocks|, b));
  }

  /** Within a block the remainder goes to the roots that come first. */
  lemma RemainderGoesFirst(rs: seq<Root>, i: nat, j: nat, base: nat, blocks: seq<nat>)
    requires i < j < |rs| && blocks != [] && Above(rs, base)
    requires BlockOf(rs[i], base, |blocks|) == BlockOf(rs[j], base, |blocks|)
    ensures ShareOf(rs, i, base, blocks) >= ShareOf(rs, j, base, blocks)
  {
    hide BlockOf, Quotient, Remainder;
    OccupancyGrows(rs, i, j, base, |blocks|, BlockOf(rs[i], base, |blocks|));
  }

  lemma OccupancyStarts(rs: seq<Root>, base: nat, blocks: nat)
    requires blocks > 0 && Above(rs, base)
    ensures forall b :: Occupancy(rs, 0, base, blocks, b) == 0
  {
  }

  lemma OccupancySteps(rs: seq<Root>, n: nat, base: nat, blocks: nat)
    requires n < |rs| && blocks > 0 && Above(rs, base)
    ensures forall b ::
      Occupancy(rs, n + 1, base, blocks, b) ==
      Occupancy(rs, n, base, blocks, b) + (if BlockOf(rs[n], base, blocks) == b then 1 else 0)
    ensures Occupancy(rs, n + 1, base, blocks, BlockOf(rs[n], base, blocks)) > 0
  {
  }

  lemma {:induction false} OccupancyGrows(rs: seq<Root>, m: nat, n: nat, base: nat, blocks: nat, b: nat)
    requires m <= n <= |rs| && blocks > 0 && Above(rs, base)
    ensures Occupancy(rs, m, base, blocks, b) <= Occupancy(rs, n, base, blocks, b)
  {
    if m < n {
      OccupancyGrows(rs, m, n - 1, base, blocks, b);
    }
  }

  /** `collections.Counter` over the blocks: only occupied blocks are keys. */
  method CountBlocks(rs: seq<Root>, base: nat, blocks: nat) returns (per: map<nat, nat>)
    requires blocks > 0 && Above(rs, base)
    ensures forall b :: b in per <==> Occupancy(rs, |rs|, base, blocks, b) > 0
    ensures forall b :: b in per ==> per[b] == Occupancy(rs, |rs|, base, blocks, b) && b < blocks
  {
    per := map[];
    for i := 0 to |rs|
      invariant forall b :: b in per <==> Occupancy(rs, i, base, blocks, b) > 0
      invariant forall b :: b in per ==> per[b] == Occupancy(rs, i, base, blocks, b) && b < blocks
    {
      var b := BlockOf(rs[i], base, blocks);
      per := per[b := (if b in per then per[b] else 0) + 1];
    }
  }

  // ---- One record ----------------------------------------------------------------------

  function Sum(xs: seq<nat>): nat {
    if xs == [] then 0 else Sum(xs[..|xs| - 1]) + xs[|xs| - 1]
  }

  /** The counters of the first `n` blocks that some root occupies. */
  function OccupiedTotal(rs: seq<Root>, base: nat, blocks: seq<nat>, n: nat): nat
    requires n <= |blocks| && Above(rs, base)
  {
    if n == 0 then 0
    else OccupiedTotal(rs, base, blocks, n - 1) +
         (if Occupancy(rs, |rs|, base, |blocks|, n - 1) > 0 then blocks[n - 1] else 0)
  }

  /** What the first `n` roots receive in all of the first `m` blocks. */
  function GivenTotal(rs: seq<Root>, shares: seq<nat>, n: nat, base: nat, blocks: nat, m: nat): nat
    requires n <= |rs| && n <= |shares| && blocks > 0 && Above(rs, base)
  {
    if m == 0 then 0
    else GivenTotal(rs, shares, n, base, blocks, m - 1) + Given(rs, shares, n, base, blocks, m - 1)
  }

  lemma {:induction false} GivenTotalSteps(rs: seq<Root>, shares: seq<nat>, n: nat, base: nat, blocks: nat, m: nat)
    requires n < |rs| && n < |shares| && m <= blocks && blocks > 0 && Above(rs, base)
    ensures GivenTotal(rs, shares, n + 1, base, blocks, m) == GivenTotal(rs, shares, n, base, blocks, m) +
      (if BlockOf(rs[n], base, blocks) < m then shares[n] else 0)
  {
    hide BlockOf;
    if m > 0 {
      GivenTotalSteps(rs, shares, n, base, blocks, m - 1);
    }
  }

  lemma {:induction false} NothingGiven(rs: seq<Root>, shares: seq<nat>, base: nat, blocks: nat, m: nat)
    requires blocks > 0 && Above(rs, base)
    ensures GivenTotal(rs, shares, 0, base, blocks, m) == 0
  {
    if m > 0 {
      NothingGiven(rs, shares, base, blocks, m - 1);
    }
  }

  lemma {:induction false} SharesAddUp(rs: seq<Root>, shares: seq<nat>, n: nat, base: nat, blocks: nat)
    requires n <= |rs| == |shares| && blocks > 0 && Above(rs, base)
    ensures Sum(shares[..n]) == GivenTotal(rs, shares, n, base, blocks, blocks)
  {
    if n == 0 {
      NothingGiven(rs, shares, base, blocks, blocks);
    } else {
      SharesAddUp(rs, shares, n - 1, base, blocks);
      GivenTotalSteps(rs, shares, n - 1, base, blocks, blocks);
      assert shares[..n][..n - 1] == shares[..n - 1];
    }
  }

  lemma {:induction false} GivenIsOccupied(rs: seq<Root>, shares: seq<nat>, base: nat, blocks: seq<nat>, m: nat)
    requires |rs| == |shares| && blocks != [] && Above(rs, base) && m <= |blocks|
    requires forall i :: 0 <= i < |rs| ==> shares[i] == ShareOf(rs, i, base, blocks)
    ensures GivenTotal(rs, shares, |rs|, base, |blocks|, m) == OccupiedTotal(rs, base, blocks, m)
  {
    hide ShareOf, BlockOf;
    if m > 0 {
      GivenIsOccupied(rs, shares, base, blocks, m - 1);
      if Occupancy(rs, |rs|, base, |blocks|, m - 1) > 0 {
        SpreadConservesHits(rs, shares, base, blocks, m - 1);
      } else {
        EmptyBlock(rs, shares, |rs|, base, |blocks|, m - 1);
      }
    }
  }

  lemma {:induction false} EmptyBlock(rs: seq<Root>, shares: seq<nat>, n: nat, base: nat, blocks: nat, b: nat)
    requires n <= |rs| && n <= |shares| && blocks > 0 && Above(rs, base)
    requires Occupancy(rs, n, base, blocks, b) == 0
    ensures Given(rs, shares, n, base, blocks, b) == 0
  {
    if n > 0 {
      EmptyBlock(rs, shares, n - 1, base, blocks, b);
    }
  }

  /** Both bitmaps' roots, in bitmap order. */
  function Found(arm: Data, thumb: Data, base: nat): seq<Root> {
    Named(arm, base, Mode.Arm, 8 * |arm|) + Named(thumb, base, Thumb, 8 * |thumb|)
  }

  lemma FoundAbove(arm: Data, thumb: Data, base: nat)
    ensures Above(Found(arm, thumb, base), base) && Above(SortAll(Found(arm, thumb, base)), base)
  {
    NamedAreAbove(arm, base, Mode.Arm, 8 * |arm|);
    NamedAreAbove(thumb, base, Thumb, 8 * |thumb|);
    SortedAbove(Found(arm, thumb, base), base);
  }

  /** `root_addresses`: every named address once, with its share of its block's counter. */
  method RootAddresses(arm: Data, thumb: Data, base: nat, blocks: seq<nat>) returns (rs: seq<Root>, shares: seq<nat>)
    ensures |rs| == |shares|
    ensures multiset(rs) == multiset(Found(arm, thumb, base)) && Above(rs, base)
    ensures blocks == [] ==> rs == Found(arm, thumb, base)
    ensures blocks != [] ==> rs == SortAll(Found(arm, thumb, base)) && Ascending(rs)
    ensures Sum(shares) == if blocks == [] then 0 else OccupiedTotal(rs, base, blocks, |blocks|)
    ensures blocks == [] ==> forall i :: 0 <= i < |rs| ==> shares[i] == 0
    ensures blocks != [] ==> forall i :: 0 <= i < |rs| ==> shares[i] == ShareOf(rs, i, base, blocks)
  {
    hide ShareOf, OccupiedTotal, Named, Ascending;
    var found := Decode(arm, base, Mode.Arm);
    var more := Decode(thumb, base, Thumb);
    FoundAbove(arm, thumb, base);
    found := found + more;
    if blocks == [] {
      rs, shares := found, seq(|found|, _ => 0);
      SumOfZeros(|found|);
    } else {
      rs := SortAll(found);
      SortAllAscends(found);
      shares := Spread(rs, base, blocks);
      SharesAddUp(rs, shares, |rs|, base, |blocks|);
      GivenIsOccupied(rs, shares, base, blocks, |blocks|);
      assert shares[..|rs|] == shares;
    }
  }

  lemma {:induction false} SumOfZeros(n: nat)
    ensures Sum(seq(n, _ => 0)) == 0
  {
    if n > 0 {
      SumOfZeros(n - 1);
      var zeros: seq<nat> := seq(n, _ => 0);
      assert zeros[..n - 1] == seq(n - 1, _ => 0);
    }
  }

  lemma {:induction false} NamedAreAbove(raw: Data, base: nat, mode: Mode, n: nat)
    ensures Above(Named(raw, base, mode, n), base)
  {
    if n > 0 {
      NamedAreAbove(raw, base, mode, n - 1);
    }
  }

  lemma SortedAbove(rs: seq<Root>, base: nat)
    requires Above(rs, base)
    ensures Above(SortAll(rs), base)
  {
    hide SortAll;
    forall i | 0 <= i < |rs|
      ensures base <= SortAll(rs)[i].addr
    {
      assert SortAll(rs)[i] in multiset(SortAll(rs));
      assert SortAll(rs)[i] in multiset(rs);
    }
  }
}
