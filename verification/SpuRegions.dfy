/** Cutting an instruction stream into regions (`form_regions`) and mapping each pc to its region. */
module SpuRegions {

  datatype Region = Region(start: int, end: int)

  /** The docstring's demand on the input: dense and 4-aligned, in address order. */
  ghost predicate Dense(addrs: seq<int>) {
    && (forall i :: 0 <= i < |addrs| ==> addrs[i] == addrs[0] + 4 * i)
    && (|addrs| > 0 ==> addrs[0] % 4 == 0)
  }

  function Size(r: Region): int { (r.end - r.start) / 4 }

  ghost predicate RegionShape(r: Region) { r.start < r.end && r.start % 4 == 0 && r.end % 4 == 0 }

  /** Consecutive non-empty regions from `lo` to `hi`. */
  ghost predicate Chain(rs: seq<Region>, lo: int, hi: int) {
    && |rs| > 0 && rs[0].start == lo && rs[|rs| - 1].end == hi
    && (forall i :: 0 <= i < |rs| ==> RegionShape(rs[i]))
    && (forall i :: 0 < i < |rs| ==> rs[i].start == rs[i - 1].end)
  }

  ghost predicate IsRegionStart(rs: seq<Region>, a: int) {
    exists i :: 0 <= i < |rs| && rs[i].start == a
  }

  /** A cap below one cuts after every instruction, exactly like a cap of one. */
  function Cap(cap: int): int { if cap < 1 then 1 else cap }

  ghost predicate Capped(rs: seq<Region>, cap: int) {
    forall i :: 0 <= i < |rs| ==> Size(rs[i]) <= Cap(cap)
  }

  ghost predicate SplitsAt(rs: seq<Region>, splits: set<int>, lo: int, hi: int) {
    forall a :: a in splits && lo <= a < hi && a % 4 == 0 ==> IsRegionStart(rs, a)
  }

  /** No needless cut: a region starts at a split address, or right after a full region. */
  ghost predicate NeededCut(rs: seq<Region>, splits: set<int>, cap: int, i: int)
    requires 0 < i < |rs|
  {
    rs[i].start in splits || Size(rs[i - 1]) == Cap(cap)
  }

  ghost predicate NeededCuts(rs: seq<Region>, splits: set<int>, cap: int) {
    forall i :: 0 < i < |rs| ==> NeededCut(rs, splits, cap, i)
  }

  /** The contract of region formation over the addresses [lo, hi). */
  ghost predicate Tiles(rs: seq<Region>, splits: set<int>, cap: int, lo: int, hi: int) {
    Chain(rs, lo, hi) && Capped(rs, cap) && SplitsAt(rs, splits, lo, hi) && NeededCuts(rs, splits, cap)
  }

  /** What the loop has built when it stands before address `a`: the closed regions, and an open one
      from `start` with no split address inside. */
  ghost predicate Progress(rs: seq<Region>, splits: set<int>, cap: int, lo: int, start: int, a: int) {
    && start % 4 == 0 && a % 4 == 0 && lo <= start <= a && a - start <= 4 * Cap(cap)
    && (if rs == [] then start == lo else Chain(rs, lo, start) && NeededOpen(rs, splits, cap, start))
    && Capped(rs, cap) && NeededCuts(rs, splits, cap) && SplitsAt(rs, splits, lo, start)
    && NoSplitInside(splits, start, a)
  }

  ghost predicate NeededOpen(rs: seq<Region>, splits: set<int>, cap: int, start: int)
    requires rs != []
  {
    start in splits || Size(rs[|rs| - 1]) == Cap(cap)
  }

  ghost predicate NoSplitInside(splits: set<int>, start: int, a: int) {
    forall x :: x in splits && start < x < a ==> x % 4 != 0
  }

  lemma ClosedIsTiled(rs: seq<Region>, splits: set<int>, cap: int, lo: int, start: int, a: int)
    requires Progress(rs, splits, cap, lo, start, a) && start < a
    ensures Tiles(rs + [Region(start, a)], splits, cap, lo, a)
  {
    var ns := rs + [Region(start, a)];
    forall i | 0 < i < |ns| ensures NeededCut(ns, splits, cap, i) {
      if i < |rs| {
        assert NeededCut(rs, splits, cap, i);
        assert ns[i] == rs[i] && ns[i - 1] == rs[i - 1];
      } else {
        assert ns[i - 1] == rs[|rs| - 1];
      }
    }
    forall x | x in splits && lo <= x < a && x % 4 == 0 ensures IsRegionStart(ns, x) {
      if x < start {
        var i :| 0 <= i < |rs| && rs[i].start == x;
        assert ns[i].start == x;
      } else {
        assert ns[|rs|].start == x;
      }
    }
  }

  lemma Cut(rs: seq<Region>, splits: set<int>, cap: int, lo: int, start: int, a: int)
    requires Progress(rs, splits, cap, lo, start, a) && start < a
    requires a in splits || a - start == 4 * Cap(cap)
    ensures Progress(rs + [Region(start, a)], splits, cap, lo, a, a)
  {
    ClosedIsTiled(rs, splits, cap, lo, start, a);
  }

  lemma Advance(rs: seq<Region>, splits: set<int>, cap: int, lo: int, start: int, a: int)
    requires Progress(rs, splits, cap, lo, start, a)
    requires a == start || a !in splits
    requires a - start < 4 * Cap(cap)
    ensures Progress(rs, splits, cap, lo, start, a + 4)
  {
  }

  method FormRegions(addrs: seq<int>, splits: set<int>, cap: int) returns (regions: seq<Region>)
    requires Dense(addrs)
    ensures addrs == [] ==> regions == []
    ensures addrs != [] ==> Tiles(regions, splits, cap, addrs[0], addrs[|addrs| - 1] + 4)
  {
    if addrs == [] {
      return [];
    }
    regions := [];
    var start, count := addrs[0], 0;
    ghost var lo := addrs[0];
    for idx := 0 to |addrs|
      invariant Progress(regions, splits, cap, lo, start, lo + 4 * idx)
      invariant lo + 4 * idx == start + 4 * count
      invariant 0 <= count && (idx < |addrs| ==> count < Cap(cap)) && (idx == |addrs| ==> count > 0)
    {
      var a := addrs[idx];
      if a != start && a in splits {
        Cut(regions, splits, cap, lo, start, a);
        regions := regions + [Region(start, a)];
        start := a;
        count := 0;
      }
      Advance(regions, splits, cap, lo, start, a);
      count := count + 1;
      if count >= cap && idx + 1 < |addrs| {
        var next := addrs[idx + 1];
        if next == a + 4 {
          Cut(regions, splits, cap, lo, start, next);
          regions := regions + [Region(start, next)];
          start := next;
          count := 0;
        }
      }
    }
    var hi := addrs[|addrs| - 1] + 4;
    ClosedIsTiled(regions, splits, cap, lo, start, hi);
    regions := regions + [Region(start, hi)];
  }

  // ----- the tiling is unique: Tiles says everything about FormRegions -----

  lemma {:induction false} ChainOrder(rs: seq<Region>, lo: int, hi: int, i: nat, j: nat)
    requires Chain(rs, lo, hi) && i <= j < |rs|
    ensures lo <= rs[i].start && rs[j].end <= hi
    ensures i < j ==> rs[i].end <= rs[j].start
    decreases i + |rs| - j
  {
    if i > 0 {
      ChainOrder(rs, lo, hi, i - 1, j);
    }
    if j + 1 < |rs| {
      ChainOrder(rs, lo, hi, i, j + 1);
    }
    if i < j {
      ChainStep(rs, lo, hi, i, j);
    }
  }

  lemma {:induction false} ChainStep(rs: seq<Region>, lo: int, hi: int, i: nat, j: nat)
    requires Chain(rs, lo, hi) && i < j < |rs|
    ensures rs[i].end <= rs[j].start
    decreases j
  {
    if i + 1 < j {
      ChainStep(rs, lo, hi, i, j - 1);
      assert RegionShape(rs[j - 1]);
    }
  }

  /** A region start cannot lie strictly inside another region of the same chain. */
  lemma NoStartInside(rs: seq<Region>, lo: int, hi: int, i: nat, a: int)
    requires Chain(rs, lo, hi) && i < |rs| && rs[i].start < a < rs[i].end
    ensures !IsRegionStart(rs, a)
  {
    if IsRegionStart(rs, a) {
      var k :| 0 <= k < |rs| && rs[k].start == a;
      assert RegionShape(rs[k]);
      if k < i {
        ChainStep(rs, lo, hi, k, i);
      } else if i < k {
        ChainStep(rs, lo, hi, i, k);
      }
    }
  }

  lemma CutsAreNeeded(rs: seq<Region>, splits: set<int>, cap: int, lo: int, hi: int, i: nat)
    requires Tiles(rs, splits, cap, lo, hi) && i < |rs| && rs[i].end < hi
    ensures rs[i].end in splits || Size(rs[i]) == Cap(cap)
  {
    assert i + 1 < |rs| && NeededCut(rs, splits, cap, i + 1);
  }

  lemma LongerIsLarger(r: Region, t: Region)
    requires RegionShape(r) && RegionShape(t) && r.start == t.start && r.end < t.end
    ensures Size(r) < Size(t)
  {
  }

  /** If the first tiling ended a region earlier, that cut would be needless, or the second's region
      would contain a split address or be too large. */
  lemma EarlierEnd(rs: seq<Region>, ts: seq<Region>, splits: set<int>, cap: int, lo: int, hi: int, i: nat)
    requires Tiles(rs, splits, cap, lo, hi) && Tiles(ts, splits, cap, lo, hi)
    requires i < |rs| && i < |ts| && rs[i].start == ts[i].start
    ensures rs[i].end >= ts[i].end
  {
    var r, t := rs[i], ts[i];
    if r.end < t.end {
      assert RegionShape(r) && RegionShape(t) && Size(t) <= Cap(cap) && lo <= r.end < hi by {
        ChainOrder(ts, lo, hi, i, i);
        ChainOrder(rs, lo, hi, i, i);
      }
      CutsAreNeeded(rs, splits, cap, lo, hi, i);
      LongerIsLarger(r, t);
      NoStartInside(ts, lo, hi, i, r.end);
    }
  }

  lemma {:induction false} TilingsAgreeUpTo(rs: seq<Region>, ts: seq<Region>, splits: set<int>, cap: int, lo: int,
                                            hi: int, n: nat)
    requires Tiles(rs, splits, cap, lo, hi) && Tiles(ts, splits, cap, lo, hi)
    requires n <= |rs|
    ensures n <= |ts| && rs[..n] == ts[..n]
  {
    if n > 0 {
      var i := n - 1;
      TilingsAgreeUpTo(rs, ts, splits, cap, lo, hi, i);
      if i > 0 {
        assert rs[i - 1] == rs[..i][i - 1] == ts[..i][i - 1] == ts[i - 1];
      }
      ChainOrder(rs, lo, hi, i, i);
      assert RegionShape(rs[i]);
      assert i < |ts|;
      EarlierEnd(rs, ts, splits, cap, lo, hi, i);
      EarlierEnd(ts, rs, splits, cap, lo, hi, i);
      assert rs[..n] == rs[..i] + [rs[i]] && ts[..n] == ts[..i] + [ts[i]];
    }
  }

  lemma TilingIsUnique(rs: seq<Region>, ts: seq<Region>, splits: set<int>, cap: int, lo: int, hi: int)
    requires Tiles(rs, splits, cap, lo, hi) && Tiles(ts, splits, cap, lo, hi)
    ensures rs == ts
  {
    TilingsAgreeUpTo(rs, ts, splits, cap, lo, hi, |rs|);
    TilingsAgreeUpTo(ts, rs, splits, cap, lo, hi, |ts|);
  }

  // ----- pc_to_region -----

  /** bisect_right on a sorted list: how many entries are at most `a`. */
  function BisectRight(starts: seq<int>, a: int): (n: nat)
    ensures n <= |starts|
    ensures n > 0 ==> starts[n - 1] <= a
    ensures forall i :: n <= i < |starts| ==> starts[i] > a
  {
    if starts == [] then 0
    else if starts[|starts| - 1] <= a then |starts|
    else BisectRight(starts[..|starts| - 1], a)
  }

  function Starts(rs: seq<Region>): seq<int> { seq(|rs|, i requires 0 <= i < |rs| => rs[i].start) }

  /** The index the dictionary comprehension picks for pc `a`. */
  function OwnerIndex(rs: seq<Region>, a: int): int { BisectRight(Starts(rs), a) - 1 }

  ghost predicate InRegion(r: Region, a: int) { r.start <= a < r.end }

  /** The bisect map gives each pc of the image the one region that contains it. */
  lemma OwnerIsUnique(rs: seq<Region>, lo: int, hi: int, a: int)
    requires Chain(rs, lo, hi) && lo <= a < hi
    ensures 0 <= OwnerIndex(rs, a) < |rs| && InRegion(rs[OwnerIndex(rs, a)], a)
    ensures forall i :: 0 <= i < |rs| && InRegion(rs[i], a) ==> i == OwnerIndex(rs, a)
  {
    var k := OwnerIndex(rs, a);
    assert Starts(rs)[0] == lo;
    assert k >= 0;
    assert Starts(rs)[k] == rs[k].start <= a;
    if k + 1 < |rs| {
      assert Starts(rs)[k + 1] == rs[k + 1].start > a;
    }
    forall i | 0 <= i < |rs| && InRegion(rs[i], a) ensures i == k {
      if i < k {
        ChainOrder(rs, lo, hi, i, k);
      } else if k < i {
        ChainOrder(rs, lo, hi, k, i);
      }
    }
  }

  /** Running off the end of a region inside the image lands on the start of the next one. */
  lemma EndIsStart(rs: seq<Region>, lo: int, hi: int, i: nat)
    requires Chain(rs, lo, hi) && i < |rs| && rs[i].end < hi
    ensures i + 1 < |rs| && rs[i + 1].start == rs[i].end
    ensures OwnerIndex(rs, rs[i].end) == i + 1
  {
    ChainOrder(rs, lo, hi, i, i);
    OwnerIsUnique(rs, lo, hi, rs[i].end);
    assert i + 1 < |rs|;
    assert RegionShape(rs[i + 1]);
    assert InRegion(rs[i + 1], rs[i].end);
  }

  method PcToRegion(addrs: seq<int>, rs: seq<Region>) returns (owner: map<int, int>)
    requires Dense(addrs) && addrs != [] && Chain(rs, addrs[0], addrs[|addrs| - 1] + 4)
    ensures owner.Keys == set a | a in addrs
    ensures forall a :: a in owner ==> IsRegionStart(rs, owner[a])
    ensures forall a, i :: a in owner && 0 <= i < |rs| ==> (owner[a] == rs[i].start <==> InRegion(rs[i], a))
  {
    owner := map[];
    for n := 0 to |addrs|
      invariant owner.Keys == set a | a in addrs[..n]
      invariant forall a :: a in owner ==> IsRegionStart(rs, owner[a])
      invariant forall a, i :: a in owner && 0 <= i < |rs| ==> (owner[a] == rs[i].start <==> InRegion(rs[i], a))
    {
      var a := addrs[n];
      OwnerIsUnique(rs, addrs[0], addrs[|addrs| - 1] + 4, a);
      var k := OwnerIndex(rs, a);
      forall i | 0 <= i < |rs| ensures rs[k].start == rs[i].start <==> InRegion(rs[i], a) {
        StartsDiffer(rs, addrs[0], addrs[|addrs| - 1] + 4, i, k);
      }
      owner := owner[a := rs[k].start];
      assert addrs[..n + 1] == addrs[..n] + [a];
    }
    assert addrs[..|addrs|] == addrs;
  }

  lemma StartsDiffer(rs: seq<Region>, lo: int, hi: int, i: nat, k: nat)
    requires Chain(rs, lo, hi) && i < |rs| && k < |rs|
    ensures rs[i].start == rs[k].start ==> i == k
  {
    assert RegionShape(rs[i]) && RegionShape(rs[k]);
    if i < k {
      ChainOrder(rs, lo, hi, i, k);
    } else if k < i {
      ChainOrder(rs, lo, hi, k, i);
    }
  }
}
