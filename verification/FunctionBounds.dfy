/** Function boundaries before lifting: `clip_overlaps` (tools/find_functions.py) and the merged code spans of
    `set_code_ranges` (tools/ppu_lifter.py). */
module FunctionBounds {
  import opened Basics

  /** A half-open range of guest addresses. */
  datatype Fn = Fn(start: nat, end: nat)

  // ----- sorted -----

  predicate IsLeast(m: nat, s: set<nat>) { m in s && forall x :: x in s ==> m <= x }

  function Least(s: set<nat>): (m: nat)
    requires s != {}
    ensures IsLeast(m, s)
  {
    LeastExists(s);
    var m: nat :| IsLeast(m, s);
    m
  }

  lemma {:induction false} LeastExists(s: set<nat>)
    requires s != {}
    ensures exists m: nat :: IsLeast(m, s)
    decreases |s|
  {
    var y :| y in s;
    var rest := s - {y};
    assert s == rest + {y};
    if rest == {} {
      assert IsLeast(y, s);
    } else {
      LeastExists(rest);
      var m: nat :| IsLeast(m, rest);
      assert IsLeast(if y < m then y else m, s);
    }
  }

  /** Python's sorted() of a set. */
  function Sorted(s: set<nat>): seq<nat>
    decreases |s|
  {
    if s == {} then [] else [Least(s)] + Sorted(s - {Least(s)})
  }

  predicate Ascending(q: seq<nat>) { forall i, j :: 0 <= i < j < |q| ==> q[i] < q[j] }

  lemma {:induction false} SortedMeaning(s: set<nat>)
    ensures Ascending(Sorted(s))
    ensures forall x :: x in Sorted(s) <==> x in s
    decreases |s|
  {
    if s != {} {
      SortedMeaning(s - {Least(s)});
      var rest := Sorted(s - {Least(s)});
      forall j | 0 <= j < |rest|
        ensures Least(s) < rest[j]
      {
        assert rest[j] in rest;
      }
    }
  }

  // ----- clip_overlaps -----

  function Above(keys: set<nat>, s: nat): (r: set<nat>)
    ensures forall k :: k in r <==> k in keys && k > s
  {
    set k | k in keys && k > s
  }

  /** The next start after one, in address order. */
  function NextKey(keys: set<nat>, s: nat): Option<nat> {
    if Above(keys, s) == {} then None else Some(Least(Above(keys, s)))
  }

  lemma NextKeyMeaning(keys: set<nat>, s: nat, k: nat)
    ensures var r := NextKey(keys, s);
            (r.Some? ==> r.value in keys && s < r.value) && (k in keys && k > s ==> r.Some? && r.value <= k)
  {
    assert k in keys && k > s ==> k in Above(keys, s);
  }

  function ClippedEnd(s: nat, end: nat, next: Option<nat>): nat {
    var e := if next.Some? && end > next.value then next.value else end;
    if e > s then e
    else if next.None? || s + 4 <= next.value then s + 4
    else next.value
  }

  function Clipped(ends: map<nat, nat>): map<nat, nat> {
    map s | s in ends :: ClippedEnd(s, ends[s], NextKey(ends.Keys, s))
  }

  /** The range at a start runs past the next start. */
  predicate Overlaps(ends: map<nat, nat>, s: nat)
    requires s in ends
  {
    NextKey(ends.Keys, s).Some? && ends[s] > NextKey(ends.Keys, s).value
  }

  function Overlapping(ends: map<nat, nat>, q: seq<nat>): set<nat> { set s | s in q && s in ends && Overlaps(ends, s) }

  lemma OneMoreOverlap(ends: map<nat, nat>, q: seq<nat>, i: nat)
    requires Ascending(q) && i < |q| && q[i] in ends
    ensures |Overlapping(ends, q[..i + 1])| == |Overlapping(ends, q[..i])|
                                               + (var next := NextKey(ends.Keys, q[i]);
                                                  if next.Some? && ends[q[i]] > next.value then 1 else 0)
  {
    assert Overlaps(ends, q[i]) <==> NextKey(ends.Keys, q[i]).Some? && ends[q[i]] > NextKey(ends.Keys, q[i]).value;
    hide Overlaps;
    var before, after := Overlapping(ends, q[..i]), Overlapping(ends, q[..i + 1]);
    assert q[..i + 1] == q[..i] + [q[i]];
    assert q[i] !in q[..i];
    assert after == if Overlaps(ends, q[i]) then before + {q[i]} else before;
  }

  lemma AllOverlaps(ends: map<nat, nat>, q: seq<nat>)
    requires forall s :: s in q <==> s in ends.Keys
    ensures Overlapping(ends, q[..|q|]) == set s | s in ends && Overlaps(ends, s)
  {
    hide Overlaps;
    assert q[..|q|] == q;
  }

  lemma NoOverlaps(ends: map<nat, nat>, q: seq<nat>)
    ensures Overlapping(ends, q[..0]) == {}
  {
  }

  /** The functions a scan found, by start. */
  class Detector {
    var ends: map<nat, nat>

    /** Every end is trimmed to the next start; an empty range becomes one instruction, or less. */
    method ClipOverlaps() returns (clipped: nat)
      modifies this
      ensures ends == Clipped(old(ends))
      ensures clipped == |set s | s in old(ends) && Overlaps(old(ends), s)|
    {
      hide Overlapping, Overlaps, Ascending, Sorted;
      clipped := 0;
      var starts := Sorted(ends.Keys);
      SortedMeaning(ends.Keys);
      NoOverlaps(ends, starts);
      NoneClipped(ends, starts);
      var i := 0;
      while i < |starts|
        invariant 0 <= i <= |starts|
        invariant PartlyClipped(ends, old(ends), starts, i)
        invariant clipped == |Overlapping(old(ends), starts[..i])|
      {
        hide Ascending, Sorted, NextKey, PartlyClipped, ClippedEnd, Overlapping;
        OneMoreOverlap(old(ends), starts, i);
        AtStart(ends, old(ends), starts, i);
        var start := starts[i];
        var next := if i + 1 < |starts| then Some(starts[i + 1]) else None;
        NextInOrder(old(ends).Keys, i);
        var end, cut := ClipOne(start, ends[start], next);
        if cut {
          clipped := clipped + 1;
        }
        ClipStep(ends, old(ends), starts, i, end);
        ends := ends[start := end];
        i := i + 1;
      }
      AllClipped(ends, old(ends), starts);
      AllOverlaps(old(ends), starts);
    }
  }

  /** The body of the loop, for one range. */
  method ClipOne(start: nat, was: nat, next: Option<nat>) returns (end: nat, cut: bool)
    ensures end == ClippedEnd(start, was, next)
    ensures cut <==> next.Some? && was > next.value
  {
    end, cut := was, false;
    if next.Some? && end > next.value {
      end, cut := next.value, true;
    }
    if end <= start {
      end := if next.None? || start + 4 <= next.value then start + 4 else next.value;
    }
  }

  lemma AllClipped(ends: map<nat, nat>, was: map<nat, nat>, q: seq<nat>)
    requires PartlyClipped(ends, was, q, |q|)
    ensures ends == Clipped(was)
  {
    hide ClippedEnd, NextKey;
    SameMap(ends, Clipped(was), q);
  }

  /** The first i ranges are clipped, the others as they were. */
  ghost predicate PartlyClipped(ends: map<nat, nat>, was: map<nat, nat>, q: seq<nat>, i: nat) {
    i <= |q| && ends.Keys == was.Keys && (forall x :: x in q <==> x in was.Keys)
    && (forall k :: 0 <= k < i ==> ends[q[k]] == Clipped(was)[q[k]])
    && (forall k :: i <= k < |q| ==> ends[q[k]] == was[q[k]])
  }

  lemma NoneClipped(ends: map<nat, nat>, q: seq<nat>)
    requires forall x :: x in q <==> x in ends.Keys
    ensures PartlyClipped(ends, ends, q, 0)
  {
  }

  lemma AtStart(ends: map<nat, nat>, was: map<nat, nat>, q: seq<nat>, i: nat)
    requires PartlyClipped(ends, was, q, i) && i < |q|
    ensures q[i] in ends && q[i] in was && ends[q[i]] == was[q[i]]
  {
  }

  lemma ClipStep(ends: map<nat, nat>, was: map<nat, nat>, q: seq<nat>, i: nat, end: nat)
    requires PartlyClipped(ends, was, q, i) && i < |q| && Ascending(q) && q[i] in was
    requires end == ClippedEnd(q[i], was[q[i]], NextKey(was.Keys, q[i]))
    ensures PartlyClipped(ends[q[i] := end], was, q, i + 1)
  {
    hide ClippedEnd, NextKey, Ascending;
    StartsDiffer(q, i);
    var now := ends[q[i] := end];
    assert now.Keys == was.Keys;
  }

  lemma StartsDiffer(q: seq<nat>, i: nat)
    requires Ascending(q) && i < |q|
    ensures forall k :: 0 <= k < |q| && k != i ==> q[k] != q[i]
  {
  }

  lemma SameMap(m: map<nat, nat>, n: map<nat, nat>, q: seq<nat>)
    requires m.Keys == n.Keys && (forall x :: x in q <==> x in m.Keys)
    requires forall k :: 0 <= k < |q| ==> q[k] in m && m[q[k]] == n[q[k]]
    ensures m == n
  {
    forall x | x in m
      ensures m[x] == n[x]
    {
      assert x in q;
    }
  }

  lemma NextInOrder(keys: set<nat>, i: nat)
    requires i < |Sorted(keys)|
    ensures NextKey(keys, Sorted(keys)[i]) == if i + 1 < |Sorted(keys)| then Some(Sorted(keys)[i + 1]) else None
  {
    SortedMeaning(keys);
    var q := Sorted(keys);
    var r := NextKey(keys, q[i]);
    NextKeyMeaning(keys, q[i], 0);
    if i + 1 < |q| {
      assert q[i + 1] in keys;
      NextKeyMeaning(keys, q[i], q[i + 1]);
    }
    if r.Some? {
      assert r.value in q;
      var j :| 0 <= j < |q| && q[j] == r.value;
    }
  }

  /** After clipping no range is empty and none reaches the next start, so every byte has at most one owner. */
  lemma ClippedIsDisjoint(ends: map<nat, nat>, s: nat, t: nat)
    requires s in ends && t in ends
    ensures s < Clipped(ends)[s]
    ensures s < t ==> Clipped(ends)[s] <= t
  {
    hide NextKey;
    NextKeyMeaning(ends.Keys, s, t);
    assert Clipped(ends)[s] == ClippedEnd(s, ends[s], NextKey(ends.Keys, s));
  }

  /** Ranges that were already sound are left alone. */
  lemma ClippedKeepsSound(ends: map<nat, nat>)
    requires forall s, t :: s in ends.Keys && t in ends.Keys ==> s < ends[s] && (s < t ==> ends[s] <= t)
    ensures Clipped(ends) == ends
  {
    forall s | s in ends
      ensures Clipped(ends)[s] == ends[s]
    {
      NextKeyMeaning(ends.Keys, s, 0);
    }
  }

  /** The functions sorted by start, as the detector hands them on. */
  function BoundsOf(ends: map<nat, nat>): seq<Fn> {
    var q := Sorted(ends.Keys);
    SortedMeaning(ends.Keys);
    assert forall k :: 0 <= k < |q| ==> q[k] in q && q[k] in ends;
    seq(|q|, (k: nat) requires k < |q| => Fn(q[k], ends[q[k]]))
  }

  /** They are the entries of the map, in the order of their starts. */
  lemma BoundsOfMeaning(ends: map<nat, nat>)
    ensures var b := BoundsOf(ends);
            && (forall f :: f in b <==> f.start in ends && ends[f.start] == f.end)
            && (forall i, j :: 0 <= i < j < |b| ==> b[i].start < b[j].start)
  {
    var q, b := Sorted(ends.Keys), BoundsOf(ends);
    SortedMeaning(ends.Keys);
    forall f: Fn | f.start in ends && ends[f.start] == f.end
      ensures f in b
    {
      assert f.start in q;
      var k :| 0 <= k < |q| && q[k] == f.start;
      assert b[k] == f;
    }
    forall f | f in b
      ensures f.start in ends && ends[f.start] == f.end
    {
      var k :| 0 <= k < |b| && b[k] == f;
      assert q[k] in q;
    }
  }

  // ----- code spans -----

  predicate Inside(f: Fn, a: nat) { f.start <= a < f.end }

  predicate Covered(fs: seq<Fn>, a: nat) { exists f :: f in fs && Inside(f, a) }

  predicate ByStart(fs: seq<Fn>) { forall i, j :: 0 <= i < j < |fs| ==> fs[i].start <= fs[j].start }

  /** Sorted spans with a gap between any two. */
  predicate Apart(fs: seq<Fn>) {
    (forall i :: 0 <= i < |fs| ==> fs[i].start < fs[i].end)
      && (forall i, j :: 0 <= i < j < |fs| ==> fs[i].end < fs[j].start)
  }

  ghost predicate SameCover(fs: seq<Fn>, gs: seq<Fn>) { forall a: nat :: Covered(fs, a) <==> Covered(gs, a) }

  predicate EndsFrom(fs: seq<Fn>, gs: seq<Fn>) { forall i :: 0 <= i < |fs| ==> HasEnd(gs, fs[i].end) }

  predicate HasEnd(gs: seq<Fn>, e: nat) { exists g :: g in gs && g.end == e }

  predicate NonEmpty(fs: seq<Fn>) { forall i :: 0 <= i < |fs| ==> fs[i].start < fs[i].end }

  /** set_code_ranges: merge ranges that overlap or touch. */
  method MergeSpans(bounds: seq<Fn>) returns (merged: seq<Fn>)
    requires ByStart(bounds) && NonEmpty(bounds)
    ensures Apart(merged) && SameCover(merged, bounds) && EndsFrom(merged, bounds)
  {
    hide SameCover, EndsFrom, HasEnd, ByStart;
    merged := [];
    var i := 0;
    NothingCovered(bounds);
    while i < |bounds|
      invariant 0 <= i <= |bounds|
      invariant Apart(merged)
      invariant merged != [] ==> i > 0 && merged[|merged| - 1].start <= bounds[i - 1].start
      invariant SameCover(merged, bounds[..i])
      invariant EndsFrom(merged, bounds)
    {
      var b := bounds[i];
      var n := |merged| - 1;
      StartsInOrder(bounds, i);
      EndIs(bounds, i);
      if merged != [] && b.start <= merged[n].end {
        var last := Fn(merged[n].start, if merged[n].end >= b.end then merged[n].end else b.end);
        MergeCovers(bounds, i, merged, last);
        MergeEnds(merged, bounds, last);
        merged := merged[..n] + [last];
      } else {
        AppendCovers(bounds, i, merged);
        AppendEnds(merged, bounds, b);
        merged := merged + [b];
      }
      i := i + 1;
    }
    assert bounds[..i] == bounds;
  }

  lemma NothingCovered(bounds: seq<Fn>)
    ensures SameCover([], bounds[..0]) && EndsFrom([], bounds)
  {
  }

  lemma StartsInOrder(bounds: seq<Fn>, i: nat)
    requires ByStart(bounds) && i < |bounds|
    ensures i > 0 ==> bounds[i - 1].start <= bounds[i].start
  {
  }

  lemma EndIs(bounds: seq<Fn>, i: nat)
    requires i < |bounds|
    ensures HasEnd(bounds, bounds[i].end)
  {
    assert bounds[i] in bounds;
  }

  lemma AppendEnds(merged: seq<Fn>, bounds: seq<Fn>, b: Fn)
    requires EndsFrom(merged, bounds) && HasEnd(bounds, b.end)
    ensures EndsFrom(merged + [b], bounds)
  {
    hide HasEnd;
  }

  lemma MergeEnds(merged: seq<Fn>, bounds: seq<Fn>, last: Fn)
    requires merged != [] && EndsFrom(merged, bounds)
    requires last.end == merged[|merged| - 1].end || HasEnd(bounds, last.end)
    ensures EndsFrom(merged[..|merged| - 1] + [last], bounds)
  {
    hide HasEnd;
  }

  lemma AppendCovers(bounds: seq<Fn>, i: nat, merged: seq<Fn>)
    requires i < |bounds| && SameCover(merged, bounds[..i])
    ensures SameCover(merged + [bounds[i]], bounds[..i + 1])
  {
    hide Covered;
    assert bounds[..i + 1] == bounds[..i] + [bounds[i]];
    forall a: nat
      ensures Covered(merged + [bounds[i]], a) <==> Covered(bounds[..i + 1], a)
    {
      CoveredSum(merged, bounds[i], a);
      CoveredSum(bounds[..i], bounds[i], a);
    }
  }

  lemma CoveredSum(fs: seq<Fn>, f: Fn, a: nat)
    ensures Covered(fs + [f], a) <==> Covered(fs, a) || Inside(f, a)
  {
    if Covered(fs, a) {
      var g :| g in fs && Inside(g, a);
      assert g in fs + [f];
    }
    if Inside(f, a) {
      assert f in fs + [f];
    }
  }

  lemma MergeCovers(bounds: seq<Fn>, i: nat, merged: seq<Fn>, last: Fn)
    requires i < |bounds| && SameCover(merged, bounds[..i])
    requires merged != []
    requires var m, b := merged[|merged| - 1], bounds[i];
             m.start <= b.start <= m.end && m.start < m.end
             && last == Fn(m.start, if m.end >= b.end then m.end else b.end)
    ensures SameCover(merged[..|merged| - 1] + [last], bounds[..i + 1])
  {
    hide Covered;
    var n := |merged| - 1;
    assert bounds[..i + 1] == bounds[..i] + [bounds[i]];
    assert merged == merged[..n] + [merged[n]];
    forall a: nat
      ensures Covered(merged[..n] + [last], a) <==> Covered(bounds[..i + 1], a)
    {
      CoveredSum(merged[..n], last, a);
      CoveredSum(merged[..n], merged[n], a);
      CoveredSum(bounds[..i], bounds[i], a);
    }
  }
}
