/** Which ranges discovery lifts, and after how many passes, as sets computed from the image and the bounds alone:
    neither the order of the function list nor that of a pass matters. */
module DiscoveryDepth {
  import opened Basics
  import opened FunctionBounds
  import opened Discovery
  import opened DiscoveryPasses
  import opened DiscoveryClosure

  function Ranges(fns: seq<Fn>): set<Fn> { set f | f in fns }

  function StartsOf(k: set<Fn>): set<nat> { set f | f in k :: f.start }

  /** The addresses some ranges refer to. */
  function TargetsOf(img: Image, k: set<Fn>): set<nat> { set f, t | f in k && t in Refs(img, f) :: t }

  /** Some range strictly contains the address. */
  predicate IsContained(k: set<Fn>, t: nat) { exists f :: f in k && Contains(f, t) }

  /** Where a referenced address is lifted to, once these ranges are there: trusted code to the end of its bound,
      other addresses to the end of a range around them, or to the next start when it is near and they look like
      code. */
  ghost function Grant(img: Image, bounds: seq<Fn>, k: set<Fn>, t: nat): Option<nat> {
    if Covered(bounds, t) then Some(SpanEnd(bounds, t))
    else if IsContained(k, t) then
      var f :| f in k && Contains(f, t);
      Some(f.end)
    else if !HasInsn(img, t) || !Plausible(img, t) then None
    else
      var next := NextKey(StartsOf(k), t);
      var end := if next.Some? then next.value else t + 0x1000;
      if end - t > 0x4000 then None else Some(end)
  }

  ghost function Granted(img: Image, bounds: seq<Fn>, k: set<Fn>, ts: set<nat>): set<Fn> {
    set t | t in ts && Grant(img, bounds, k, t).Some? :: Fn(t, Grant(img, bounds, k, t).value)
  }

  /** The ranges known after n rounds: the bounds, and whatever the ranges so far refer to and grant. */
  ghost function Known(img: Image, bounds: seq<Fn>, n: nat): set<Fn> {
    if n == 0 then Ranges(bounds)
    else
      var k := Known(img, bounds, n - 1);
      k + Granted(img, bounds, k, TargetsOf(img, k) - StartsOf(k))
  }

  /** The round in which an address becomes a function. */
  ghost predicate AtDepth(img: Image, bounds: seq<Fn>, t: nat, d: nat) {
    t in StartsOf(Known(img, bounds, d)) && (d > 0 ==> t !in StartsOf(Known(img, bounds, d - 1)))
  }

  // ----- rounds -----

  lemma {:induction false} KnownGrows(img: Image, bounds: seq<Fn>, m: nat, n: nat)
    requires m <= n
    ensures Known(img, bounds, m) <= Known(img, bounds, n)
    ensures StartsOf(Known(img, bounds, m)) <= StartsOf(Known(img, bounds, n))
    decreases n
  {
    hide Granted, TargetsOf, Ranges;
    if m < n {
      KnownGrows(img, bounds, m, n - 1);
    }
  }

  lemma {:induction false} KnownStays(img: Image, bounds: seq<Fn>, n: nat, m: nat)
    requires Known(img, bounds, n + 1) == Known(img, bounds, n) && n <= m
    ensures Known(img, bounds, m) == Known(img, bounds, n)
    decreases m
  {
    hide Granted, TargetsOf, StartsOf, Ranges;
    if n < m {
      KnownStays(img, bounds, n, m - 1);
      SameRound(img, bounds, n, m - 1);
    }
  }

  lemma SameRound(img: Image, bounds: seq<Fn>, n: nat, m: nat)
    requires Known(img, bounds, m) == Known(img, bounds, n)
    ensures Known(img, bounds, m + 1) == Known(img, bounds, n + 1)
  {
    hide Granted, TargetsOf, StartsOf, Ranges;
  }

  /** What a round grants are new starts. */
  lemma GrantedAreNew(img: Image, bounds: seq<Fn>, k: set<Fn>, ts: set<nat>)
    ensures forall f :: f in Granted(img, bounds, k, ts) ==> f.start in ts
    ensures k !! Granted(img, bounds, k, ts - StartsOf(k))
    ensures forall f :: f in Granted(img, bounds, k, ts - StartsOf(k)) ==> f.start !in StartsOf(k)
  {
    hide Grant;
  }

  /** Nothing becomes known after round n iff the next round adds nothing. */
  lemma NoneDeeperIff(img: Image, bounds: seq<Fn>, n: nat)
    ensures Known(img, bounds, n + 1) == Known(img, bounds, n)
       <==> forall t: nat, d: nat :: AtDepth(img, bounds, t, d) ==> d <= n
  {
    hide Granted, TargetsOf, StartsOf;
    var k, next := Known(img, bounds, n), Known(img, bounds, n + 1);
    GrantedAreNew(img, bounds, k, TargetsOf(img, k));
    if next == k {
      forall t: nat, d: nat | AtDepth(img, bounds, t, d)
        ensures d <= n
      {
        if d > n {
          KnownStays(img, bounds, n, d);
          KnownStays(img, bounds, n, d - 1);
        }
      }
    } else {
      var f :| f in next && f !in k;
      StartOfMember(next, f);
      assert AtDepth(img, bounds, f.start, n + 1);
    }
  }

  lemma StartOfMember(k: set<Fn>, f: Fn)
    requires f in k
    ensures f.start in StartsOf(k)
  {
  }

  // ----- a pass is a round -----

  /** A state whose functions and targets are those of a set of ranges. */
  ghost predicate Mirrors(img: Image, bounds: seq<Fn>, st: State, k: set<Fn>) {
    Ranges(st.fns) == k && st.targets == TargetsOf(img, k) && Ranges(bounds) <= k
  }

  lemma SameStarts(fns: seq<Fn>, k: set<Fn>)
    requires Ranges(fns) == k
    ensures Starts(fns) == StartsOf(k)
  {
    forall x | x in Starts(fns)
      ensures x in StartsOf(k)
    {
      var f :| f in fns && f.start == x;
      assert f in k;
    }
    forall x | x in StartsOf(k)
      ensures x in Starts(fns)
    {
      var f :| f in k && f.start == x;
      assert f in fns;
    }
  }

  lemma SpanEndOf(bounds: seq<Fn>, b: Fn, a: nat)
    requires Disjoint(bounds) && b in bounds && Inside(b, a)
    ensures SpanEnd(bounds, a) == b.end && Covered(bounds, a)
    decreases |bounds|
  {
    if !Inside(bounds[0], a) {
      SpanEndOf(bounds[1..], b, a);
    } else {
      var i :| 0 <= i < |bounds| && bounds[i] == b;
    }
  }

  lemma TrustedContainer(bounds: seq<Fn>, fns: seq<Fn>, t: nat)
    requires Disjoint(bounds) && Laminar(fns) && Ranges(bounds) <= Ranges(fns) && Covered(bounds, t)
             && t !in Starts(fns)
    ensures ContainerEnd(fns, t) == Some(SpanEnd(bounds, t)) && SpanEnd(bounds, t) > t
  {
    hide Disjoint, Laminar, SpanEnd, ContainerEnd;
    var b :| b in bounds && Inside(b, t);
    assert b in Ranges(bounds);
    StartIn(fns, b);
    SpanEndOf(bounds, b, t);
    ContainersShareTheEnd(fns, b, t);
  }

  lemma OtherContainer(fns: seq<Fn>, k: set<Fn>, t: nat)
    requires Laminar(fns) && Ranges(fns) == k
    ensures ContainerEnd(fns, t).Some? <==> IsContained(k, t)
    ensures forall f :: f in k && Contains(f, t) ==> ContainerEnd(fns, t) == Some(f.end)
  {
    hide Laminar, ContainerEnd;
    ContainerEndMeaning(fns, t);
    forall f | f in k && Contains(f, t)
      ensures ContainerEnd(fns, t) == Some(f.end)
    {
      ContainersShareTheEnd(fns, f, t);
    }
    if ContainerEnd(fns, t).Some? {
      var f :| f in fns && Contains(f, t);
      assert f in k;
    }
  }

  /** What a pass decides about an undefined target is what the ranges grant it. */
  lemma PassGrants(img: Image, spans: seq<Fn>, bounds: seq<Fn>, st: State, k: set<Fn>, t: nat)
    requires Disjoint(bounds) && SameCover(spans, bounds) && Laminar(st.fns) && Mirrors(img, bounds, st, k)
             && t !in StartsOf(k)
    ensures EndFor(img, spans, st.fns, t) == Grant(img, bounds, k, t)
  {
    hide Disjoint, Laminar, HasInsn, Plausible, Covered, ContainerEnd, NextKey, SpanEnd, StartsOf, Starts,
         IsContained, TargetsOf, Ranges;
    SameStarts(st.fns, k);
    assert Covered(spans, t) <==> Covered(bounds, t);
    if Covered(bounds, t) {
      TrustedContainer(bounds, st.fns, t);
    } else {
      OtherContainer(st.fns, k, t);
      ContainedMeans(k, t);
    }
  }

  lemma ContainedMeans(k: set<Fn>, t: nat)
    ensures IsContained(k, t) <==> exists f :: f in k && Contains(f, t)
  {
  }

  // ----- during a pass -----

  function Elements(q: seq<nat>): set<nat> { set t | t in q }

  /** In the middle of a pass: the snapshot's ranges and those granted to the targets visited so far. */
  ghost predicate Visited(img: Image, bounds: seq<Fn>, snapshot: State, k: set<Fn>, st: State, todo: seq<nat>) {
    var more := Granted(img, bounds, k, Elements(todo));
    Ranges(st.fns) == k + more && st.targets == TargetsOf(img, k + more) && |st.fns| == |snapshot.fns| + |more|
  }

  lemma RangesOfMore(fns: seq<Fn>, f: Fn)
    ensures Ranges(fns + [f]) == Ranges(fns) + {f}
  {
  }

  lemma TargetsOfMore(img: Image, k: set<Fn>, f: Fn)
    ensures TargetsOf(img, k + {f}) == TargetsOf(img, k) + Refs(img, f)
  {
    hide Refs;
    forall t | t in Refs(img, f)
      ensures t in TargetsOf(img, k + {f})
    {
      assert f in k + {f};
    }
    forall t | t in TargetsOf(img, k)
      ensures t in TargetsOf(img, k + {f})
    {
      var g :| g in k && t in Refs(img, g);
      assert g in k + {f};
    }
  }

  lemma OneMoreGranted(img: Image, bounds: seq<Fn>, k: set<Fn>, todo: seq<nat>, t: nat)
    requires t !in todo
    ensures var before, g := Granted(img, bounds, k, Elements(todo)), Grant(img, bounds, k, t);
            && Granted(img, bounds, k, Elements(todo + [t])) == (if g.Some? then before + {Fn(t, g.value)} else before)
            && (g.Some? ==> Fn(t, g.value) !in before)
  {
    hide Grant;
    var all := Granted(img, bounds, k, Elements(todo + [t]));
    assert t in Elements(todo + [t]);
    if Grant(img, bounds, k, t).Some? {
      assert Fn(t, Grant(img, bounds, k, t).value) in all;
    }
  }

  lemma VisitedOneMore(img: Image, spans: seq<Fn>, bounds: seq<Fn>, snapshot: State, k: set<Fn>, st: State,
                       todo: seq<nat>, t: nat)
    requires t !in todo && Visited(img, bounds, snapshot, k, st, todo)
    requires EndFor(img, spans, snapshot.fns, t) == Grant(img, bounds, k, t)
    requires Grant(img, bounds, k, t).Some? ==> Grant(img, bounds, k, t).value > t
    ensures Visited(img, bounds, snapshot, k, Visit(img, spans, snapshot.fns, st, t), todo + [t])
  {
    hide EndFor, Grant, Granted, TargetsOf, Ranges, Refs, Elements;
    OneMoreGranted(img, bounds, k, todo, t);
    var g, before := Grant(img, bounds, k, t), Granted(img, bounds, k, Elements(todo));
    if g.Some? {
      var f := Fn(t, g.value);
      RangesOfMore(st.fns, f);
      TargetsOfMore(img, k + before, f);
      assert k + (before + {f}) == k + before + {f};
    }
  }

  /** Distinct targets a pass visits, and what becomes of each. */
  ghost predicate Waiting(img: Image, spans: seq<Fn>, bounds: seq<Fn>, snapshot: State, k: set<Fn>, todo: seq<nat>) {
    Ascending(todo) && forall i :: 0 <= i < |todo| ==> Decided(img, spans, bounds, snapshot, k, todo[i])
  }

  ghost predicate Decided(img: Image, spans: seq<Fn>, bounds: seq<Fn>, snapshot: State, k: set<Fn>, t: nat) {
    var g := Grant(img, bounds, k, t);
    EndFor(img, spans, snapshot.fns, t) == g && (g.Some? ==> g.value > t)
  }

  lemma WaitingPrefix(img: Image, spans: seq<Fn>, bounds: seq<Fn>, snapshot: State, k: set<Fn>, todo: seq<nat>)
    requires Waiting(img, spans, bounds, snapshot, k, todo) && todo != []
    ensures var n := |todo| - 1;
            Waiting(img, spans, bounds, snapshot, k, todo[..n]) && Decided(img, spans, bounds, snapshot, k, todo[n])
            && todo[n] !in todo[..n] && todo == todo[..n] + [todo[n]]
  {
    hide Decided;
  }

  lemma {:induction false} VisitsGrant(img: Image, spans: seq<Fn>, bounds: seq<Fn>, snapshot: State, k: set<Fn>,
                                       todo: seq<nat>)
    requires Mirrors(img, bounds, snapshot, k) && Waiting(img, spans, bounds, snapshot, k, todo)
    ensures Visited(img, bounds, snapshot, k, Visits(img, spans, snapshot.fns, snapshot, todo), todo)
    decreases |todo|
  {
    hide Mirrors, Waiting, Visited, Visit;
    if todo == [] {
      NoneVisited(img, bounds, snapshot, k);
    } else {
      var n := |todo| - 1;
      WaitingPrefix(img, spans, bounds, snapshot, k, todo);
      VisitsGrant(img, spans, bounds, snapshot, k, todo[..n]);
      VisitedOneMore(img, spans, bounds, snapshot, k, Visits(img, spans, snapshot.fns, snapshot, todo[..n]), todo[..n],
                     todo[n]);
    }
  }

  lemma NoneVisited(img: Image, bounds: seq<Fn>, snapshot: State, k: set<Fn>)
    requires Mirrors(img, bounds, snapshot, k)
    ensures Visited(img, bounds, snapshot, k, snapshot, [])
  {
    hide TargetsOf, Grant;
    assert Granted(img, bounds, k, Elements([])) == {};
    assert k + {} == k;
  }

  lemma AllDecided(img: Image, spans: seq<Fn>, u: set<nat>, bounds: seq<Fn>, st: State, k: set<Fn>)
    requires Disjoint(bounds) && SameCover(spans, bounds) && Kept(img, spans, u, st) && Mirrors(img, bounds, st, k)
    ensures Waiting(img, spans, bounds, st, k, Sorted(Undefined(st)))
    ensures Elements(Sorted(Undefined(st))) == TargetsOf(img, k) - StartsOf(k)
  {
    hide Disjoint, SameCover, Grant, EndFor, Laminar, CodeCovered, NoneBeyond, BranchTargets, DistinctStarts, Starts,
         StartsOf, TargetsOf, Bounds, Ranges;
    SortedMeaning(Undefined(st));
    SameStarts(st.fns, k);
    var todo := Sorted(Undefined(st));
    forall i | 0 <= i < |todo|
      ensures Decided(img, spans, bounds, st, k, todo[i])
    {
      assert todo[i] in Undefined(st);
      PassGrants(img, spans, bounds, st, k, todo[i]);
      if EndFor(img, spans, st.fns, todo[i]).Some? {
        LiftedEnd(img, spans, u, st.fns, todo[i]);
      }
    }
  }

  /** One pass is one round. */
  lemma PassIsRound(img: Image, spans: seq<Fn>, bounds: seq<Fn>, st: State, n: nat)
    requires Disjoint(bounds) && SameCover(spans, bounds) && Kept(img, spans, Universe(img, bounds), st)
    requires Mirrors(img, bounds, st, Known(img, bounds, n))
    ensures Mirrors(img, bounds, Pass(img, spans, st), Known(img, bounds, n + 1))
    ensures |Pass(img, spans, st).fns| == |st.fns| <==> Known(img, bounds, n + 1) == Known(img, bounds, n)
  {
    hide Disjoint, SameCover, Kept, Granted, TargetsOf, StartsOf, Ranges, Visits, Sorted, Universe, Waiting, Elements;
    var k, todo := Known(img, bounds, n), Sorted(Undefined(st));
    AllDecided(img, spans, Universe(img, bounds), bounds, st, k);
    VisitsGrant(img, spans, bounds, st, k, todo);
    GrantedAreNew(img, bounds, k, TargetsOf(img, k));
    var more := Granted(img, bounds, k, TargetsOf(img, k) - StartsOf(k));
    if |more| == 0 {
      assert more == {};
    }
    if more != {} {
      var f :| f in more;
      assert f !in k;
    }
  }

  // ----- the whole discovery -----

  lemma {:induction false} InitialTargetsAre(img: Image, bounds: seq<Fn>)
    ensures Initial(img, bounds).targets == TargetsOf(img, Ranges(bounds))
    decreases |bounds|
  {
    hide Refs;
    if bounds != [] {
      var n := |bounds| - 1;
      InitialTargetsAre(img, bounds[..n]);
      RangesOfMore(bounds[..n], bounds[n]);
      TargetsOfMore(img, Ranges(bounds[..n]), bounds[n]);
      assert bounds == bounds[..n] + [bounds[n]];
    }
  }

  lemma InitialMirrors(img: Image, bounds: seq<Fn>)
    ensures Mirrors(img, bounds, Initial(img, bounds), Known(img, bounds, 0))
  {
    hide TargetsOf, Ranges;
    InitialFns(img, bounds);
    InitialTargetsAre(img, bounds);
  }

  lemma {:induction false} DiscoveredMirrors(img: Image, spans: seq<Fn>, bounds: seq<Fn>, st: State, k: nat, n: nat)
    requires Disjoint(bounds) && SameCover(spans, bounds) && Kept(img, spans, Universe(img, bounds), st)
    requires Mirrors(img, bounds, st, Known(img, bounds, k))
    ensures Mirrors(img, bounds, Discovered(img, spans, st, n), Known(img, bounds, k + n))
    ensures Kept(img, spans, Universe(img, bounds), Discovered(img, spans, st, n))
    decreases n
  {
    hide Disjoint, SameCover, Kept, Mirrors, Pass, Known, Universe;
    if n > 0 {
      PassIsRound(img, spans, bounds, st, k);
      PassKeeps(img, spans, Universe(img, bounds), st);
      var next := Pass(img, spans, st);
      if |next.fns| == |st.fns| {
        KnownStays(img, bounds, k, k + 1);
        KnownStays(img, bounds, k, k + n);
      } else {
        DiscoveredMirrors(img, spans, bounds, next, k + 1, n - 1);
      }
    }
  }

  /** After at most n passes the functions are exactly the ranges known after n rounds, and the targets exactly what
      those refer to. */
  lemma DiscoveryIsKnown(img: Image, spans: seq<Fn>, bounds: seq<Fn>, n: nat)
    requires Disjoint(bounds) && SameCover(spans, bounds) && NoneBeyond(img, Universe(img, bounds), bounds)
    ensures var st := Discovered(img, spans, Initial(img, bounds), n);
            Mirrors(img, bounds, st, Known(img, bounds, n)) && Kept(img, spans, Universe(img, bounds), st)
  {
    hide Disjoint, SameCover, NoneBeyond, Known, Discovered, Initial, Mirrors, Kept, Universe;
    InitialMirrors(img, bounds);
    InitialKept(img, spans, bounds);
    DiscoveredMirrors(img, spans, bounds, Initial(img, bounds), 0, n);
  }

  /** n passes come to rest iff no address becomes a function in a later round. */
  lemma AtRestIff(img: Image, spans: seq<Fn>, bounds: seq<Fn>, n: nat)
    requires Disjoint(bounds) && SameCover(spans, bounds) && NoneBeyond(img, Universe(img, bounds), bounds)
    ensures var st := Discovered(img, spans, Initial(img, bounds), n);
            Pass(img, spans, st) == st <==> forall t: nat, d: nat :: AtDepth(img, bounds, t, d) ==> d <= n
  {
    hide Disjoint, SameCover, NoneBeyond, Known, Discovered, Initial, Mirrors, AtDepth, Pass, Kept, Universe;
    var st := Discovered(img, spans, Initial(img, bounds), n);
    DiscoveryIsKnown(img, spans, bounds, n);
    PassIsRound(img, spans, bounds, st, n);
    IdlePass(img, spans, st);
    NoneDeeperIff(img, bounds, n);
  }
}
