/** The trusted addresses discovery reaches, along ways of references. In trusted code a fragment runs from its start to
    the end of its bound, so what it refers to does not depend on the rounds. */
module DiscoveryReach {
  import opened Basics
  import opened FunctionBounds
  import opened Discovery
  import opened DiscoveryClosure
  import opened DiscoveryDepth

  /** The fragment that starts at an address of trusted code. */
  function Fragment(bounds: seq<Fn>, a: nat): Fn { Fn(a, SpanEnd(bounds, a)) }

  /** The addresses it refers to. */
  function Out(img: Image, bounds: seq<Fn>, a: nat): set<nat> { Refs(img, Fragment(bounds, a)) }

  function OutOf(img: Image, bounds: seq<Fn>, starts: set<nat>): set<nat> {
    set a, t | a in starts && t in Out(img, bounds, a) :: t
  }

  /** The trusted addresses within n references of a function start. */
  function Reach(img: Image, bounds: seq<Fn>, n: nat): set<nat> {
    if n == 0 then Starts(bounds)
    else Reach(img, bounds, n - 1) + (set t | t in OutOf(img, bounds, Reach(img, bounds, n - 1)) && Covered(bounds, t))
  }

  /** A way from a function start, reference by reference. */
  predicate IsPath(img: Image, bounds: seq<Fn>, p: seq<nat>) {
    && p != [] && p[0] in Starts(bounds)
    && forall i :: 0 < i < |p| ==> Leads(img, bounds, p[i - 1], p[i])
  }

  predicate Leads(img: Image, bounds: seq<Fn>, a: nat, t: nat) { t in Out(img, bounds, a) && Covered(bounds, t) }

  predicate PathTo(img: Image, bounds: seq<Fn>, p: seq<nat>, n: nat, t: nat) {
    IsPath(img, bounds, p) && |p| <= n + 1 && p[|p| - 1] == t
  }

  /** Some way of at most n references leads there. */
  ghost predicate HasPath(img: Image, bounds: seq<Fn>, n: nat, t: nat) { exists p :: PathTo(img, bounds, p, n, t) }

  /** Never lifted outside trusted code, wherever the neighbouring functions are. */
  predicate Settled(img: Image, bounds: seq<Fn>, t: nat) {
    Covered(bounds, t) || !HasInsn(img, t) || !Plausible(img, t)
  }

  /** Everything reachable refers to trusted code, or to what discovery refuses in any case. */
  ghost predicate AllSettled(img: Image, bounds: seq<Fn>) {
    forall n: nat, t: nat :: t in OutOf(img, bounds, Reach(img, bounds, n)) ==> Settled(img, bounds, t)
  }

  // ----- paths -----

  lemma {:induction false} PathReaches(img: Image, bounds: seq<Fn>, p: seq<nat>)
    requires IsPath(img, bounds, p)
    ensures p[|p| - 1] in Reach(img, bounds, |p| - 1)
    decreases |p|
  {
    hide Out, Covered, Starts;
    if |p| > 1 {
      var k := |p| - 1;
      assert IsPath(img, bounds, p[..k]);
      PathReaches(img, bounds, p[..k]);
      assert Leads(img, bounds, p[k - 1], p[k]);
    }
  }

  lemma {:induction false} ReachGrows(img: Image, bounds: seq<Fn>, m: nat, n: nat)
    requires m <= n
    ensures Reach(img, bounds, m) <= Reach(img, bounds, n)
    decreases n
  {
    hide OutOf, Covered, Starts;
    if m < n {
      ReachGrows(img, bounds, m, n - 1);
    }
  }

  lemma {:induction false} ReachHasPath(img: Image, bounds: seq<Fn>, n: nat, t: nat) returns (p: seq<nat>)
    requires t in Reach(img, bounds, n)
    ensures IsPath(img, bounds, p) && |p| <= n + 1 && p[|p| - 1] == t
    decreases n
  {
    hide Out, Covered, Starts;
    if n == 0 {
      p := [t];
    } else if t in Reach(img, bounds, n - 1) {
      p := ReachHasPath(img, bounds, n - 1, t);
    } else {
      var a :| a in Reach(img, bounds, n - 1) && t in Out(img, bounds, a);
      var q := ReachHasPath(img, bounds, n - 1, a);
      p := q + [t];
    }
  }

  /** An address is within n references iff some way of at most n references leads to it. */
  lemma ReachIsByPaths(img: Image, bounds: seq<Fn>, n: nat, t: nat)
    ensures t in Reach(img, bounds, n) <==> HasPath(img, bounds, n, t)
  {
    hide Reach, Leads;
    if t in Reach(img, bounds, n) {
      var p := ReachHasPath(img, bounds, n, t);
      assert PathTo(img, bounds, p, n, t);
    }
    if exists p :: PathTo(img, bounds, p, n, t) {
      var p :| PathTo(img, bounds, p, n, t);
      PathReaches(img, bounds, p);
      ReachGrows(img, bounds, |p| - 1, n);
    }
  }

  /** Once a step adds nothing, no later one does. */
  lemma {:induction false} ReachStays(img: Image, bounds: seq<Fn>, n: nat, m: nat)
    requires Reach(img, bounds, n + 1) <= Reach(img, bounds, n) && n <= m
    ensures Reach(img, bounds, m) == Reach(img, bounds, n)
    decreases m
  {
    hide OutOf, Covered, Starts;
    if n < m {
      ReachStays(img, bounds, n, m - 1);
      ReachGrows(img, bounds, n, n + 1);
      SameStep(img, bounds, n, m - 1);
    }
  }

  lemma SameStep(img: Image, bounds: seq<Fn>, n: nat, m: nat)
    requires Reach(img, bounds, m) == Reach(img, bounds, n)
    ensures Reach(img, bounds, m + 1) == Reach(img, bounds, n + 1)
  {
    hide OutOf, Covered, Starts;
  }

  /** A fragment that contains an address ends with the address's own bound. */
  lemma SameBound(bounds: seq<Fn>, f: Fn, t: nat)
    requires Disjoint(bounds) && Covered(bounds, f.start) && f == Fragment(bounds, f.start) && Inside(f, t)
    ensures Covered(bounds, t) && f.end == SpanEnd(bounds, t)
  {
    hide Disjoint, SpanEnd;
    var c :| c in bounds && Inside(c, f.start);
    SpanEndOf(bounds, c, f.start);
    SpanEndOf(bounds, c, t);
  }

  // ----- what is known -----

  /** A range known at a trusted address is the fragment there. */
  lemma {:induction false} TrustedRange(img: Image, bounds: seq<Fn>, n: nat, f: Fn)
    requires Disjoint(bounds) && f in Known(img, bounds, n) && Covered(bounds, f.start)
    ensures f == Fragment(bounds, f.start)
    decreases n
  {
    hide Disjoint, SpanEnd, TargetsOf, StartsOf;
    if n == 0 {
      assert f in bounds;
      BoundIsNotEmpty(bounds, f);
      SpanEndOf(bounds, f, f.start);
    } else if f in Known(img, bounds, n - 1) {
      TrustedRange(img, bounds, n - 1, f);
    }
  }

  lemma BoundIsNotEmpty(bounds: seq<Fn>, b: Fn)
    requires Disjoint(bounds) && b in bounds
    ensures Inside(b, b.start) && Covered(bounds, b.start)
  {
  }

  lemma {:induction false} ReachIsTrusted(img: Image, bounds: seq<Fn>, n: nat, t: nat)
    requires Disjoint(bounds) && t in Reach(img, bounds, n)
    ensures Covered(bounds, t)
    decreases n
  {
    hide Disjoint, OutOf, Covered;
    if n == 0 {
      var b :| b in bounds && b.start == t;
      BoundIsNotEmpty(bounds, b);
    } else if t in Reach(img, bounds, n - 1) {
      ReachIsTrusted(img, bounds, n - 1, t);
    }
  }

  lemma StartMeans(k: set<Fn>, t: nat)
    ensures t in StartsOf(k) <==> exists f :: f in k && f.start == t
  {
  }

  /** A fragment at a known trusted start is known. */
  lemma FragmentIsKnown(img: Image, bounds: seq<Fn>, n: nat, a: nat)
    requires Disjoint(bounds) && a in StartsOf(Known(img, bounds, n)) && Covered(bounds, a)
    ensures Fragment(bounds, a) in Known(img, bounds, n)
  {
    hide Disjoint, Known, Fragment;
    var f :| f in Known(img, bounds, n) && f.start == a;
    TrustedRange(img, bounds, n, f);
  }

  /** A trusted address some known range refers to is known one round later. */
  lemma TrustedTargetIsKnown(img: Image, bounds: seq<Fn>, n: nat, f: Fn, t: nat)
    requires f in Known(img, bounds, n) && t in Refs(img, f) && Covered(bounds, t)
    ensures t in StartsOf(Known(img, bounds, n + 1))
  {
    hide Refs, SpanEnd, Covered;
    var k := Known(img, bounds, n);
    assert t in TargetsOf(img, k);
    if t in StartsOf(k) {
      KnownGrows(img, bounds, n, n + 1);
    } else {
      var ts := TargetsOf(img, k) - StartsOf(k);
      assert t in ts && Grant(img, bounds, k, t) == Some(SpanEnd(bounds, t));
      assert Fn(t, SpanEnd(bounds, t)) in Granted(img, bounds, k, ts);
      StartOfMember(Known(img, bounds, n + 1), Fn(t, SpanEnd(bounds, t)));
    }
  }

  /** In any program: what lies within n references through trusted code is a function after n rounds. */
  lemma {:induction false} ReachIsKnown(img: Image, bounds: seq<Fn>, n: nat, t: nat)
    requires Disjoint(bounds) && t in Reach(img, bounds, n)
    ensures t in StartsOf(Known(img, bounds, n))
    decreases n
  {
    hide Disjoint, Covered, Refs, Known, StartsOf;
    if n == 0 {
      SameStarts(bounds, Ranges(bounds));
      KnownAtFirst(img, bounds);
    } else if t in Reach(img, bounds, n - 1) {
      ReachIsKnown(img, bounds, n - 1, t);
      KnownGrows(img, bounds, n - 1, n);
    } else {
      var a :| a in Reach(img, bounds, n - 1) && t in Out(img, bounds, a);
      ReachIsKnown(img, bounds, n - 1, a);
      ReachIsTrusted(img, bounds, n - 1, a);
      FragmentIsKnown(img, bounds, n - 1, a);
      TrustedTargetIsKnown(img, bounds, n - 1, Fragment(bounds, a), t);
    }
  }

  lemma KnownAtFirst(img: Image, bounds: seq<Fn>)
    ensures Known(img, bounds, 0) == Ranges(bounds)
  {
  }

  /** A target outside the trusted code that looks like no code is never granted while all ranges are trusted. */
  lemma RefusedTarget(img: Image, bounds: seq<Fn>, n: nat, t: nat)
    requires Disjoint(bounds) && Settled(img, bounds, t) && !Covered(bounds, t)
    requires forall f :: f in Known(img, bounds, n) ==> Covered(bounds, f.start)
    ensures Grant(img, bounds, Known(img, bounds, n), t).None?
  {
    hide Disjoint, Known, HasInsn, Plausible, SpanEnd, Covered, NextKey;
    if f :| f in Known(img, bounds, n) && Contains(f, t) {
      TrustedRange(img, bounds, n, f);
      SameBound(bounds, f, t);
    }
  }

  lemma ReachAtFirst(img: Image, bounds: seq<Fn>, f: Fn)
    requires f in Ranges(bounds)
    ensures f.start in Reach(img, bounds, 0)
  {
  }

  /** What is new in a round was referred to, and granted. */
  lemma NewlyKnown(img: Image, bounds: seq<Fn>, n: nat, f: Fn)
    requires f in Known(img, bounds, n + 1) && f !in Known(img, bounds, n)
    ensures f.start in TargetsOf(img, Known(img, bounds, n)) && Grant(img, bounds, Known(img, bounds, n), f.start).Some?
  {
    hide Grant, TargetsOf, StartsOf;
  }

  /** While everything known is what is reached, what it refers to is what the reached fragments do. */
  lemma ReferredFromReach(img: Image, bounds: seq<Fn>, n: nat, t: nat)
    requires Disjoint(bounds) && StartsOf(Known(img, bounds, n)) == Reach(img, bounds, n)
    requires t in TargetsOf(img, Known(img, bounds, n))
    ensures t in OutOf(img, bounds, Reach(img, bounds, n))
  {
    hide Disjoint, Known, Reach, Refs, Covered, StartsOf;
    var g :| g in Known(img, bounds, n) && t in Refs(img, g);
    AllTrusted(img, bounds, n);
    StartOfMember(Known(img, bounds, n), g);
    TrustedRange(img, bounds, n, g);
    assert t in Out(img, bounds, g.start);
  }

  lemma AllTrusted(img: Image, bounds: seq<Fn>, n: nat)
    requires Disjoint(bounds) && StartsOf(Known(img, bounds, n)) == Reach(img, bounds, n)
    ensures forall f :: f in Known(img, bounds, n) ==> Covered(bounds, f.start)
  {
    hide Disjoint, Covered, Known, Reach;
    forall f | f in Known(img, bounds, n)
      ensures Covered(bounds, f.start)
    {
      StartOfMember(Known(img, bounds, n), f);
      ReachIsTrusted(img, bounds, n, f.start);
    }
  }

  /** All that is known after n rounds is trusted code. */
  ghost predicate KnownTrusted(img: Image, bounds: seq<Fn>, n: nat) {
    forall f :: f in Known(img, bounds, n) ==> Covered(bounds, f.start)
  }

  lemma {:induction false} KnownIsReached(img: Image, bounds: seq<Fn>, n: nat, t: nat)
    requires Disjoint(bounds) && KnownTrusted(img, bounds, n) && t in StartsOf(Known(img, bounds, n))
    ensures t in Reach(img, bounds, n)
    decreases n, 0
  {
    hide Disjoint, Known, Covered, StartsOf, OutOf, TargetsOf, Grant;
    StartMeans(Known(img, bounds, n), t);
    var f :| f in Known(img, bounds, n) && f.start == t;
    if n == 0 {
      KnownAtFirst(img, bounds);
      ReachAtFirst(img, bounds, f);
    } else {
      KnownGrows(img, bounds, n - 1, n);
      AllReached(img, bounds, n - 1);
      if f in Known(img, bounds, n - 1) {
        StartOfMember(Known(img, bounds, n - 1), f);
      } else {
        NewlyKnown(img, bounds, n - 1, f);
        ReferredFromReach(img, bounds, n - 1, t);
      }
    }
  }

  lemma {:induction false} AllReached(img: Image, bounds: seq<Fn>, n: nat)
    requires Disjoint(bounds) && KnownTrusted(img, bounds, n)
    ensures StartsOf(Known(img, bounds, n)) == Reach(img, bounds, n)
    decreases n, 1
  {
    hide Disjoint, Known, KnownTrusted, StartsOf, Reach;
    forall t | t in Reach(img, bounds, n)
      ensures t in StartsOf(Known(img, bounds, n))
    {
      ReachIsKnown(img, bounds, n, t);
    }
    forall t | t in StartsOf(Known(img, bounds, n))
      ensures t in Reach(img, bounds, n)
    {
      KnownIsReached(img, bounds, n, t);
    }
  }

  /** The functions after n rounds start exactly at the addresses within n references iff all of them are trusted. */
  lemma KnownIsReachIff(img: Image, bounds: seq<Fn>, n: nat)
    requires Disjoint(bounds)
    ensures StartsOf(Known(img, bounds, n)) == Reach(img, bounds, n) <==> KnownTrusted(img, bounds, n)
  {
    hide Disjoint, Known, StartsOf, Reach;
    if StartsOf(Known(img, bounds, n)) == Reach(img, bounds, n) {
      AllTrusted(img, bounds, n);
    }
    if KnownTrusted(img, bounds, n) {
      AllReached(img, bounds, n);
    }
  }

  /** Which they are where everything referred to on the way is settled. */
  lemma {:induction false} SettledIsTrusted(img: Image, bounds: seq<Fn>, n: nat)
    requires Disjoint(bounds) && AllSettled(img, bounds)
    ensures KnownTrusted(img, bounds, n)
    decreases n
  {
    hide Disjoint, Known, Covered, StartsOf, OutOf, TargetsOf, Grant, Settled, Reach;
    if n > 0 {
      SettledIsTrusted(img, bounds, n - 1);
      AllReached(img, bounds, n - 1);
    }
    forall f | f in Known(img, bounds, n)
      ensures Covered(bounds, f.start)
    {
      if n == 0 {
        KnownAtFirst(img, bounds);
        BoundIsNotEmpty(bounds, f);
      } else if f !in Known(img, bounds, n - 1) {
        NewlyKnown(img, bounds, n - 1, f);
        ReferredFromReach(img, bounds, n - 1, f.start);
        if !Covered(bounds, f.start) {
          RefusedTarget(img, bounds, n - 1, f.start);
        }
      }
    }
  }

  /** While all is trusted, the round of an address is the number of references on a shortest way to it. */
  lemma DepthIsDistance(img: Image, bounds: seq<Fn>, t: nat, d: nat)
    requires Disjoint(bounds) && KnownTrusted(img, bounds, d)
    ensures AtDepth(img, bounds, t, d)
       <==> HasPath(img, bounds, d, t) && (d > 0 ==> !HasPath(img, bounds, d - 1, t))
  {
    hide Disjoint, Known, Reach, HasPath, StartsOf;
    AllReached(img, bounds, d);
    ReachIsByPaths(img, bounds, d, t);
    if d > 0 {
      KnownGrows(img, bounds, d - 1, d);
      AllReached(img, bounds, d - 1);
      ReachIsByPaths(img, bounds, d - 1, t);
    }
  }
}
