/** Discovery from the first lift to the emitted symbols: the passes come to rest, at rest every referenced
    address in the trusted code is a function, and each emitted name has exactly one definition. */
module DiscoveryClosure {
  import opened Basics
  import opened FunctionBounds
  import opened Discovery
  import opened DiscoveryPasses

  // ----- the start -----

  /** Disjoint non-empty ranges in order, as clip_overlaps leaves them. */
  predicate Disjoint(bounds: seq<Fn>) {
    NonEmpty(bounds) && forall i, j :: 0 <= i < j < |bounds| ==> bounds[i].end <= bounds[j].start
  }

  /** Every address that can ever come up. */
  function Universe(img: Image, bounds: seq<Fn>): set<nat> { BranchTargets(img) + Bounds(bounds) }

  lemma LiftedFns(img: Image, st: State, f: Fn)
    ensures Lift(img, st, f).fns == st.fns + [f]
  {
  }

  lemma {:induction false} InitialFns(img: Image, bounds: seq<Fn>)
    ensures Initial(img, bounds).fns == bounds
    decreases |bounds|
  {
    hide Lift;
    if bounds != [] {
      InitialFns(img, bounds[..|bounds| - 1]);
      LiftedFns(img, Initial(img, bounds[..|bounds| - 1]), bounds[|bounds| - 1]);
      assert bounds == bounds[..|bounds| - 1] + [bounds[|bounds| - 1]];
    }
  }

  lemma {:induction false} InitialTargets(img: Image, bounds: seq<Fn>, u: set<nat>)
    requires BranchTargets(img) <= u && Bounds(bounds) <= u
    ensures Initial(img, bounds).targets <= u
    decreases |bounds|
  {
    hide BranchTargets, Refs;
    if bounds != [] {
      var n := |bounds| - 1;
      forall x | x in Bounds(bounds[..n])
        ensures x in u
      {
        assert x in Bounds(bounds);
      }
      InitialTargets(img, bounds[..n], u);
      assert bounds[n] in bounds && bounds[n].end in Bounds(bounds);
      RefsWithin(img, u, bounds[n]);
    }
  }

  lemma DisjointIsLaminar(bounds: seq<Fn>)
    requires Disjoint(bounds)
    ensures Laminar(bounds) && DistinctStarts(bounds)
  {
    forall f, g | f in bounds && g in bounds
      ensures Compatible(f, g)
    {
      var i :| 0 <= i < |bounds| && bounds[i] == f;
      var j :| 0 <= j < |bounds| && bounds[j] == g;
    }
  }

  /** Discovery begins inside its invariant. */
  lemma InitialKept(img: Image, spans: seq<Fn>, bounds: seq<Fn>)
    requires Disjoint(bounds) && SameCover(spans, bounds) && NoneBeyond(img, Universe(img, bounds), bounds)
    ensures Kept(img, spans, Universe(img, bounds), Initial(img, bounds))
  {
    hide NoneBeyond, Laminar, DistinctStarts, BranchTargets, Bounds, Disjoint;
    InitialFns(img, bounds);
    InitialTargets(img, bounds, Universe(img, bounds));
    DisjointIsLaminar(bounds);
  }

  // ----- coming to rest -----

  lemma SubsetSize(a: set<nat>, b: set<nat>)
    requires a <= b
    ensures |a| <= |b|
  {
    var rest := b - a;
    assert b == a + rest && a !! rest;
  }

  lemma {:induction false} StartsCount(fns: seq<Fn>)
    requires DistinctStarts(fns)
    ensures |Starts(fns)| == |fns|
    decreases |fns|
  {
    if fns != [] {
      var n := |fns| - 1;
      var before := fns[..n];
      StartsCount(before);
      assert fns[n].start !in Starts(before);
      forall x
        ensures x in Starts(fns) <==> x in Starts(before) || x == fns[n].start
      {
        assert fns == before + [fns[n]];
        if x in Starts(before) {
          var f :| f in before && f.start == x;
          assert f in fns;
        }
        assert fns[n] in fns;
      }
      assert Starts(fns) == Starts(before) + {fns[n].start};
    }
  }

  /** There is only room for so many functions. */
  lemma RoomForAll(u: set<nat>, st: State)
    requires DistinctStarts(st.fns) && Within(st, u)
    ensures |st.fns| <= |u|
  {
    StartsCount(st.fns);
    SubsetSize(Starts(st.fns), u);
  }

  lemma {:induction false} VisitsGrow(img: Image, spans: seq<Fn>, snapshot: seq<Fn>, st: State, todo: seq<nat>)
    ensures var r := Visits(img, spans, snapshot, st, todo);
            |st.fns| <= |r.fns| && (|r.fns| == |st.fns| ==> r == st)
    decreases |todo|
  {
    hide EndFor, Refs;
    if todo != [] {
      VisitsGrow(img, spans, snapshot, st, todo[..|todo| - 1]);
    }
  }

  /** A pass that adds no function changes nothing at all. */
  lemma IdlePass(img: Image, spans: seq<Fn>, st: State)
    ensures |st.fns| <= |Pass(img, spans, st).fns|
    ensures Converged(img, spans, st) <==> Pass(img, spans, st) == st
  {
    VisitsGrow(img, spans, st.fns, st, Sorted(Undefined(st)));
  }

  /** Any number of passes keeps the invariant; and as many as there is room for more functions reach a fixpoint. */
  lemma {:induction false} PassesComeToRest(img: Image, spans: seq<Fn>, u: set<nat>, st: State, n: nat)
    requires Kept(img, spans, u, st)
    ensures Kept(img, spans, u, Discovered(img, spans, st, n))
    ensures n + |st.fns| >= |u| ==> Pass(img, spans, Discovered(img, spans, st, n)) == Discovered(img, spans, st, n)
    decreases n
  {
    hide Pass, CodeCovered, NoneBeyond, BranchTargets, Laminar;
    var next := Pass(img, spans, st);
    IdlePass(img, spans, st);
    PassKeeps(img, spans, u, st);
    RoomForAll(u, next);
    if n > 0 && |next.fns| != |st.fns| {
      PassesComeToRest(img, spans, u, next, n - 1);
    }
  }

  // ----- at rest -----

  lemma {:induction false} IdleVisits(img: Image, spans: seq<Fn>, snapshot: seq<Fn>, st: State, todo: seq<nat>, i: nat)
    requires i < |todo| && |Visits(img, spans, snapshot, st, todo).fns| == |st.fns|
    ensures var e := EndFor(img, spans, snapshot, todo[i]);
            e.None? || e.value <= todo[i]
    decreases |todo|
  {
    hide EndFor, Refs;
    var n := |todo| - 1;
    VisitsGrow(img, spans, snapshot, st, todo[..n]);
    if i < n {
      IdleVisits(img, spans, snapshot, st, todo[..n], i);
    }
  }

  /** At rest, an undefined target is one that discovery refuses: no instruction there, or outside the trusted
      code and too far from the next function or not decoding like code. */
  lemma RestIsClosed(img: Image, spans: seq<Fn>, u: set<nat>, st: State, t: nat)
    requires Kept(img, spans, u, st) && Pass(img, spans, st) == st && t in st.targets && t !in Starts(st.fns)
    ensures EndFor(img, spans, st.fns, t).None?
    ensures ContainerEnd(st.fns, t).None? && !Covered(spans, t)
    ensures HasInsn(img, t) ==> NextKey(Starts(st.fns), t).Some?
    ensures HasInsn(img, t) ==> NextKey(Starts(st.fns), t).value - t > 0x4000 || !Plausible(img, t)
  {
    hide EndFor, CodeCovered, NoneBeyond, BranchTargets, Laminar, DistinctStarts, Plausible, HasInsn, NextKey,
         ContainerEnd, Covered;
    SortedMeaning(Undefined(st));
    var todo := Sorted(Undefined(st));
    assert t in todo;
    var i :| 0 <= i < |todo| && todo[i] == t;
    IdleVisits(img, spans, st.fns, st, todo, i);
    if EndFor(img, spans, st.fns, t).Some? {
      LiftedEnd(img, spans, u, st.fns, t);
    }
    Refusal(img, spans, st.fns, t);
    if Covered(spans, t) {
      CodeTargetHasContainer(spans, st.fns, t);
    }
    if HasInsn(img, t) {
      GapTargetHasNext(img, u, st.fns, t);
    }
  }

  lemma Refusal(img: Image, spans: seq<Fn>, fns: seq<Fn>, t: nat)
    ensures EndFor(img, spans, fns, t).None? && HasInsn(img, t) ==>
              ContainerEnd(fns, t).None? && !Covered(spans, t)
              && (NextKey(Starts(fns), t).Some? ==> NextKey(Starts(fns), t).value - t > 0x4000 || !Plausible(img, t))
    ensures EndFor(img, spans, fns, t).None? ==> ContainerEnd(fns, t).None?
  {
    hide Plausible, HasInsn, ContainerEnd, Starts, SpanEnd, Covered;
    NextKeyMeaning(Starts(fns), t, 0);
  }

  // ----- references -----

  /** Every function a lifted body refers to is recorded as a target. */
  predicate Recorded(img: Image, st: State) { forall f :: f in st.fns ==> Refs(img, f) <= st.targets }

  lemma LiftRecords(img: Image, st: State, f: Fn)
    requires Recorded(img, st)
    ensures Recorded(img, Lift(img, st, f))
  {
    hide Refs;
  }

  lemma {:induction false} VisitsRecord(img: Image, spans: seq<Fn>, snapshot: seq<Fn>, st: State, todo: seq<nat>)
    requires Recorded(img, st)
    ensures Recorded(img, Visits(img, spans, snapshot, st, todo))
    decreases |todo|
  {
    hide Recorded, EndFor, Lift;
    if todo != [] {
      var n := |todo| - 1;
      VisitsRecord(img, spans, snapshot, st, todo[..n]);
      var mid := Visits(img, spans, snapshot, st, todo[..n]);
      var e := EndFor(img, spans, snapshot, todo[n]);
      if e.Some? && e.value > todo[n] {
        LiftRecords(img, mid, Fn(todo[n], e.value));
      }
    }
  }

  lemma {:induction false} InitialRecorded(img: Image, bounds: seq<Fn>)
    ensures Recorded(img, Initial(img, bounds))
    decreases |bounds|
  {
    hide Refs;
    if bounds != [] {
      InitialRecorded(img, bounds[..|bounds| - 1]);
      LiftRecords(img, Initial(img, bounds[..|bounds| - 1]), bounds[|bounds| - 1]);
    }
  }

  lemma {:induction false} DiscoveryRecords(img: Image, spans: seq<Fn>, st: State, n: nat)
    requires Recorded(img, st)
    ensures Recorded(img, Discovered(img, spans, st, n))
    decreases n
  {
    hide Recorded, Visits;
    if n > 0 {
      VisitsRecord(img, spans, st.fns, st, Sorted(Undefined(st)));
      var next := Pass(img, spans, st);
      if |next.fns| != |st.fns| {
        DiscoveryRecords(img, spans, next, n - 1);
      }
    }
  }

  // ----- emitted symbols -----

  /** `func_X` and `func_X_lifted`. */
  datatype Name = Func(addr: nat) | Lifted(addr: nat)

  /** The other objects of the link: each defines func_X for exactly its listed addresses. */
  datatype Link = Link(externs: set<nat>, overrides: set<nat>)

  function Bodies(st: State, link: Link): (q: seq<Name>)
    ensures |q| == |st.fns|
  {
    seq(|st.fns|, (i: nat) requires i < |st.fns| =>
      if st.fns[i].start in link.overrides then Lifted(st.fns[i].start) else Func(st.fns[i].start))
  }

  function Funcs(addrs: seq<nat>): (q: seq<Name>)
    ensures |q| == |addrs|
  {
    seq(|addrs|, (i: nat) requires i < |addrs| => Func(addrs[i]))
  }

  /** Bodies of the lifted functions, no-op stubs, and what the other objects define. */
  function Definitions(st: State, link: Link): seq<Name> {
    Bodies(st, link) + Funcs(Sorted(Undefined(st) - link.externs)) + Funcs(Sorted(link.externs))
      + Funcs(Sorted(link.overrides))
  }

  predicate DistinctNames(q: seq<Name>) { forall i, j :: 0 <= i < j < |q| ==> q[i] != q[j] }

  lemma {:induction false} CountOfDistinct(q: seq<Name>, n: Name)
    requires DistinctNames(q)
    ensures multiset(q)[n] == if n in q then 1 else 0
    decreases |q|
  {
    if q != [] {
      var k := |q| - 1;
      assert q == q[..k] + [q[k]];
      CountOfDistinct(q[..k], n);
      assert q[k] !in q[..k];
    }
  }

  lemma BodyCount(st: State, link: Link, a: nat)
    requires DistinctStarts(st.fns)
    ensures multiset(Bodies(st, link))[Func(a)] == if a in Starts(st.fns) && a !in link.overrides then 1 else 0
    ensures multiset(Bodies(st, link))[Lifted(a)] == if a in Starts(st.fns) && a in link.overrides then 1 else 0
  {
    var q := Bodies(st, link);
    CountOfDistinct(q, Func(a));
    CountOfDistinct(q, Lifted(a));
    if a in Starts(st.fns) {
      var f :| f in st.fns && f.start == a;
      var i :| 0 <= i < |st.fns| && st.fns[i] == f;
      assert q[i] == if a in link.overrides then Lifted(a) else Func(a);
    }
  }

  lemma FuncCount(s: set<nat>, a: nat)
    ensures multiset(Funcs(Sorted(s)))[Func(a)] == if a in s then 1 else 0
    ensures multiset(Funcs(Sorted(s)))[Lifted(a)] == 0
  {
    SortedMeaning(s);
    var q, addrs := Funcs(Sorted(s)), Sorted(s);
    CountOfDistinct(q, Func(a));
    CountOfDistinct(q, Lifted(a));
    if a in s {
      assert a in addrs;
      var i :| 0 <= i < |addrs| && addrs[i] == a;
      assert q[i] == Func(a);
    }
  }

  lemma CountOfSum(p: seq<Name>, q: seq<Name>, n: Name)
    ensures multiset(p + q)[n] == multiset(p)[n] + multiset(q)[n]
  {
  }

  /** How often a referenced name is defined. */
  lemma DefinitionCount(st: State, link: Link, a: nat)
    requires DistinctStarts(st.fns)
    requires a in st.targets || a in Starts(st.fns)
    ensures multiset(Definitions(st, link))[Func(a)]
            == (if a in Starts(st.fns) then (if a in link.overrides then 0 else 1)
                else (if a in link.externs then 0 else 1))
               + (if a in link.externs then 1 else 0) + (if a in link.overrides then 1 else 0)
    ensures multiset(Definitions(st, link))[Lifted(a)] == if a in Starts(st.fns) && a in link.overrides then 1 else 0
  {
    hide Starts, Sorted, Bodies, Funcs, DistinctStarts;
    BodyCount(st, link, a);
    FuncCount(Undefined(st) - link.externs, a);
    FuncCount(link.externs, a);
    FuncCount(link.overrides, a);
    var p := Bodies(st, link);
    var q, r, s := Funcs(Sorted(Undefined(st) - link.externs)), Funcs(Sorted(link.externs)),
      Funcs(Sorted(link.overrides));
    CountOfSum(p, q, Func(a));
    CountOfSum(p, q, Lifted(a));
    CountOfSum(p + q, r, Func(a));
    CountOfSum(p + q, r, Lifted(a));
    CountOfSum(p + q + r, s, Func(a));
    CountOfSum(p + q + r, s, Lifted(a));
  }

  /** A name the emitted code refers to, in a body or in the function table, has exactly one definition iff no
      extern is also lifted or overridden and every override was lifted. */
  lemma OneDefinitionIff(img: Image, st: State, link: Link, a: nat)
    requires DistinctStarts(st.fns) && Recorded(img, st)
    requires a in Starts(st.fns) || exists f :: f in st.fns && a in Refs(img, f)
    ensures multiset(Definitions(st, link))[Func(a)] == 1 <==>
              (a in link.externs ==> a !in Starts(st.fns) && a !in link.overrides)
              && (a in link.overrides ==> a in Starts(st.fns))
  {
    hide Starts, Definitions, DistinctStarts, Refs;
    if a !in Starts(st.fns) {
      var f :| f in st.fns && a in Refs(img, f);
      assert a in st.targets;
    }
    DefinitionCount(st, link, a);
  }
}
