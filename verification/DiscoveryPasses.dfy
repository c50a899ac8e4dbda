/** What the discovery passes keep, and that they come to rest. */
module DiscoveryPasses {
  import opened Basics
  import opened FunctionBounds
  import opened Discovery

  // ----- the ranges one pass adds -----

  /** A range lifted by a pass: an undefined start, running to its container's end or to the next function. */
  predicate Shape(snapshot: seq<Fn>, g: Fn) {
    g.start !in Starts(snapshot) && g.start < g.end
    && Some(g.end) == (if ContainerEnd(snapshot, g.start).Some? then ContainerEnd(snapshot, g.start)
                       else NextKey(Starts(snapshot), g.start))
  }

  /** Either some function strictly contains the start and ends at the same place, or none contains it and no
      function starts before the end. */
  lemma ShapeCases(snapshot: seq<Fn>, g: Fn, f: Fn)
    requires Laminar(snapshot) && Shape(snapshot, g) && f in snapshot
    ensures (exists c :: c in snapshot && Contains(c, g.start) && c.end == g.end)
            || (!Contains(f, g.start) && f.start != g.start && (f.start > g.start ==> g.end <= f.start)
                && g.end in Starts(snapshot))
  {
    hide Laminar, ContainerEnd, NextKey, Starts;
    ContainerEndMeaning(snapshot, g.start);
    StartIn(snapshot, f);
    NextKeyMeaning(Starts(snapshot), g.start, f.start);
  }

  lemma OldVersusNew(snapshot: seq<Fn>, f: Fn, g: Fn)
    requires Laminar(snapshot) && f in snapshot && Shape(snapshot, g)
    ensures Compatible(f, g)
  {
    hide Shape;
    ShapeStart(snapshot, g);
    ShapeCases(snapshot, g, f);
    if exists c :: c in snapshot && Contains(c, g.start) && c.end == g.end {
      var c :| c in snapshot && Contains(c, g.start) && c.end == g.end;
      assert Compatible(f, c);
    }
  }

  lemma ShapeStart(snapshot: seq<Fn>, g: Fn)
    requires Shape(snapshot, g)
    ensures g.start < g.end && g.start !in Starts(snapshot)
  {
  }

  lemma NewVersusNew(snapshot: seq<Fn>, g: Fn, h: Fn)
    requires Laminar(snapshot) && Shape(snapshot, g) && Shape(snapshot, h) && g.start < h.start
    ensures Compatible(g, h)
  {
    hide Shape, Laminar;
    ShapeStart(snapshot, g);
    ShapeStart(snapshot, h);
    GapOrContainer(snapshot, g);
    GapOrContainer(snapshot, h);
    if c :| c in snapshot && Contains(c, g.start) && c.end == g.end {
      OldVersusNew(snapshot, c, h);
      LaminarStarts(snapshot, c);
    } else {
      var n :| n in snapshot && n.start == g.end;
      OldVersusNew(snapshot, n, h);
      LaminarStarts(snapshot, n);
      if d :| d in snapshot && Contains(d, h.start) && d.end == h.end {
        OldVersusNew(snapshot, d, g);
        ShapeCases(snapshot, g, d);
      } else {
        var m :| m in snapshot && m.start == h.end;
        ShapeCases(snapshot, g, m);
        ShapeCases(snapshot, h, n);
      }
    }
  }

  lemma LaminarStarts(fns: seq<Fn>, f: Fn)
    requires Laminar(fns) && f in fns
    ensures f.start < f.end
  {
  }

  lemma GapOrContainer(snapshot: seq<Fn>, g: Fn)
    requires Shape(snapshot, g)
    ensures (exists c :: c in snapshot && Contains(c, g.start) && c.end == g.end)
            || (exists n :: n in snapshot && n.start == g.end)
  {
    ContainerEndMeaning(snapshot, g.start);
    NextKeyMeaning(Starts(snapshot), g.start, 0);
  }

  // ----- during a pass -----

  /** The snapshot, followed by ranges lifted at visited targets. */
  predicate Grown(snapshot: seq<Fn>, fns: seq<Fn>, visited: seq<nat>) {
    |snapshot| <= |fns| && fns[..|snapshot|] == snapshot
    && (forall i :: |snapshot| <= i < |fns| ==> Shape(snapshot, fns[i]) && fns[i].start in visited)
  }

  lemma GrownMember(snapshot: seq<Fn>, fns: seq<Fn>, visited: seq<nat>, f: Fn)
    requires Grown(snapshot, fns, visited) && f in fns
    ensures f in snapshot || (Shape(snapshot, f) && f.start in visited)
  {
    var i :| 0 <= i < |fns| && fns[i] == f;
    if i < |snapshot| {
      assert fns[..|snapshot|][i] == f;
    }
  }

  lemma SnapshotStays(snapshot: seq<Fn>, fns: seq<Fn>, visited: seq<nat>, f: Fn)
    requires Grown(snapshot, fns, visited) && f in snapshot
    ensures f in fns
  {
    var i :| 0 <= i < |snapshot| && snapshot[i] == f;
    assert fns[i] == fns[..|snapshot|][i];
  }

  /** A grown list is still laminar. */
  lemma GrownIsLaminar(snapshot: seq<Fn>, fns: seq<Fn>, visited: seq<nat>)
    requires Laminar(snapshot) && DistinctStarts(fns) && Grown(snapshot, fns, visited)
    ensures Laminar(fns)
  {
    hide Shape, Grown, Compatible;
    forall f | f in fns
      ensures f.start < f.end
    {
      GrownMember(snapshot, fns, visited, f);
      if f !in snapshot {
        ShapeStart(snapshot, f);
      }
    }
    forall f, g | f in fns && g in fns
      ensures Compatible(f, g)
    {
      PairCompatible(snapshot, fns, visited, f, g);
    }
  }

  lemma CompatibleIsSymmetric(f: Fn, g: Fn)
    ensures Compatible(f, g) == Compatible(g, f) && Compatible(f, f)
  {
  }

  lemma SameStart(fns: seq<Fn>, f: Fn, g: Fn)
    requires DistinctStarts(fns) && f in fns && g in fns && f.start == g.start
    ensures f == g
  {
    var i :| 0 <= i < |fns| && fns[i] == f;
    var j :| 0 <= j < |fns| && fns[j] == g;
  }

  lemma PairCompatible(snapshot: seq<Fn>, fns: seq<Fn>, visited: seq<nat>, f: Fn, g: Fn)
    requires Laminar(snapshot) && DistinctStarts(fns) && Grown(snapshot, fns, visited) && f in fns && g in fns
    ensures Compatible(f, g)
  {
    hide Shape, Grown, Compatible, DistinctStarts;
    GrownMember(snapshot, fns, visited, f);
    GrownMember(snapshot, fns, visited, g);
    CompatibleIsSymmetric(f, g);
    if f in snapshot {
      if g !in snapshot {
        OldVersusNew(snapshot, f, g);
      }
    } else if g in snapshot {
      OldVersusNew(snapshot, g, f);
    } else if f.start < g.start {
      NewVersusNew(snapshot, f, g);
    } else if g.start < f.start {
      NewVersusNew(snapshot, g, f);
    } else {
      SameStart(fns, f, g);
    }
  }

  lemma RefsWithin(img: Image, u: set<nat>, f: Fn)
    requires BranchTargets(img) <= u && f.end in u
    ensures Refs(img, f) <= u
  {
    hide FallsThrough, InWindow;
    MentionedAreTargets(img, f.start, f.end);
  }

  lemma MentionedAreTargets(img: Image, start: nat, end: nat)
    ensures MentionedBy(img, start, end) <= BranchTargets(img)
  {
  }

  lemma EndWithin(snapshot: seq<Fn>, u: set<nat>, g: Fn)
    requires Shape(snapshot, g) && Bounds(snapshot) <= u
    ensures g.end in u
  {
    hide Shape;
    GapOrContainer(snapshot, g);
    if c :| c in snapshot && Contains(c, g.start) && c.end == g.end {
      assert c.end in Bounds(snapshot);
    } else {
      var n :| n in snapshot && n.start == g.end;
      assert n.start in Starts(snapshot);
    }
  }

  /** The state in the middle of a pass that began with `snapshot`. */
  predicate Mid(u: set<nat>, snapshot: seq<Fn>, st: State, visited: seq<nat>) {
    Grown(snapshot, st.fns, visited) && DistinctStarts(st.fns) && Within(st, u)
  }

  lemma ShapeOfLift(img: Image, spans: seq<Fn>, u: set<nat>, snapshot: seq<Fn>, t: nat)
    requires CodeCovered(spans, snapshot) && NoneBeyond(img, u, snapshot) && t in u && t !in Starts(snapshot)
    requires EndFor(img, spans, snapshot, t).Some?
    ensures Shape(snapshot, Fn(t, EndFor(img, spans, snapshot, t).value))
  {
    hide EndFor, CodeCovered, NoneBeyond, ContainerEnd, NextKey, Starts;
    LiftedEnd(img, spans, u, snapshot, t);
  }

  lemma GrownByOne(snapshot: seq<Fn>, fns: seq<Fn>, visited: seq<nat>, g: Fn)
    requires Grown(snapshot, fns, visited) && Shape(snapshot, g) && DistinctStarts(fns)
    requires g.start !in visited
    ensures Grown(snapshot, fns + [g], visited + [g.start]) && DistinctStarts(fns + [g])
  {
    hide Shape;
    ShapeStart(snapshot, g);
    assert (fns + [g])[..|snapshot|] == fns[..|snapshot|];
    forall i | 0 <= i < |fns|
      ensures fns[i].start != g.start
    {
      if i < |snapshot| {
        assert fns[i] == fns[..|snapshot|][i];
        StartIn(snapshot, fns[i]);
      }
    }
  }

  lemma WithinByOne(img: Image, u: set<nat>, st: State, g: Fn)
    requires Within(st, u) && BranchTargets(img) <= u && g.start in u && g.end in u
    ensures Within(Lift(img, st, g), u)
  {
    hide Refs;
    RefsWithin(img, u, g);
    var fns := st.fns + [g];
    forall x | x in Bounds(fns)
      ensures x in u
    {
      if x in Starts(fns) {
        var f :| f in fns && f.start == x;
        assert f == g || f.start in Starts(st.fns);
      } else {
        var f :| f in fns && f.end == x;
        assert f == g || f.end in Bounds(st.fns);
      }
    }
  }

  lemma GrownWider(snapshot: seq<Fn>, fns: seq<Fn>, visited: seq<nat>, t: nat)
    requires Grown(snapshot, fns, visited)
    ensures Grown(snapshot, fns, visited + [t])
  {
  }

  lemma VisitKeeps(img: Image, spans: seq<Fn>, u: set<nat>, snapshot: seq<Fn>, st: State, visited: seq<nat>, t: nat)
    requires CodeCovered(spans, snapshot) && NoneBeyond(img, u, snapshot) && BranchTargets(img) <= u
             && Bounds(snapshot) <= u
    requires t in u && t !in Starts(snapshot) && t !in visited
    requires Mid(u, snapshot, st, visited)
    ensures Mid(u, snapshot, Visit(img, spans, snapshot, st, t), visited + [t])
  {
    hide EndFor, CodeCovered, NoneBeyond, BranchTargets, Bounds, Shape, Grown, DistinctStarts, Within, Refs, Starts;
    var e := EndFor(img, spans, snapshot, t);
    if e.Some? && e.value > t {
      var g := Fn(t, e.value);
      ShapeOfLift(img, spans, u, snapshot, t);
      GrownByOne(snapshot, st.fns, visited, g);
      EndWithin(snapshot, u, g);
      WithinByOne(img, u, st, g);
    } else {
      GrownWider(snapshot, st.fns, visited, t);
    }
  }

  predicate Ready(u: set<nat>, snapshot: seq<Fn>, todo: seq<nat>) {
    Ascending(todo) && forall i :: 0 <= i < |todo| ==> todo[i] in u && todo[i] !in Starts(snapshot)
  }

  lemma ReadyPrefix(u: set<nat>, snapshot: seq<Fn>, todo: seq<nat>)
    requires Ready(u, snapshot, todo) && todo != []
    ensures var n := |todo| - 1;
            Ready(u, snapshot, todo[..n]) && todo[n] !in todo[..n] && todo[n] in u && todo[n] !in Starts(snapshot)
            && todo == todo[..n] + [todo[n]]
  {
    hide Starts;
  }

  lemma {:induction false} VisitsKeep(img: Image, spans: seq<Fn>, u: set<nat>, snapshot: seq<Fn>, st: State,
                                      todo: seq<nat>)
    requires CodeCovered(spans, snapshot) && NoneBeyond(img, u, snapshot) && BranchTargets(img) <= u
             && Bounds(snapshot) <= u
    requires Ready(u, snapshot, todo) && Mid(u, snapshot, st, [])
    ensures Mid(u, snapshot, Visits(img, spans, snapshot, st, todo), todo)
    decreases |todo|
  {
    hide CodeCovered, NoneBeyond, BranchTargets, Bounds, Mid, Ready, Starts, Visit;
    if todo != [] {
      var n := |todo| - 1;
      ReadyPrefix(u, snapshot, todo);
      VisitsKeep(img, spans, u, snapshot, st, todo[..n]);
      VisitKeeps(img, spans, u, snapshot, Visits(img, spans, snapshot, st, todo[..n]), todo[..n], todo[n]);
    }
  }

  lemma UndefinedReady(u: set<nat>, st: State)
    requires Within(st, u)
    ensures Ready(u, st.fns, Sorted(Undefined(st)))
  {
    hide Starts, Bounds, Sorted;
    SortedMeaning(Undefined(st));
    var todo := Sorted(Undefined(st));
    forall i | 0 <= i < |todo|
      ensures todo[i] in u && todo[i] !in Starts(st.fns)
    {
      assert todo[i] in Undefined(st);
    }
  }

  lemma NotYetGrown(st: State)
    ensures Grown(st.fns, st.fns, [])
  {
  }

  lemma PassIsMid(img: Image, spans: seq<Fn>, u: set<nat>, st: State)
    requires Kept(img, spans, u, st)
    ensures Mid(u, st.fns, Pass(img, spans, st), Sorted(Undefined(st)))
  {
    hide CodeCovered, NoneBeyond, BranchTargets, Bounds, Starts, Laminar, DistinctStarts, Visits, Sorted, Grown, Ready;
    UndefinedReady(u, st);
    NotYetGrown(st);
    VisitsKeep(img, spans, u, st.fns, st, Sorted(Undefined(st)));
  }

  lemma CoverGrows(spans: seq<Fn>, fns: seq<Fn>, more: seq<Fn>)
    requires CodeCovered(spans, fns) && forall f :: f in fns ==> f in more
    ensures CodeCovered(spans, more)
  {
    forall a: nat | Covered(spans, a)
      ensures Covered(more, a)
    {
      assert Covered(fns, a);
      var f :| f in fns && Inside(f, a);
      assert f in more;
    }
  }

  lemma BeyondGrows(img: Image, u: set<nat>, fns: seq<Fn>, more: seq<Fn>)
    requires NoneBeyond(img, u, fns) && forall f :: f in fns ==> f in more
    ensures NoneBeyond(img, u, more)
  {
    hide HasInsn;
    forall t | t in u && HasInsn(img, t)
      ensures EndsBeyond(more, t)
    {
      assert EndsBeyond(fns, t);
      var f :| f in fns && t < f.end;
      assert f in more;
    }
  }

  /** Every pass keeps the invariant: ranges stay disjoint or share an end. */
  lemma PassKeeps(img: Image, spans: seq<Fn>, u: set<nat>, st: State)
    requires Kept(img, spans, u, st)
    ensures Kept(img, spans, u, Pass(img, spans, st))
  {
    hide CodeCovered, NoneBeyond, BranchTargets, Laminar, DistinctStarts, Pass, Grown, Within, Sorted;
    var next, visited := Pass(img, spans, st), Sorted(Undefined(st));
    PassIsMid(img, spans, u, st);
    GrownIsLaminar(st.fns, next.fns, visited);
    forall f | f in st.fns
      ensures f in next.fns
    {
      SnapshotStays(st.fns, next.fns, visited, f);
    }
    CoverGrows(spans, st.fns, next.fns);
    BeyondGrows(img, u, st.fns, next.fns);
  }
}
