/** The lifter object itself: its growing function list and target set, the binary searches of a discovery pass,
    and the 30-pass driver (tools/ppu_lifter.py), against the functions of module Discovery. */
module DiscoveryLifter {
  import opened Basics
  import opened FunctionBounds
  import opened Discovery
  import opened DiscoveryPasses
  import opened DiscoveryClosure
  import opened DiscoveryCap

  // ----- sorted intervals -----

  function EndOf(fns: seq<Fn>, s: nat): nat
    requires s in Starts(fns)
  {
    if fns[0].start == s then fns[0].end else EndOf(fns[1..], s)
  }

  /** `sorted((f.start_addr, f.end_addr) for f in functions)`, for distinct starts. */
  function Intervals(fns: seq<Fn>): seq<Fn> {
    var q := Sorted(Starts(fns));
    SortedMeaning(Starts(fns));
    seq(|q|, (k: nat) requires k < |q| => Fn(q[k], EndOf(fns, q[k])))
  }

  ghost predicate SameMembers(a: seq<Fn>, b: seq<Fn>) { forall f :: f in a <==> f in b }

  predicate StrictlyByStart(fs: seq<Fn>) { forall i, j :: 0 <= i < j < |fs| ==> fs[i].start < fs[j].start }

  lemma {:induction false} EndOfMember(fns: seq<Fn>, s: nat)
    requires s in Starts(fns)
    ensures Fn(s, EndOf(fns, s)) in fns
    decreases |fns|
  {
    if fns[0].start != s {
      EndOfMember(fns[1..], s);
    }
  }

  lemma IntervalsMeaning(fns: seq<Fn>)
    requires DistinctStarts(fns)
    ensures StrictlyByStart(Intervals(fns)) && SameMembers(Intervals(fns), fns)
  {
    hide EndOf, Sorted, DistinctStarts;
    SortedMeaning(Starts(fns));
    var q, r := Sorted(Starts(fns)), Intervals(fns);
    forall f
      ensures f in r <==> f in fns
    {
      if f in r {
        var k :| 0 <= k < |r| && r[k] == f;
        assert q[k] in q;
        EndOfMember(fns, q[k]);
      }
      if f in fns {
        StartIn(fns, f);
        assert f.start in q;
        var k :| 0 <= k < |q| && q[k] == f.start;
        EndOfMember(fns, f.start);
        SameStart(fns, f, Fn(f.start, EndOf(fns, f.start)));
        assert r[k] == f;
      }
    }
  }

  lemma EndsAscend(fs: seq<Fn>, i: nat, j: nat)
    requires StrictlyByStart(fs) && Laminar(fs) && i <= j < |fs|
    ensures fs[i].end <= fs[j].end && fs[i].start <= fs[j].start
  {
    assert fs[i] in fs && fs[j] in fs;
    assert Compatible(fs[i], fs[j]);
  }

  /** The binary search of a pass finds a function strictly containing the target iff there is one. */
  method FindContainer(intervals: seq<Fn>, target: nat) returns (r: Option<Fn>)
    requires StrictlyByStart(intervals) && Laminar(intervals) && target !in Starts(intervals)
    ensures r.Some? ==> r.value in intervals && Contains(r.value, target)
    ensures r.Some? <==> exists f :: f in intervals && Contains(f, target)
  {
    var lo, hi := 0, |intervals| - 1;
    while lo <= hi
      invariant 0 <= lo <= |intervals| && -1 <= hi < |intervals|
      invariant forall k :: 0 <= k < lo ==> intervals[k].end <= target
      invariant forall k :: hi < k < |intervals| ==> target < intervals[k].start
      decreases hi - lo
    {
      hide Laminar, StrictlyByStart, Starts;
      var mid := (lo + hi) / 2;
      var f := intervals[mid];
      if target < f.start {
        forall k | mid <= k < |intervals|
          ensures target < intervals[k].start
        {
          EndsAscend(intervals, mid, k);
        }
        hi := mid - 1;
      } else if target >= f.end {
        forall k | 0 <= k <= mid
          ensures intervals[k].end <= target
        {
          EndsAscend(intervals, k, mid);
        }
        lo := mid + 1;
      } else {
        StartIn(intervals, f);
        return Some(f);
      }
    }
    forall f | f in intervals
      ensures !Contains(f, target)
    {
      var k :| 0 <= k < |intervals| && intervals[k] == f;
    }
    return None;
  }

  /** bisect_right over the starts: how many ranges begin at or before an address. */
  method BisectStarts(fs: seq<Fn>, a: nat) returns (n: nat)
    requires ByStart(fs)
    ensures n <= |fs| && (forall k :: 0 <= k < n ==> fs[k].start <= a)
            && (forall k :: n <= k < |fs| ==> a < fs[k].start)
  {
    var lo, hi := 0, |fs|;
    while lo < hi
      invariant 0 <= lo <= hi <= |fs|
      invariant forall k :: 0 <= k < lo ==> fs[k].start <= a
      invariant forall k :: hi <= k < |fs| ==> a < fs[k].start
    {
      var mid := (lo + hi) / 2;
      if a < fs[mid].start { hi := mid; } else { lo := mid + 1; }
    }
    return lo;
  }

  /** n instructions lie below an address. */
  predicate SplitAt(img: Image, a: nat, n: nat) {
    n <= |img| && (forall k :: 0 <= k < n ==> img[k].addr < a) && (forall k :: n <= k < |img| ==> a <= img[k].addr)
  }

  /** bisect_left over the instruction addresses. */
  method BisectAddrs(img: Image, a: nat) returns (n: nat)
    ensures SplitAt(img, a, n)
  {
    var lo, hi := 0, |img|;
    while lo < hi
      invariant 0 <= lo <= hi <= |img|
      invariant forall k :: 0 <= k < lo ==> img[k].addr < a
      invariant forall k :: hi <= k < |img| ==> a <= img[k].addr
    {
      var mid := (lo + hi) / 2;
      if img[mid].addr < a { lo := mid + 1; } else { hi := mid; }
    }
    return lo;
  }

  lemma {:induction false} IndexIs(img: Image, a: nat, n: nat)
    requires SplitAt(img, a, n)
    ensures IndexOf(img, a) == n
    decreases |img|
  {
    if img != [] && img[0].addr < a {
      IndexIs(img[1..], a, n - 1);
    }
  }

  /** `_in_code`, and the end of the span when inside. */
  method FindSpan(spans: seq<Fn>, a: nat) returns (inCode: bool, end: nat)
    requires Apart(spans)
    ensures inCode <==> Covered(spans, a)
    ensures end == SpanEnd(spans, a)
  {
    var n := BisectStarts(spans, a);
    SpanAt(spans, a, n);
    inCode := n > 0 && a < spans[n - 1].end;
    end := if inCode then spans[n - 1].end else a;
  }

  lemma SpanAt(spans: seq<Fn>, a: nat, n: nat)
    requires Apart(spans) && n <= |spans|
    requires (forall k :: 0 <= k < n ==> spans[k].start <= a) && (forall k :: n <= k < |spans| ==> a < spans[k].start)
    ensures Covered(spans, a) <==> n > 0 && a < spans[n - 1].end
    ensures SpanEnd(spans, a) == if n > 0 && a < spans[n - 1].end then spans[n - 1].end else a
  {
    if n > 0 && a < spans[n - 1].end {
      assert spans[n - 1] in spans && Inside(spans[n - 1], a);
      SpanEndAt(spans, a, n - 1);
    } else {
      forall k | 0 <= k < |spans|
        ensures !Inside(spans[k], a)
      {
      }
      SpanEndOutside(spans, a);
    }
  }

  lemma {:induction false} SpanEndAt(spans: seq<Fn>, a: nat, k: nat)
    requires Apart(spans) && k < |spans| && Inside(spans[k], a)
    ensures SpanEnd(spans, a) == spans[k].end
    decreases k
  {
    if k > 0 {
      assert spans[0].end < spans[k].start;
      SpanEndAt(spans[1..], a, k - 1);
    }
  }

  lemma {:induction false} SpanEndOutside(spans: seq<Fn>, a: nat)
    requires forall k :: 0 <= k < |spans| ==> !Inside(spans[k], a)
    ensures SpanEnd(spans, a) == a
    decreases |spans|
  {
    if spans != [] {
      SpanEndOutside(spans[1..], a);
    }
  }

  /** The 16-instruction probe. */
  method Probe(img: Image, t: nat) returns (ok: bool)
    ensures ok == Plausible(img, t)
  {
    var lo := BisectAddrs(img, t);
    IndexIs(img, t, lo);
    var probe := img[lo..if lo + 16 <= |img| then lo + 16 else |img|];
    if probe == [] || probe[0].addr != t { return false; }
    var i := 0;
    while i < |probe|
      invariant 0 <= i <= |probe|
      invariant Decodes(probe) == Decodes(probe[i..])
    {
      if probe[i].kind.Data? { return false; }
      if Transfers(probe[i].kind) { return true; }
      i := i + 1;
    }
    return true;
  }

  // ----- the lifter -----

  class Lifter {
    const img: Image
    const spans: seq<Fn>
    var functions: seq<Fn>
    var targets: set<nat>

    ghost function St(): State
      reads this
    {
      State(functions, targets)
    }

    constructor (img: Image, spans: seq<Fn>)
      ensures this.img == img && this.spans == spans && functions == [] && targets == {}
    {
      this.img := img;
      this.spans := spans;
      functions := [];
      targets := {};
    }

    /** lift_function: translate the window, noting each function it mentions and where it falls through. */
    method LiftFunction(start: nat, end: nat)
      modifies this
      ensures St() == Lift(img, old(St()), Fn(start, end))
    {
      hide SplitAt, MentionedBefore, MentionedBy, FallsThrough, Mentions, Ends;
      var lo := BisectAddrs(img, start);
      var hi := BisectAddrs(img, end);
      NoneMentionedYet(img, start, end, lo);
      var mentioned: set<nat> := {};
      var i := lo;
      while i < hi
        invariant lo <= i && (i <= hi || lo > hi)
        invariant mentioned == MentionedBefore(img, start, end, i)
        invariant functions == old(functions) && targets == old(targets)
      {
        MentionedStep(img, start, end, lo, hi, i);
        if Mentions(img[i].kind, start, end) {
          MentionsTarget(img[i].kind, start, end);
          mentioned := mentioned + {img[i].kind.target};
        }
        i := i + 1;
      }
      MentionedAll(img, start, end, lo, hi, i);
      WindowFalls(img, start, end, lo, hi);
      if lo < hi && !Ends(img[hi - 1].kind) {
        mentioned := mentioned + {end};
      }
      assert mentioned == Refs(img, Fn(start, end));
      targets := targets + mentioned;
      functions := functions + [Fn(start, end)];
    }

    /** How a pass treats one undefined target, against the intervals of its start. */
    method Decide(intervals: seq<Fn>, ghost snapshot: seq<Fn>, t: nat) returns (end: Option<nat>)
      requires StrictlyByStart(intervals) && SameMembers(intervals, snapshot) && Laminar(snapshot)
               && t !in Starts(snapshot)
      requires Apart(spans)
      ensures end == EndFor(img, spans, snapshot, t)
    {
      hide Plausible, Starts, Laminar, Covered, SpanEnd, ContainerEnd, NextKey, Apart;
      SameMembersSameFacts(intervals, snapshot);
      var container := FindContainer(intervals, t);
      ContainerAgrees(intervals, snapshot, t);
      if container.Some? {
        ContainersShareTheEnd(snapshot, container.value, t);
        return Some(container.value.end);
      }
      var at := BisectAddrs(img, t);
      InsnAt(img, t, at);
      if at == |img| || img[at].addr != t { return None; }
      var ni := BisectStarts(intervals, t);
      NextAgrees(intervals, snapshot, t, ni);
      var e := if ni < |intervals| then intervals[ni].start else t + 0x1000;
      var inCode, spanEnd := FindSpan(spans, t);
      if inCode { return Some(Min(e, spanEnd)); }
      if e - t > 0x4000 { return None; }
      var ok := Probe(img, t);
      if !ok { return None; }
      return Some(e);
    }

    /** generate_mid_function_entries: one pass over the undefined targets, in ascending order. */
    method GenerateMidFunctionEntries() returns (count: nat)
      requires Laminar(functions) && DistinctStarts(functions) && Apart(spans)
      modifies this
      ensures St() == Pass(img, spans, old(St()))
      ensures count == |functions| - |old(functions)|
    {
      hide EndFor, Refs, Sorted, Intervals, StrictlyByStart, SameMembers, Laminar, Apart, Undefined;
      ghost var was := St();
      var snapshot := functions;
      var todo := Sorted(targets - Starts(functions));
      UndefinedIs(was);
      SortedMeaning(Undefined(was));
      IntervalsMeaning(snapshot);
      var intervals := Intervals(snapshot);
      count := 0;
      var i := 0;
      while i < |todo|
        invariant 0 <= i <= |todo|
        invariant St() == Visits(img, spans, snapshot, was, todo[..i])
        invariant count == |functions| - |snapshot|
      {
        assert todo[..i + 1][..i] == todo[..i];
        var t := todo[i];
        assert t in todo;
        var end := Decide(intervals, snapshot, t);
        if end.Some? && end.value > t {
          LiftFunction(t, end.value);
          count := count + 1;
        }
        i := i + 1;
      }
      assert todo[..i] == todo;
    }

    /** The driver: at most 30 passes, stopping after one that adds nothing. */
    method Discover(ghost u: set<nat>)
      requires Kept(img, spans, u, St()) && Apart(spans)
      modifies this
      ensures St() == Discovered(img, spans, old(St()), MAX_PASSES)
      ensures Kept(img, spans, u, St())
    {
      hide Laminar, DistinctStarts, CodeCovered, Within, NoneBeyond, Apart, BranchTargets, Pass, Discovered;
      PassesComeToRest(img, spans, u, St(), MAX_PASSES);
      var pass := 0;
      while pass < MAX_PASSES
        invariant 0 <= pass <= MAX_PASSES
        invariant Kept(img, spans, u, St())
        invariant Discovered(img, spans, St(), MAX_PASSES - pass) == Discovered(img, spans, old(St()), MAX_PASSES)
      {
        ghost var before := St();
        PassKeeps(img, spans, u, before);
        OnePass(img, spans, before, MAX_PASSES - pass);
        var n := GenerateMidFunctionEntries();
        if n == 0 { return; }
        pass := pass + 1;
      }
      NoPass(img, spans, St());
    }
  }

  lemma OnePass(img: Image, spans: seq<Fn>, st: State, n: nat)
    requires n > 0
    ensures Discovered(img, spans, st, n)
         == (var next := Pass(img, spans, st);
             if |next.fns| == |st.fns| then next else Discovered(img, spans, next, n - 1))
  {
    hide Pass;
  }

  lemma NoPass(img: Image, spans: seq<Fn>, st: State)
    ensures Discovered(img, spans, st, 0) == st
  {
  }

  lemma UndefinedIs(st: State)
    ensures Undefined(st) == st.targets - Starts(st.fns)
    ensures forall t :: t in Undefined(st) ==> t !in Starts(st.fns)
  {
  }

  lemma SameMembersSameFacts(a: seq<Fn>, b: seq<Fn>)
    requires SameMembers(a, b) && Laminar(b) && StrictlyByStart(a)
    ensures Laminar(a) && Starts(a) == Starts(b) && ByStart(a)
  {
  }

  lemma ContainerAgrees(a: seq<Fn>, b: seq<Fn>, t: nat)
    requires SameMembers(a, b)
    ensures (exists f :: f in a && Contains(f, t)) <==> ContainerEnd(b, t).Some?
    ensures forall f :: f in a ==> f in b
  {
    ContainerEndMeaning(b, t);
    if f :| f in a && Contains(f, t) {
      assert f in b;
    }
    if f :| f in b && Contains(f, t) {
      assert f in a;
    }
  }

  lemma InsnAt(img: Image, t: nat, at: nat)
    requires SplitAt(img, t, at)
    ensures HasInsn(img, t) <==> at < |img| && img[at].addr == t
  {
  }

  lemma NextAgrees(a: seq<Fn>, b: seq<Fn>, t: nat, n: nat)
    requires SameMembers(a, b) && StrictlyByStart(a) && n <= |a|
    requires (forall k :: 0 <= k < n ==> a[k].start <= t) && (forall k :: n <= k < |a| ==> t < a[k].start)
    ensures NextKey(Starts(b), t) == if n < |a| then Some(a[n].start) else None
  {
    var r := NextKey(Starts(b), t);
    NextKeyMeaning(Starts(b), t, 0);
    if n < |a| {
      assert a[n] in b;
      StartIn(b, a[n]);
      NextKeyMeaning(Starts(b), t, a[n].start);
    }
    if r.Some? {
      var f :| f in b && f.start == r.value;
      var k :| 0 <= k < |a| && a[k] == f;
    }
  }

  /** From a detector's clipped ranges to the discovered functions. */
  method LiftAll(img: Image, bounds: seq<Fn>) returns (lifter: Lifter, spans: seq<Fn>)
    requires Disjoint(bounds) && NoneBeyond(img, Universe(img, bounds), bounds)
    ensures SameCover(spans, bounds)
    ensures lifter.St() == Discovered(img, spans, Initial(img, bounds), MAX_PASSES)
    ensures Kept(img, spans, Universe(img, bounds), lifter.St()) && Recorded(img, lifter.St())
  {
    hide NoneBeyond, Lift, Refs, Kept, Discovered, SameCover, Apart, Universe, Recorded;
    DisjointByStart(bounds);
    spans := MergeSpans(bounds);
    lifter := new Lifter(img, spans);
    var i := 0;
    assert bounds[..0] == [];
    while i < |bounds|
      invariant 0 <= i <= |bounds|
      invariant lifter.img == img && lifter.spans == spans
      invariant fresh(lifter) && lifter.St() == Initial(img, bounds[..i])
    {
      assert bounds[..i + 1][..i] == bounds[..i];
      lifter.LiftFunction(bounds[i].start, bounds[i].end);
      i := i + 1;
    }
    assert bounds[..i] == bounds;
    InitialKept(img, spans, bounds);
    InitialRecorded(img, bounds);
    DiscoveryRecords(img, spans, Initial(img, bounds), MAX_PASSES);
    lifter.Discover(Universe(img, bounds));
  }

  /** What clipping leaves is what the lifter demands: non-empty ranges in order, none reaching into the next. */
  lemma ClippedBoundsAreDisjoint(ends: map<nat, nat>)
    ensures Disjoint(BoundsOf(Clipped(ends)))
  {
    hide Clipped, BoundsOf;
    var c := Clipped(ends);
    var b := BoundsOf(c);
    BoundsOfMeaning(c);
    SameKeys(ends);
    forall i | 0 <= i < |b|
      ensures b[i].start in ends && c[b[i].start] == b[i].end && b[i].start < b[i].end
    {
      assert b[i] in b;
      ClippedIsDisjoint(ends, b[i].start, b[i].start);
    }
    forall i, j | 0 <= i < j < |b|
      ensures b[i].end <= b[j].start
    {
      ClippedIsDisjoint(ends, b[i].start, b[j].start);
    }
  }

  lemma SameKeys(ends: map<nat, nat>)
    ensures Clipped(ends).Keys == ends.Keys
  {
    hide ClippedEnd, NextKey;
  }

  /** From what a scan found, overlaps and all, to the discovered functions: clip, merge, lift, discover. */
  method LiftDetected(img: Image, detector: Detector) returns (lifter: Lifter, spans: seq<Fn>)
    requires var bounds := BoundsOf(Clipped(detector.ends)); NoneBeyond(img, Universe(img, bounds), bounds)
    modifies detector
    ensures detector.ends == Clipped(old(detector.ends))
    ensures var bounds := BoundsOf(detector.ends);
            && SameCover(spans, bounds)
            && lifter.St() == Discovered(img, spans, Initial(img, bounds), MAX_PASSES)
            && Kept(img, spans, Universe(img, bounds), lifter.St()) && Recorded(img, lifter.St())
  {
    hide *;
    ghost var was := detector.ends;
    var _ := detector.ClipOverlaps();
    ClippedBoundsAreDisjoint(was);
    lifter, spans := LiftAll(img, BoundsOf(detector.ends));
  }

  lemma DisjointByStart(bounds: seq<Fn>)
    requires Disjoint(bounds)
    ensures ByStart(bounds) && NonEmpty(bounds)
  {
  }

  lemma MentionsTarget(k: Kind, start: nat, end: nat)
    requires Mentions(k, start, end)
    ensures k.Branch? || k.Call? || k.CondBranch?
  {
  }

  function MentionedBefore(img: Image, start: nat, end: nat, n: nat): set<nat> {
    set i | 0 <= i < |img| && i < n && InWindow(img, start, end, i) && Mentions(img[i].kind, start, end)
      :: img[i].kind.target
  }

  lemma MentionedAll(img: Image, start: nat, end: nat, lo: nat, hi: nat, n: nat)
    requires SplitAt(img, start, lo) && SplitAt(img, end, hi) && lo <= n && (n == hi || lo >= hi)
    ensures MentionedBefore(img, start, end, n) == MentionedBy(img, start, end)
  {
  }

  lemma NoneMentionedYet(img: Image, start: nat, end: nat, lo: nat)
    requires SplitAt(img, start, lo)
    ensures MentionedBefore(img, start, end, lo) == {}
  {
  }

  lemma MentionedStep(img: Image, start: nat, end: nat, lo: nat, hi: nat, i: nat)
    requires SplitAt(img, start, lo) && SplitAt(img, end, hi) && lo <= i < hi
    ensures i < |img|
    ensures MentionedBefore(img, start, end, i + 1)
         == MentionedBefore(img, start, end, i)
           + (if Mentions(img[i].kind, start, end) then {img[i].kind.target} else {})
  {
    assert InWindow(img, start, end, i);
    var next := MentionedBefore(img, start, end, i + 1);
    if Mentions(img[i].kind, start, end) {
      assert img[i].kind.target in next;
    }
  }

  lemma WindowFalls(img: Image, start: nat, end: nat, lo: nat, hi: nat)
    requires SplitAt(img, start, lo) && SplitAt(img, end, hi)
    ensures lo < hi ==> hi - 1 < |img|
    ensures FallsThrough(img, start, end) <==> lo < hi && !Ends(img[hi - 1].kind)
  {
    if lo < hi {
      assert IsLast(img, start, end, hi - 1);
    }
    forall i | 0 <= i < |img| && IsLast(img, start, end, i)
      ensures i == hi - 1 && lo < hi
    {
    }
  }
}
