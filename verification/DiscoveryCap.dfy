/** The driver stops after 30 passes (tools/ppu_lifter.py). Module DiscoveryDepth says when n passes are enough; in a
    function whose every instruction branches one back, an address lies deeper than any given n. */
module DiscoveryCap {
  import opened Basics
  import opened FunctionBounds
  import opened Discovery
  import opened DiscoveryClosure
  import opened DiscoveryDepth
  import opened DiscoveryReach

  const MAX_PASSES: nat := 30

  /** The driver comes to rest within its passes iff no address becomes a function in a later round. */
  lemma DriverComesToRestIff(img: Image, spans: seq<Fn>, bounds: seq<Fn>)
    requires Disjoint(bounds) && SameCover(spans, bounds) && NoneBeyond(img, Universe(img, bounds), bounds)
    ensures var st := Discovered(img, spans, Initial(img, bounds), MAX_PASSES);
            Pass(img, spans, st) == st <==> forall t: nat, d: nat :: AtDepth(img, bounds, t, d) ==> d <= MAX_PASSES
  {
    hide Disjoint, SameCover, NoneBeyond, Universe, Discovered, Initial, Pass, AtDepth;
    AtRestIff(img, spans, bounds, MAX_PASSES);
  }

  /** An address one deeper than the passes is referenced and left to a stub, though one more pass would lift it. */
  lemma DeeperIsLeftOver(img: Image, spans: seq<Fn>, bounds: seq<Fn>, n: nat, t: nat)
    requires Disjoint(bounds) && SameCover(spans, bounds) && NoneBeyond(img, Universe(img, bounds), bounds)
    requires AtDepth(img, bounds, t, n + 1)
    ensures var st := Discovered(img, spans, Initial(img, bounds), n);
            t in Undefined(st) && t in Starts(Pass(img, spans, st).fns) && Pass(img, spans, st) != st
  {
    hide Disjoint, SameCover, NoneBeyond, Universe, Discovered, Initial, Pass, Known, Kept, Starts, StartsOf,
         TargetsOf, Ranges, Grant;
    var st := Discovered(img, spans, Initial(img, bounds), n);
    DiscoveryIsKnown(img, spans, bounds, n);
    PassIsRound(img, spans, bounds, st, n);
    SameStarts(st.fns, Known(img, bounds, n));
    SameStarts(Pass(img, spans, st).fns, Known(img, bounds, n + 1));
    StartMeans(Known(img, bounds, n + 1), t);
    var f :| f in Known(img, bounds, n + 1) && f.start == t;
    if f in Known(img, bounds, n) {
      StartOfMember(Known(img, bounds, n), f);
    } else {
      NewlyKnown(img, bounds, n, f);
    }
  }

  function ChainInsn(n: nat, k: nat): Insn
    requires n >= 2
  {
    if k == 0 then Insn(0, Return)
    else if k < n then Insn(4 * k, CondBranch(4 * (k - 1)))
    else if k == n then Insn(4 * n, Call(4 * (n - 1)))
    else Insn(4 * k, Return)
  }

  /** A function of n instructions, and a caller of its last one. */
  function Chain(n: nat): Image
    requires n >= 2
  {
    seq(n + 2, (k: nat) => ChainInsn(n, k))
  }

  function ChainBounds(n: nat): seq<Fn> { [Fn(0, 4 * n), Fn(4 * n, 4 * n + 8)] }

  function Entry(n: nat, j: nat): nat
    requires j < n
  {
    4 * (n - 1 - j)
  }

  /** Both functions, and the last p entries. */
  function Entries(n: nat, p: nat): set<nat>
    requires p <= n
  {
    {0, 4 * n} + (set j | 0 <= j < p :: Entry(n, j))
  }

  lemma ChainMentions(n: nat, p: nat)
    requires n >= 2 && p < n - 1
    ensures MentionedBy(Chain(n), Entry(n, p), 4 * n) == {Entry(n, p + 1)}
  {
    var img, x := Chain(n), Entry(n, p);
    forall i | 0 <= i < |img| && InWindow(img, x, 4 * n, i) && Mentions(img[i].kind, x, 4 * n)
      ensures img[i].kind.target == Entry(n, p + 1)
    {
    }
    var i := n - 1 - p;
    assert InWindow(img, x, 4 * n, i) && Mentions(img[i].kind, x, 4 * n) && img[i].kind.target == Entry(n, p + 1);
  }

  lemma ChainFalls(n: nat, p: nat)
    requires n >= 2 && p < n
    ensures FallsThrough(Chain(n), Entry(n, p), 4 * n)
  {
    var img := Chain(n);
    assert IsLast(img, Entry(n, p), 4 * n, n - 1) && !Ends(img[n - 1].kind);
  }

  lemma FirstRefs(n: nat)
    requires n >= 2
    ensures Refs(Chain(n), Fn(0, 4 * n)) == {4 * n}
  {
    ChainFalls(n, n - 1);
    var img := Chain(n);
    assert MentionedBy(img, 0, 4 * n) == {};
  }

  lemma CallerRefs(n: nat)
    requires n >= 2
    ensures Refs(Chain(n), Fn(4 * n, 4 * n + 8)) == {Entry(n, 0)}
  {
    var img := Chain(n);
    assert InWindow(img, 4 * n, 4 * n + 8, n) && Mentions(img[n].kind, 4 * n, 4 * n + 8);
    assert MentionedBy(img, 4 * n, 4 * n + 8) == {Entry(n, 0)};
    assert !FallsThrough(img, 4 * n, 4 * n + 8);
  }

  lemma ChainSpans(n: nat, a: nat)
    requires n >= 2
    ensures a < 4 * n ==> SpanEnd(ChainBounds(n), a) == 4 * n && Covered(ChainBounds(n), a)
    ensures a == 4 * n ==> SpanEnd(ChainBounds(n), a) == 4 * n + 8 && Covered(ChainBounds(n), a)
  {
    var b := ChainBounds(n);
    assert b[0] in b && b[1] in b && b[1..] == [b[1]];
    assert a < 4 * n ==> Inside(b[0], a);
    assert a == 4 * n ==> Inside(b[1], a);
  }

  /** What each fragment of the chain refers to. */
  lemma ChainOut(n: nat, j: nat)
    requires n >= 2 && j < n
    ensures Out(Chain(n), ChainBounds(n), Entry(n, j)) == if j < n - 1 then {Entry(n, j + 1), 4 * n} else {4 * n}
    ensures Out(Chain(n), ChainBounds(n), 4 * n) == {Entry(n, 0)}
  {
    hide Chain, FallsThrough, MentionedBy, SpanEnd, ChainBounds;
    ChainSpans(n, Entry(n, j));
    ChainSpans(n, 4 * n);
    CallerRefs(n);
    if j < n - 1 {
      ChainMentions(n, j);
      ChainFalls(n, j);
    } else {
      FirstRefs(n);
    }
  }

  lemma EntriesOut(n: nat, p: nat)
    requires n >= 2 && p < n
    ensures OutOf(Chain(n), ChainBounds(n), Entries(n, p)) == {4 * n} + (set j | 0 <= j <= p :: Entry(n, j))
  {
    hide Out, Chain, ChainBounds;
    var out := OutOf(Chain(n), ChainBounds(n), Entries(n, p));
    ChainOut(n, n - 1);
    forall x | x in out
      ensures x in {4 * n} + (set j | 0 <= j <= p :: Entry(n, j))
    {
      var a :| a in Entries(n, p) && x in Out(Chain(n), ChainBounds(n), a);
      if a != 0 && a != 4 * n {
        var j :| 0 <= j < p && a == Entry(n, j);
        ChainOut(n, j);
      }
    }
    forall j | 0 <= j <= p
      ensures Entry(n, j) in out
    {
      if j == 0 {
        assert 4 * n in Entries(n, p);
      } else {
        ChainOut(n, j - 1);
        assert Entry(n, j - 1) in Entries(n, p);
      }
    }
    assert 0 in Entries(n, p);
  }

  lemma {:induction false} ChainReach(n: nat, p: nat)
    requires n >= 2 && p < n
    ensures Reach(Chain(n), ChainBounds(n), p) == Entries(n, p)
    decreases p
  {
    hide Chain, OutOf, Covered;
    if p == 0 {
      ChainStarts(n);
    } else {
      ChainReach(n, p - 1);
      EntriesOut(n, p - 1);
      ChainSpans(n, 4 * n);
      forall j | 0 <= j < p
        ensures Covered(ChainBounds(n), Entry(n, j))
      {
        ChainSpans(n, Entry(n, j));
      }
    }
  }

  lemma ChainStarts(n: nat)
    requires n >= 2
    ensures Starts(ChainBounds(n)) == {0, 4 * n}
  {
    var b := ChainBounds(n);
    assert b[0] in b && b[1] in b;
  }

  /** All of the chain is trusted code. */
  lemma ChainSettled(n: nat)
    requires n >= 2
    ensures AllSettled(Chain(n), ChainBounds(n))
  {
    hide Chain, OutOf, Covered, Reach, HasInsn, Plausible;
    EntriesOut(n, n - 1);
    EntriesOut(n, n - 2);
    ChainReach(n, n - 1);
    ChainReach(n, n - 2);
    NextStepIs(n);
    forall m: nat, t: nat | t in OutOf(Chain(n), ChainBounds(n), Reach(Chain(n), ChainBounds(n), m))
      ensures Settled(Chain(n), ChainBounds(n), t)
    {
      if m < n {
        ChainReach(n, m);
        EntriesOut(n, m);
      } else {
        ReachStays(Chain(n), ChainBounds(n), n - 1, m);
      }
      ChainSpans(n, t);
    }
  }

  lemma NextStepIs(n: nat)
    requires n >= 2
    ensures Reach(Chain(n), ChainBounds(n), n) <= Reach(Chain(n), ChainBounds(n), n - 1)
  {
    hide Chain, OutOf, Covered;
    ChainReach(n, n - 1);
    EntriesOut(n, n - 1);
  }

  lemma ChainNoneBeyond(n: nat)
    requires n >= 2
    ensures Disjoint(ChainBounds(n)) && NoneBeyond(Chain(n), Universe(Chain(n), ChainBounds(n)), ChainBounds(n))
  {
    hide Universe;
    var b := ChainBounds(n);
    assert b[1] in b;
    forall t: nat | HasInsn(Chain(n), t)
      ensures EndsBeyond(b, t)
    {
      assert t < b[1].end;
    }
  }

  lemma ChainDepth(n: nat, d: nat)
    requires n >= 2 && 0 < d < n
    ensures AtDepth(Chain(n), ChainBounds(n), Entry(n, d - 1), d)
  {
    hide Chain, Known, Reach, AllSettled, StartsOf, KnownTrusted;
    ChainNoneBeyond(n);
    ChainSettled(n);
    ChainReach(n, d);
    ChainReach(n, d - 1);
    SettledIsTrusted(Chain(n), ChainBounds(n), d);
    AllReached(Chain(n), ChainBounds(n), d);
    SettledIsTrusted(Chain(n), ChainBounds(n), d - 1);
    AllReached(Chain(n), ChainBounds(n), d - 1);
  }

  /** No fixed number of passes is enough: some program that meets every demand of the driver is left with a
      referenced instruction inside the trusted code that gets a no-op stub. */
  lemma NoCapSuffices(cap: nat, spans: seq<Fn>)
    requires SameCover(spans, ChainBounds(cap + 2))
    ensures var img, bounds := Chain(cap + 2), ChainBounds(cap + 2);
            var st := Discovered(img, spans, Initial(img, bounds), cap);
            Disjoint(bounds) && NoneBeyond(img, Universe(img, bounds), bounds) && AtDepth(img, bounds, 4, cap + 1)
            && HasInsn(img, 4) && 4 in Undefined(st) && Covered(bounds, 4) && Pass(img, spans, st) != st
  {
    hide Pass, Discovered, Initial, Undefined, Chain, NoneBeyond, AtDepth, Disjoint, Starts, Universe, SpanEnd;
    var n := cap + 2;
    ChainNoneBeyond(n);
    ChainDepth(n, cap + 1);
    assert Entry(n, cap) == 4;
    SecondInsn(n);
    ChainSpans(n, 4);
    DeeperIsLeftOver(Chain(n), spans, ChainBounds(n), cap, 4);
  }

  lemma SecondInsn(n: nat)
    requires n >= 2
    ensures HasInsn(Chain(n), 4)
  {
    assert Chain(n)[1].addr == 4;
  }

  /** So the driver's 30 are not. */
  lemma ThirtyPassesAreNotEnough(spans: seq<Fn>)
    requires SameCover(spans, ChainBounds(32))
    ensures var img, bounds := Chain(32), ChainBounds(32);
            var st := Discovered(img, spans, Initial(img, bounds), MAX_PASSES);
            Disjoint(bounds) && NoneBeyond(img, Universe(img, bounds), bounds)
            && 4 in Undefined(st) && Covered(bounds, 4) && Pass(img, spans, st) != st
  {
    hide Chain, ChainBounds, SameCover, Disjoint, NoneBeyond, Universe, AtDepth, HasInsn, Undefined, Covered, Pass,
         Discovered, Initial;
    NoCapSuffices(MAX_PASSES, spans);
  }
}
