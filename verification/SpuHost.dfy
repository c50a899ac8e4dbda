/** Executing the emitted C: region functions, the pending trampoline, the drain loops and the stack of
    live calls (`SPU_DRAIN` and `SPU_RET`, `spu_indirect_branch`, `spu_halt`, the host-thread driver). */
module SpuHost {
  import opened Basics
  import opened SpuIsa
  import opened SpuLift

  /** A live `callee(ctx); SPU_DRAIN(ctx);` site: the code to continue with once it has drained. */
  datatype Frame = Frame(start: int, a: int, rest: seq<Stmt>)

  /** Where the host thread is: about to enter a function, at the label of instruction `a`, inside the
      code of instruction `a` (at `a == end` the epilogue), in the innermost drain loop, or finished. */
  datatype Ctl =
    | Enter(fn: Fn)
    | Label(start: int, a: int)
    | Body(start: int, a: int, rest: seq<Stmt>)
    | Drain
    | Finished

  datatype Host = Host(core: Core, pc: int, tramp: Option<Fn>, depth: int, status: Status, stack: seq<Frame>, ctl: Ctl)

  function EvalPc(e: PcExpr, c: Core): int {
    match e
    case Literal(a) => a
    case WordOf(r) => c.Pref(r)
    case SavedPc => c.side.srr0
  }

  function EvalCond(cond: Cond, c: Core): bool {
    match cond
    case RegTest(test, r) => Holds(test, c.Pref(r))
    case Failure(fails) => fails(c)
    case EventPending => c.side.eventPending
  }

  /** One statement of instruction `a` in region function `start`, with `rest` still to run. */
  function Execute(h: Host, start: int, a: int, st: Stmt, rest: seq<Stmt>): Host
    decreases st
  {
    match st
    case Effect(i) =>
      if IsCompute(i) then h.(core := Compute(i, h.core), ctl := Body(start, a, rest)) else h.(ctl := Finished)
    case StorePc(x) => h.(pc := x, ctl := Body(start, a, rest))
    case SetLink(link, x) =>
      h.(core := h.core.With(link, LinkQuad(x % 0x1_0000_0000)), ctl := Body(start, a, rest))
    case Goto(x) => h.(ctl := Label(start, x))
    case HandOff(e, fn) => h.(pc := EvalPc(e, h.core), tramp := Some(fn), ctl := Drain)
    case CallAndDrain(e, fn) =>
      h.(pc := EvalPc(e, h.core), depth := h.depth + 1, stack := h.stack + [Frame(start, a, rest)], ctl := Enter(fn))
    case SpuRet =>
      h.(pc := h.core.Pref(0), tramp := if h.depth == 0 then Some(Dispatcher) else h.tramp, ctl := Drain)
    case StopReturn(x, status) => h.(pc := x, status := status, ctl := Drain)
    case HaltUnwind(x) => h.(pc := x, status := StoppedByHalt, ctl := Finished)
    case When(cond, body) =>
      if EvalCond(cond, h.core) then Execute(h, start, a, body, rest) else h.(ctl := Body(start, a, rest))
  }

  function Step(p: Program, h: Host): Host {
    match h.ctl
    case Finished => h
    case Enter(Dispatcher) =>
      // an exact lookup of ctx->pc; a miss halts
      if h.pc in p.owner then h.(ctl := Enter(RegionFn(p.owner[h.pc])))
      else h.(status := StoppedByHalt, ctl := Finished)
    case Enter(RegionFn(s)) =>
      if s in p.fns && h.pc in p.fns[s].body then h.(ctl := Label(s, h.pc))
      else h.(status := StoppedByHalt, ctl := Finished)   // the switch default
    case Label(s, a) =>
      if s in p.fns && a in p.fns[s].body then h.(ctl := Body(s, a, p.fns[s].body[a])) else h.(ctl := Finished)
    case Body(s, a, rest) =>
      if rest != [] then Execute(h, s, a, rest[0], rest[1..])
      else if s !in p.fns || a >= p.fns[s].end then h.(ctl := Drain)
      else if a + 4 < p.fns[s].end then h.(ctl := Label(s, a + 4))
      else h.(ctl := Body(s, p.fns[s].end, p.fns[s].tail))
    case Drain =>
      match h.tramp
      case Some(fn) => h.(tramp := None, ctl := Enter(fn))
      case None =>
        if h.stack == [] then h.(ctl := Finished)
        else
          var top := h.stack[|h.stack| - 1];
          h.(depth := h.depth - 1, stack := h.stack[..|h.stack| - 1], ctl := Body(top.start, top.a, top.rest))
  }

  /** The driver's first move: depth 0, dispatch on the entry pc. */
  function Start(entry: int, c: Core): Host { Host(c, entry, None, 0, Running, [], Enter(Dispatcher)) }

  function Runs(p: Program, h: Host, n: nat): Host
    decreases n
  {
    if n == 0 then h else Step(p, Runs(p, h, n - 1))
  }

  // ----- what holds in every reachable state, whatever the program does -----

  ghost predicate IsSuffix(rest: seq<Stmt>, code: seq<Stmt>) {
    |rest| <= |code| && rest == code[|code| - |rest|..]
  }

  ghost predicate InFunction(p: Program, s: int, a: int, rest: seq<Stmt>) {
    && s in p.fns
    && (if a == p.fns[s].end then IsSuffix(rest, p.fns[s].tail)
        else a in p.fns[s].body && IsSuffix(rest, p.fns[s].body[a]))
  }

  ghost predicate PcBelongsTo(p: Program, h: Host, fn: Fn) {
    fn.RegionFn? ==> h.pc in p.owner && p.owner[h.pc] == fn.start
  }

  ghost predicate CtlOk(p: Program, h: Host) {
    match h.ctl
    case Enter(fn) => h.tramp.None? && PcBelongsTo(p, h, fn)
    case Label(s, a) => h.tramp.None? && s in p.fns && a in p.fns[s].body
    case Body(s, a, rest) => h.tramp.None? && InFunction(p, s, a, rest)
    case Drain => h.tramp.Some? ==> PcBelongsTo(p, h, h.tramp.value)
    case Finished => true
  }

  ghost predicate Invariant(p: Program, h: Host) {
    && h.depth == |h.stack|
    && CtlOk(p, h)
    && forall i :: 0 <= i < |h.stack| ==> InFunction(p, h.stack[i].start, h.stack[i].a, h.stack[i].rest)
  }

  ghost predicate SafeStmt(p: Program, s: int, st: Stmt)
    decreases st
  {
    match st
    case Goto(x) => s in p.fns && x in p.fns[s].body
    case HandOff(e, fn) => fn.RegionFn? ==> e.Literal? && e.a in p.owner && p.owner[e.a] == fn.start
    case CallAndDrain(e, fn) => fn.RegionFn? ==> e.Literal? && e.a in p.owner && p.owner[e.a] == fn.start
    case When(_, body) => SafeStmt(p, s, body)
    case _ => true
  }

  ghost predicate SafeCode(p: Program, s: int, code: seq<Stmt>) {
    forall k :: 0 <= k < |code| ==> SafeStmt(p, s, code[k])
  }

  lemma ExecuteKeepsInvariant(p: Program, h: Host, s: int, a: int, st: Stmt, rest: seq<Stmt>)
    requires h.depth == |h.stack| && h.tramp.None?
    requires forall i :: 0 <= i < |h.stack| ==> InFunction(p, h.stack[i].start, h.stack[i].a, h.stack[i].rest)
    requires SafeStmt(p, s, st) && InFunction(p, s, a, rest)
    ensures Invariant(p, Execute(h, s, a, st, rest))
    decreases st
  {
    if st.When? && EvalCond(st.cond, h.core) {
      ExecuteKeepsInvariant(p, h, s, a, st.body, rest);
    }
  }

  /** Every emitted goto has its label, and every emitted hand-off or call stores a pc of its region. */
  lemma EmittedCodeIsSafe(p: Program, im: Image, jumps: set<int>, s: int, a: int)
    requires IsLift(p, im, jumps) && s in p.fns && a in p.fns[s].body
    ensures SafeCode(p, s, p.fns[s].body[a])
  {
    assert OwnsItsBody(p, im, s);
    assert Covers(p, im, a, jumps);
    assert im.code[(a - im.base) / 4] == im.At(a);
    forall t | p.fns[s].start <= t < p.fns[s].end && t % 4 == 0 ensures t in p.fns[s].body {
      assert im.Has(t);
    }
  }

  lemma TailIsSafe(p: Program, im: Image, jumps: set<int>, s: int)
    requires IsLift(p, im, jumps) && s in p.fns
    ensures SafeCode(p, s, p.fns[s].tail)
  {
    assert OwnsItsBody(p, im, s);
    assert Covers(p, im, s, jumps);
  }

  lemma SuffixTail(rest: seq<Stmt>, code: seq<Stmt>)
    requires IsSuffix(rest, code) && rest != []
    ensures IsSuffix(rest[1..], code) && rest[0] in code
  {
    assert rest[0] == code[|code| - |rest|];
  }

  lemma BodyStepKeepsInvariant(p: Program, im: Image, jumps: set<int>, h: Host)
    requires IsLift(p, im, jumps) && Invariant(p, h) && h.ctl.Body?
    ensures Invariant(p, Step(p, h))
  {
    var s, a, rest := h.ctl.start, h.ctl.a, h.ctl.rest;
    var f := p.fns[s];
    var code := if a == f.end then f.tail else f.body[a];
    if rest != [] {
      SuffixTail(rest, code);
      if a == f.end {
        TailIsSafe(p, im, jumps, s);
      } else {
        EmittedCodeIsSafe(p, im, jumps, s, a);
      }
      ExecuteKeepsInvariant(p, h, s, a, rest[0], rest[1..]);
    } else if a + 4 < f.end {
      NextLabelExists(p, im, jumps, s, a);
    }
  }

  lemma NextLabelExists(p: Program, im: Image, jumps: set<int>, s: int, a: int)
    requires IsLift(p, im, jumps) && s in p.fns && a in p.fns[s].body && a + 4 < p.fns[s].end
    ensures a + 4 in p.fns[s].body
  {
    assert OwnsItsBody(p, im, s);
    assert Covers(p, im, a, jumps);
    PcHasCode(p, im, a, a + 4, jumps);
  }

  lemma EntryHasLabel(p: Program, im: Image, jumps: set<int>, a: int)
    requires IsLift(p, im, jumps) && a in p.owner
    ensures p.owner[a] in p.fns && a in p.fns[p.owner[a]].body
  {
    assert Covers(p, im, a, jumps);
  }

  lemma StepKeepsInvariant(p: Program, im: Image, jumps: set<int>, h: Host)
    requires IsLift(p, im, jumps) && Invariant(p, h)
    ensures Invariant(p, Step(p, h))
  {
    match h.ctl
    case Finished =>
    case Enter(fn) =>
      if h.pc in p.owner {
        EntryHasLabel(p, im, jumps, h.pc);
      }
    case Label(s, a) =>
      assert OwnsItsBody(p, im, s);
      assert Covers(p, im, a, jumps);
      assert a < p.fns[s].end;
    case Body(s, a, rest) => BodyStepKeepsInvariant(p, im, jumps, h);
    case Drain =>
  }

  /** In every reachable state the depth counter equals the height of the host stack. */
  lemma {:induction false} ReachableInvariant(p: Program, im: Image, jumps: set<int>, entry: int, c: Core, n: nat)
    requires IsLift(p, im, jumps)
    ensures Invariant(p, Runs(p, Start(entry, c), n))
    ensures Runs(p, Start(entry, c), n).depth == |Runs(p, Start(entry, c), n).stack|
  {
    if n > 0 {
      ReachableInvariant(p, im, jumps, entry, c, n - 1);
      StepKeepsInvariant(p, im, jumps, Runs(p, Start(entry, c), n - 1));
    }
  }

  /** A region function is only ever entered with ctx->pc inside it, so its switch always has the case. */
  lemma SwitchDefaultUnreachable(p: Program, im: Image, jumps: set<int>, entry: int, c: Core, n: nat)
    requires IsLift(p, im, jumps)
    ensures var h := Runs(p, Start(entry, c), n);
            h.ctl.Enter? && h.ctl.fn.RegionFn? ==>
            h.ctl.fn.start in p.fns && h.pc in p.fns[h.ctl.fn.start].body
            && p.fns[h.ctl.fn.start].start <= h.pc < p.fns[h.ctl.fn.start].end
  {
    ReachableInvariant(p, im, jumps, entry, c, n);
    var h := Runs(p, Start(entry, c), n);
    if h.ctl.Enter? && h.ctl.fn.RegionFn? {
      EntryHasLabel(p, im, jumps, h.pc);
      assert Covers(p, im, h.pc, jumps);
    }
  }

  /** Only a call site grows the host stack: branches, fall-throughs, hand-offs and returns never do. */
  lemma OnlyCallsGrowTheStack(p: Program, h: Host)
    ensures |Step(p, h).stack| > |h.stack| ==>
            h.ctl.Body? && h.ctl.rest != [] && IsCallSite(h.ctl.rest[0], h.core) && |Step(p, h).stack| == |h.stack| + 1
    ensures h.ctl.Body? && h.ctl.rest != [] && IsCallSite(h.ctl.rest[0], h.core) ==> |Step(p, h).stack| == |h.stack| + 1
  {
    if h.ctl.Body? && h.ctl.rest != [] {
      ExecuteGrows(h, h.ctl.start, h.ctl.a, h.ctl.rest[0], h.ctl.rest[1..]);
    }
  }

  ghost predicate IsCallSite(st: Stmt, c: Core)
    decreases st
  {
    st.CallAndDrain? || (st.When? && EvalCond(st.cond, c) && IsCallSite(st.body, c))
  }

  lemma {:induction false} ExecuteGrows(h: Host, s: int, a: int, st: Stmt, rest: seq<Stmt>)
    ensures |Execute(h, s, a, st, rest).stack| == |h.stack| + (if IsCallSite(st, h.core) then 1 else 0)
    decreases st
  {
    if st.When? && EvalCond(st.cond, h.core) {
      ExecuteGrows(h, s, a, st.body, rest);
    }
  }

  // ----- what a blocked channel operation shows -----

  predicate IsChannelEffect(st: Stmt) { st.Effect? && st.insn.Op? && st.insn.isChannel }

  /** In the code of address a, a channel operation follows a store of a, and nothing follows a call. */
  ghost predicate ChannelShape(code: seq<Stmt>, a: int) {
    && (forall k :: 0 <= k < |code| && IsChannelEffect(code[k]) ==> k > 0 && code[k - 1] == StorePc(a))
    && (forall k :: 0 <= k < |code| && MayCall(code[k]) ==> k == |code| - 1)
  }

  predicate MayCall(st: Stmt)
    decreases st
  {
    st.CallAndDrain? || (st.When? && MayCall(st.body))
  }

  lemma CodeHasShape(p: Program, im: Image, jumps: set<int>, s: int, a: int)
    requires IsLift(p, im, jumps) && s in p.fns && a in p.fns[s].body
    ensures ChannelShape(p.fns[s].body[a], a)
    ensures im.Has(a) && forall k :: 0 <= k < |p.fns[s].body[a]| && p.fns[s].body[a][k].Effect? ==>
              p.fns[s].body[a][k].insn == im.At(a)
  {
    assert OwnsItsBody(p, im, s);
    assert Covers(p, im, a, jumps);
  }

  lemma TailHasShape(p: Program, im: Image, jumps: set<int>, s: int)
    requires IsLift(p, im, jumps) && s in p.fns
    ensures forall k :: 0 <= k < |p.fns[s].tail| ==> p.fns[s].tail[k].HandOff?
    ensures p.fns[s].end !in p.fns[s].body
  {
    assert OwnsItsBody(p, im, s);
    assert Covers(p, im, s, jumps);
  }

  /** The pc of the context is that of the channel operation about to run, and live calls return to nothing more of
      their instruction. */
  ghost predicate ChannelOk(h: Host) {
    && (h.ctl.Body? && h.ctl.rest != [] && IsChannelEffect(h.ctl.rest[0]) ==> h.pc == h.ctl.a)
    && forall i :: 0 <= i < |h.stack| ==> h.stack[i].rest == []
  }

  lemma {:induction false} ExecuteKeepsChannel(h: Host, s: int, a: int, st: Stmt, rest: seq<Stmt>)
    requires forall i :: 0 <= i < |h.stack| ==> h.stack[i].rest == []
    requires MayCall(st) ==> rest == []
    requires rest != [] && IsChannelEffect(rest[0]) ==> st == StorePc(a)
    ensures ChannelOk(Execute(h, s, a, st, rest))
    decreases st
  {
    if st.When? && EvalCond(st.cond, h.core) {
      ExecuteKeepsChannel(h, s, a, st.body, rest);
    }
  }

  lemma BodyKeepsChannel(p: Program, im: Image, jumps: set<int>, h: Host)
    requires IsLift(p, im, jumps) && Invariant(p, h) && ChannelOk(h) && h.ctl.Body? && h.ctl.rest != []
    ensures ChannelOk(Step(p, h))
  {
    var s, a, rest := h.ctl.start, h.ctl.a, h.ctl.rest;
    var code := if a == p.fns[s].end then p.fns[s].tail else p.fns[s].body[a];
    TailHasShape(p, im, jumps, s);
    if a != p.fns[s].end {
      CodeHasShape(p, im, jumps, s, a);
    }
    SuffixAt(rest, code);
    ExecuteKeepsChannel(h, s, a, rest[0], rest[1..]);
  }

  lemma SuffixAt(rest: seq<Stmt>, code: seq<Stmt>)
    requires IsSuffix(rest, code) && rest != []
    ensures rest[0] == code[|code| - |rest|]
    ensures |rest| > 1 ==> rest[1..][0] == code[|code| - |rest| + 1]
  {
  }

  lemma StepKeepsChannel(p: Program, im: Image, jumps: set<int>, h: Host)
    requires IsLift(p, im, jumps) && Invariant(p, h) && ChannelOk(h)
    ensures ChannelOk(Step(p, h))
  {
    hide IsLift, Invariant;
    match h.ctl
    case Label(s, a) =>
      if s in p.fns && a in p.fns[s].body {
        CodeHasShape(p, im, jumps, s, a);
      }
    case Body(s, a, rest) =>
      if rest != [] {
        BodyKeepsChannel(p, im, jumps, h);
      } else if s in p.fns && a < p.fns[s].end {
        TailHasShape(p, im, jumps, s);
      }
    case _ =>
  }

  lemma {:induction false} RunsKeepChannel(p: Program, im: Image, jumps: set<int>, entry: int, c: Core, n: nat)
    requires IsLift(p, im, jumps)
    ensures ChannelOk(Runs(p, Start(entry, c), n)) && Invariant(p, Runs(p, Start(entry, c), n))
    decreases n
  {
    hide IsLift, Invariant, ChannelOk, Step;
    ReachableInvariant(p, im, jumps, entry, c, n);
    if n > 0 {
      RunsKeepChannel(p, im, jumps, entry, c, n - 1);
      StepKeepsChannel(p, im, jumps, Runs(p, Start(entry, c), n - 1));
    } else {
      FreshChannel(entry, c);
    }
  }

  lemma FreshChannel(entry: int, c: Core)
    ensures ChannelOk(Start(entry, c))
  {
  }

  /** In every reachable state about to perform a channel operation, the operation is that of the address the host is
      at, and the context's pc is that address: a blocked SPU shows where it is blocked. */
  lemma ChannelShowsItsPc(p: Program, im: Image, jumps: set<int>, entry: int, c: Core, n: nat)
    requires IsLift(p, im, jumps)
    ensures var h := Runs(p, Start(entry, c), n);
            h.ctl.Body? && h.ctl.rest != [] && IsChannelEffect(h.ctl.rest[0]) ==>
              im.Has(h.ctl.a) && h.ctl.rest[0].insn == im.At(h.ctl.a) && h.pc == h.ctl.a
  {
    RunsKeepChannel(p, im, jumps, entry, c, n);
    var h := Runs(p, Start(entry, c), n);
    if h.ctl.Body? && h.ctl.rest != [] && IsChannelEffect(h.ctl.rest[0]) {
      var s, a := h.ctl.start, h.ctl.a;
      TailHasShape(p, im, jumps, s);
      if a == p.fns[s].end {
        SuffixAt(h.ctl.rest, p.fns[s].tail);
      } else {
        CodeHasShape(p, im, jumps, s, a);
        SuffixAt(h.ctl.rest, p.fns[s].body[a]);
      }
    }
  }
}
