/** What the thread does in its passes, given what the kernel does meanwhile. */
module UblkPasses {
  import opened UblkTypes
  import opened UblkSystem
  import opened UblkDrain

  /** What happens outside the thread during one pass of the main loop. */
  datatype Pass = Pass(
    during: seq<Step>,              // kernel steps while the thread waits
    timedOut: bool,
    arrivals: seq<seq<Step>>,       // completions that arrive while slots are being handled
    late: seq<Step>)                // completions between the last slot and the idle update

  ghost predicate Kernel(target: Target, st: Step) {
    st.Submit? || (st.Complete? && Int32(st.res) && IodOk(st.iod) && (target.Loop? ==> Supported(st.iod.op)))
  }

  ghost predicate AllKernel(target: Target, script: seq<Step>) {
    forall i :: 0 <= i < |script| ==> Kernel(target, script[i])
  }

  ghost predicate NoSubmit(script: seq<Step>) {
    forall i :: 0 <= i < |script| ==> !script[i].Submit?
  }

  ghost predicate ArrivalsOk(target: Target, arrivals: seq<seq<Step>>) {
    forall i :: 0 <= i < |arrivals| ==> AllKernel(target, arrivals[i]) && NoSubmit(arrivals[i])
  }

  ghost predicate PassOk(target: Target, p: Pass) {
    AllKernel(target, p.during) && AllKernel(target, p.late) && NoSubmit(p.late) && ArrivalsOk(target, p.arrivals)
  }

  /** The run so far, and then the steps of a kernel script; a step that cannot happen is skipped. */
  ghost function Then(s: Sys, run: seq<Step>, script: seq<Step>): seq<Step>
    decreases |script|
  {
    if script == [] then run
    else
      var front, st := Then(s, run, script[..|script| - 1]), script[|script| - 1];
      if Legal(s, front) && Enabled(After(s, front), st) then front + [st] else front
  }

  /** What arrives while slot `i` is handled. */
  function Arrival(arrivals: seq<seq<Step>>, i: nat): seq<Step> { if i < |arrivals| then arrivals[i] else [] }

  lemma ArrivalOk(target: Target, arrivals: seq<seq<Step>>, i: nat)
    requires ArrivalsOk(target, arrivals)
    ensures AllKernel(target, Arrival(arrivals, i)) && NoSubmit(Arrival(arrivals, i))
  {
  }

  /** The run so far, and then `n` slots handled, with completions arriving after each. */
  ghost function Reaped(s: Sys, run: seq<Step>, arrivals: seq<seq<Step>>, n: nat): seq<Step> {
    if n == 0 then run else Then(s, Reaped(s, run, arrivals, n - 1) + [Handle], Arrival(arrivals, n - 1))
  }

  /** One pass that handles `n` slots: the wait, which is unbounded and cannot time out when IDLE is set,
      the slots, and the idle update. */
  ghost function PassRun(s: Sys, p: Pass, n: nat): seq<Step> {
    var awake := Then(s, [EnterWait], p.during) + [Wake(p.timedOut && !s.srv.idle)];
    Then(s, Reaped(s, awake, p.arrivals, n) + [StopReaping], p.late) + [Settle]
  }

  /** The fetch loop and the passes, where pass `i` handles `reaped[i]` slots. */
  ghost function HandlerRun(s: Sys, passes: seq<Pass>, reaped: seq<nat>): seq<Step>
    requires |reaped| == |passes|
  {
    if passes == [] then seq(s.srv.depth + 1, _ => FetchNext)
    else
      var n := |passes| - 1;
      var front := HandlerRun(s, passes[..n], reaped[..n]);
      if Legal(s, front) then front + PassRun(After(s, front), passes[n], reaped[n]) else front
  }

  /** The run that the passes made so far determine, and the exit if it came. */
  ghost predicate Made(s: Sys, passes: seq<Pass>, reaped: seq<nat>, exited: bool, run: seq<Step>) {
    && |reaped| <= |passes| && Waits(run) == |reaped|
    && run == HandlerRun(s, passes[..|reaped|], reaped) + (if exited then [Exit] else [])
  }

  lemma ReapedStep(s: Sys, run: seq<Step>, arrivals: seq<seq<Step>>, n: nat)
    ensures Reaped(s, run, arrivals, n + 1) == Then(s, Reaped(s, run, arrivals, n) + [Handle], Arrival(arrivals, n))
  {
  }

  lemma ThenStep(s: Sys, run: seq<Step>, script: seq<Step>, i: nat)
    requires i < |script| && Legal(s, Then(s, run, script[..i]))
    ensures var front := Then(s, run, script[..i]);
      Then(s, run, script[..i + 1]) ==
        if Enabled(After(s, front), script[i]) then front + [script[i]] else front
  {
    assert script[..i + 1][..i] == script[..i];
  }

  // ----- counting steps

  /** Waits entered in a run. */
  function Waits(run: seq<Step>): nat {
    if run == [] then 0 else Waits(run[..|run| - 1]) + (if run[|run| - 1].EnterWait? then 1 else 0)
  }

  lemma {:induction false} WaitsConcat(a: seq<Step>, b: seq<Step>)
    ensures Waits(a + b) == Waits(a) + Waits(b)
  {
    if b == [] {
      assert a + b == a;
    } else {
      WaitsConcat(a, b[..|b| - 1]);
      assert (a + b)[..|a + b| - 1] == a + b[..|b| - 1];
    }
  }

  lemma {:induction false} HandlesConcat(a: seq<Step>, b: seq<Step>)
    ensures Handles(a + b) == Handles(a) + Handles(b)
    decreases |a|
  {
    if a == [] {
      assert a + b == b;
    } else {
      assert (a + b)[1..] == a[1..] + b;
      HandlesConcat(a[1..], b);
    }
  }

  /** One more step, in both counts. */
  lemma CountStep(run: seq<Step>, st: Step)
    ensures Waits(run + [st]) == Waits(run) + (if st.EnterWait? then 1 else 0)
    ensures Handles(run + [st]) == Handles(run) + (if st.Handle? then 1 else 0)
  {
    assert (run + [st])[..|run|] == run;
    HandlesConcat(run, [st]);
    assert [st][1..] == [];
  }

  /** Kernel steps follow, and change neither count. */
  lemma {:induction false} ThenCounts(s: Sys, target: Target, run: seq<Step>, script: seq<Step>)
    requires AllKernel(target, script)
    ensures var r := Then(s, run, script);
      Waits(r) == Waits(run) && Handles(r) == Handles(run) && run <= r
    decreases |script|
  {
    if script == [] {
    } else {
      var n := |script| - 1;
      ThenCounts(s, target, run, script[..n]);
      assert Kernel(target, script[n]);
      CountStep(Then(s, run, script[..n]), script[n]);
    }
  }

  lemma SlotCounts(s: Sys, target: Target, run: seq<Step>, script: seq<Step>)
    requires AllKernel(target, script)
    ensures var r := Then(s, run + [Handle], script);
      Waits(r) == Waits(run) && Handles(r) == Handles(run) + 1 && run <= r
  {
    CountStep(run, Handle);
    ThenCounts(s, target, run + [Handle], script);
  }

  lemma {:induction false} ReapedCounts(s: Sys, target: Target, run: seq<Step>, arrivals: seq<seq<Step>>, n: nat)
    requires ArrivalsOk(target, arrivals)
    ensures var r := Reaped(s, run, arrivals, n);
      Waits(r) == Waits(run) && Handles(r) == Handles(run) + n && run <= r
  {
    if n == 0 {
    } else {
      ReapedCounts(s, target, run, arrivals, n - 1);
      var front, script := Reaped(s, run, arrivals, n - 1), Arrival(arrivals, n - 1);
      var r := Then(s, front + [Handle], script);
      assert Reaped(s, run, arrivals, n) == r by { ReapedStep(s, run, arrivals, n - 1); }
      assert Waits(r) == Waits(front) && Handles(r) == Handles(front) + 1 && front <= r by {
        ArrivalOk(target, arrivals, n - 1);
        SlotCounts(s, target, front, script);
      }
    }
  }

  /** The run of a pass: it enters one wait, first, handles `n` slots, and ends with the idle update. */
  ghost predicate IsPass(s: Sys, p: Pass, n: nat, run: seq<Step>) {
    && run == PassRun(s, p, n)
    && Waits(run) == 1 && Handles(run) == n && |run| >= 2 && run[0] == EnterWait && run[|run| - 1] == Settle
  }

  lemma PassCounts(s: Sys, target: Target, p: Pass, n: nat)
    requires PassOk(target, p)
    ensures IsPass(s, p, n, PassRun(s, p, n))
  {
    var waited := Then(s, [EnterWait], p.during);
    ThenCounts(s, target, [EnterWait], p.during);
    CountStep([], EnterWait);
    assert [] + [EnterWait] == [EnterWait];
    var awake := waited + [Wake(p.timedOut && !s.srv.idle)];
    CountStep(waited, Wake(p.timedOut && !s.srv.idle));
    var reaped := Reaped(s, awake, p.arrivals, n);
    ReapedCounts(s, target, awake, p.arrivals, n);
    CountStep(reaped, StopReaping);
    ThenCounts(s, target, reaped + [StopReaping], p.late);
    CountStep(Then(s, reaped + [StopReaping], p.late), Settle);
  }

  lemma {:induction false} FetchesDoNotWait(n: nat)
    ensures Waits(seq(n, _ => FetchNext)) == 0
  {
    if n == 0 {
    } else {
      FetchesDoNotWait(n - 1);
      assert seq(n, _ => FetchNext)[..n - 1] == seq(n - 1, _ => FetchNext);
    }
  }

  // ----- pass by pass

  lemma MadeFetches(s: Sys, passes: seq<Pass>, run: seq<Step>)
    requires run == seq(s.srv.depth + 1, _ => FetchNext)
    ensures Made(s, passes, [], false, run)
  {
    FetchesDoNotWait(s.srv.depth + 1);
  }

  /** The determined run with one more pass. */
  lemma HandlerNext(s: Sys, passes: seq<Pass>, reaped: seq<nat>, front: seq<Step>, p: Pass, r: nat)
    requires |reaped| == |passes| && front == HandlerRun(s, passes, reaped) && Legal(s, front)
    ensures HandlerRun(s, passes + [p], reaped + [r]) == front + PassRun(After(s, front), p, r)
  {
    var n := |passes|;
    assert (passes + [p])[..n] == passes && (reaped + [r])[..n] == reaped;
  }

  lemma MadePass(s: Sys, passes: seq<Pass>, reaped: seq<nat>, run: seq<Step>, r: nat, more: seq<Step>)
    requires Made(s, passes, reaped, false, run) && |reaped| < |passes| && Legal(s, run)
    requires IsPass(After(s, run), passes[|reaped|], r, more)
    ensures Made(s, passes, reaped + [r], false, run + more)
  {
    var n := |reaped|;
    assert passes[..n + 1] == passes[..n] + [passes[n]];
    assert HandlerRun(s, passes[..n + 1], reaped + [r]) == run + more by {
      HandlerNext(s, passes[..n], reaped, run, passes[n], r);
    }
    WaitsConcat(run, more);
  }

  lemma MadeExit(s: Sys, passes: seq<Pass>, reaped: seq<nat>, run: seq<Step>)
    requires Made(s, passes, reaped, false, run)
    ensures Made(s, passes, reaped, true, run + [Exit])
  {
    CountStep(run, Exit);
  }
}
