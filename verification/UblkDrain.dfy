/** Stopping a queue: how many completions can still be handled, and that the thread can get to them. */
module UblkDrain {
  import opened UblkTypes
  import opened UblkServer
  import opened UblkSystem
  import opened UblkCounting
  import opened UblkInvariant
  import opened UblkSteps
  import opened UblkTheorems

  /** Completions still to be handled on account of an entry whose commands will be refused. */
  function SqeRank(e: Sqe): nat { if e.key.tgt then 2 else 1 }

  function CqeRank(target: Target, c: Cqe): nat {
    if c.key.tgt then 2
    else if c.data != RES_OK then 1
    else if target.Null? then 2 else 3
  }

  function SqRank(sq: seq<Sqe>): nat {
    if sq == [] then 0 else SqRank(sq[..|sq| - 1]) + SqeRank(sq[|sq| - 1])
  }

  function CqRank(target: Target, cq: seq<Cqe>): nat {
    if cq == [] then 0 else CqRank(target, cq[..|cq| - 1]) + CqeRank(target, cq[|cq| - 1])
  }

  function Rank(s: Sys): nat
    requires Head(s) <= |s.cq|
  {
    SqRank(s.srv.sq) + SqRank(s.kern) + CqRank(s.srv.target, s.cq[Head(s)..])
  }

  lemma {:induction false} SqRankConcat(a: seq<Sqe>, b: seq<Sqe>)
    ensures SqRank(a + b) == SqRank(a) + SqRank(b)
  {
    if b == [] {
      assert a + b == a;
    } else {
      SqRankConcat(a, b[..|b| - 1]);
      assert (a + b)[..|a + b| - 1] == a + b[..|b| - 1];
    }
  }

  lemma SqRankOne(e: Sqe)
    ensures SqRank([e]) == SqeRank(e)
  {
    assert [e][..0] == [];
    assert SqRank([]) == 0;
  }

  lemma SqRankRemove(a: seq<Sqe>, k: nat)
    requires k < |a|
    ensures SqRank(a) == SqRank(a[..k] + a[k + 1..]) + SqeRank(a[k])
  {
    SplitAt(a, k);
    SqRankMiddle(a[..k], a[k], a[k + 1..]);
  }

  lemma SqRankMiddle(l: seq<Sqe>, e: Sqe, r: seq<Sqe>)
    ensures SqRank(l + ([e] + r)) == SqRank(l + r) + SqeRank(e)
  {
    SqRankConcat(l, [e] + r);
    SqRankConcat([e], r);
    SqRankConcat(l, r);
    SqRankOne(e);
  }

  lemma {:induction false} CqRankFirst(target: Target, cq: seq<Cqe>)
    requires cq != []
    ensures CqRank(target, cq) == CqeRank(target, cq[0]) + CqRank(target, cq[1..])
  {
    var n := |cq| - 1;
    if n == 0 {
      assert cq[..0] == [] == cq[1..];
    } else {
      CqRankFirst(target, cq[..n]);
      assert cq[..n][1..] == cq[1..][..n - 1];
    }
  }

  lemma {:induction false} RankBounds(target: Target, sq: seq<Sqe>, cq: seq<Cqe>)
    ensures |sq| <= SqRank(sq) <= 3 * |sq|
    ensures |cq| <= CqRank(target, cq) <= 3 * |cq|
    decreases |sq| + |cq|
  {
    if sq != [] { RankBounds(target, sq[..|sq| - 1], []); }
    if cq != [] { RankBounds(target, [], cq[..|cq| - 1]); }
  }

  /** The driver only ever refuses. */
  ghost predicate Refuses(s: Sys, st: Step) {
    st.Complete? && st.k < |s.kern| && !s.kern[st.k].key.tgt ==> st.res != RES_OK
  }

  ghost predicate RefusingRun(s: Sys, run: seq<Step>)
    requires Legal(s, run)
    decreases |run|
  {
    run == [] || (Refuses(s, run[0]) && RefusingRun(Apply(s, run[0]), run[1..]))
  }

  function Handles(run: seq<Step>): nat
    decreases |run|
  {
    if run == [] then 0 else (if run[0].Handle? then 1 else 0) + Handles(run[1..])
  }

  lemma SubmitRank(s: Sys)
    requires Head(s) <= |s.cq| && Enabled(s, Submit)
    ensures Rank(Apply(s, Submit)) == Rank(s)
  {
    SqRankRemove(s.srv.sq, 0);
    assert s.srv.sq[..0] + s.srv.sq[1..] == s.srv.sq[1..];
    SqRankConcat(s.kern, [s.srv.sq[0]]);
    SqRankOne(s.srv.sq[0]);
  }

  lemma CompleteRank(s: Sys, k: nat, res: int, d: Iod)
    requires Head(s) <= |s.cq| && k < |s.kern| && s.kern[k].key.tag < |s.iods|
    requires !s.kern[k].key.tgt ==> res != RES_OK
    ensures Rank(CompleteEntry(s, k, res, d)) == Rank(s)
  {
    var c := Entry(s.kern[k].key, res);
    var cq' := CompleteEntry(s, k, res, d).cq[Head(s)..];
    SqRankRemove(s.kern, k);
    assert cq' == s.cq[Head(s)..] + [c];
    assert cq'[..|cq'| - 1] == s.cq[Head(s)..];
  }

  lemma HandleRank(s: Sys)
    requires Inv(s) && Enabled(s, Handle)
    ensures Rank(Apply(s, Handle)) == Rank(s) - 1
  {
    var c := s.cq[s.pc.head];
    HandleApplies(s);
    HandleServer(s);
    CqRankFirst(s.srv.target, s.cq[s.pc.head..]);
    assert s.cq[s.pc.head..][1..] == s.cq[s.pc.head + 1..];
    if c.key.tgt || c.data == RES_OK {
      var e := Reply(s.srv.target, c.key.tag, Last(s.hist[c.key.tag]));
      SqRankConcat(s.srv.sq, [e]);
      SqRankOne(e);
    }
  }

  /** Handling a completion takes exactly one off the rank; nothing else changes it. */
  lemma StepRank(s: Sys, st: Step)
    requires Inv(s) && Enabled(s, st) && Refuses(s, st) && !s.pc.Fetching?
    ensures Head(Apply(s, st)) <= |Apply(s, st).cq|
    ensures Rank(Apply(s, st)) == Rank(s) - (if st.Handle? then 1 else 0)
    ensures !Apply(s, st).pc.Fetching?
  {
    if st.Submit? {
      SubmitRank(s);
    } else if st.Complete? {
      CompleteRank(s, st.k, st.res, st.iod);
    } else if st.Handle? {
      HandleRank(s);
    } else {
      var s' := Apply(s, st);
      assert s'.cq[Head(s')..] == s.cq[Head(s)..];
    }
  }

  lemma RankLimit(s: Sys)
    requires Inv(s)
    ensures Rank(s) <= 3 * s.srv.depth
    ensures Rank(s) == 0 <==> s.srv.sq == [] && s.kern == [] && Head(s) == |s.cq|
    ensures Rank(s) == 0 ==> IsIdle(s.srv)
  {
    Total(s);
    RankBounds(s.srv.target, s.srv.sq, s.cq[Head(s)..]);
    RankBounds(s.srv.target, s.kern, []);
  }

  /** While the driver refuses every command, at most three completions per tag are handled
      before a stopping queue is done. */
  lemma {:induction false} DrainBound(s: Sys, run: seq<Step>)
    requires Inv(s) && !s.pc.Fetching? && s.srv.stopping && Legal(s, run) && RefusingRun(s, run)
    ensures var s' := After(s, run);
      && Head(s') <= |s'.cq|
      && Handles(run) + Rank(s') == Rank(s) <= 3 * s.srv.depth
      && (Rank(s') == 0 ==> IsDone(s'.srv))
    decreases |run|
  {
    RankLimit(s);
    if run == [] {
    } else {
      var s1 := Apply(s, run[0]);
      StepRank(s, run[0]);
      StepInv(s, run[0]);
      StoppingStays(s, [run[0]]);
      assert After(s, [run[0]]) == s1;
      DrainBound(s1, run[1..]);
      DepthStays(s, run[0]);
    }
  }

  lemma DepthStays(s: Sys, st: Step)
    requires Inv(s) && Enabled(s, st)
    ensures Apply(s, st).srv.depth == s.srv.depth
  {
    if st.Handle? { HandleServer(s); }
  }

  lemma LegalCons(s: Sys, st: Step, run: seq<Step>)
    requires Enabled(s, st) && Polite(s, st) && Refuses(s, st)
    requires Legal(Apply(s, st), run) && RefusingRun(Apply(s, st), run)
    ensures Legal(s, [st] + run) && RefusingRun(s, [st] + run)
    ensures After(s, [st] + run) == After(Apply(s, st), run)
    ensures Handles([st] + run) == (if st.Handle? then 1 else 0) + Handles(run)
  {
    assert ([st] + run)[1..] == run;
  }

  /** From a reap loop with a completion in the ring, one is handled. */
  lemma ReapOne(s: Sys) returns (run: seq<Step>)
    requires Inv(s) && s.pc.Waiting? && s.cq != []
    ensures Legal(s, run) && RefusingRun(s, run) && Handles(run) == 1
  {
    var s1 := Apply(s, Wake(false));
    assert CqeLogged(s, s.cq[0]);
    LegalCons(s1, Handle, []);
    LegalCons(s, Wake(false), [Handle] + []);
    run := [Wake(false)] + ([Handle] + []);
  }

  lemma AnswerOne(s: Sys) returns (run: seq<Step>)
    requires Inv(s) && s.pc.Waiting? && (s.cq != [] || s.kern != [])
    ensures Legal(s, run) && RefusingRun(s, run) && Handles(run) == 1
  {
    if s.cq != [] {
      run := ReapOne(s);
    } else {
      var st := Complete(0, RES_ABORT, Iod(0, 0, 0));
      assert SqeLogged(s, s.kern[0]);
      StepInv(s, st);
      run := ReapOne(Apply(s, st));
      LegalCons(s, st, run);
      run := [st] + run;
    }
  }

  /** A pass of the main loop that starts before the queue is drained is not stuck: unless the
      queue is done there is a way to handle one more completion. */
  lemma DrainProgresses(s: Sys) returns (run: seq<Step>)
    requires Inv(s) && s.pc.Top? && !IsDone(s.srv) && Rank(s) > 0
    ensures Legal(s, run) && RefusingRun(s, run) && Handles(run) == 1
  {
    RankLimit(s);
    StepInv(s, EnterWait);
    var s1 := Apply(s, EnterWait);
    if s1.cq != [] || s1.kern != [] {
      run := AnswerOne(s1);
    } else {
      StepInv(s1, Submit);
      run := AnswerOne(Apply(s1, Submit));
      LegalCons(s1, Submit, run);
      run := [Submit] + run;
    }
    LegalCons(s, EnterWait, run);
    run := [EnterWait] + run;
  }

  /** A queue that drains: past its fetch loop, and stopping. */
  ghost predicate Draining(s: Sys) { Inv(s) && !s.pc.Fetching? && s.srv.stopping }

  lemma DrainStep(s: Sys, st: Step)
    requires Draining(s) && Enabled(s, st) && Polite(s, st) && Refuses(s, st)
    ensures Draining(Apply(s, st))
    ensures Rank(Apply(s, st)) == Rank(s) - (if st.Handle? then 1 else 0)
  {
    StepRank(s, st);
    StepInv(s, st);
    if st.Handle? { HandleServer(s); }
  }

  /** Where the thread, or else the kernel, goes next when the driver refuses everything. */
  function NextStep(s: Sys): Step {
    match s.pc
    case Fetching(_) => FetchNext
    case Top => if IsDone(s.srv) then Exit else EnterWait
    case Waiting(_) =>
      if s.cq == [] && s.kern != [] then Complete(0, RES_ABORT, Iod(0, 0, 0))
      else if s.cq == [] && s.srv.sq != [] then Submit
      else Wake(false)
    case Reaping(head, _) => if head < |s.cq| then Handle else StopReaping
    case Settling(_, _) => Settle
    case Exited => Exit
  }

  lemma NextStepEnabled(s: Sys)
    requires Draining(s) && !s.pc.Exited?
    ensures Enabled(s, NextStep(s)) && Polite(s, NextStep(s)) && Refuses(s, NextStep(s))
  {
    if s.pc.Waiting? && s.cq == [] && s.kern != [] { assert SqeLogged(s, s.kern[0]); }
    if s.pc.Reaping? && s.pc.head < |s.cq| { assert CqeLogged(s, s.cq[s.pc.head]); }
  }

  /** Steps still to go before the next completion is handled, or the thread leaves. */
  function Distance(s: Sys): nat {
    match s.pc
    case Fetching(_) => 0
    case Top => if IsDone(s.srv) then 1 else 4 + KernelSteps(s)
    case Waiting(_) => if s.cq == [] && s.kern == [] && s.srv.sq == [] then 8 else 3 + KernelSteps(s)
    case Reaping(head, _) => if head < |s.cq| then 1 else 7 + KernelSteps(s)
    case Settling(_, _) => 6 + KernelSteps(s)
    case Exited => 0
  }

  /** A bound on the kernel steps until a completion is in the ring. */
  function KernelSteps(s: Sys): nat { if s.cq != [] && !s.pc.Reaping? then 0 else 2 * |s.srv.sq| + |s.kern| }

  lemma TopShrinks(s: Sys)
    requires Draining(s) && s.pc.Top?
    ensures Distance(Apply(s, NextStep(s))) < Distance(s)
  {
    RankLimit(s);
  }

  lemma WaitShrinks(s: Sys)
    requires s.pc.Waiting? && Enabled(s, NextStep(s))
    ensures Distance(Apply(s, NextStep(s))) < Distance(s)
  {
    if s.cq == [] && s.kern != [] {
      assert Apply(s, NextStep(s)).cq != [];
    } else if s.cq == [] && s.srv.sq != [] {
      assert KernelSteps(Apply(s, Submit)) == KernelSteps(s) - 1;
    }
  }

  lemma DistanceShrinks(s: Sys)
    requires Draining(s) && !s.pc.Exited? && !NextStep(s).Handle?
    requires Enabled(s, NextStep(s))
    ensures Distance(Apply(s, NextStep(s))) < Distance(s)
  {
    match s.pc
    case Top => TopShrinks(s);
    case Waiting(_) => WaitShrinks(s);
    case _ =>
  }

  /** From every draining state there is a way to the exit, with the driver refusing everything and no
      more completions handled than the rank says. */
  lemma DrainToExit(s: Sys) returns (run: seq<Step>)
    requires Draining(s)
    ensures Legal(s, run) && RefusingRun(s, run) && Handles(run) <= Rank(s) <= 3 * s.srv.depth
    ensures After(s, run).pc.Exited?
    decreases Rank(s), Distance(s)
  {
    RankLimit(s);
    run := [];
    if !s.pc.Exited? {
      var st := NextStep(s);
      NextStepEnabled(s);
      DrainStep(s, st);
      if !st.Handle? { DistanceShrinks(s); }
      run := DrainToExit(Apply(s, st));
      LegalCons(s, st, run);
      run := [st] + run;
    }
  }
}
