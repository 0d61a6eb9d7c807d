/** The IDLE bit: what is and is not outstanding when the thread waits without a limit or gives
    its I/O pages back. */
module UblkIdle {
  import opened UblkTypes
  import opened UblkSystem
  import opened UblkCounting
  import opened UblkInvariant
  import opened UblkSteps
  import opened UblkWords
  import opened UblkTheorems

  /** The step on which the server gives its I/O pages back. */
  ghost predicate DiscardsPages(s: Sys, st: Step) {
    st.Settle? && Enabled(s, st) && !s.srv.idle && Apply(s, st).srv.idle
  }

  /** While STOPPING is clear no unbounded wait starts, and in any case no page is discarded, while a
      tag has a prepared or running target I/O. */
  lemma IdleIsSafe(target: Target, depth: nat, sqCap: nat, run: seq<Step>, s: Sys, st: Step)
    requires ReachedBy(target, depth, sqCap, run, s) && Enabled(s, st)
    requires || (s.pc.Top? && s.srv.idle && !s.srv.stopping)
             || (s.pc.Waiting? && s.pc.forever && !s.srv.stopping)
             || DiscardsPages(s, st)
    ensures s.srv.sq == [] && s.srv.ioInflight == 0
    ensures forall i :: 0 <= i < |s.kern| ==> !s.kern[i].key.tgt
    ensures Head(s) <= |s.cq| && forall i :: Head(s) <= i < |s.cq| ==> !s.cq[i].key.tgt
  {
    ReachedInv(target, depth, sqCap, run, s);
    forall i | 0 <= i < |s.kern| ensures !s.kern[i].key.tgt { NoFileIo(s.kern, i); }
    forall i | Head(s) <= i < |s.cq| ensures !s.cq[i].key.tgt {
      assert s.cq[i] == s.cq[Head(s)..][i - Head(s)];
      NoFileIo(s.cq[Head(s)..], i - Head(s));
    }
  }

  // ----- unbounded waits while stopping

  /** A pass that starts with IDLE set waits without a limit; it does so with nothing prepared and no
      target I/O in flight exactly when STOPPING is clear. */
  lemma UnboundedWaitIsQuietIff(target: Target, depth: nat, sqCap: nat, run: seq<Step>, s: Sys)
    requires ReachedBy(target, depth, sqCap, run, s)
    requires s.pc.Top? && s.srv.idle && Enabled(s, EnterWait)
    ensures Apply(s, EnterWait).pc == Waiting(true)
    ensures (s.srv.sq == [] && s.srv.ioInflight == 0) <==> !s.srv.stopping
  {
    ReachedInv(target, depth, sqCap, run, s);
  }

  lemma Extend(run: seq<Step>, s: Sys, st: Step) returns (run': seq<Step>, s': Sys)
    requires ReachedBy(Loop, 2, 2, run, s) && Enabled(s, st) && Polite(s, st)
    ensures ReachedBy(Loop, 2, 2, run', s') && s' == Apply(s, st)
  {
    LegalExtend(Init(Loop, 2, 2), run, st);
    run', s' := run + [st], Apply(s, st);
  }

  /** A two-tag queue after its fetch loop. */
  lemma Fetched() returns (run: seq<Step>, s: Sys)
    ensures ReachedBy(Loop, 2, 2, run, s) && s.pc == Top && s.srv.sq == [FetchSqe(0), FetchSqe(1)]
    ensures s.kern == [] && s.cq == [] && !s.srv.idle && !s.srv.stopping && s.srv.target == Loop
    ensures s.srv.depth == |s.iods| == 2
  {
    run, s := [], Init(Loop, 2, 2);
    for i := 0 to 2
      invariant ReachedBy(Loop, 2, 2, run, s) && s.pc == Fetching(i) && s.srv.depth == 2 && s.srv.target == Loop
      invariant s.srv.sq == seq(i, (k: nat) => FetchSqe(k))
      invariant s.kern == [] && s.cq == [] && !s.srv.idle && !s.srv.stopping
    {
      ReachedInv(Loop, 2, 2, run, s);
      FetchApplies(s);
      run, s := Extend(run, s, FetchNext);
    }
    run, s := Extend(run, s, FetchNext);
    ReachedInv(Loop, 2, 2, run, s);
  }

  /** The same queue when its first wait has timed out and nothing has happened. */
  lemma QuietPass() returns (run: seq<Step>, s: Sys)
    ensures ReachedBy(Loop, 2, 2, run, s) && s.pc == Settling(0, true) && s.srv.sq == [] && s.srv.ioInflight == 0
    ensures s.kern == [FetchSqe(0), FetchSqe(1)] && s.cq == []
    ensures !s.srv.idle && !s.srv.stopping && s.srv.target == Loop && |s.iods| == 2
  {
    run, s := Fetched();
    run, s := Extend(run, s, EnterWait);
    run, s := Extend(run, s, Submit);
    run, s := Extend(run, s, Submit);
    run, s := Extend(run, s, Wake(true));
    ReachedInv(Loop, 2, 2, run, s);
    QuietCommands(s);
    run, s := Extend(run, s, StopReaping);
  }

  lemma QuietCommands(s: Sys)
    requires Inv(s) && s.srv.sq == [] && s.kern == [FetchSqe(0), FetchSqe(1)] && s.cq == [] && Head(s) == 0
    ensures s.srv.ioInflight == 0
  {
    assert s.kern[..1] == [FetchSqe(0)] && s.kern[..1][..0] == [];
    assert Count(FileIos, s.kern[..1]) == 0;
  }

  lemma RequestAndAbort(d: Iod) returns (run: seq<Step>, s: Sys)
    requires IodOk(d) && Supported(d.op)
    ensures ReachedBy(Loop, 2, 2, run, s) && s.pc == Reaping(0, false)
    ensures s.cq == [Entry(FetchSqe(0).key, RES_OK), Entry(FetchSqe(1).key, RES_ABORT)]
    ensures s.srv.sq == [] && s.kern == [] && |s.iods| == 2 && s.iods[0] == d
    ensures s.srv.idle && !s.srv.stopping && s.srv.target == Loop
  {
    run, s := QuietPass();
    run, s := Extend(run, s, Settle);
    run, s := Extend(run, s, EnterWait);
    ReachedInv(Loop, 2, 2, run, s);
    run, s := Extend(run, s, Complete(0, RES_OK, d));
    run, s := Extend(run, s, Complete(0, RES_ABORT, d));
    run, s := Extend(run, s, Wake(false));
  }

  /** The idle queue gets a request and an abort at once: STOPPING is set in the pass that prepares the
      target I/O, IDLE stays set, and the next wait has no limit although an entry is prepared. */
  lemma UnboundedWaitWhileStopping(d: Iod) returns (run: seq<Step>, s: Sys)
    requires IodOk(d) && Supported(d.op)
    ensures ReachedBy(Loop, 2, 2, run, s) && s.pc == Waiting(true)
    ensures s.srv.stopping && s.srv.sq == [FileSqe(0, d)]
  {
    run, s := RequestAndAbort(d);
    ReachedInv(Loop, 2, 2, run, s);
    HandleApplies(s);
    HandleServer(s);
    run, s := Extend(run, s, Handle);
    ReachedInv(Loop, 2, 2, run, s);
    HandleApplies(s);
    run, s := Extend(run, s, Handle);
    run, s := Extend(run, s, StopReaping);
    run, s := Extend(run, s, Settle);
    run, s := Extend(run, s, EnterWait);
  }

  // ----- page discards and requests that were just delivered

  /** The last thing that happened to the tag is a request that is not committed yet. */
  ghost predicate Pending(s: Sys, t: nat) {
    t < |s.hist| && s.hist[t] != [] && Outstanding(Last(s.hist[t]))
  }

  lemma PendingIffUnreaped(s: Sys, t: nat)
    requires Inv(s) && DiscardsPages(s, Settle) && t < |s.hist|
    ensures Pending(s, t) <==> Unreaped(s, t)
  {
    assert TagOk(s, t);
    if Pending(s, t) {
      OutstandingIsUnreaped(s, t);
    } else {
      forall i | 0 <= i < |s.cq| && s.cq[i].key.tag == t && !s.cq[i].key.tgt ensures s.cq[i].data != RES_OK {
        assert CqeLogged(s, s.cq[i]);
      }
    }
  }

  lemma OkIsUnreaped(s: Sys, i: nat)
    requires Inv(s) && DiscardsPages(s, Settle) && i < |s.cq| && s.cq[i].data == RES_OK
    ensures s.cq[i].key.tag < |s.hist| && Unreaped(s, s.cq[i].key.tag)
  {
    assert CqeLogged(s, s.cq[i]);
    assert s.cq[0..] == s.cq;
    NoFileIo(s.cq, i);
  }

  /** The pages of a tag are discarded under a request of that tag exactly when the request waits in
      the completion ring; so the discard is harmless exactly when no OK result is in that ring. */
  lemma DiscardMeetsDeliveryIff(target: Target, depth: nat, sqCap: nat, run: seq<Step>, s: Sys)
    requires ReachedBy(target, depth, sqCap, run, s) && DiscardsPages(s, Settle)
    ensures forall t :: 0 <= t < |s.hist| ==> (Pending(s, t) <==> Unreaped(s, t))
    ensures (exists t :: 0 <= t < |s.hist| && Pending(s, t))
      <==> (exists i :: 0 <= i < |s.cq| && s.cq[i].data == RES_OK)
  {
    ReachedInv(target, depth, sqCap, run, s);
    forall t | 0 <= t < |s.hist| ensures Pending(s, t) <==> Unreaped(s, t) { PendingIffUnreaped(s, t); }
    if i :| 0 <= i < |s.cq| && s.cq[i].data == RES_OK {
      OkIsUnreaped(s, i);
      assert Pending(s, s.cq[i].key.tag);
    }
  }

  /** The idle guard looks at prepared entries and target I/O only: a run in which the driver
      delivers a request after the last look at the completion ring discards the pages under it. */
  lemma DiscardCanMeetDelivery(d: Iod) returns (run: seq<Step>, s: Sys)
    requires IodOk(d) && Supported(d.op)
    ensures ReachedBy(Loop, 2, 2, run, s) && DiscardsPages(s, Settle) && Unreaped(s, 0)
  {
    run, s := QuietPass();
    run, s := Extend(run, s, Complete(0, RES_OK, d));
    assert s.cq[0] == Entry(FetchSqe(0).key, RES_OK);
  }
}
