/** What holds in every state that a run of the queue server can reach. */
module UblkTheorems {
  import opened UblkTypes
  import opened UblkSystem
  import opened UblkCounting
  import opened UblkInvariant
  import opened UblkSteps
  import opened UblkWords

  /** States reached from a fresh queue whose submission ring has at least `depth` slots. */
  ghost predicate ReachedBy(target: Target, depth: nat, sqCap: nat, run: seq<Step>, s: Sys) {
    && depth <= sqCap && depth <= MAX_TAGS
    && Legal(Init(target, depth, sqCap), run)
    && s == After(Init(target, depth, sqCap), run)
  }

  lemma ReachedInv(target: Target, depth: nat, sqCap: nat, run: seq<Step>, s: Sys)
    requires ReachedBy(target, depth, sqCap, run, s)
    ensures Inv(s)
  {
    InitInv(target, depth, sqCap);
    RunInv(Init(target, depth, sqCap), run);
  }

  ghost predicate Reachable(s: Sys) {
    exists run :: ReachedBy(s.srv.target, s.srv.depth, s.srv.sqCap, run, s)
  }

  lemma ReachableInv(s: Sys)
    requires Reachable(s)
    ensures Inv(s)
  {
    var run :| ReachedBy(s.srv.target, s.srv.depth, s.srv.sqCap, run, s);
    ReachedInv(s.srv.target, s.srv.depth, s.srv.sqCap, run, s);
  }

  /** Legal steps lead from reachable states to reachable states. */
  lemma ReachableStep(s: Sys, st: Step)
    requires Reachable(s) && Enabled(s, st) && Polite(s, st)
    ensures Reachable(Apply(s, st))
  {
    var run :| ReachedBy(s.srv.target, s.srv.depth, s.srv.sqCap, run, s);
    var s' := Apply(s, st);
    ReachableInv(s);
    LegalExtend(Init(s.srv.target, s.srv.depth, s.srv.sqCap), run, st);
    if st.Handle? { HandleServer(s); }
    if st.FetchNext? && s.pc.next < s.srv.depth { FetchApplies(s); }
    assert ReachedBy(s'.srv.target, s'.srv.depth, s'.srv.sqCap, run + [st], s');
  }

  /** The completion about to be handled names a tag of the queue. */
  lemma HandleEnabled(s: Sys)
    requires Reachable(s) && s.pc.Reaping? && s.pc.head < |s.cq|
    ensures Enabled(s, Handle) && s.cq[s.pc.head].key.tag < s.srv.depth <= MAX_TAGS
    ensures |s.iods| == s.srv.depth && IodOk(s.iods[s.cq[s.pc.head].key.tag])
  {
    ReachableInv(s);
    assert CqeLogged(s, s.cq[s.pc.head]);
  }

  lemma CompleteEnabled(s: Sys, k: nat, res: int, d: Iod)
    requires Reachable(s) && k < |s.kern| && Int32(res) && IodOk(d)
    ensures Enabled(s, Complete(k, res, d))
  {
    ReachableInv(s);
    assert SqeLogged(s, s.kern[k]);
  }

  lemma FetchEnabled(s: Sys)
    requires Reachable(s) && s.pc.Fetching?
    ensures Enabled(s, FetchNext) && s.pc.next <= s.srv.depth <= MAX_TAGS
  {
    ReachableInv(s);
  }

  /** After the fetch loop each tag holds exactly one thing or is dead, and the counters count them. */
  lemma OneTokenPerTag(target: Target, depth: nat, sqCap: nat, run: seq<Step>, s: Sys)
    requires ReachedBy(target, depth, sqCap, run, s) && !s.pc.Fetching?
    ensures |s.srv.ios| == s.srv.depth && Head(s) <= |s.cq|
    ensures forall t :: 0 <= t < s.srv.depth ==>
      || (Held(OfTag(t), s) == 1 && Flags(s.srv.ios[t], false, false))
      || (Held(OfTag(t), s) == 0 && Flags(s.srv.ios[t], false, true))
    ensures s.srv.cmdInflight == Held(Commands, s) && s.srv.ioInflight == Held(FileIos, s)
    ensures s.srv.cmdInflight + s.srv.ioInflight + Dead(s, s.srv.depth) == s.srv.depth
  {
    ReachedInv(target, depth, sqCap, run, s);
    Total(s);
    forall t | 0 <= t < s.srv.depth
      ensures || (Held(OfTag(t), s) == 1 && Flags(s.srv.ios[t], false, false))
              || (Held(OfTag(t), s) == 0 && Flags(s.srv.ios[t], false, true))
    {
      assert TagOk(s, t);
    }
  }

  /** The places where the code calls io_uring_get_sqe. */
  ghost predicate AsksForSlot(s: Sys, st: Step) {
    && Enabled(s, st)
    && ((st.FetchNext? && s.pc.next < s.srv.depth)
        || (st.Handle? && (s.cq[s.pc.head].key.tgt || s.cq[s.pc.head].data == RES_OK)))
  }

  /** Neither ring overflows, and a slot that is asked for is there and gets used. */
  lemma RingsNeverOverflow(target: Target, depth: nat, sqCap: nat, run: seq<Step>, s: Sys)
    requires ReachedBy(target, depth, sqCap, run, s)
    ensures Head(s) <= |s.cq|
    ensures |s.srv.sq| + |s.kern| + (|s.cq| - Head(s)) <= s.srv.depth
    ensures |s.kern| + |s.cq| <= s.srv.depth
    ensures forall st :: AsksForSlot(s, st) ==>
      |s.srv.sq| < s.srv.depth <= s.srv.sqCap && |Apply(s, st).srv.sq| == |s.srv.sq| + 1
  {
    ReachedInv(target, depth, sqCap, run, s);
    Total(s);
    forall st | AsksForSlot(s, st)
      ensures |s.srv.sq| < s.srv.depth <= s.srv.sqCap && |Apply(s, st).srv.sq| == |s.srv.sq| + 1
    {
      if st.Handle? {
        SlotFree(s);
        HandleApplies(s);
      } else {
        assert TagOk(s, s.pc.next);
        DeadWitness(s, s.srv.depth, s.pc.next);
      }
    }
  }

  /** The event word of every tag, over every run. */
  lemma WordOfEveryTag(target: Target, depth: nat, sqCap: nat, run: seq<Step>, s: Sys, t: nat)
    requires ReachedBy(target, depth, sqCap, run, s) && t < |s.hist|
    ensures WordOk(s.srv.target, t, s.hist[t])
    ensures Occurrences(s.hist[t], IsFetch) <= 1
    ensures forall i :: 0 <= i < |s.hist[t]| && s.hist[t][i].Refuse? ==> i == |s.hist[t]| - 1
  {
    ReachedInv(target, depth, sqCap, run, s);
    var w := s.hist[t];
    assert WordOk(s.srv.target, t, w);
    WordCounts(s.srv.target, t, w);
    forall i | 0 <= i < |w| - 1 ensures !w[i].Refuse? { assert Follows(s.srv.target, t, w[i], w[i + 1]); }
  }

  /** No request is lost: one that was delivered and is not committed is in flight, exactly once. */
  lemma NoRequestLost(target: Target, depth: nat, sqCap: nat, run: seq<Step>, s: Sys, t: nat)
    requires ReachedBy(target, depth, sqCap, run, s) && t < |s.hist|
    requires s.hist[t] != [] && Outstanding(Last(s.hist[t]))
    ensures Head(s) <= |s.cq| && Held(OfTag(t), s) == 1
  {
    ReachedInv(target, depth, sqCap, run, s);
    assert TagOk(s, t);
  }

  /** A tag with something in flight has its last event's counterpart in one of the three places. */
  lemma Locate(s: Sys, t: nat)
    requires Inv(s) && t < s.srv.depth && Held(OfTag(t), s) == 1
    ensures || (exists i :: 0 <= i < |s.srv.sq| && s.srv.sq[i].key.tag == t)
            || (exists i :: 0 <= i < |s.kern| && s.kern[i].key.tag == t)
            || (exists i :: Head(s) <= i < |s.cq| && s.cq[i].key.tag == t)
  {
    CountZero(t, s.srv.sq);
    CountZero(t, s.kern);
    CountZero(t, s.cq[Head(s)..]);
    if i :| 0 <= i < |s.cq[Head(s)..]| && s.cq[Head(s)..][i].key.tag == t {
      assert s.cq[Head(s) + i].key.tag == t;
    }
  }

  lemma NoFileIo<T>(q: seq<Entry<T>>, i: nat)
    requires i < |q| && Count(FileIos, q) == 0
    ensures !q[i].key.tgt
  {
    CountRemove(FileIos, q, i);
  }

  /** A request delivered on the tag waits in the completion ring. */
  ghost predicate Unreaped(s: Sys, t: nat)
    requires Head(s) <= |s.cq|
  {
    exists i :: Head(s) <= i < |s.cq| && s.cq[i].key.tag == t && !s.cq[i].key.tgt && s.cq[i].data == RES_OK
  }

  /** With no target I/O in flight, an outstanding request is one the driver just delivered. */
  lemma OutstandingIsUnreaped(s: Sys, t: nat)
    requires Inv(s) && !s.pc.Fetching? && t < s.srv.depth && s.srv.sq == [] && Held(FileIos, s) == 0
    requires t < |s.hist| && s.hist[t] != [] && Outstanding(Last(s.hist[t]))
    ensures Last(s.hist[t]).Deliver?
    ensures Unreaped(s, t)
  {
    assert TagOk(s, t);
    var w := s.hist[t];
    WordEntries(s.srv.target, t, w, |w| - 1);
    Locate(s, t);
    if i :| 0 <= i < |s.kern| && s.kern[i].key.tag == t {
      assert SqeLogged(s, s.kern[i]);
      NoFileIo(s.kern, i);
    } else {
      var i :| Head(s) <= i < |s.cq| && s.cq[i].key.tag == t;
      assert CqeLogged(s, s.cq[i]);
      assert s.cq[i] == s.cq[Head(s)..][i - Head(s)];
      NoFileIo(s.cq[Head(s)..], i - Head(s));
    }
  }

  /** Each request delivered on a tag has its commit, or is the last event and was never reaped. */
  ghost predicate DeliveriesSettled(s: Sys, t: nat)
    requires t < |s.hist| && Head(s) <= |s.cq|
  {
    var w := s.hist[t];
    forall i :: 0 <= i < |w| && w[i].Deliver? ==>
      if i + Span(s.srv.target) < |w| then IsCommit(w[i + Span(s.srv.target)])
      else i == |w| - 1 && Unreaped(s, t)
  }

  /** When the thread leaves, no target I/O is anywhere, every prepared entry has gone to the kernel,
      and each delivered request is either committed or was never taken off the completion ring. */
  lemma SafeExit(target: Target, depth: nat, sqCap: nat, run: seq<Step>, s: Sys)
    requires ReachedBy(target, depth, sqCap, run, s) && s.pc.Exited?
    ensures s.srv.stopping && s.srv.sq == []
    ensures forall i :: 0 <= i < |s.kern| ==> !s.kern[i].key.tgt
    ensures forall i :: 0 <= i < |s.cq| ==> !s.cq[i].key.tgt
    ensures forall t :: 0 <= t < |s.hist| ==> DeliveriesSettled(s, t)
  {
    ReachedInv(target, depth, sqCap, run, s);
    assert s.cq[0..] == s.cq;
    forall i | 0 <= i < |s.kern| ensures !s.kern[i].key.tgt { NoFileIo(s.kern, i); }
    forall i | 0 <= i < |s.cq| ensures !s.cq[i].key.tgt { NoFileIo(s.cq, i); }
    forall t | 0 <= t < |s.hist| ensures DeliveriesSettled(s, t) {
      var w := s.hist[t];
      forall i | 0 <= i < |w| && w[i].Deliver? && i + Span(s.srv.target) >= |w|
        ensures i == |w| - 1 && Unreaped(s, t)
      {
        DeliveryIsCommitted(s.srv.target, t, w, i);
        OutstandingIsUnreaped(s, t);
      }
      forall i | 0 <= i < |w| && w[i].Deliver? && i + Span(s.srv.target) < |w|
        ensures IsCommit(w[i + Span(s.srv.target)])
      {
        DeliveryIsCommitted(s.srv.target, t, w, i);
      }
    }
  }

  /** STOPPING is never cleared. */
  lemma {:induction false} StoppingStays(s: Sys, run: seq<Step>)
    requires Inv(s) && Legal(s, run) && s.srv.stopping
    ensures After(s, run).srv.stopping
    decreases |run|
  {
    if run == [] {
    } else {
      StepInv(s, run[0]);
      if run[0].Handle? { HandleServer(s); }
      StoppingStays(Apply(s, run[0]), run[1..]);
    }
  }
}
