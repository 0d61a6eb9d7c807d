/** The loop target's early returns: which requests keep the submission ring sound, over all runs in
    which the driver may deliver anything. */
module UblkUnsupported {
  import opened UblkTypes
  import opened UblkServer
  import opened UblkSystem
  import opened UblkInvariant
  import opened UblkSteps

  /** Runs in which the driver is not polite. */
  ghost predicate Possible(s: Sys, run: seq<Step>)
    decreases |run|
  {
    run == [] || (Enabled(s, run[0]) && Possible(Apply(s, run[0]), run[1..]))
  }

  ghost function Final(s: Sys, run: seq<Step>): Sys
    requires Possible(s, run)
    decreases |run|
  {
    if run == [] then s else Final(Apply(s, run[0]), run[1..])
  }

  /** The step on which the loop target meets a request that it rejects. */
  ghost predicate Rejects(s: Sys, st: Step) {
    && st.Handle? && Enabled(s, st) && s.srv.target.Loop?
    && var c := s.cq[s.pc.head]; !c.key.tgt && c.data == RES_OK && !Supported(s.iods[c.key.tag].op)
  }

  ghost predicate NoRejects(s: Sys, run: seq<Step>)
    requires Possible(s, run)
    decreases |run|
  {
    run == [] || (!Rejects(s, run[0]) && NoRejects(Apply(s, run[0]), run[1..]))
  }

  ghost predicate AllPrepared(sq: seq<Sqe>) {
    forall i :: 0 <= i < |sq| ==> !sq[i].data.Unprepared?
  }

  /** Every entry in the ring, or taken from it by the kernel, was prepared. */
  ghost predicate Sound(s: Sys) { AllPrepared(s.srv.sq) && AllPrepared(s.kern) }

  ghost predicate SoundThroughout(s: Sys, run: seq<Step>)
    requires Possible(s, run)
    decreases |run|
  {
    Sound(s) && (run == [] || SoundThroughout(Apply(s, run[0]), run[1..]))
  }

  // ----- a run without rejections looks like one with a polite driver

  /** Reading every rejected operation that is still to be handled as a READ. */
  function MaskIod(target: Target, d: Iod): Iod {
    if target.Loop? && !Supported(d.op) then d.(op := OP_READ) else d
  }

  function MaskEvent(target: Target, e: Event): Event {
    if e.Deliver? then Deliver(MaskIod(target, e.iod)) else e
  }

  function MaskIods(target: Target, iods: seq<Iod>): seq<Iod> {
    seq(|iods|, i requires 0 <= i < |iods| => MaskIod(target, iods[i]))
  }

  function MaskWord(target: Target, w: seq<Event>): seq<Event> {
    seq(|w|, i requires 0 <= i < |w| => MaskEvent(target, w[i]))
  }

  function MaskHist(target: Target, hist: seq<seq<Event>>): seq<seq<Event>> {
    seq(|hist|, i requires 0 <= i < |hist| => MaskWord(target, hist[i]))
  }

  function Mask(s: Sys): Sys {
    s.(iods := MaskIods(s.srv.target, s.iods), hist := MaskHist(s.srv.target, s.hist))
  }

  function MaskStep(target: Target, st: Step): Step {
    if st.Complete? then st.(iod := MaskIod(target, st.iod)) else st
  }

  lemma MaskLog(target: Target, hist: seq<seq<Event>>, tag: nat, e: Event)
    ensures MaskHist(target, Log(hist, tag, e)) == Log(MaskHist(target, hist), tag, MaskEvent(target, e))
  {
    if tag < |hist| {
      assert MaskWord(target, hist[tag] + [e]) == MaskWord(target, hist[tag]) + [MaskEvent(target, e)];
    }
  }

  lemma {:induction false} MaskLogIssues(target: Target, hist: seq<seq<Event>>, before: seq<Sqe>, after: seq<Sqe>)
    ensures MaskHist(target, LogIssues(hist, before, after)) == LogIssues(MaskHist(target, hist), before, after)
    decreases |after| - |before|
  {
    if |after| <= |before| {
    } else {
      var rest := after[..|after| - 1];
      MaskLogIssues(target, hist, before, rest);
      MaskLog(target, LogIssues(hist, before, rest), after[|after| - 1].key.tag, Issue(after[|after| - 1]));
    }
  }

  /** No handler changes the target. */
  lemma SameTarget(s: Sys, st: Step)
    requires Enabled(s, st)
    ensures Apply(s, st).srv.target == s.srv.target
  {
  }

  lemma MaskServe(s: Sys, srv': Server, pc': Pc)
    requires srv'.target == s.srv.target
    ensures Mask(Serve(s, srv', pc')) == Serve(Mask(s), srv', pc')
  {
    MaskLogIssues(s.srv.target, s.hist, s.srv.sq, srv'.sq);
  }

  lemma MaskComplete(s: Sys, k: nat, res: int, d: Iod)
    requires k < |s.kern| && s.kern[k].key.tag < |s.iods|
    ensures Mask(CompleteEntry(s, k, res, d)) == CompleteEntry(Mask(s), k, res, MaskIod(s.srv.target, d))
  {
    var e := s.kern[k];
    var delivers := !e.key.tgt && res == RES_OK;
    MaskLog(s.srv.target, s.hist, e.key.tag,
      if e.key.tgt then Done(res) else if delivers then Deliver(d) else Refuse(res));
    assert MaskIods(s.srv.target, s.iods[e.key.tag := d]) ==
      MaskIods(s.srv.target, s.iods)[e.key.tag := MaskIod(s.srv.target, d)];
  }

  /** Handling looks at the operation of a request only where it may reject it. */
  lemma MaskHandled(s: Server, c: Cqe, d: Iod)
    requires c.key.tag < |s.ios|
    requires s.target.Loop? && !c.key.tgt && c.data == RES_OK ==> Supported(d.op)
    ensures HandleCqe(s, c, MaskIod(s.target, d)) == HandleCqe(s, c, d)
  {
  }

  /** Masking turns a step that rejects nothing into a step with a polite driver. */
  lemma MaskApply(s: Sys, st: Step)
    requires Enabled(s, st) && !Rejects(s, st)
    ensures var st' := MaskStep(s.srv.target, st);
      && Enabled(Mask(s), st') && Polite(Mask(s), st')
      && Mask(Apply(s, st)) == Apply(Mask(s), st')
  {
    SameTarget(s, st);
    match st
    case FetchNext =>
      if s.pc.next < s.srv.depth { MaskServe(s, QueueIoCmd(s.srv, s.pc.next), Fetching(s.pc.next + 1)); }
    case Complete(k, res, d) => MaskComplete(s, k, res, d);
    case Handle =>
      var c := s.cq[s.pc.head];
      var d := s.iods[c.key.tag];
      MaskHandled(s.srv, c, d);
      MaskServe(s, HandleCqe(s.srv, c, d), Reaping(s.pc.head + 1, s.pc.timedOut));
    case _ =>
  }

  lemma MaskInit(target: Target, depth: nat, sqCap: nat)
    ensures Mask(Init(target, depth, sqCap)) == Init(target, depth, sqCap)
  {
    var s := Init(target, depth, sqCap);
    assert MaskIods(target, s.iods) == s.iods;
    assert MaskHist(target, s.hist) == s.hist by { assert MaskWord(target, []) == []; }
  }

  lemma MaskedStep(s: Sys, st: Step)
    requires Inv(Mask(s)) && Enabled(s, st) && !Rejects(s, st)
    ensures Inv(Mask(Apply(s, st)))
  {
    MaskApply(s, st);
    StepInv(Mask(s), MaskStep(s.srv.target, st));
  }

  lemma {:induction false} MaskedRun(s: Sys, run: seq<Step>)
    requires Inv(Mask(s)) && Possible(s, run) && NoRejects(s, run)
    ensures Inv(Mask(Final(s, run)))
    decreases |run|
  {
    if run == [] {
    } else {
      MaskedStep(s, run[0]);
      MaskedRun(Apply(s, run[0]), run[1..]);
    }
  }

  lemma MaskedSound(s: Sys)
    requires Inv(Mask(s))
    ensures Sound(s)
  {
    forall i | 0 <= i < |s.srv.sq| ensures !s.srv.sq[i].data.Unprepared? { assert SqeLogged(Mask(s), s.srv.sq[i]); }
    forall i | 0 <= i < |s.kern| ensures !s.kern[i].data.Unprepared? { assert SqeLogged(Mask(s), s.kern[i]); }
  }

  // ----- what a rejection does

  /** The errno of the two rejecting branches. */
  function Rejection(op: nat): int { if op == OP_DISCARD || op == OP_WRITE_ZEROES then -ENOTSUP else -EINVAL }

  /** The free slot, the clear flags and the counter that a rejecting step finds. */
  lemma RejectFinds(s: Sys)
    requires Inv(Mask(s)) && Rejects(s, Handle)
    ensures var t := s.cq[s.pc.head].key.tag;
      && |s.srv.sq| < s.srv.sqCap && 0 < s.srv.cmdInflight <= s.srv.depth <= MAX_TAGS
      && Flags(s.srv.ios[t], false, false)
      && (forall i :: 0 <= i < |s.srv.sq| ==> s.srv.sq[i].key.tag != t)
      && (forall i :: 0 <= i < |s.kern| ==> s.kern[i].key.tag != t)
      && (forall i :: s.pc.head < i < |s.cq| ==> s.cq[i].key.tag != t)
  {
    var m := Mask(s);
    SlotFree(m);
    HandledAlone(m);
    assert TagOk(m, m.cq[m.pc.head].key.tag);
  }

  /** An entry as `io_uring_get_sqe` hands it out. */
  const STALE: Sqe := Entry(Key(0, 0, false), Unprepared)

  lemma RejectEffect(s: Server, c: Cqe, d: Iod)
    requires s.target.Loop? && !c.key.tgt && c.data == RES_OK && !Supported(d.op)
    requires c.key.tag < |s.ios| && Flags(s.ios[c.key.tag], false, false) && |s.sq| < s.sqCap
    ensures var s' := HandleCqe(s, c, d);
      var answered := |s.sq| + 2 <= s.sqCap;
      && s'.sq == s.sq + [STALE] + (if answered then [CommitSqe(c.key.tag, Rejection(d.op))] else [])
      && |s'.ios| == |s.ios| && s'.ios[c.key.tag].ioFree == s'.ios[c.key.tag].needCommit == !answered
  {
  }

  lemma RejectBreaks(s: Sys)
    requires Inv(Mask(s)) && Rejects(s, Handle)
    ensures !Sound(Apply(s, Handle))
  {
    RejectFinds(s);
    var c := s.cq[s.pc.head];
    RejectEffect(s.srv, c, s.iods[c.key.tag]);
    assert Apply(s, Handle).srv.sq[|s.srv.sq|] == STALE;
  }

  lemma {:induction false} SoundIff(s: Sys, run: seq<Step>)
    requires Inv(Mask(s)) && Possible(s, run)
    ensures SoundThroughout(s, run) <==> NoRejects(s, run)
    decreases |run|
  {
    MaskedSound(s);
    if run == [] {
    } else {
      if Rejects(s, run[0]) {
        RejectBreaks(s);
      } else {
        MaskedStep(s, run[0]);
        SoundIff(Apply(s, run[0]), run[1..]);
      }
    }
  }

  /** Over every run, whatever the driver delivers: all entries stay prepared exactly when every request
      that the loop target handles is a READ, WRITE or FLUSH. */
  lemma RingSoundIffSupported(target: Target, depth: nat, sqCap: nat, run: seq<Step>)
    requires depth <= sqCap && depth <= MAX_TAGS && Possible(Init(target, depth, sqCap), run)
    ensures SoundThroughout(Init(target, depth, sqCap), run) <==> NoRejects(Init(target, depth, sqCap), run)
  {
    InitInv(target, depth, sqCap);
    MaskInit(target, depth, sqCap);
    SoundIff(Init(target, depth, sqCap), run);
  }

  // ----- a tag that is left behind

  /** The tag is marked for a commit that nothing will issue: it has nothing in flight. */
  ghost predicate Abandoned(s: Sys, t: nat) {
    && !s.pc.Fetching? && t < |s.srv.ios| && t < |s.hist|
    && s.srv.ios[t].needCommit && s.srv.ios[t].ioFree
    && (forall i :: 0 <= i < |s.srv.sq| && !s.srv.sq[i].data.Unprepared? ==> s.srv.sq[i].key.tag != t)
    && (forall i :: 0 <= i < |s.kern| && !s.kern[i].data.Unprepared? ==> s.kern[i].key.tag != t)
    && forall i :: Head(s) <= i < |s.cq| ==> s.cq[i].key.tag != t
  }

  /** Nothing happened to the tag but stale entries, which are logged under tag 0. */
  ghost predicate OnlyStale(w: seq<Event>, w': seq<Event>) {
    w <= w' && forall i :: |w| <= i < |w'| ==> w'[i] == Issue(STALE)
  }

  lemma OnlyStaleChain(w: seq<Event>, w1: seq<Event>, w2: seq<Event>)
    requires OnlyStale(w, w1) && OnlyStale(w1, w2)
    ensures OnlyStale(w, w2)
  {
    forall i | |w| <= i < |w2| ensures w2[i] == Issue(STALE) {
      if i < |w1| { assert w2[i] == w1[i]; }
    }
  }

  /** A handler called for one tag appends entries of that tag and stale ones, and touches no other tag. */
  ghost predicate StaysWithTag(s: Server, s': Server, tag: nat) {
    && |s.sq| <= |s'.sq| && s'.sq[..|s.sq|] == s.sq
    && (forall i :: |s.sq| <= i < |s'.sq| ==> s'.sq[i] == STALE || s'.sq[i].key.tag == tag)
    && |s'.ios| == |s.ios| && forall t :: 0 <= t < |s.ios| && t != tag ==> s'.ios[t] == s.ios[t]
  }

  lemma CompleteIoStays(s: Server, tag: nat, res: int)
    requires tag < |s.ios|
    ensures StaysWithTag(s, CompleteIo(s, tag, res), tag)
  {
  }

  lemma QueueIoStays(s: Server, tag: nat, d: Iod)
    requires tag < |s.ios|
    ensures StaysWithTag(s, QueueIo(s, tag, d), tag)
  {
    if s.target.Null? {
      CompleteIoStays(s, tag, ByteLen(d));
    } else if |s.sq| >= s.sqCap {
      CompleteIoStays(s, tag, -ENOMEM);
    } else if !Supported(d.op) {
      CompleteIoStays(s.(sq := s.sq + [STALE]), tag, Rejection(d.op));
    }
  }

  lemma HandleStaysWithTag(s: Server, c: Cqe, d: Iod)
    requires c.key.tag < |s.ios|
    ensures StaysWithTag(s, HandleCqe(s, c, d), c.key.tag)
  {
    var tag := c.key.tag;
    if c.key.tgt {
      CompleteIoStays(s, tag, c.data);
    } else {
      var s1 := s.(cmdInflight := Dec(s.cmdInflight));
      QueueIoStays(s1, tag, d);
      QueueIoStays(s1.(stopping := true, ios := s1.ios[tag := s1.ios[tag].(needFetch := false)]), tag, d);
    }
  }

  lemma {:induction false} LogIssuesOfOthers(hist: seq<seq<Event>>, before: seq<Sqe>, after: seq<Sqe>, t: nat)
    requires t < |hist|
    requires forall i :: |before| <= i < |after| ==> after[i] == STALE || after[i].key.tag != t
    ensures |LogIssues(hist, before, after)| == |hist|
    ensures OnlyStale(hist[t], LogIssues(hist, before, after)[t])
    decreases |after| - |before|
  {
    if |after| <= |before| {
    } else {
      LogIssuesOfOthers(hist, before, after[..|after| - 1], t);
    }
  }

  lemma AbandonedHandle(s: Sys, t: nat)
    requires Abandoned(s, t) && Enabled(s, Handle)
    ensures Abandoned(Apply(s, Handle), t) && OnlyStale(s.hist[t], Apply(s, Handle).hist[t])
  {
    var c := s.cq[s.pc.head];
    var srv' := HandleCqe(s.srv, c, s.iods[c.key.tag]);
    HandleStaysWithTag(s.srv, c, s.iods[c.key.tag]);
    LogIssuesOfOthers(s.hist, s.srv.sq, srv'.sq, t);
    forall i | 0 <= i < |srv'.sq| && !srv'.sq[i].data.Unprepared? ensures srv'.sq[i].key.tag != t {
      if i < |s.srv.sq| { assert srv'.sq[i] == s.srv.sq[i]; }
    }
  }

  lemma AbandonedComplete(s: Sys, t: nat, k: nat, res: int, d: Iod)
    requires Abandoned(s, t) && Enabled(s, Complete(k, res, d))
    ensures Abandoned(CompleteEntry(s, k, res, d), t) && CompleteEntry(s, k, res, d).hist[t] == s.hist[t]
  {
    var s' := CompleteEntry(s, k, res, d);
    forall i | 0 <= i < |s'.kern| && !s'.kern[i].data.Unprepared? ensures s'.kern[i].key.tag != t {
      assert s'.kern[i] == s.kern[if i < k then i else i + 1];
    }
  }

  lemma AbandonedStep(s: Sys, t: nat, st: Step)
    requires Abandoned(s, t) && Enabled(s, st)
    ensures Abandoned(Apply(s, st), t) && OnlyStale(s.hist[t], Apply(s, st).hist[t])
  {
    match st
    case Handle => AbandonedHandle(s, t);
    case Complete(k, res, d) => AbandonedComplete(s, t, k, res, d);
    case _ =>
  }

  /** A tag that is left behind stays so, and gets no commit and no request, however the run goes on. */
  lemma {:induction false} AbandonedForever(s: Sys, t: nat, run: seq<Step>)
    requires Abandoned(s, t) && Possible(s, run)
    ensures Abandoned(Final(s, run), t) && OnlyStale(s.hist[t], Final(s, run).hist[t])
    decreases |run|
  {
    if run == [] {
    } else {
      var s1 := Apply(s, run[0]);
      AbandonedStep(s, t, run[0]);
      AbandonedForever(s1, t, run[1..]);
      OnlyStaleChain(s.hist[t], s1.hist[t], Final(s1, run[1..]).hist[t]);
    }
  }

  // ----- the answer to a rejected request

  /** Since its word was `w`, nothing has been issued for the tag, and nothing is in flight for it. */
  ghost predicate LeftBehind(w: seq<Event>, s: Sys, t: nat) {
    Abandoned(s, t) && OnlyStale(w, s.hist[t])
  }

  ghost predicate LeftForever(w: seq<Event>, s: Sys, t: nat) {
    forall more :: Possible(s, more) ==> LeftBehind(w, Final(s, more), t)
  }

  lemma LeftBehindForever(w: seq<Event>, s: Sys, t: nat)
    requires LeftBehind(w, s, t)
    ensures LeftForever(w, s, t)
  {
    forall more | Possible(s, more) ensures LeftBehind(w, Final(s, more), t) {
      AbandonedForever(s, t, more);
      OnlyStaleChain(w, s.hist[t], Final(s, more).hist[t]);
    }
  }

  /** With a second free slot the error is committed at once; without one it never is. */
  ghost predicate AnsweredIffSlot(s: Sys, s': Sys, t: nat)
    requires t < |s.iods|
  {
    if |s.srv.sq| + 2 <= s.srv.sqCap
    then s'.srv.sq == s.srv.sq + [STALE, CommitSqe(t, Rejection(s.iods[t].op))]
    else
      && s'.srv.sq == s.srv.sq + [STALE]
      && t < |s.hist| && s.hist[t] != [] && Last(s.hist[t]).Deliver?
      && LeftForever(s.hist[t], s', t)
  }

  /** A step that only takes a stale entry for a tag with nothing else in flight leaves it behind. */
  lemma StaleEntryLeaves(s: Sys, srv': Server, t: nat)
    requires s.pc.Reaping? && s.pc.head < |s.cq| && t < |s.hist| && t < |srv'.ios|
    requires srv'.sq == s.srv.sq + [STALE] && srv'.ios[t].needCommit && srv'.ios[t].ioFree
    requires forall i :: 0 <= i < |s.srv.sq| ==> s.srv.sq[i].key.tag != t
    requires forall i :: 0 <= i < |s.kern| ==> s.kern[i].key.tag != t
    requires forall i :: s.pc.head < i < |s.cq| ==> s.cq[i].key.tag != t
    ensures LeftBehind(s.hist[t], Serve(s, srv', Reaping(s.pc.head + 1, s.pc.timedOut)), t)
  {
    LogIssuesOfOthers(s.hist, s.srv.sq, srv'.sq, t);
  }

  lemma RejectedWasDelivered(s: Sys)
    requires Inv(Mask(s)) && Rejects(s, Handle)
    ensures var t := s.cq[s.pc.head].key.tag;
      t < |s.hist| && s.hist[t] != [] && Last(s.hist[t]).Deliver?
  {
    assert CqeLogged(Mask(s), s.cq[s.pc.head]);
  }

  /** The ring entries that a rejecting step leaves, and the flags of the tag. */
  lemma RejectServer(s: Sys)
    requires Inv(Mask(s)) && Rejects(s, Handle)
    ensures var t := s.cq[s.pc.head].key.tag;
      var srv' := HandleCqe(s.srv, s.cq[s.pc.head], s.iods[t]);
      var answered := |s.srv.sq| + 2 <= s.srv.sqCap;
      && srv'.sq == s.srv.sq + [STALE] + (if answered then [CommitSqe(t, Rejection(s.iods[t].op))] else [])
      && t < |srv'.ios| && (!answered ==> srv'.ios[t].needCommit && srv'.ios[t].ioFree)
  {
    RejectFinds(s);
    RejectEffect(s.srv, s.cq[s.pc.head], s.iods[s.cq[s.pc.head].key.tag]);
  }

  lemma RejectLeaves(s: Sys)
    requires Inv(Mask(s)) && Rejects(s, Handle) && |s.srv.sq| + 2 > s.srv.sqCap
    ensures var t := s.cq[s.pc.head].key.tag;
      t < |s.hist| && LeftBehind(s.hist[t], Apply(s, Handle), t)
  {
    var t := s.cq[s.pc.head].key.tag;
    RejectServer(s);
    RejectFinds(s);
    RejectedWasDelivered(s);
    StaleEntryLeaves(s, HandleCqe(s.srv, s.cq[s.pc.head], s.iods[t]), t);
  }

  lemma RejectReply(s: Sys)
    requires Inv(Mask(s)) && Rejects(s, Handle)
    ensures AnsweredIffSlot(s, Apply(s, Handle), s.cq[s.pc.head].key.tag)
  {
    var t := s.cq[s.pc.head].key.tag;
    RejectServer(s);
    if |s.srv.sq| + 2 <= s.srv.sqCap {
      assert [STALE] + [CommitSqe(t, Rejection(s.iods[t].op))] == [STALE, CommitSqe(t, Rejection(s.iods[t].op))];
    } else {
      RejectedWasDelivered(s);
      RejectLeaves(s);
      LeftBehindForever(s.hist[t], Apply(s, Handle), t);
    }
  }

  /** The first rejection of a run, on any queue, is answered with its error exactly when a second slot
      is free; otherwise no continuation of the run ever issues anything for that tag. */
  lemma RejectedRequestAnsweredIffSlot(target: Target, depth: nat, sqCap: nat, run: seq<Step>, s: Sys)
    requires depth <= sqCap && depth <= MAX_TAGS && Possible(Init(target, depth, sqCap), run)
    requires NoRejects(Init(target, depth, sqCap), run) && s == Final(Init(target, depth, sqCap), run)
    requires Rejects(s, Handle)
    ensures AnsweredIffSlot(s, Apply(s, Handle), s.cq[s.pc.head].key.tag)
  {
    InitInv(target, depth, sqCap);
    MaskInit(target, depth, sqCap);
    MaskedRun(Init(target, depth, sqCap), run);
    RejectReply(s);
  }

  // ----- a run in which that happens

  lemma PossibleExtend(s: Sys, run: seq<Step>, st: Step)
    requires Possible(s, run) && Enabled(Final(s, run), st)
    ensures Possible(s, run + [st]) && Final(s, run + [st]) == Apply(Final(s, run), st)
    decreases |run|
  {
    if run == [] {
      assert [] + [st] == [st];
    } else {
      assert (run + [st])[1..] == run[1..] + [st];
      PossibleExtend(Apply(s, run[0]), run[1..], st);
    }
  }

  lemma Extend(run: seq<Step>, s: Sys, st: Step) returns (run': seq<Step>, s': Sys)
    requires Possible(Init(Loop, 1, 1), run) && s == Final(Init(Loop, 1, 1), run) && Enabled(s, st)
    ensures Possible(Init(Loop, 1, 1), run') && s' == Final(Init(Loop, 1, 1), run') == Apply(s, st)
  {
    PossibleExtend(Init(Loop, 1, 1), run, st);
    run', s' := run + [st], Apply(s, st);
  }

  /** A one-tag queue that has sent its FETCH and is waiting. */
  lemma OneTag() returns (run: seq<Step>, s: Sys)
    ensures Possible(Init(Loop, 1, 1), run) && s == Final(Init(Loop, 1, 1), run)
    ensures s.pc == Waiting(false) && s.srv.sq == [] && s.kern == [FetchSqe(0)] && s.cq == []
    ensures s.hist == [[Issue(FetchSqe(0))]] && |s.iods| == |s.srv.ios| == s.srv.sqCap == 1
    ensures s.srv.target == Loop && !s.srv.stopping && Flags(s.srv.ios[0], false, false)
  {
    run, s := [], Init(Loop, 1, 1);
    InitInv(Loop, 1, 1);
    FetchApplies(s);
    run, s := Extend(run, s, FetchNext);
    run, s := Extend(run, s, FetchNext);
    run, s := Extend(run, s, EnterWait);
    run, s := Extend(run, s, Submit);
  }

  /** Its first request, about to be handled. */
  lemma Delivered(d: Iod) returns (run: seq<Step>, s: Sys)
    requires IodOk(d)
    ensures Possible(Init(Loop, 1, 1), run) && s == Final(Init(Loop, 1, 1), run)
    ensures s.pc == Reaping(0, false) && s.srv.sq == [] && s.kern == []
    ensures s.cq == [Entry(FetchSqe(0).key, RES_OK)] && s.iods == [d]
    ensures s.hist == [[Issue(FetchSqe(0)), Deliver(d)]] && |s.srv.ios| == s.srv.sqCap == 1
    ensures s.srv.target == Loop && !s.srv.stopping && Flags(s.srv.ios[0], false, false)
  {
    run, s := OneTag();
    run, s := Extend(run, s, Complete(0, RES_OK, d));
    assert s.hist[0] == [Issue(FetchSqe(0)), Deliver(d)];
    run, s := Extend(run, s, Wake(false));
  }

  /** A one-tag queue whose first request is rejected takes it and never answers it. */
  lemma DiscardIsLost(d: Iod) returns (run: seq<Step>, s: Sys)
    requires IodOk(d) && !Supported(d.op)
    ensures Possible(Init(Loop, 1, 1), run) && s == Final(Init(Loop, 1, 1), run)
    ensures s.hist == [[Issue(FetchSqe(0)), Deliver(d), Issue(STALE)]]
    ensures LeftForever(s.hist[0], s, 0)
  {
    run, s := Delivered(d);
    LogOne(s.hist, [], STALE);
    RejectEffect(s.srv, s.cq[0], d);
    assert HandleCqe(s.srv, s.cq[0], d).sq == [STALE];
    run, s := Extend(run, s, Handle);
    assert s.hist[0] == [Issue(FetchSqe(0)), Deliver(d), Issue(STALE)];
    LeftBehindForever(s.hist[0], s, 0);
  }
}
