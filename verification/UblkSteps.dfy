/** Every step of a run keeps the invariant. */
module UblkSteps {
  import opened UblkTypes
  import opened UblkServer
  import opened UblkSystem
  import opened UblkCounting
  import opened UblkInvariant

  /** Steps that only move an entry, or move nothing, change no count. */
  ghost predicate SameHeld(s: Sys, s': Sys)
    requires Head(s) <= |s.cq| && Head(s') <= |s'.cq|
  {
    forall q: Query :: Held(q, s') == Held(q, s)
  }

  lemma SubmitHeld(s: Sys)
    requires Head(s) <= |s.cq| && Enabled(s, Submit)
    ensures SameHeld(s, Apply(s, Submit))
  {
    forall q: Query ensures Held(q, Apply(s, Submit)) == Held(q, s) {
      CountRemove(q, s.srv.sq, 0);
      assert s.srv.sq[..0] + s.srv.sq[1..] == s.srv.sq[1..];
      CountAppend(q, s.kern, s.srv.sq[0]);
    }
  }

  lemma SqeFrame(s: Sys, s': Sys, e: Sqe)
    requires SqeLogged(s, e) && s'.srv.target == s.srv.target && |s'.hist| == |s.hist|
    requires s'.hist[e.key.tag] == s.hist[e.key.tag]
    ensures SqeLogged(s', e)
  {
  }

  lemma CqeFrame(s: Sys, s': Sys, c: Cqe)
    requires CqeLogged(s, c) && s'.srv.target == s.srv.target && |s'.hist| == |s.hist| && |s'.iods| == |s.iods|
    requires s'.hist[c.key.tag] == s.hist[c.key.tag] && s'.iods[c.key.tag] == s.iods[c.key.tag]
    ensures CqeLogged(s', c)
  {
  }

  lemma SubmitInv(s: Sys)
    requires Inv(s) && Enabled(s, Submit)
    ensures Inv(Apply(s, Submit))
  {
    var s' := Apply(s, Submit);
    SubmitHeld(s);
    Total(s);
    forall i | 0 <= i < |s'.srv.sq| ensures SqeLogged(s', s'.srv.sq[i]) { SqeFrame(s, s', s.srv.sq[i + 1]); }
    forall i | 0 <= i < |s'.kern| ensures SqeLogged(s', s'.kern[i]) {
      SqeFrame(s, s', if i < |s.kern| then s.kern[i] else s.srv.sq[0]);
    }
    forall i | Head(s') <= i < |s'.cq| ensures CqeLogged(s', s'.cq[i]) { CqeFrame(s, s', s.cq[i]); }
    forall t | 0 <= t < s.srv.depth ensures TagOk(s', t) { assert TagOk(s, t); }
  }

  lemma CompleteHeld(s: Sys, k: nat, res: int, d: Iod)
    requires Head(s) <= |s.cq| && Enabled(s, Complete(k, res, d))
    ensures SameHeld(s, Apply(s, Complete(k, res, d)))
  {
    var s' := Apply(s, Complete(k, res, d));
    forall q: Query ensures Held(q, s') == Held(q, s) {
      CountRemove(q, s.kern, k);
      CountAppend(q, s.cq[Head(s)..], Entry(s.kern[k].key, res));
      assert s'.cq[Head(s)..] == s.cq[Head(s)..] + [Entry(s.kern[k].key, res)];
    }
  }

  /** The tag of a kernel-held entry appears nowhere else. */
  lemma KernelAlone(s: Sys, k: nat)
    requires Inv(s) && k < |s.kern|
    ensures forall i :: 0 <= i < |s.srv.sq| ==> s.srv.sq[i].key.tag != s.kern[k].key.tag
    ensures forall i :: 0 <= i < |s.kern| && i != k ==> s.kern[i].key.tag != s.kern[k].key.tag
    ensures forall i :: Head(s) <= i < |s.cq| ==> s.cq[i].key.tag != s.kern[k].key.tag
    ensures s.kern[k].key.tag < s.srv.depth && Held(OfTag(s.kern[k].key.tag), s) == 1
  {
    var t := s.kern[k].key.tag;
    assert SqeLogged(s, s.kern[k]);
    assert TagOk(s, t);
    OnlyOne(s.kern, k);
    CountZero(t, s.srv.sq);
    CountZero(t, s.cq[Head(s)..]);
    forall i | Head(s) <= i < |s.cq| ensures s.cq[i].key.tag != t {
      assert s.cq[i] == s.cq[Head(s)..][i - Head(s)];
    }
  }

  /** The new completion is the last thing that happened to its tag. */
  lemma CompletedLogged(s: Sys, k: nat, res: int, d: Iod)
    requires Inv(s) && Enabled(s, Complete(k, res, d)) && Polite(s, Complete(k, res, d))
    ensures CqeLogged(CompleteEntry(s, k, res, d), Entry(s.kern[k].key, res))
  {
    assert SqeLogged(s, s.kern[k]);
  }

  lemma CompleteLogged(s: Sys, k: nat, res: int, d: Iod)
    requires Inv(s) && Enabled(s, Complete(k, res, d)) && Polite(s, Complete(k, res, d))
    requires Shape(CompleteEntry(s, k, res, d))
    ensures Logged(CompleteEntry(s, k, res, d))
  {
    var s' := CompleteEntry(s, k, res, d);
    KernelAlone(s, k);
    assert SqeLogged(s, s.kern[k]);
    forall i | 0 <= i < |s'.srv.sq| ensures SqeLogged(s', s'.srv.sq[i]) { SqeFrame(s, s', s.srv.sq[i]); }
    forall i | 0 <= i < |s'.kern| ensures SqeLogged(s', s'.kern[i]) {
      SqeFrame(s, s', s.kern[if i < k then i else i + 1]);
    }
    CompletedLogged(s, k, res, d);
    forall i | Head(s') <= i < |s'.cq| ensures CqeLogged(s', s'.cq[i]) {
      if i < |s.cq| { CqeFrame(s, s', s.cq[i]); }
    }
  }

  lemma CompleteTags(s: Sys, k: nat, res: int, d: Iod)
    requires Inv(s) && Enabled(s, Complete(k, res, d))
    requires Shape(CompleteEntry(s, k, res, d))
    ensures TagsOk(CompleteEntry(s, k, res, d)) && Counters(CompleteEntry(s, k, res, d))
  {
    var s' := CompleteEntry(s, k, res, d);
    CompleteHeld(s, k, res, d);
    KernelAlone(s, k);
    forall u | 0 <= u < s.srv.depth ensures TagOk(s', u) { assert TagOk(s, u); }
  }

  lemma CompleteWords(s: Sys, k: nat, res: int, d: Iod)
    requires Inv(s) && Enabled(s, Complete(k, res, d)) && Polite(s, Complete(k, res, d))
    ensures Shape(CompleteEntry(s, k, res, d)) && WordsOk(CompleteEntry(s, k, res, d))
  {
    var t := s.kern[k].key.tag;
    assert SqeLogged(s, s.kern[k]);
    assert TagOk(s, t);
    WordExtend(s.srv.target, t, s.hist[t], Last(CompleteEntry(s, k, res, d).hist[t]));
  }

  lemma CompleteRest(s: Sys, k: nat, res: int, d: Iod)
    requires Inv(s) && Enabled(s, Complete(k, res, d))
    ensures var s' := CompleteEntry(s, k, res, d);
      Shape(s') && IdleOk(s') && IodsOk(s') && |s'.kern| + |s'.cq| <= s'.srv.depth
  {
    CompleteHeld(s, k, res, d);
    assert SqeLogged(s, s.kern[k]);
  }

  lemma CompleteInv(s: Sys, k: nat, res: int, d: Iod)
    requires Inv(s) && Enabled(s, Complete(k, res, d)) && Polite(s, Complete(k, res, d))
    ensures Inv(CompleteEntry(s, k, res, d))
  {
    CompleteRest(s, k, res, d);
    CompleteWords(s, k, res, d);
    CompleteTags(s, k, res, d);
    CompleteLogged(s, k, res, d);
  }

  /** What a handler must prepare in answer to the last event of a tag. */
  function Reply(target: Target, t: nat, e: Event): Sqe
    requires e.Deliver? || e.Done?
  {
    match e
    case Deliver(d) => if target.Null? then CommitSqe(t, ToS32(ByteLen(d))) else FileSqe(t, d)
    case Done(res) => CommitSqe(t, res)
  }

  /** With a free slot, and one tag's flags clear, completing it appends exactly one commit. */
  lemma CompleteIoEffect(s: Server, tag: nat, res: int)
    requires tag < |s.ios| && Flags(s.ios[tag], false, false) && |s.sq| < s.sqCap
    ensures CompleteIo(s, tag, res) ==
      s.(sq := s.sq + [CommitSqe(tag, ToS32(ToU32(res)))],
         ios := s.ios[tag := Io(false, false, false, ToU32(res))],
         cmdInflight := Inc(s.cmdInflight))
  {
    var marked := s.(ios := s.ios[tag := s.ios[tag].(needCommit := true, ioFree := true, result := ToU32(res))]);
    assert marked.ios[tag := Io(false, false, false, ToU32(res))] == s.ios[tag := Io(false, false, false, ToU32(res))];
  }

  /** What handling one completion does when the tag holds nothing else and a slot is free. */
  lemma HandleEffect(s: Server, c: Cqe, d: Iod)
    requires c.key.tag < |s.ios| && Flags(s.ios[c.key.tag], false, false) && |s.sq| < s.sqCap
    requires Int32(c.data)
    requires c.key.tgt ==> s.target.Loop?
    requires !c.key.tgt && c.data == RES_OK && s.target.Loop? ==> Supported(d.op)
    requires s.cmdInflight < TWO_32 - 1 && s.ioInflight < TWO_32 - 1
    requires if c.key.tgt then s.ioInflight > 0 else s.cmdInflight > 0
    ensures var s' := HandleCqe(s, c, d);
      && s'.target == s.target && s'.depth == s.depth && s'.sqCap == s.sqCap && s'.idle == s.idle
      && |s'.ios| == |s.ios| && (forall t :: 0 <= t < |s.ios| && t != c.key.tag ==> s'.ios[t] == s.ios[t])
      && s'.stopping == (s.stopping || (!c.key.tgt && c.data == RES_ABORT))
    ensures var s' := HandleCqe(s, c, d);
      if !c.key.tgt && c.data != RES_OK then
        && s'.sq == s.sq && Flags(s'.ios[c.key.tag], false, true)
        && s'.cmdInflight == s.cmdInflight - 1 && s'.ioInflight == s.ioInflight
      else
        var e := Reply(s.target, c.key.tag, if c.key.tgt then Done(c.data) else Deliver(d));
        && s'.sq == s.sq + [e] && Flags(s'.ios[c.key.tag], false, false)
        && s'.cmdInflight == s.cmdInflight - One(Commands, c.key) + One(Commands, e.key)
        && s'.ioInflight == s.ioInflight - One(FileIos, c.key) + One(FileIos, e.key)
  {
    var t := c.key.tag;
    if c.key.tgt {
      CompleteIoEffect(s, t, c.data);
    } else {
      var s1 := s.(cmdInflight := Dec(s.cmdInflight));
      var s2 := if c.data != RES_ABORT && !s.stopping then s1
                else s1.(stopping := true, ios := s1.ios[t := s1.ios[t].(needFetch := false)]);
      if c.data == RES_OK && s.target.Null? {
        CompleteIoEffect(s2, t, ByteLen(d));
      }
    }
  }

  /** With no slot left a completed request only keeps its result, marked to be committed; the loop
      target answers a request that way with -ENOMEM. */
  lemma FullRingKeepsResult(s: Server, tag: nat, d: Iod)
    requires tag < |s.ios| && |s.sq| >= s.sqCap && s.target.Loop?
    ensures var s' := QueueIo(s, tag, d);
      && s' == s.(ios := s'.ios) && s'.ios == s.ios[tag := s'.ios[tag]]
      && s'.ios[tag].needCommit && s'.ios[tag].ioFree && ToS32(s'.ios[tag].result) == -12
  {
  }

  /** Handling a command while stopping, or an abort, stops the queue and takes NEED_FETCH off the tag. */
  lemma StopClearsFetch(s: Server, c: Cqe, d: Iod)
    requires c.key.tag < |s.ios| && !c.key.tgt && (s.stopping || c.data == RES_ABORT)
    ensures var s' := HandleCqe(s, c, d);
      s'.stopping && c.key.tag < |s'.ios| && !s'.ios[c.key.tag].needFetch
  {
  }

  lemma LogOne(hist: seq<seq<Event>>, before: seq<Sqe>, e: Sqe)
    ensures LogIssues(hist, before, before) == hist
    ensures LogIssues(hist, before, before + [e]) == Log(hist, e.key.tag, Issue(e))
  {
    var after := before + [e];
    assert after[..|after| - 1] == before;
  }

  /** The tag of the completion about to be handled appears nowhere else. */
  lemma HandledAlone(s: Sys)
    requires Inv(s) && Enabled(s, Handle)
    ensures var t := s.cq[s.pc.head].key.tag;
      && t < s.srv.depth && Held(OfTag(t), s) == 1
      && (forall i :: 0 <= i < |s.srv.sq| ==> s.srv.sq[i].key.tag != t)
      && (forall i :: 0 <= i < |s.kern| ==> s.kern[i].key.tag != t)
      && (forall i :: s.pc.head < i < |s.cq| ==> s.cq[i].key.tag != t)
  {
    var t := s.cq[s.pc.head].key.tag;
    assert CqeLogged(s, s.cq[s.pc.head]);
    assert TagOk(s, t);
    OnlyOne(s.cq[s.pc.head..], 0);
    CountZero(t, s.srv.sq);
    CountZero(t, s.kern);
    forall i | s.pc.head < i < |s.cq| ensures s.cq[i].key.tag != t {
      assert s.cq[i] == s.cq[s.pc.head..][i - s.pc.head];
    }
  }

  /** A free submission slot is there whenever a completion is handled. */
  lemma SlotFree(s: Sys)
    requires Inv(s) && Enabled(s, Handle)
    ensures |s.srv.sq| < s.srv.depth <= s.srv.sqCap
    ensures s.srv.cmdInflight + s.srv.ioInflight <= s.srv.depth
    ensures 0 < if s.cq[s.pc.head].key.tgt then s.srv.ioInflight else s.srv.cmdInflight
  {
    Total(s);
    CountNext(if s.cq[s.pc.head].key.tgt then FileIos else Commands, s.cq, s.pc.head);
  }

  lemma HandleApplies(s: Sys)
    requires Inv(s) && Enabled(s, Handle)
    ensures var c := s.cq[s.pc.head];
      var s' := Apply(s, Handle);
      var e := Last(s.hist[c.key.tag]);
      && CqeLogged(s, c)
      && (if !c.key.tgt && c.data != RES_OK then
            s'.hist == s.hist && s'.srv.sq == s.srv.sq && e.Refuse?
          else
            && (e.Deliver? || e.Done?)
            && s'.srv.sq == s.srv.sq + [Reply(s.srv.target, c.key.tag, e)]
            && s'.hist == Log(s.hist, c.key.tag, Issue(Reply(s.srv.target, c.key.tag, e))))
  {
    var c := s.cq[s.pc.head];
    var t := c.key.tag;
    var srv' := HandleCqe(s.srv, c, s.iods[t]);
    assert CqeLogged(s, c);
    HandledAlone(s);
    assert TagOk(s, t);
    SlotFree(s);
    Total(s);
    HandleEffect(s.srv, c, s.iods[t]);
    LogOne(s.hist, s.srv.sq, Reply(s.srv.target, t, if c.key.tgt then Done(c.data) else Deliver(s.iods[t])));
  }

  /** What the entry counts for that a handler appended, if any. */
  function Added(q: Query, before: seq<Sqe>, after: seq<Sqe>): nat {
    if |after| <= |before| then 0 else One(q, after[|after| - 1].key)
  }

  lemma HeldAfterHandle(s: Sys, s': Sys, q: Query)
    requires s.pc.Reaping? && s.pc.head < |s.cq| && s'.pc.Reaping? && s'.pc.head == s.pc.head + 1
    requires s'.cq == s.cq && s'.kern == s.kern
    requires s'.srv.sq == s.srv.sq || (|s'.srv.sq| == |s.srv.sq| + 1 && s'.srv.sq[..|s.srv.sq|] == s.srv.sq)
    ensures Held(q, s') + One(q, s.cq[s.pc.head].key) == Held(q, s) + Added(q, s.srv.sq, s'.srv.sq)
  {
    CountNext(q, s.cq, s.pc.head);
    if s'.srv.sq != s.srv.sq {
      var e := s'.srv.sq[|s.srv.sq|];
      assert s'.srv.sq == s.srv.sq + [e];
      CountAppend(q, s.srv.sq, e);
    }
  }

  /** Handling takes one thing from the tag and gives it at most one new one. */
  lemma HandleHeld(s: Sys, q: Query)
    requires Inv(s) && Enabled(s, Handle)
    ensures var c := s.cq[s.pc.head];
      var s' := Apply(s, Handle);
      Held(q, s') + One(q, c.key) == Held(q, s) + Added(q, s.srv.sq, s'.srv.sq)
  {
    HandleApplies(s);
    HeldAfterHandle(s, Apply(s, Handle), q);
  }

  /** The new server state, in terms of the reply. */
  lemma HandleServer(s: Sys)
    requires Inv(s) && Enabled(s, Handle)
    ensures var c := s.cq[s.pc.head];
      var t := c.key.tag;
      var srv' := Apply(s, Handle).srv;
      && srv'.target == s.srv.target && srv'.depth == s.srv.depth && srv'.sqCap == s.srv.sqCap
      && srv'.idle == s.srv.idle && |srv'.ios| == |s.srv.ios|
      && (forall u :: 0 <= u < |s.srv.ios| && u != t ==> srv'.ios[u] == s.srv.ios[u])
      && Flags(srv'.ios[t], false, !c.key.tgt && c.data != RES_OK)
      && (s.srv.stopping ==> srv'.stopping)
    ensures var c := s.cq[s.pc.head];
      var srv' := Apply(s, Handle).srv;
      && srv'.cmdInflight == s.srv.cmdInflight - One(Commands, c.key) + Added(Commands, s.srv.sq, srv'.sq)
      && srv'.ioInflight == s.srv.ioInflight - One(FileIos, c.key) + Added(FileIos, s.srv.sq, srv'.sq)
  {
    var c := s.cq[s.pc.head];
    assert CqeLogged(s, c);
    HandledAlone(s);
    SlotFree(s);
    assert TagOk(s, c.key.tag);
    HandleEffect(s.srv, c, s.iods[c.key.tag]);
  }

  lemma HandleCounters(s: Sys)
    requires Inv(s) && Enabled(s, Handle)
    ensures Counters(Apply(s, Handle))
  {
    HandleServer(s);
    HandleHeld(s, Commands);
    HandleHeld(s, FileIos);
  }

  /** A tag that a step does not touch stays as it is. */
  lemma TagFrame(s: Sys, s': Sys, u: nat)
    requires Head(s) <= |s.cq| && Head(s') <= |s'.cq| && u < |s.srv.ios| == |s.hist| == |s'.srv.ios| == |s'.hist|
    requires TagOk(s, u) && !s.pc.Fetching? && !s'.pc.Fetching?
    requires Held(OfTag(u), s') == Held(OfTag(u), s)
    requires s'.srv.ios[u] == s.srv.ios[u] && s'.hist[u] == s.hist[u]
    ensures TagOk(s', u)
  {
  }

  lemma HandleOtherTag(s: Sys, u: nat)
    requires Inv(s) && Enabled(s, Handle) && u < s.srv.depth && u != s.cq[s.pc.head].key.tag
    requires Shape(Apply(s, Handle))
    ensures TagOk(Apply(s, Handle), u)
  {
    var s' := Apply(s, Handle);
    assert TagOk(s, u);
    HandleApplies(s);
    HandleServer(s);
    assert Held(OfTag(u), s') == Held(OfTag(u), s) by { HandleHeld(s, OfTag(u)); }
    TagFrame(s, s', u);
  }

  lemma HandleOwnTag(s: Sys)
    requires Inv(s) && Enabled(s, Handle)
    requires Shape(Apply(s, Handle)) && s.cq[s.pc.head].key.tag < s.srv.depth
    ensures TagOk(Apply(s, Handle), s.cq[s.pc.head].key.tag)
  {
    var t := s.cq[s.pc.head].key.tag;
    HandleApplies(s);
    HandleServer(s);
    HandledAlone(s);
    HandleHeld(s, OfTag(t));
  }

  lemma HandleTag(s: Sys, u: nat)
    requires Inv(s) && Enabled(s, Handle) && u < s.srv.depth
    requires Shape(Apply(s, Handle))
    ensures TagOk(Apply(s, Handle), u)
  {
    if u == s.cq[s.pc.head].key.tag { HandleOwnTag(s); } else { HandleOtherTag(s, u); }
  }

  lemma HandleLogged(s: Sys)
    requires Inv(s) && Enabled(s, Handle)
    requires Shape(Apply(s, Handle))
    ensures Logged(Apply(s, Handle))
  {
    var s' := Apply(s, Handle);
    HandleApplies(s);
    HandledAlone(s);
    HandleServer(s);
    forall i | 0 <= i < |s'.srv.sq| ensures SqeLogged(s', s'.srv.sq[i]) {
      if i < |s.srv.sq| { SqeFrame(s, s', s.srv.sq[i]); }
    }
    forall i | 0 <= i < |s'.kern| ensures SqeLogged(s', s'.kern[i]) { SqeFrame(s, s', s.kern[i]); }
    forall i | Head(s') <= i < |s'.cq| ensures CqeLogged(s', s'.cq[i]) { CqeFrame(s, s', s.cq[i]); }
  }

  lemma HandleWords(s: Sys)
    requires Inv(s) && Enabled(s, Handle)
    requires Shape(Apply(s, Handle))
    ensures WordsOk(Apply(s, Handle))
  {
    var t := s.cq[s.pc.head].key.tag;
    HandleApplies(s);
    HandledAlone(s);
    HandleServer(s);
    var e := Last(s.hist[t]);
    if e.Deliver? || e.Done? {
      WordExtend(s.srv.target, t, s.hist[t], Issue(Reply(s.srv.target, t, e)));
    }
  }

  lemma HandleInv(s: Sys)
    requires Inv(s) && Enabled(s, Handle)
    ensures Inv(Apply(s, Handle))
  {
    var s' := Apply(s, Handle);
    HandleApplies(s);
    HandleServer(s);
    assert Shape(s');
    HandleCounters(s);
    HandleLogged(s);
    HandleWords(s);
    forall u | 0 <= u < s.srv.depth ensures TagOk(s', u) { HandleTag(s, u); }
  }

  lemma {:induction false} DeadWitness(s: Sys, n: nat, t: nat)
    requires Head(s) <= |s.cq| && t < n && Held(OfTag(t), s) == 0
    ensures Dead(s, n) > 0
  {
    if t >= n - 1 {
    } else {
      DeadWitness(s, n - 1, t);
    }
  }

  /** The tag about to be fetched is untouched, and there is a slot for it. */
  lemma FetchFinds(s: Sys)
    requires Inv(s) && Enabled(s, FetchNext) && s.pc.next < s.srv.depth
    ensures var t := s.pc.next;
      && |s.srv.sq| < s.srv.depth && s.srv.cmdInflight < s.srv.depth
      && s.hist[t] == [] && Flags(s.srv.ios[t], true, true) && Held(OfTag(t), s) == 0
  {
    assert TagOk(s, s.pc.next);
    Total(s);
    DeadWitness(s, s.srv.depth, s.pc.next);
  }

  /** Fetching a tag prepares its FETCH command in a free slot. */
  lemma FetchApplies(s: Sys)
    requires Inv(s) && Enabled(s, FetchNext) && s.pc.next < s.srv.depth
    ensures var t := s.pc.next;
      && |s.srv.sq| < s.srv.depth && s.hist[t] == []
      && Apply(s, FetchNext) == s.(
           srv := s.srv.(sq := s.srv.sq + [FetchSqe(t)],
                         ios := s.srv.ios[t := Io(false, false, false, s.srv.ios[t].result)],
                         cmdInflight := s.srv.cmdInflight + 1),
           hist := s.hist[t := [Issue(FetchSqe(t))]],
           pc := Fetching(t + 1))
  {
    FetchFinds(s);
    LogOne(s.hist, s.srv.sq, FetchSqe(s.pc.next));
    assert [] + [Issue(FetchSqe(s.pc.next))] == [Issue(FetchSqe(s.pc.next))];
  }

  lemma FetchLogged(s: Sys)
    requires Inv(s) && Enabled(s, FetchNext) && s.pc.next < s.srv.depth
    ensures Shape(Apply(s, FetchNext)) && Logged(Apply(s, FetchNext))
  {
    var s' := Apply(s, FetchNext);
    FetchApplies(s);
    assert TagOk(s, s.pc.next);
    CountZero(s.pc.next, s.srv.sq);
    forall i | 0 <= i < |s'.srv.sq| ensures SqeLogged(s', s'.srv.sq[i]) {
      if i < |s.srv.sq| { SqeFrame(s, s', s.srv.sq[i]); }
    }
  }

  lemma FetchInv(s: Sys)
    requires Inv(s) && Enabled(s, FetchNext)
    ensures Inv(Apply(s, FetchNext))
  {
    var s' := Apply(s, FetchNext);
    var t := s.pc.next;
    if t < s.srv.depth {
      FetchApplies(s);
      FetchLogged(s);
      forall q: Query ensures Held(q, s') == Held(q, s) + One(q, FetchSqe(t).key) {
        CountAppend(q, s.srv.sq, FetchSqe(t));
      }
      forall u | 0 <= u < s.srv.depth ensures TagOk(s', u) { assert TagOk(s, u); }
    } else {
      SteadyInv(s, s');
    }
  }

  /** Steps that change only where the thread is keep everything said about the rings. */
  lemma SteadyInv(s: Sys, s': Sys)
    requires Inv(s) && s' == s.(pc := s'.pc) && Head(s') == Head(s)
    requires s.pc.Fetching? ==> s.pc.next == s.srv.depth
    requires !s'.pc.Fetching?
    requires IdleOk(s')
    ensures Inv(s')
  {
    forall t | 0 <= t < s.srv.depth ensures TagOk(s', t) { assert TagOk(s, t); }
    forall i | 0 <= i < |s'.srv.sq| ensures SqeLogged(s', s'.srv.sq[i]) { SqeFrame(s, s', s.srv.sq[i]); }
    forall i | 0 <= i < |s'.kern| ensures SqeLogged(s', s'.kern[i]) { SqeFrame(s, s', s.kern[i]); }
    forall i | Head(s') <= i < |s'.cq| ensures CqeLogged(s', s'.cq[i]) { CqeFrame(s, s', s.cq[i]); }
  }

  /** Giving back the completion slots, or updating IDLE, moves nothing else. */
  lemma EndOfPassInv(s: Sys, st: Step)
    requires Inv(s) && Enabled(s, st) && (st.StopReaping? || st.Settle?)
    ensures Inv(Apply(s, st))
  {
    var s' := Apply(s, st);
    assert s'.cq[Head(s')..] == s.cq[Head(s)..];
    assert SameHeld(s, s');
    forall t | 0 <= t < s.srv.depth ensures TagOk(s', t) { assert TagOk(s, t); }
    forall i | 0 <= i < |s'.srv.sq| ensures SqeLogged(s', s'.srv.sq[i]) { SqeFrame(s, s', s.srv.sq[i]); }
    forall i | 0 <= i < |s'.kern| ensures SqeLogged(s', s'.kern[i]) { SqeFrame(s, s', s.kern[i]); }
    if st.Settle? {
      forall i | Head(s') <= i < |s'.cq| ensures CqeLogged(s', s'.cq[i]) { CqeFrame(s, s', s.cq[i]); }
    }
  }

  /** Every enabled step of a well-behaved run keeps the invariant. */
  lemma StepInv(s: Sys, st: Step)
    requires Inv(s) && Enabled(s, st) && Polite(s, st)
    ensures Inv(Apply(s, st))
  {
    match st
    case FetchNext => FetchInv(s);
    case Submit => SubmitInv(s);
    case Complete(k, res, d) => CompleteInv(s, k, res, d);
    case Handle => HandleInv(s);
    case StopReaping => EndOfPassInv(s, st);
    case Settle => EndOfPassInv(s, st);
    case _ => SteadyInv(s, Apply(s, st));
  }

  lemma {:induction false} RunInv(s: Sys, run: seq<Step>)
    requires Inv(s) && Legal(s, run)
    ensures Inv(After(s, run))
    decreases |run|
  {
    if run == [] {
    } else {
      StepInv(s, run[0]);
      RunInv(Apply(s, run[0]), run[1..]);
    }
  }
}
