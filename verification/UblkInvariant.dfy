/** The invariant of the queue server and the proof that every step keeps it. */
module UblkInvariant {
  import opened UblkTypes
  import opened UblkServer
  import opened UblkSystem
  import opened UblkCounting

  function FetchSqe(t: nat): Sqe { Entry(Key(t, FETCH_REQ, false), Fetch(t)) }

  function CommitSqe(t: nat, result: int): Sqe {
    Entry(Key(t, COMMIT_AND_FETCH_REQ, false), Commit(t, result))
  }

  function FileSqe(t: nat, d: Iod): Sqe {
    Entry(Key(t, d.op, true), FileIo(d.op, ByteLen(d), ByteOffset(d)))
  }

  /** Which event of a tag may come right after which. */
  ghost predicate Follows(target: Target, t: nat, prev: Event, e: Event) {
    match prev
    case Issue(sqe) =>
      if sqe.key.tgt then e.Done?
      else (e.Deliver? && (target.Loop? ==> Supported(e.iod.op))) || (e.Refuse? && e.res != RES_OK)
    case Deliver(d) =>
      e == Issue(if target.Null? then CommitSqe(t, ToS32(ByteLen(d))) else FileSqe(t, d))
    case Done(res) => e == Issue(CommitSqe(t, res))
    case Refuse(_) => false
  }

  ghost predicate WordOk(target: Target, t: nat, w: seq<Event>) {
    && (w != [] ==> w[0] == Issue(FetchSqe(t)))
    && forall i :: 0 < i < |w| ==> Follows(target, t, w[i - 1], w[i])
  }

  function Last(w: seq<Event>): Event
    requires w != []
  {
    w[|w| - 1]
  }

  lemma WordExtend(target: Target, t: nat, w: seq<Event>, e: Event)
    requires WordOk(target, t, w)
    requires if w == [] then e == Issue(FetchSqe(t)) else Follows(target, t, Last(w), e)
    ensures WordOk(target, t, w + [e])
  {
  }

  ghost predicate Prepared(target: Target, e: Sqe) {
    && !e.data.Unprepared?
    && (e.key.tgt ==> target.Loop?)
  }

  /** The sizes that never change. */
  ghost predicate Shape(s: Sys) {
    && s.srv.depth <= s.srv.sqCap && s.srv.depth <= MAX_TAGS
    && |s.srv.ios| == |s.iods| == |s.hist| == s.srv.depth
    && Head(s) <= |s.cq|
    && (s.pc.Fetching? ==> s.pc.next <= s.srv.depth && s.kern == [] && s.cq == [])
  }

  ghost predicate SqeLogged(s: Sys, e: Sqe) {
    && Prepared(s.srv.target, e) && e.key.tag < |s.hist|
    && s.hist[e.key.tag] != [] && Last(s.hist[e.key.tag]) == Issue(e)
  }

  ghost predicate CqeLogged(s: Sys, c: Cqe) {
    && c.key.tag < |s.hist| && c.key.tag < |s.iods| && s.hist[c.key.tag] != []
    && Int32(c.data)
    && var e := Last(s.hist[c.key.tag]);
       if c.key.tgt then s.srv.target.Loop? && e == Done(c.data)
       else if c.data == RES_OK then
         e == Deliver(s.iods[c.key.tag]) && (s.srv.target.Loop? ==> Supported(s.iods[c.key.tag].op))
       else e == Refuse(c.data)
  }

  /** Each entry in flight is the last thing that happened to its tag. */
  ghost predicate Logged(s: Sys)
    requires Head(s) <= |s.cq|
  {
    && (forall i :: 0 <= i < |s.srv.sq| ==> SqeLogged(s, s.srv.sq[i]))
    && (forall i :: 0 <= i < |s.kern| ==> SqeLogged(s, s.kern[i]))
    && (forall i :: Head(s) <= i < |s.cq| ==> CqeLogged(s, s.cq[i]))
  }

  ghost predicate Flags(io: Io, needFetch: bool, ioFree: bool) {
    io.needFetch == needFetch && !io.needCommit && io.ioFree == ioFree
  }

  /** A tag is in flight exactly once with no flag set, or dead, or not yet fetched. */
  ghost predicate TagOk(s: Sys, t: nat)
    requires Head(s) <= |s.cq| && t < |s.srv.ios| == |s.hist|
  {
    if s.pc.Fetching? && s.pc.next <= t then
      Held(OfTag(t), s) == 0 && Flags(s.srv.ios[t], true, true) && s.hist[t] == []
    else
      && s.hist[t] != []
      && if Held(OfTag(t), s) == 0 then Flags(s.srv.ios[t], false, true) && Last(s.hist[t]).Refuse?
         else Held(OfTag(t), s) == 1 && Flags(s.srv.ios[t], false, false)
  }

  ghost predicate TagsOk(s: Sys)
    requires Head(s) <= |s.cq| && |s.srv.ios| == |s.hist| == s.srv.depth
  {
    forall t :: 0 <= t < s.srv.depth ==> TagOk(s, t)
  }

  ghost predicate Counters(s: Sys)
    requires Head(s) <= |s.cq|
  {
    s.srv.cmdInflight == Held(Commands, s) && s.srv.ioInflight == Held(FileIos, s)
  }

  ghost predicate WordsOk(s: Sys) {
    forall t :: 0 <= t < |s.hist| ==> WordOk(s.srv.target, t, s.hist[t])
  }

  /** IDLE without STOPPING, seen before a wait, means that nothing is prepared and no target I/O is out. */
  ghost predicate IdleOk(s: Sys)
    requires Head(s) <= |s.cq|
  {
    && ((s.pc.Top? || s.pc.Waiting?) && s.srv.idle && !s.srv.stopping ==>
         s.srv.sq == [] && Held(FileIos, s) == 0)
    && (s.pc.Fetching? ==> !s.srv.idle)
    && (s.pc.Exited? ==> IsDone(s.srv))
    && (s.pc.Waiting? && s.pc.forever ==> s.srv.idle)
  }

  ghost predicate IodsOk(s: Sys) {
    forall t :: 0 <= t < |s.iods| ==> IodOk(s.iods[t])
  }

  ghost predicate Inv(s: Sys) {
    && Shape(s)
    && Logged(s)
    && TagsOk(s)
    && Counters(s)
    && WordsOk(s)
    && |s.kern| + |s.cq| <= s.srv.depth
    && IdleOk(s)
    && IodsOk(s)
  }

  lemma {:induction false} InitCounts(target: Target, depth: nat, sqCap: nat, q: Query)
    ensures Held(q, Init(target, depth, sqCap)) == 0
  {
  }

  lemma InitInv(target: Target, depth: nat, sqCap: nat)
    requires depth <= sqCap && depth <= MAX_TAGS
    ensures Inv(Init(target, depth, sqCap))
  {
    var s := Init(target, depth, sqCap);
    forall q: Query ensures Held(q, s) == 0 { InitCounts(target, depth, sqCap, q); }
  }

  /** Under the invariant everything in flight, plus the dead tags, is the queue depth. */
  lemma Total(s: Sys)
    requires Inv(s)
    ensures |s.srv.sq| + |s.kern| + (|s.cq| - Head(s)) + Dead(s, s.srv.depth) == s.srv.depth
    ensures s.srv.cmdInflight + s.srv.ioInflight + Dead(s, s.srv.depth) == s.srv.depth
  {
    forall t | 0 <= t < s.srv.depth ensures Held(OfTag(t), s) <= 1 { assert TagOk(s, t); }
    HeldTotal(s, s.srv.depth);
  }
}
