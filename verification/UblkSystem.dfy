/** A queue server together with the kernel side of its ring: a state machine over single steps. */
module UblkSystem {
  import opened UblkTypes
  import opened UblkServer

  /** Where the queue thread is. */
  datatype Pc =
    | Fetching(next: nat)                     // inside ublk_submit_fetch_commands
    | Top                                     // about to start ublk_process_io
    | Waiting(forever: bool)                  // inside io_uring_submit_and_wait_timeout
    | Reaping(head: nat, timedOut: bool)      // inside io_uring_for_each_cqe
    | Settling(count: nat, timedOut: bool)    // after io_uring_cq_advance, before the idle update
    | Exited

  datatype Sys = Sys(
    srv: Server,
    cq: seq<Cqe>,          // completion ring: slots not yet given back by io_uring_cq_advance
    kern: seq<Sqe>,        // entries consumed by the kernel and not yet completed
    iods: seq<Iod>,        // the mapped descriptor table, written by the driver
    hist: seq<seq<Event>>, // what happened so far, tag by tag (nothing reads it)
    pc: Pc)

  datatype Step =
    | FetchNext
    | Exit
    | EnterWait
    | Submit                                  // kernel: consume the oldest prepared entry
    | Complete(k: nat, res: int, iod: Iod)    // kernel: post the completion of entry k
    | Wake(timedOut: bool)
    | Handle
    | StopReaping
    | Settle

  function Init(target: Target, depth: nat, sqCap: nat): Sys {
    Sys(NewServer(target, depth, sqCap), [], [], seq(depth, _ => Iod(0, 0, 0)), seq(depth, _ => []), Fetching(0))
  }

  /** The first completion slot not yet looked at. */
  function Head(s: Sys): nat {
    if s.pc.Reaping? then s.pc.head else 0
  }

  ghost predicate Enabled(s: Sys, st: Step) {
    match st
    case FetchNext => s.pc.Fetching? && (s.pc.next < s.srv.depth ==> s.pc.next < |s.srv.ios|)
    case Exit => s.pc.Top? && IsDone(s.srv)
    case EnterWait => s.pc.Top? && !IsDone(s.srv)
    case Submit => s.pc.Waiting? && s.srv.sq != []
    case Complete(k, res, d) =>
      && k < |s.kern| && s.kern[k].key.tag < |s.iods| && Int32(res) && IodOk(d)
      && !s.kern[k].data.Unprepared?
    case Wake(timedOut) => s.pc.Waiting? && (timedOut ==> !s.pc.forever)
    case Handle =>
      && s.pc.Reaping? && s.pc.head < |s.cq|
      && s.cq[s.pc.head].key.tag < |s.srv.ios| && s.cq[s.pc.head].key.tag < |s.iods|
    case StopReaping => s.pc.Reaping? && s.pc.head == |s.cq|
    case Settle => s.pc.Settling?
  }

  /** The driver sends the loop target only the operations its advertised parameters allow. */
  ghost predicate Polite(s: Sys, st: Step) {
    (st.Complete? && st.k < |s.kern| && !s.kern[st.k].key.tgt && st.res == RES_OK && s.srv.target.Loop?)
    ==> Supported(st.iod.op)
  }

  function Log(hist: seq<seq<Event>>, tag: nat, e: Event): seq<seq<Event>> {
    if tag < |hist| then hist[tag := hist[tag] + [e]] else hist
  }

  /** Record every submission entry that a handler appended. */
  function LogIssues(hist: seq<seq<Event>>, before: seq<Sqe>, after: seq<Sqe>): seq<seq<Event>>
    decreases |after| - |before|
  {
    if |after| <= |before| then hist
    else
      var e := after[|after| - 1];
      Log(LogIssues(hist, before, after[..|after| - 1]), e.key.tag, Issue(e))
  }

  function CompleteEntry(s: Sys, k: nat, res: int, d: Iod): Sys
    requires k < |s.kern| && s.kern[k].key.tag < |s.iods|
  {
    var e := s.kern[k];
    var delivers := !e.key.tgt && res == RES_OK;
    s.(kern := s.kern[..k] + s.kern[k + 1..],
       cq := s.cq + [Entry(e.key, res)],
       iods := if delivers then s.iods[e.key.tag := d] else s.iods,
       hist := Log(s.hist, e.key.tag,
                 if e.key.tgt then Done(res) else if delivers then Deliver(d) else Refuse(res)))
  }

  function Serve(s: Sys, srv': Server, pc': Pc): Sys {
    s.(srv := srv', hist := LogIssues(s.hist, s.srv.sq, srv'.sq), pc := pc')
  }

  ghost function Apply(s: Sys, st: Step): Sys
    requires Enabled(s, st)
  {
    match st
    case FetchNext =>
      if s.pc.next < s.srv.depth
      then Serve(s, QueueIoCmd(s.srv, s.pc.next), Fetching(s.pc.next + 1))
      else s.(pc := Top)
    case Exit => s.(pc := Exited)
    case EnterWait => s.(pc := Waiting(s.srv.idle))
    case Submit => s.(srv := s.srv.(sq := s.srv.sq[1..]), kern := s.kern + [s.srv.sq[0]])
    case Complete(k, res, d) => CompleteEntry(s, k, res, d)
    case Wake(timedOut) => s.(pc := Reaping(0, timedOut))
    case Handle =>
      var c := s.cq[s.pc.head];
      Serve(s, HandleCqe(s.srv, c, s.iods[c.key.tag]), Reaping(s.pc.head + 1, s.pc.timedOut))
    case StopReaping => s.(cq := [], pc := Settling(s.pc.head, s.pc.timedOut))
    case Settle => s.(srv := UpdateIdle(s.srv, s.pc.timedOut, s.pc.count), pc := Top)
  }

  /** Every step of the run is enabled, and the driver behaves. */
  ghost predicate Legal(s: Sys, run: seq<Step>)
    decreases |run|
  {
    run == [] || (Enabled(s, run[0]) && Polite(s, run[0]) && Legal(Apply(s, run[0]), run[1..]))
  }

  ghost function After(s: Sys, run: seq<Step>): Sys
    requires Legal(s, run)
    decreases |run|
  {
    if run == [] then s else After(Apply(s, run[0]), run[1..])
  }

  lemma {:induction false} LegalExtend(s: Sys, run: seq<Step>, st: Step)
    requires Legal(s, run) && Enabled(After(s, run), st) && Polite(After(s, run), st)
    ensures Legal(s, run + [st]) && After(s, run + [st]) == Apply(After(s, run), st)
    decreases |run|
  {
    if run == [] {
      assert [] + [st] == [st];
    } else {
      assert (run + [st])[1..] == run[1..] + [st];
      LegalExtend(Apply(s, run[0]), run[1..], st);
    }
  }

  lemma {:induction false} LegalConcat(s: Sys, a: seq<Step>, b: seq<Step>)
    requires Legal(s, a) && Legal(After(s, a), b)
    ensures Legal(s, a + b) && After(s, a + b) == After(After(s, a), b)
    decreases |a|
  {
    if a == [] {
      assert a + b == b;
    } else {
      assert (a + b)[1..] == a[1..] + b;
      LegalConcat(Apply(s, a[0]), a[1..], b);
    }
  }
}
