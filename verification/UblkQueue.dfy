/** The queue server as the program runs it: an object whose fields the handlers update in place.
    Each method is tied to the queue model: handlers to the handler functions, and the fetch loop
    and a pass of the main loop to a legal run of the state machine. */
module UblkQueue {
  import opened UblkTypes
  import opened UblkServer
  import opened UblkSystem
  import opened UblkInvariant
  import UserData
  import opened UblkTheorems
  import opened UblkWords
  import opened UblkPasses

  /** A ring slot as the kernel sees it: 64 bits of user data and the rest. */
  datatype Slot<T> = Slot(userData: nat, data: T)

  function Decoded<T>(slot: Slot<T>): Entry<T> { Entry(UserData.Decode(slot.userData), slot.data) }

  function View<T>(ring: seq<Slot<T>>): seq<Entry<T>> { seq(|ring|, i requires 0 <= i < |ring| => Decoded(ring[i])) }

  lemma ViewAppend<T>(ring: seq<Slot<T>>, slot: Slot<T>)
    ensures View(ring + [slot]) == View(ring) + [Decoded(slot)]
  {
  }

  lemma ViewRemove<T>(ring: seq<Slot<T>>, k: nat)
    requires k < |ring|
    ensures View(ring)[k] == Decoded(ring[k])
    ensures View(ring[..k] + ring[k + 1..]) == View(ring)[..k] + View(ring)[k + 1..]
  {
  }

  lemma HandleServes(s: Sys, srv': Server)
    requires Enabled(s, Handle)
    requires srv' == UblkServer.HandleCqe(s.srv, s.cq[s.pc.head], s.iods[s.cq[s.pc.head].key.tag])
    ensures Apply(s, Handle) == Serve(s, srv', Reaping(s.pc.head + 1, s.pc.timedOut))
  {
  }

  class Queue {
    const target: Target
    const depth: nat
    const sqCap: nat
    const ios: array<Io>
    var cmdInflight: nat
    var ioInflight: nat
    var stopping: bool
    var idle: bool
    // the two rings shared with the kernel
    var sq: seq<Slot<Body>>
    var cq: seq<Slot<int>>
    // the kernel side
    var kern: seq<Slot<Body>>
    var iods: seq<Iod>
    // where the thread is, and what happened on each tag
    ghost var pc: Pc
    ghost var hist: seq<seq<Event>>

    ghost function Srv(): Server
      reads this, ios
      requires depth <= ios.Length
    {
      Server(target, depth, sqCap, ios[..depth], cmdInflight, ioInflight, stopping, idle, View(sq))
    }

    ghost function State(): Sys
      reads this, ios
      requires depth <= ios.Length
    {
      Sys(Srv(), View(cq), View(kern), iods, hist, pc)
    }

    ghost predicate Valid()
      reads this, ios
    {
      depth <= ios.Length && Reachable(State())
    }

    /** ublk_queue_init: every tag is free and waits to be fetched. */
    constructor (target: Target, depth: nat, sqCap: nat)
      requires depth <= sqCap && depth <= MAX_TAGS
      ensures Valid() && State() == Init(target, depth, sqCap) && fresh(ios)
    {
      this.target, this.depth, this.sqCap := target, depth, sqCap;
      ios := new Io[depth](_ => Io(true, false, true, 0));
      cmdInflight, ioInflight, stopping, idle := 0, 0, false, false;
      sq, cq, kern := [], [], [];
      iods := seq(depth, _ => Iod(0, 0, 0));
      pc, hist := Fetching(0), seq(depth, _ => []);
      new;
      assert ios[..depth] == seq(depth, _ => Io(true, false, true, 0));
      assert ReachedBy(target, depth, sqCap, [], State());
    }

    method QueueIoCmd(tag: nat) returns (r: int)
      requires tag < depth <= ios.Length && depth <= MAX_TAGS
      modifies `cmdInflight, `sq, ios
      ensures Srv() == UblkServer.QueueIoCmd(old(Srv()), tag)
      ensures r == if !old(ios[tag].ioFree) || !(old(ios[tag].needFetch) || old(ios[tag].needCommit)) then 0
                   else if |old(sq)| >= sqCap then -1 else 1
      ensures r == 1 ==>
        && |sq| == |old(sq)| + 1
        && Decoded(sq[|sq| - 1]).key == Key(tag, if old(ios[tag].needCommit) then 0x21 else 0x20, false)
      ensures r != 1 ==> Srv() == old(Srv())
    {
      var io := ios[tag];
      if !io.ioFree { return 0; }
      if !(io.needFetch || io.needCommit) { return 0; }
      if |sq| >= sqCap { return -1; }
      var op := if io.needCommit then COMMIT_AND_FETCH_REQ else FETCH_REQ;
      var body := if io.needCommit then Commit(tag, ToS32(io.result)) else Fetch(tag);
      UserData.DecodeBuild(tag, op, 0, 0);
      ViewAppend(sq, Slot(UserData.Build(tag, op, 0, 0), body));
      sq := sq + [Slot(UserData.Build(tag, op, 0, 0), body)];
      ios[tag] := io.(needFetch := false, needCommit := false, ioFree := false);
      cmdInflight := Inc(cmdInflight);
      return 1;
    }

    method CompleteIo(tag: nat, res: int) returns (r: int)
      requires tag < depth <= ios.Length && depth <= MAX_TAGS
      modifies `cmdInflight, `sq, ios
      ensures Srv() == UblkServer.CompleteIo(old(Srv()), tag, res)
    {
      ios[tag] := ios[tag].(needCommit := true, ioFree := true, result := ToU32(res));
      r := QueueIoCmd(tag);
    }

    /** loop_queue_tgt_io: 1 when the file operation is prepared, a negative errno otherwise. */
    method LoopQueueTgtIo(tag: nat, d: Iod) returns (r: int)
      requires tag < depth <= ios.Length && depth <= MAX_TAGS && IodOk(d)
      modifies `ioInflight, `sq
      ensures r == if |old(sq)| >= sqCap then -ENOMEM
                   else if Supported(d.op) then 1
                   else if d.op == OP_DISCARD || d.op == OP_WRITE_ZEROES then -ENOTSUP else -EINVAL
      ensures View(sq) == old(View(sq)) +
        (if r == -ENOMEM then [] else if r == 1 then [FileSqe(tag, d)] else [Entry(Key(0, 0, false), Unprepared)])
      ensures r == 1 ==> |sq| > 0 && sq[|sq| - 1].data.FileIo? && FileRange(d, sq[|sq| - 1].data)
      ensures ioInflight == if r == 1 then Inc(old(ioInflight)) else old(ioInflight)
    {
      if |sq| >= sqCap { return -ENOMEM; }
      if Supported(d.op) {
        UserData.DecodeBuild(tag, d.op, 0, 1);
        var slot := Slot(UserData.Build(tag, d.op, 0, 1), FileIo(d.op, ByteLen(d), ByteOffset(d)));
        ViewAppend(sq, slot);
        sq := sq + [slot];
        ioInflight := Inc(ioInflight);
        FileRangeOf(tag, d);
        return 1;
      }
      UserData.DecodeArith(0);
      ViewAppend(sq, Slot(0, Unprepared));
      sq := sq + [Slot(0, Unprepared)];
      return if d.op == OP_DISCARD || d.op == OP_WRITE_ZEROES then -ENOTSUP else -EINVAL;
    }

    method QueueIo(tag: nat, d: Iod)
      requires tag < depth <= ios.Length && depth <= MAX_TAGS && IodOk(d)
      modifies `cmdInflight, `ioInflight, `sq, ios
      ensures Srv() == UblkServer.QueueIo(old(Srv()), tag, d)
    {
      match target {
        case Null =>
          var _ := CompleteIo(tag, ByteLen(d));
        case Loop =>
          var queued := LoopQueueTgtIo(tag, d);
          if queued < 0 {
            var _ := CompleteIo(tag, queued);
          }
      }
    }

    method LoopIoDone(tag: nat, res: int)
      requires tag < depth <= ios.Length && depth <= MAX_TAGS
      requires target.Loop?
      modifies `cmdInflight, `ioInflight, `sq, ios
      ensures Srv() == UblkServer.TargetIoDone(old(Srv()), tag, res)
    {
      var _ := CompleteIo(tag, res);
      ioInflight := Dec(ioInflight);
    }

    method HandleCqe(c: Slot<int>)
      requires UserData.TagOf(c.userData) < depth <= ios.Length && depth <= MAX_TAGS && |iods| == depth
      requires IodOk(iods[UserData.TagOf(c.userData)])
      modifies `cmdInflight, `ioInflight, `stopping, `sq, ios
      ensures Srv() == UblkServer.HandleCqe(old(Srv()), Decoded(c), iods[UserData.TagOf(c.userData)])
    {
      var tag := UserData.TagOf(c.userData);
      var fetch := c.data != RES_ABORT && !stopping;
      if UserData.IsTargetIo(c.userData) {
        if target.Loop? { LoopIoDone(tag, c.data); }
        return;
      }
      cmdInflight := Dec(cmdInflight);
      if !fetch {
        stopping := true;
        ios[tag] := ios[tag].(needFetch := false);
      }
      if c.data == RES_OK {
        QueueIo(tag, iods[tag]);
      } else {
        ios[tag] := ios[tag].(needFetch := false, needCommit := false, ioFree := true);
      }
    }

    /** The kernel consumes the oldest prepared entry. */
    method KernelSubmit()
      requires depth <= ios.Length && Enabled(State(), Submit)
      modifies `sq, `kern
      ensures State() == Apply(old(State()), Submit)
      ensures |sq| == |old(sq)| - 1 && |kern| == |old(kern)| + 1
    {
      ViewAppend(kern, sq[0]);
      kern, sq := kern + [sq[0]], sq[1..];
    }

    /** The kernel posts the completion of entry `k`. */
    method KernelComplete(k: nat, res: int, d: Iod)
      requires depth <= ios.Length && Enabled(State(), Complete(k, res, d))
      modifies `cq, `kern, `iods, `hist
      ensures State() == Apply(old(State()), Complete(k, res, d))
      ensures |cq| == |old(cq)| + 1 && |kern| == |old(kern)| - 1
    {
      ghost var s := State();
      var u := kern[k].userData;
      ViewRemove(kern, k);
      var tag := UserData.TagOf(u);
      var delivers := !UserData.IsTargetIo(u) && res == RES_OK;
      hist := Log(hist, tag,
        if UserData.IsTargetIo(u) then Done(res) else if delivers then Deliver(d) else Refuse(res));
      if delivers { iods := iods[tag := d]; }
      ViewAppend(cq, Slot(u, res));
      cq := cq + [Slot(u, res)];
      kern := kern[..k] + kern[k + 1..];
      assert State() == CompleteEntry(s, k, res, d);
    }

    /** The run `past` leads from `base` to where the queue is. */
    ghost predicate At(base: Sys, past: seq<Step>)
      reads this, ios
    {
      Valid() && Legal(base, past) && State() == After(base, past)
    }

    /** One step of a kernel script, if it can happen. */
    method KernelStep(ghost base: Sys, ghost past: seq<Step>, st: Step) returns (ghost run: seq<Step>)
      requires At(base, past) && Kernel(target, st) && (st.Submit? ==> pc.Waiting?)
      modifies `sq, `cq, `kern, `iods, `hist
      ensures At(base, run) && run == if old(Enabled(State(), st)) then past + [st] else past
      ensures !st.Submit? ==> |cq| + |kern| == |old(cq)| + |old(kern)| && |cq| >= |old(cq)|
    {
      ghost var s0 := State();
      run := past;
      if st.Submit? && sq != [] {
        KernelSubmit();
      } else if st.Complete? && st.k < |kern| {
        CompleteEnabled(s0, st.k, st.res, st.iod);
        KernelComplete(st.k, st.res, st.iod);
      } else {
        return;
      }
      run := past + [st];
      ReachableStep(s0, st);
      LegalExtend(base, past, st);
    }

    /** A kernel script, step by step. */
    method KernelScript(ghost base: Sys, ghost past: seq<Step>, script: seq<Step>) returns (ghost run: seq<Step>)
      requires At(base, past) && AllKernel(target, script)
      requires pc.Waiting? || NoSubmit(script)
      modifies `sq, `cq, `kern, `iods, `hist
      ensures At(base, run) && run == Then(base, past, script)
      ensures !pc.Waiting? ==> |cq| + |kern| == |old(cq)| + |old(kern)| && |cq| >= |old(cq)|
    {
      run := past;
      for i := 0 to |script|
        invariant At(base, run) && run == Then(base, past, script[..i])
        invariant !pc.Waiting? ==> |cq| + |kern| == |old(cq)| + |old(kern)| && |cq| >= |old(cq)|
      {
        ThenStep(base, past, script, i);
        run := KernelStep(base, run, script[i]);
      }
      assert script[..|script|] == script;
    }

    /** One turn of the fetch loop. */
    method FetchTag(tag: nat)
      requires Valid() && pc == Fetching(tag) && tag < depth
      modifies `cmdInflight, `sq, ios, `pc, `hist
      ensures Valid() && pc == Fetching(tag + 1)
      ensures Enabled(old(State()), FetchNext) && State() == Apply(old(State()), FetchNext)
    {
      ghost var s := State();
      FetchEnabled(s);
      var _ := QueueIoCmd(tag);
      hist := LogIssues(hist, s.srv.sq, Srv().sq);
      pc := Fetching(tag + 1);
      ReachableStep(s, FetchNext);
    }

    /** ublk_submit_fetch_commands: one FETCH command per tag. */
    method SubmitFetchCommands() returns (ghost run: seq<Step>)
      requires Valid() && pc == Fetching(0)
      modifies `cmdInflight, `sq, ios, `pc, `hist
      ensures Valid() && pc == Top
      ensures Legal(old(State()), run) && State() == After(old(State()), run)
      ensures run == seq(depth + 1, _ => FetchNext)
    {
      ghost var s0 := State();
      run := [];
      for i := 0 to depth
        invariant Valid() && pc == Fetching(i) && run == seq(i, _ => FetchNext)
        invariant Legal(s0, run) && State() == After(s0, run)
      {
        FetchTag(i);
        LegalExtend(s0, run, FetchNext);
        run := run + [FetchNext];
      }
      ghost var s := State();
      FetchEnabled(s);
      pc := Top;
      ReachableStep(s, FetchNext);
      LegalExtend(s0, run, FetchNext);
      run := run + [FetchNext];
    }

    /** Handle the slot at `head`. */
    method HandleNext(head: nat)
      requires Valid() && pc.Reaping? && pc.head == head < |cq|
      modifies `cmdInflight, `ioInflight, `stopping, `sq, ios, `pc, `hist
      ensures Valid() && pc == Reaping(head + 1, old(pc.timedOut))
      ensures Enabled(old(State()), Handle) && State() == Apply(old(State()), Handle)
    {
      ghost var s := State();
      HandleEnabled(s);
      assert s.cq[head] == Decoded(cq[head]);
      HandleCqe(cq[head]);
      hist := LogIssues(hist, s.srv.sq, Srv().sq);
      pc := Reaping(head + 1, pc.timedOut);
      assert State() == Serve(s, Srv(), pc);
      HandleServes(s, Srv());
      ReachableStep(s, Handle);
    }

    /** Handle the slot at `head`, then let completions arrive. */
    method ReapSlot(ghost base: Sys, ghost past: seq<Step>, head: nat, meanwhile: seq<Step>)
      returns (ghost run: seq<Step>)
      requires At(base, past) && pc.Reaping? && pc.head == head < |cq|
      requires AllKernel(target, meanwhile) && NoSubmit(meanwhile)
      modifies `cmdInflight, `ioInflight, `stopping, `sq, `cq, `kern, `iods, ios, `pc, `hist
      ensures At(base, run) && run == Then(base, past + [Handle], meanwhile)
      ensures pc == Reaping(head + 1, old(pc.timedOut))
      ensures |cq| + |kern| == old(|cq| + |kern|) && |cq| >= |old(cq)|
    {
      HandleNext(head);
      LegalExtend(base, past, Handle);
      run := KernelScript(base, past + [Handle], meanwhile);
    }

    /** The loop over the completion ring, completions arriving meanwhile. */
    method ReapSlots(ghost base: Sys, ghost past: seq<Step>, arrivals: seq<seq<Step>>)
      returns (count: nat, ghost run: seq<Step>)
      requires At(base, past) && pc.Reaping? && pc.head == 0
      requires ArrivalsOk(target, arrivals)
      modifies `cmdInflight, `ioInflight, `stopping, `sq, `cq, `kern, `iods, ios, `pc, `hist
      ensures At(base, run) && pc == Reaping(count, old(pc.timedOut)) && count == |cq|
      ensures run == Reaped(base, past, arrivals, count)
    {
      run, count := past, 0;
      while count < |cq|
        invariant At(base, run) && run == Reaped(base, past, arrivals, count)
        invariant pc == Reaping(count, old(pc.timedOut)) && count <= |cq|
        decreases |cq| + |kern| - count
      {
        ArrivalOk(target, arrivals, count);
        ReapedStep(base, past, arrivals, count);
        run := ReapSlot(base, run, count, Arrival(arrivals, count));
        count := count + 1;
      }
    }

    /** ublk_reap_events_uring: handle slots until the ring is empty, and give them back. */
    method ReapEvents(ghost base: Sys, ghost past: seq<Step>, arrivals: seq<seq<Step>>)
      returns (count: nat, ghost run: seq<Step>)
      requires At(base, past) && pc.Reaping? && pc.head == 0
      requires ArrivalsOk(target, arrivals)
      modifies `cmdInflight, `ioInflight, `stopping, `sq, `cq, `kern, `iods, ios, `pc, `hist
      ensures At(base, run) && pc == Settling(count, old(pc.timedOut))
      ensures run == Reaped(base, past, arrivals, count) + [StopReaping]
    {
      count, run := ReapSlots(base, past, arrivals);
      AdvanceCq(count);
      LegalExtend(base, run, StopReaping);
      run := run + [StopReaping];
    }

    /** io_uring_cq_advance: give the handled slots back. */
    method AdvanceCq(count: nat)
      requires Valid() && pc.Reaping? && pc.head == count == |cq|
      modifies `cq, `pc
      ensures Valid() && pc == Settling(count, old(pc.timedOut))
      ensures Enabled(old(State()), StopReaping) && State() == Apply(old(State()), StopReaping)
    {
      ghost var s := State();
      cq := cq[count..];
      pc := Settling(count, pc.timedOut);
      assert State() == Apply(s, StopReaping);
      ReachableStep(s, StopReaping);
    }

    /** The idle update at the end of a pass. */
    method UpdateIdle(timedOut: bool, reaped: nat)
      requires Valid() && pc == Settling(reaped, timedOut)
      modifies `idle, `pc
      ensures Valid() && pc == Top
      ensures Enabled(old(State()), Settle) && State() == Apply(old(State()), Settle)
      ensures !stopping ==> (idle <==> timedOut && reaped == 0 && IsIdle(Srv()))
    {
      ghost var s := State();
      if !stopping {
        if timedOut && reaped == 0 && sq == [] && ioInflight == 0 {
          idle := true;
        } else {
          idle := false;
        }
      }
      pc := Top;
      ReachableStep(s, Settle);
    }

    /** The thread moves on without touching the queue: into the wait, out of it, or out of the loop. */
    ghost method Move(st: Step)
      requires Valid() && Enabled(State(), st) && (st.Exit? || st.EnterWait? || st.Wake?)
      modifies `pc
      ensures Valid() && State() == Apply(old(State()), st)
    {
      ghost var s := State();
      pc := Apply(s, st).pc;
      ReachableStep(s, st);
    }

    /** ublk_process_io: one pass of the main loop, or -ENODEV when the queue is done.  The run is the one
        that the pass and the number of slots reaped determine. */
    method ProcessIo(pass: Pass) returns (r: int, ghost run: seq<Step>)
      requires Valid() && pc == Top && PassOk(target, pass)
      modifies this, ios
      ensures Valid() && Legal(old(State()), run) && State() == After(old(State()), run)
      ensures if old(stopping && sq == [] && ioInflight == 0) then r == -19 && run == [Exit] && pc == Exited
              else
                && 0 <= r && IsPass(old(State()), pass, r, run) && pc == Top
                && idle == if stopping then old(idle)
                           else pass.timedOut && !old(idle) && r == 0 && sq == [] && ioInflight == 0
    {
      if stopping && sq == [] && ioInflight == 0 {
        run := Leave();
        r := -19;
      } else {
        r, run := WorkOnce(pass);
      }
    }

    ghost method Leave() returns (run: seq<Step>)
      requires Valid() && pc == Top && IsDone(Srv())
      modifies `pc
      ensures Valid() && Legal(old(State()), run) && State() == After(old(State()), run)
      ensures run == [Exit] && pc == Exited
    {
      LegalExtend(State(), [], Exit);
      Move(Exit);
      run := [] + [Exit];
    }

    /** The pass of a queue that is not done. */
    method WorkOnce(pass: Pass) returns (reaped: nat, ghost run: seq<Step>)
      requires Valid() && pc == Top && PassOk(target, pass) && !IsDone(Srv())
      modifies this, ios
      ensures At(old(State()), run) && pc == Top && IsPass(old(State()), pass, reaped, run)
      ensures idle == if stopping then old(idle)
                      else pass.timedOut && !old(idle) && reaped == 0 && sq == [] && ioInflight == 0
    {
      ghost var s := State();
      var timedOut := pass.timedOut && !idle;
      run := Wait(pass.during);
      reaped, run := WakeAndReap(s, run, timedOut, pass);
      PassCounts(s, target, pass, reaped);
    }

    /** The first half of a pass: enter the wait, unbounded when IDLE is set, and let the kernel work. */
    method Wait(during: seq<Step>) returns (ghost run: seq<Step>)
      requires Valid() && pc == Top && !IsDone(Srv()) && AllKernel(target, during)
      modifies `sq, `cq, `kern, `iods, `hist, `pc
      ensures At(old(State()), run) && run == Then(old(State()), [EnterWait], during)
      ensures pc == Waiting(idle)
    {
      ghost var s := State();
      Move(EnterWait);
      LegalExtend(s, [], EnterWait);
      assert [] + [EnterWait] == [EnterWait];
      run := KernelScript(s, [EnterWait], during);
    }

    /** The second half of a pass: reap, let late completions arrive, update IDLE. */
    method WakeAndReap(ghost base: Sys, ghost past: seq<Step>, timedOut: bool, pass: Pass)
      returns (reaped: nat, ghost run: seq<Step>)
      requires At(base, past) && pc.Waiting? && PassOk(target, pass) && (timedOut ==> !pc.forever)
      modifies this, ios
      ensures At(base, run) && pc == Top
      ensures run == Then(base, Reaped(base, past + [Wake(timedOut)], pass.arrivals, reaped) + [StopReaping], pass.late)
                     + [Settle]
      ensures idle == if stopping then old(idle) else timedOut && reaped == 0 && sq == [] && ioInflight == 0
    {
      Move(Wake(timedOut));
      LegalExtend(base, past, Wake(timedOut));
      reaped, run := ReapEvents(base, past + [Wake(timedOut)], pass.arrivals);
      run := KernelScript(base, run, pass.late);
      LegalExtend(base, run, Settle);
      UpdateIdle(timedOut, reaped);
      run := run + [Settle];
    }
  }

  /** ublk_io_handler_fn over a given sequence of passes: whatever the kernel does in them, the thread
      makes all of them, one after another, unless a pass finds the queue done; its run is the one that
      the passes determine. */
  method IoHandler(target: Target, depth: nat, sqCap: nat, passes: seq<Pass>)
      returns (q: Queue, exited: bool, ghost run: seq<Step>, ghost reaped: seq<nat>)
    requires depth <= sqCap && depth <= MAX_TAGS
    requires forall i :: 0 <= i < |passes| ==> PassOk(target, passes[i])
    ensures q.Valid() && ReachedBy(target, depth, sqCap, run, q.State())
    ensures q.pc == if exited then Exited else Top
    ensures if exited then |reaped| < |passes| else |reaped| == |passes|
    ensures run == HandlerRun(Init(target, depth, sqCap), passes[..|reaped|], reaped) + (if exited then [Exit] else [])
    ensures Waits(run) == |reaped|
  {
    q := new Queue(target, depth, sqCap);
    ghost var s0 := q.State();
    run := q.SubmitFetchCommands();
    MadeFetches(s0, passes, run);
    reaped, exited := [], false;
    var i := 0;
    while i < |passes| && !exited
      invariant q.target == target && fresh(q) && fresh(q.ios) && q.At(s0, run)
      invariant q.pc == if exited then Exited else Top
      invariant Made(s0, passes, reaped, exited, run)
      invariant i == if exited then |reaped| + 1 else |reaped|
      invariant i <= |passes|
      decreases |passes| - i, !exited
    {
      var r; ghost var more;
      r, more := q.ProcessIo(passes[i]);
      LegalConcat(s0, run, more);
      exited := r < 0;
      if exited {
        MadeExit(s0, passes, reaped, run);
      } else {
        MadePass(s0, passes, reaped, run, r, more);
        reaped := reaped + [r];
      }
      run := run + more;
      i := i + 1;
    }
  }
}
