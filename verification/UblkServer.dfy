/** The queue server's handlers, as functions from queue state to queue state. */
module UblkServer {
  import opened UblkTypes

  /** One `struct ublk_io`: its three flag bits and the stored 32-bit result. */
  datatype Io = Io(needFetch: bool, needCommit: bool, ioFree: bool, result: nat)

  datatype Server = Server(
    target: Target,
    depth: nat,
    sqCap: nat,
    ios: seq<Io>,
    cmdInflight: nat,
    ioInflight: nat,
    stopping: bool,
    idle: bool,
    sq: seq<Sqe>)  // prepared entries the kernel has not consumed

  /** 32-bit unsigned increment and decrement. */
  function Inc(x: nat): nat { (x + 1) % TWO_32 }
  function Dec(x: nat): nat { (x + TWO_32 - 1) % TWO_32 }

  function NewServer(target: Target, depth: nat, sqCap: nat): Server {
    Server(target, depth, sqCap, seq(depth, _ => Io(true, false, true, 0)), 0, 0, false, false, [])
  }

  function QueueIoCmd(s: Server, tag: nat): Server
    requires tag < |s.ios|
  {
    var io := s.ios[tag];
    if !io.ioFree || !(io.needFetch || io.needCommit) then s
    else if |s.sq| >= s.sqCap then s  // io_uring_get_sqe returned NULL
    else
      var op := if io.needCommit then COMMIT_AND_FETCH_REQ else FETCH_REQ;
      var body := if io.needCommit then Commit(tag, ToS32(io.result)) else Fetch(tag);
      s.(sq := s.sq + [Entry(Key(tag, op, false), body)],
         ios := s.ios[tag := Io(false, false, false, io.result)],
         cmdInflight := Inc(s.cmdInflight))
  }

  function CompleteIo(s: Server, tag: nat, res: int): Server
    requires tag < |s.ios|
  {
    QueueIoCmd(s.(ios := s.ios[tag := s.ios[tag].(needCommit := true, ioFree := true, result := ToU32(res))]), tag)
  }

  function LoopQueueIo(s: Server, tag: nat, d: Iod): Server
    requires tag < |s.ios|
  {
    if |s.sq| >= s.sqCap then CompleteIo(s, tag, -ENOMEM)
    else if Supported(d.op) then
      s.(sq := s.sq + [Entry(Key(tag, d.op, true), FileIo(d.op, ByteLen(d), ByteOffset(d)))],
         ioInflight := Inc(s.ioInflight))
    else
      // the entry was already taken from the ring and stays in it
      var taken := s.(sq := s.sq + [Entry(Key(0, 0, false), Unprepared)]);
      CompleteIo(taken, tag,
        if d.op == OP_DISCARD || d.op == OP_WRITE_ZEROES then -ENOTSUP else -EINVAL)
  }

  function QueueIo(s: Server, tag: nat, d: Iod): Server
    requires tag < |s.ios|
  {
    match s.target
    case Null => CompleteIo(s, tag, ByteLen(d))
    case Loop => LoopQueueIo(s, tag, d)
  }

  function TargetIoDone(s: Server, tag: nat, res: int): Server
    requires tag < |s.ios|
  {
    match s.target
    case Null => s  // the null target has no tgt_io_done
    case Loop =>
      var s' := CompleteIo(s, tag, res);
      s'.(ioInflight := Dec(s'.ioInflight))
  }

  function HandleCqe(s: Server, c: Cqe, d: Iod): Server
    requires c.key.tag < |s.ios|
  {
    var tag := c.key.tag;
    if c.key.tgt then TargetIoDone(s, tag, c.data)
    else
      var fetch := c.data != RES_ABORT && !s.stopping;
      var s1 := s.(cmdInflight := Dec(s.cmdInflight));
      var s2 := if fetch then s1
                else s1.(stopping := true, ios := s1.ios[tag := s1.ios[tag].(needFetch := false)]);
      if c.data == RES_OK then QueueIo(s2, tag, d)
      else s2.(ios := s2.ios[tag := Io(false, false, true, s2.ios[tag].result)])
  }

  predicate IsIdle(s: Server) { s.sq == [] && s.ioInflight == 0 }

  predicate IsDone(s: Server) { s.stopping && IsIdle(s) }

  /** The idle update that ends a pass of the main loop. */
  function UpdateIdle(s: Server, timedOut: bool, reaped: nat): Server {
    if s.stopping then s
    else s.(idle := if timedOut && reaped == 0 && IsIdle(s) then true else false)
  }
}
