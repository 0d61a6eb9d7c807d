/** Values exchanged between a ublk queue server, its io_uring and the kernel side. */
module UblkTypes {

  // Constants of linux/ublk_cmd.h, which is not part of this model.
  const FETCH_REQ: nat := 0x20
  const COMMIT_AND_FETCH_REQ: nat := 0x21
  const RES_OK: int := 0
  const RES_ABORT: int := -19
  const OP_READ: nat := 0
  const OP_WRITE: nat := 1
  const OP_FLUSH: nat := 2
  const OP_DISCARD: nat := 3
  const OP_WRITE_ZEROES: nat := 5
  // errno values returned by the loop target
  const ENOMEM: int := 12
  const EINVAL: int := 22
  const ENOTSUP: int := 95

  // build_user_data asserts that a tag fits in 16 bits
  const MAX_TAGS: nat := 0x1_0000

  const TWO_31: nat := 0x8000_0000
  const TWO_32: nat := 0x1_0000_0000
  const TWO_64: nat := 0x1_0000_0000_0000_0000

  datatype Target = Null | Loop

  /** The request descriptor the driver leaves in the queue's command buffer. */
  datatype Iod = Iod(op: nat, startSector: nat, nrSectors: nat)

  ghost predicate IodOk(d: Iod) {
    d.op < 256 && d.startSector < TWO_64 && d.nrSectors < TWO_32
  }

  predicate Supported(op: nat) {
    op == OP_READ || op == OP_WRITE || op == OP_FLUSH
  }

  /** What `build_user_data` packs into 64 bits and every completion carries back. */
  datatype Key = Key(tag: nat, op: nat, tgt: bool)

  /** A ring slot: the user data plus what the slot says. */
  datatype Entry<T> = Entry(key: Key, data: T)

  /** The fields of a submission entry.  An entry taken from the ring on which the code then
      returns early keeps whatever the slot held before: `Unprepared`. */
  datatype Body =
    | Fetch(tag: nat)
    | Commit(tag: nat, result: int)
    | FileIo(op: nat, len: nat, offset: nat)
    | Unprepared

  type Sqe = Entry<Body>
  type Cqe = Entry<int>

  predicate Int32(x: int) { -(TWO_31 as int) <= x < TWO_31 }

  /** Storing a signed 32-bit value in an `unsigned int` and reading it back. */
  function ToU32(x: int): nat { x % TWO_32 }

  function ToS32(x: nat): int { if x % TWO_32 < TWO_31 then x % TWO_32 else x % TWO_32 - TWO_32 }

  /** `nr_sectors << 9` in 32-bit unsigned arithmetic. */
  function ByteLen(d: Iod): nat { d.nrSectors * 512 % TWO_32 }

  /** `start_sector << 9` in 64-bit unsigned arithmetic. */
  function ByteOffset(d: Iod): nat { d.startSector * 512 % TWO_64 }

  /** What crosses the boundary between server and kernel on behalf of one tag. */
  datatype Event =
    | Issue(sqe: Sqe)        // the server prepared this submission entry
    | Deliver(iod: Iod)      // the driver answered the tag's command with a request
    | Refuse(res: int)       // the driver answered it with something other than OK
    | Done(res: int)         // the target file operation ended with this result
}
