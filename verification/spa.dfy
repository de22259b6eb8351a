/** Shared vocabulary of the SPA/PipeWire model: fixed-width integers, the
    Option wrapper, the errno values the code returns, directions and the
    per-port I/O slot.  Everything else imports this module. */
module Spa {

  /** A C `uint32_t`. */
  type u32 = x: int | 0 <= x < 0x1_0000_0000

  const MAX_U32: u32 := 0xffff_ffff

  /** `SPA_ID_INVALID`: the all-ones 32-bit id. */
  const ID_INVALID: u32 := MAX_U32

  /** Linux errno values; the code returns their negation. */
  const ENOENT: int := 2
  const EIO: int := 5
  const EINVAL: int := 22
  const ENOTSUP: int := 95

  /** A positive errno value, as a failing system call leaves in `errno`. */
  type Errno = e: nat | e > 0 witness 22

  datatype Option<+T> = None | Some(value: T)

  /** `enum spa_direction`. */
  datatype Direction = Input | Output

  /** Status word of a `struct spa_io_buffers` slot. */
  datatype IoStatus = StatusOk | NeedBuffer | HaveBuffer

  /** `struct spa_io_buffers`: the status and the buffer id exchanged per port. */
  datatype IoBuffers = IoBuffers(status: IoStatus, bufferId: u32)

  /** `SPA_IO_BUFFERS_INIT`: status OK and no buffer. */
  const IO_BUFFERS_INIT: IoBuffers := IoBuffers(StatusOk, ID_INVALID)

  /** The data types of a buffer plane; the type-map ids become
      constructors. */
  datatype DataType = MemFd | DmaBuf | MemPtr | OtherType(code: u32)

  /** The commands a node understands; the type-map ids of the source
      become constructors. */
  datatype NodeCommand = Start | Pause | ClockUpdate | OtherCommand(code: u32)

  /** Number of occurrences of `x` in `s`. */
  function Count<T(==)>(s: seq<T>, x: T): (n: nat)
    ensures n <= |s|
    ensures n == 0 <==> x !in s
  {
    if |s| == 0 then 0 else (if s[0] == x then 1 else 0) + Count(s[1..], x)
  }

  /** Occurrences in a concatenation add up. */
  lemma {:induction false} CountConcat<T>(a: seq<T>, b: seq<T>)
    ensures forall x :: Count(a + b, x) == Count(a, x) + Count(b, x)
    decreases |a|
  {
    if |a| > 0 {
      assert (a + b)[1..] == a[1..] + b;
      CountConcat(a[1..], b);
    } else {
      assert a + b == b;
    }
  }

  /** `s` truncated to at most `n` elements, as `snprintf` into an n+1 byte buffer does. */
  function Truncate<T>(s: seq<T>, n: nat): (r: seq<T>)
    ensures |r| == if |s| <= n then |s| else n
    ensures r == s[..|r|]
  {
    if |s| <= n then s else s[..n]
  }
}
