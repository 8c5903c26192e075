/** The operating system as the server sees it: bytes, socket handles,
    selector event masks, and the replies the kernel gives to accept, recv
    and send. Every reply is an input chosen by the environment. */
module Net {

  newtype byte = x: int | 0 <= x < 256

  /** A socket, identified by its file descriptor. */
  type Handle = nat

  /** The peer address returned by accept; only used for diagnostics. */
  datatype Address = Address(host: string, port: int)

  /** An event mask as used by the selectors module. */
  type Mask = bv2

  const EVENT_READ: Mask := 1
  const EVENT_WRITE: Mask := 2

  /** The buffer size passed to every recv call. */
  const RECV_SIZE: nat := 1024

  /** What one recv(RECV_SIZE) call can return. */
  type Chunk = s: seq<byte> | |s| <= RECV_SIZE

  /** A positive count. */
  type Pos = n: nat | 1 <= n witness 1

  function Min(a: nat, b: nat): nat { if a < b then a else b }

  datatype Option<+T> = None | Some(value: T)

  /** The reply of accept() on the listening socket: a new connection, or an
      exception (a spurious wake-up raises BlockingIOError). */
  datatype AcceptReply = Accepted(conn: Handle, addr: Address) | AcceptRaised

  /** The reply of recv(RECV_SIZE): at most RECV_SIZE bytes (none means the
      peer shut down its sending side), or an exception such as
      ConnectionResetError. */
  datatype RecvReply = Received(bytes: Chunk) | RecvRaised

  /** The reply of send(data): the kernel takes the first min(limit, |data|)
      bytes, or the call raises. */
  datatype SendReply = Accepts(limit: Pos) | SendRaised

  /** The exceptions that can escape from one dispatch. None of them is
      caught by the event loop, so each one ends the server. */
  datatype Fault =
    | AcceptFailed        // accept() raised
    | AlreadyRegistered   // register() of a handle the selector already holds
    | RecvFailed          // recv() raised
    | SendFailed          // send() raised
    | SendOnClosed        // send() on the handle closed earlier in the same call

  /** One readiness report: the handle, the events that are ready, and the
      replies the kernel will give to the calls made while it is serviced. */
  datatype Event = Event(h: Handle, mask: Mask, accept: AcceptReply, recv: RecvReply, send: SendReply)

  predicate Readable(m: Mask) { m & EVENT_READ != 0 }

  predicate Writable(m: Mask) { m & EVENT_WRITE != 0 }
}
