/** service_connection exactly as written. The record built by
    accept_wrapper names the peer address `add`, while the two log lines of
    service_connection read `data.addr`; that lookup raises AttributeError,
    which nothing catches. */
module AsWritten {
  import opened Net
  import opened Selector
  import opened EchoServer

  /** Either the call raised AttributeError, or it returned normally (or
      with one of the other exceptions) as described by `r`. */
  datatype Written = AttributeError | Returned(r: ServiceResult)

  /** The log line of the close branch runs before the unregister, and the
      log line of the echo branch runs before the send. */
  function ServiceAsWritten(c: Conn, mask: Mask, recv: RecvReply, send: SendReply): (w: Written)
    // it never closes and never sends: every path to either raises first
    ensures w.Returned? ==> !w.r.closed && w.r.sent == []
    // where it does not raise it agrees with the corrected service_connection
    ensures w.Returned? ==> w.r == Service(c, mask, recv, send)
    ensures w.AttributeError? <==> Service(c, mask, recv, send).closed || Service(c, mask, recv, send).sent != []
                                   || Service(c, mask, recv, send).fault in {Some(SendOnClosed), Some(SendFailed)}
  {
    if Readable(mask) && recv.RecvRaised? then
      Returned(ServiceResult(c, false, Some(RecvFailed), [], []))
    else if Readable(mask) && recv == Received([]) then
      AttributeError
    else
      var got := if Readable(mask) then recv.bytes else [];
      var queued := c.(outb := c.outb + got);
      if Writable(mask) && queued.outb != [] then AttributeError
      else Returned(ServiceResult(queued, false, None, got, []))
  }

  /** A client connects and sends "hi": as written, the first WRITE-ready
      call raises instead of echoing; the corrected call echoes both bytes. */
  lemma FirstEchoRaises()
    ensures var c := Conn(Address("127.0.0.1", 50000), [], []);
      && ServiceAsWritten(c, EVENT_READ | EVENT_WRITE, Received([104, 105]), Accepts(1024)) == AttributeError
      && Service(c, EVENT_READ | EVENT_WRITE, Received([104, 105]), Accepts(1024)).sent == [104, 105]
      && Service(c, EVENT_READ | EVENT_WRITE, Received([104, 105]), Accepts(1024)).conn.outb == []
  {
    var c := Conn(Address("127.0.0.1", 50000), [], []);
    var r := Service(c, EVENT_READ | EVENT_WRITE, Received([104, 105]), Accepts(1024));
    assert Readable(EVENT_READ | EVENT_WRITE) && Writable(EVENT_READ | EVENT_WRITE);
    assert r.sent + r.conn.outb == [104, 105];
  }

  /** A peer that shuts down: as written, the handle is never unregistered
      or closed, because the log line raises first. */
  lemma CloseRaises(c: Conn, send: SendReply)
    ensures ServiceAsWritten(c, EVENT_READ, Received([]), send) == AttributeError
    ensures Service(c, EVENT_READ, Received([]), send).closed
  {
    assert Readable(EVENT_READ) && !Writable(EVENT_READ);
  }
}
