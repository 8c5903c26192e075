/** The running server: the selector's registration table as a mutable
    object, with accept_wrapper, service_connection and the event loop as
    methods that update it in place. */
module MulticonnServer {
  import opened Net
  import opened Selector
  import opened EchoServer

  class Reactor {
    /** The listening socket, registered once at start-up. */
    const listener: Handle
    /** The registrations of `sel`. */
    var table: Table
    /** Every byte each connection has received, and every byte sent to it. */
    ghost var received: map<Handle, seq<byte>>
    ghost var echoed: map<Handle, seq<byte>>

    /** The table keeps its shape, and on every open connection the bytes
        sent so far followed by `outb` are exactly the bytes received so far. */
    ghost predicate Valid()
      reads this
    {
      Wellformed(table, listener) && Echoing(table, listener, received, echoed)
    }

    /** Register the listening socket for READ with no data. */
    constructor (lsock: Handle)
      ensures Valid()
      ensures listener == lsock && table == InitialTable(lsock)
      ensures received == map[] && echoed == map[]
    {
      listener := lsock;
      table := InitialTable(lsock);
      received := map[];
      echoed := map[];
    }

    /** accept_wrapper: accept one connection and register it with an empty
        record for READ|WRITE. */
    method AcceptWrapper(reply: AcceptReply) returns (fault: Option<Fault>)
      requires Valid()
      modifies this
      ensures Valid()
      ensures Outcome(table, fault) == Accept(old(table), reply)
      ensures fault.None? ==> received == old(received)[reply.conn := []] && echoed == old(echoed)[reply.conn := []]
      ensures fault.Some? ==> received == old(received) && echoed == old(echoed)
    {
      match reply
      case AcceptRaised =>
        fault := Some(AcceptFailed);
      case Accepted(conn, addr) =>
        if conn in table {
          // sel.register refuses a handle it already holds
          fault := Some(AlreadyRegistered);
        } else {
          var data := Conn(addr, [], []);
          table := table[conn := Key(EVENT_READ | EVENT_WRITE, Some(data))];
          received := received[conn := []];
          echoed := echoed[conn := []];
          fault := None;
        }
    }

    /** service_connection: at most one recv and at most one send on `h`. */
    method ServiceConnection(h: Handle, mask: Mask, recv: RecvReply, send: SendReply) returns (fault: Option<Fault>)
      requires Valid() && h in table && h != listener
      modifies this
      ensures Valid()
      ensures Outcome(table, fault) == ServiceTable(old(table), h, mask, recv, send)
      ensures var r := Service(old(table)[h].data.value, mask, recv, send);
        && received == old(received)[h := old(received)[h] + r.got]
        && echoed == old(echoed)[h := old(echoed)[h] + r.sent]
    {
      ServiceKeepsEchoing(table, listener, received, echoed, h, mask, recv, send);
      ghost var t0 := table;
      // the record attached to the key; the key keeps referring to it
      var data := table[h].data.value;
      var closed := false;
      fault := None;
      if Readable(mask) {
        match recv
        case RecvRaised =>
          fault := Some(RecvFailed);
        case Received(bytes) =>
          if |bytes| > 0 {
            data := data.(outb := data.outb + bytes);
          } else {
            // unregister, then close
            table := table - {h};
            closed := true;
          }
      }
      if fault.None? && Writable(mask) {
        if |data.outb| > 0 {
          if closed {
            fault := Some(SendOnClosed);
          } else {
            match send
            case SendRaised =>
              fault := Some(SendFailed);
            case Accepts(limit) =>
              var sent := if limit < |data.outb| then limit else |data.outb|;
              data := data.(outb := data.outb[sent..]);
          }
        }
      }
      if !closed {
        table := table[h := table[h].(data := Some(data))];
      }
      ghost var r := Service(t0[h].data.value, mask, recv, send);
      assert data == r.conn && closed == r.closed && fault == r.fault;
      received := received[h := received[h] + r.got];
      echoed := echoed[h := echoed[h] + r.sent];
    }

    /** One iteration of `for key, mask in events`: the listening socket's
        key goes to accept_wrapper, a client's to service_connection. The
        traffic of every other connection is left alone. */
    method HandleEvent(e: Event) returns (fault: Option<Fault>)
      requires Valid() && e.h in table
      modifies this
      ensures Valid()
      ensures Outcome(table, fault) == Dispatch(old(table), e)
      ensures Traffic(received, echoed) == Log(old(table), e, Traffic(old(received), old(echoed)))
    {
      if table[e.h].data.None? {
        fault := AcceptWrapper(e.accept);
      } else {
        fault := ServiceConnection(e.h, e.mask, e.recv, e.send);
      }
    }

    /** `for key, mask in events`: dispatch a batch in order; an exception
        leaves the loop. */
    method HandleBatch(batch: seq<Event>) returns (fault: Option<Fault>)
      requires Valid() && Selected(table, batch)
      modifies this
      ensures Valid()
      ensures Outcome(table, fault) == DispatchAll(old(table), batch)
      ensures Traffic(received, echoed) == LogAll(old(table), batch, Traffic(old(received), old(echoed)))
    {
      fault := None;
      var i := 0;
      while i < |batch| && fault.None?
        invariant 0 <= i <= |batch|
        invariant Valid()
        invariant fault.None? ==>
                    && Selected(table, batch[i..])
                    && DispatchAll(table, batch[i..]) == DispatchAll(old(table), batch)
                    && LogAll(table, batch[i..], Traffic(received, echoed)) == LogAll(old(table), batch, Traffic(old(received), old(echoed)))
        invariant fault.Some? ==>
                    && Outcome(table, fault) == DispatchAll(old(table), batch)
                    && Traffic(received, echoed) == LogAll(old(table), batch, Traffic(old(received), old(echoed)))
      {
        DispatchAllFirst(table, batch[i..], Traffic(received, echoed));
        assert batch[i..][0] == batch[i] && batch[i..][1..] == batch[i + 1..];
        fault := HandleEvent(batch[i]);
        i := i + 1;
      }
    }

    /** `while True`: select, then dispatch the batch, until an exception
        escapes or the reports run out. */
    method Run(reports: seq<seq<Event>>) returns (fault: Option<Fault>)
      requires Valid()
      modifies this
      ensures Valid()
      ensures Outcome(table, fault) == Serve(old(table), reports)
      ensures Traffic(received, echoed) == LogServe(old(table), reports, Traffic(old(received), old(echoed)))
    {
      fault := None;
      var i := 0;
      while i < |reports| && fault.None?
        invariant 0 <= i <= |reports|
        invariant Valid()
        invariant fault.None? ==>
                    && Serve(table, reports[i..]) == Serve(old(table), reports)
                    && LogServe(table, reports[i..], Traffic(received, echoed)) == LogServe(old(table), reports, Traffic(old(received), old(echoed)))
        invariant fault.Some? ==>
                    && Outcome(table, fault) == Serve(old(table), reports)
                    && Traffic(received, echoed) == LogServe(old(table), reports, Traffic(old(received), old(echoed)))
      {
        assert reports[i..][0] == reports[i] && reports[i..][1..] == reports[i + 1..];
        var batch := Select(table, reports[i]);
        fault := HandleBatch(batch);
        i := i + 1;
      }
    }
  }
}
