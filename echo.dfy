/** The echo server of multiconn-server.py as functions on the registration
    table: what accept_wrapper, service_connection and one pass of the event
    loop do to it. */
module EchoServer {
  import opened Net
  import opened Selector

  /** Interest of the listening socket and of every client connection. */
  const LISTEN_EVENTS: Mask := EVENT_READ
  const CONN_EVENTS: Mask := EVENT_READ | EVENT_WRITE

  /** The table after the listening socket is registered with no data. */
  function InitialTable(lsock: Handle): (t: Table)
    ensures Wellformed(t, lsock) && t.Keys == {lsock}
  {
    map[lsock := Key(LISTEN_EVENTS, None)]
  }

  /** The shape the server keeps its table in: the listening socket is
      registered for reading with no data, and every other handle is a client
      with READ|WRITE interest, a record, and an untouched `inb`. */
  predicate Wellformed(t: Table, lsock: Handle) {
    && lsock in t && t[lsock] == Key(LISTEN_EVENTS, None)
    && forall h :: h in t && h != lsock ==>
         t[h].data.Some? && t[h].events == CONN_EVENTS && t[h].data.value.inb == []
  }

  /** The table after a dispatch, and the exception that escaped it, if any. */
  datatype Outcome = Outcome(table: Table, fault: Option<Fault>)

  /** accept_wrapper: accept one connection and register it for READ|WRITE
      with a fresh record. */
  function Accept(t: Table, reply: AcceptReply): (o: Outcome)
    ensures o.fault.None? <==> reply.Accepted? && reply.conn !in t
    ensures o.fault.Some? ==> o.table == t
    ensures o.fault == Some(AlreadyRegistered) <==> reply.Accepted? && reply.conn in t
    ensures o.fault.None? ==>
              && o.table.Keys == t.Keys + {reply.conn}
              && o.table[reply.conn].events == EVENT_READ | EVENT_WRITE
              && o.table[reply.conn].data == Some(Conn(reply.addr, [], []))
    ensures forall k :: k in t ==> k in o.table && o.table[k] == t[k]
  {
    match reply
    case AcceptRaised => Outcome(t, Some(AcceptFailed))
    case Accepted(conn, addr) =>
      if conn in t then Outcome(t, Some(AlreadyRegistered))
      else Outcome(t[conn := Key(CONN_EVENTS, Some(Conn(addr, [], [])))], None)
  }

  /** What one service_connection call does to a record: the record after the
      call, whether the handle was unregistered and closed, the exception that
      escaped, the bytes appended to `outb` and the bytes handed to send. */
  datatype ServiceResult = ServiceResult(conn: Conn, closed: bool, fault: Option<Fault>, got: seq<byte>, sent: seq<byte>)

  /** The READ branch: one recv; data is appended to `outb`, an empty reply
      closes the connection. */
  function ReadPhase(c: Conn, mask: Mask, recv: RecvReply): (rd: ServiceResult)
    ensures rd.conn.outb == c.outb + rd.got && rd.sent == []
    ensures rd.conn.addr == c.addr && rd.conn.inb == c.inb
    ensures rd.got != [] ==> Readable(mask) && recv.Received? && recv.bytes == rd.got
    ensures Readable(mask) && recv.Received? && recv.bytes != [] ==> rd.got == recv.bytes
    ensures rd.closed <==> Readable(mask) && recv == Received([])
    ensures rd.closed ==> rd.got == []
    ensures rd.fault.Some? <==> Readable(mask) && recv.RecvRaised?
    ensures rd.fault.Some? ==> rd.fault == Some(RecvFailed)
  {
    if !Readable(mask) then ServiceResult(c, false, None, [], [])
    else match recv
      case RecvRaised => ServiceResult(c, false, Some(RecvFailed), [], [])
      case Received(bytes) =>
        if |bytes| > 0 then ServiceResult(c.(outb := c.outb + bytes), false, None, bytes, [])
        else ServiceResult(c, true, None, [], [])
  }

  /** The WRITE branch, a separate `if`: it runs after a close as well, and a
      send on the closed handle raises. */
  function WritePhase(rd: ServiceResult, mask: Mask, send: SendReply): (r: ServiceResult)
    requires rd.fault.None? && rd.sent == []
    ensures r.sent + r.conn.outb == rd.conn.outb
    ensures r.conn.addr == rd.conn.addr && r.conn.inb == rd.conn.inb
    ensures r.closed == rd.closed && r.got == rd.got
    ensures rd.conn.outb == [] ==> r == rd
    ensures r.sent != [] ==> Writable(mask) && !r.closed && r.fault.None?
    ensures r.fault == Some(SendOnClosed) <==> rd.closed && Writable(mask) && rd.conn.outb != []
    ensures r.fault == Some(SendFailed) <==> !rd.closed && Writable(mask) && send.SendRaised? && rd.conn.outb != []
    ensures r.fault.None? || r.fault.value in {SendOnClosed, SendFailed}
    ensures Writable(mask) && !r.closed && send.Accepts? && rd.conn.outb != [] ==> r.sent != []
    ensures Writable(mask) && r.fault.None? && send.Accepts? && |r.sent| < send.limit ==> r.conn.outb == []
    ensures Writable(mask) && !rd.closed && send.Accepts? ==> |r.sent| == Min(send.limit, |rd.conn.outb|)
  {
    if !Writable(mask) || |rd.conn.outb| == 0 then rd
    else if rd.closed then rd.(fault := Some(SendOnClosed))
    else match send
      case SendRaised => rd.(fault := Some(SendFailed))
      case Accepts(limit) =>
        var n := Min(limit, |rd.conn.outb|);
        assert rd.conn.outb[..n] + rd.conn.outb[n..] == rd.conn.outb;
        rd.(conn := rd.conn.(outb := rd.conn.outb[n..]), sent := rd.conn.outb[..n])
  }

  /** service_connection on one record. */
  function Service(c: Conn, mask: Mask, recv: RecvReply, send: SendReply): (r: ServiceResult)
    // echo: what was sent, followed by what is still queued, is what was
    // queued before followed by what was received
    ensures r.sent + r.conn.outb == c.outb + r.got
    ensures r.conn.addr == c.addr && r.conn.inb == c.inb
    // received data is appended whole, and it is one recv's worth
    ensures r.got != [] ==> Readable(mask) && recv.Received? && recv.bytes == r.got && |r.got| <= RECV_SIZE
    ensures Readable(mask) && recv.Received? && recv.bytes != [] ==> r.got == recv.bytes
    // only a READ-ready empty recv closes, and a close sends nothing
    ensures r.closed <==> Readable(mask) && recv == Received([])
    ensures r.closed ==> r.sent == [] && r.conn.outb == c.outb
    // nothing is sent unless WRITE is ready and there is something queued;
    // bytes stay queued only when the kernel took all it could
    ensures r.sent != [] ==> Writable(mask) && !r.closed && r.fault.None?
    ensures Writable(mask) && r.fault.None? && !r.closed && send.Accepts? && c.outb + r.got != [] ==> r.sent != []
    ensures Writable(mask) && r.fault.None? && send.Accepts? && |r.sent| < send.limit ==> r.conn.outb == []
    ensures Writable(mask) && r.fault.None? && !r.closed && send.Accepts? ==> |r.sent| == Min(send.limit, |c.outb + r.got|)
    // the exceptions that escape, and where
    ensures r.fault == Some(RecvFailed) <==> Readable(mask) && recv.RecvRaised?
    ensures r.fault == Some(SendOnClosed) <==> r.closed && Writable(mask) && c.outb != []
    ensures r.fault == Some(SendFailed) <==>
              !r.closed && !(Readable(mask) && recv.RecvRaised?) && Writable(mask) && send.SendRaised? && c.outb + r.got != []
    ensures r.fault.None? || r.fault.value in {RecvFailed, SendOnClosed, SendFailed}
  {
    var rd := ReadPhase(c, mask, recv);
    if rd.fault.Some? then rd else WritePhase(rd, mask, send)
  }

  /** service_connection on the table: the key is updated in place, or
      removed when the connection was closed; no other key changes. */
  function ServiceTable(t: Table, h: Handle, mask: Mask, recv: RecvReply, send: SendReply): (o: Outcome)
    requires h in t && t[h].data.Some?
    ensures o.table.Keys <= t.Keys
    ensures forall k :: k in t && k != h ==> k in o.table && o.table[k] == t[k]
    ensures h in o.table ==> o.table[h].events == t[h].events && o.table[h].data.Some?
    ensures h !in o.table <==> Readable(mask) && recv == Received([])
    // the key now holds the serviced record, and the call's exception escapes
    ensures var r := Service(t[h].data.value, mask, recv, send);
      o.fault == r.fault && (h in o.table ==> o.table[h].data == Some(r.conn))
  {
    var r := Service(t[h].data.value, mask, recv, send);
    Outcome(if r.closed then t - {h} else t[h := t[h].(data := Some(r.conn))], r.fault)
  }

  /** Every open connection has echoed exactly what it received so far,
      minus what is still queued in its `outb`. */
  predicate Echoing(t: Table, lsock: Handle, received: map<Handle, seq<byte>>, echoed: map<Handle, seq<byte>>)
    requires Wellformed(t, lsock)
  {
    forall h :: h in t && h != lsock ==>
      h in received && h in echoed && echoed[h] + t[h].data.value.outb == received[h]
  }

  /** service_connection keeps the table's shape and the echo invariant,
      once the call's received and sent bytes are added to the histories. */
  lemma ServiceKeepsEchoing(t: Table, lsock: Handle, received: map<Handle, seq<byte>>, echoed: map<Handle, seq<byte>>,
                            h: Handle, mask: Mask, recv: RecvReply, send: SendReply)
    requires Wellformed(t, lsock) && Echoing(t, lsock, received, echoed) && h in t && h != lsock
    ensures var r := Service(t[h].data.value, mask, recv, send);
      var o := ServiceTable(t, h, mask, recv, send);
      && Wellformed(o.table, lsock)
      && Echoing(o.table, lsock, received[h := received[h] + r.got], echoed[h := echoed[h] + r.sent])
  {
    var c := t[h].data.value;
    var r := Service(c, mask, recv, send);
    var t' := ServiceTable(t, h, mask, recv, send).table;
    var received', echoed' := received[h := received[h] + r.got], echoed[h := echoed[h] + r.sent];
    assert received[h] + [] == received[h] && [] + r.got == r.got;
    EchoCompose(received[h], echoed[h], c.outb, [], r.sent, r.conn.outb, r.got);
    forall k | k in t' && k != lsock
      ensures k in received' && k in echoed' && echoed'[k] + t'[k].data.value.outb == received'[k]
    {
      if k == h {
        assert t'[k].data.value == r.conn;
      } else {
        assert t'[k] == t[k] && received'[k] == received[k] && echoed'[k] == echoed[k];
      }
    }
  }

  /** The body of `for key, mask in events`: a key with no data is the
      listening socket and goes to accept_wrapper, every other key to
      service_connection. */
  function Dispatch(t: Table, e: Event): (o: Outcome)
    requires e.h in t
    ensures t[e.h].data.None? ==> o == Accept(t, e.accept)
    ensures t[e.h].data.Some? ==> o == ServiceTable(t, e.h, e.mask, e.recv, e.send)
    ensures t[e.h].data.Some? ==> o.table.Keys <= t.Keys
    // isolation: no key other than the event's own changes or disappears
    ensures forall k :: k in t && k != e.h ==> k in o.table && o.table[k] == t[k]
    // only the listening socket's event adds a key
    ensures forall k :: k in o.table && k !in t ==> t[e.h].data.None?
  {
    if t[e.h].data.None? then Accept(t, e.accept)
    else ServiceTable(t, e.h, e.mask, e.recv, e.send)
  }

  /** One batch of select(), dispatched in order; the first exception
      escapes the loop and the rest of the batch is never dispatched. */
  function DispatchAll(t: Table, batch: seq<Event>): (o: Outcome)
    requires Selected(t, batch)
    // keys of handles the batch does not name are left alone
    ensures forall k :: k in t && NotIn(k, batch) ==> k in o.table && o.table[k] == t[k]
    decreases |batch|
  {
    if batch == [] then Outcome(t, None)
    else
      var first := Dispatch(t, batch[0]);
      if first.fault.Some? then first
      else
        assert Selected(first.table, batch[1..]) by {
          forall i | 0 <= i < |batch| - 1 ensures batch[1..][i].h != batch[0].h {
            assert batch[1..][i] == batch[i + 1];
          }
        }
        DispatchAll(first.table, batch[1..])
  }

  /** Dispatching the first event of a batch leaves the rest of it a batch
      select() could have returned for the new table. */
  lemma DispatchAllFirst(t: Table, batch: seq<Event>, tr: Traffic)
    requires Selected(t, batch) && batch != []
    ensures batch[0].h in t
    ensures var first := Dispatch(t, batch[0]);
      && (first.fault.Some? ==> DispatchAll(t, batch) == first && LogAll(t, batch, tr) == Log(t, batch[0], tr))
      && (first.fault.None? ==>
            && Selected(first.table, batch[1..])
            && DispatchAll(t, batch) == DispatchAll(first.table, batch[1..])
            && LogAll(t, batch, tr) == LogAll(first.table, batch[1..], Log(t, batch[0], tr)))
  {
  }

  /** The bytes each connection has received, and the bytes sent to it. */
  type History = map<Handle, seq<byte>>

  datatype Traffic = Traffic(received: History, echoed: History)

  /** The history of `h`; empty for a handle never seen. */
  function Past(m: History, h: Handle): seq<byte> {
    if h in m then m[h] else []
  }

  /** The histories after one dispatch: a connection just accepted starts
      with empty histories, a serviced one adds what it received and sent. */
  ghost function Log(t: Table, e: Event, tr: Traffic): Traffic
    requires e.h in t
  {
    if t[e.h].data.None? then
      if Accept(t, e.accept).fault.None? then
        Traffic(tr.received[e.accept.conn := []], tr.echoed[e.accept.conn := []])
      else tr
    else
      var r := Service(t[e.h].data.value, e.mask, e.recv, e.send);
      Traffic(tr.received[e.h := Past(tr.received, e.h) + r.got], tr.echoed[e.h := Past(tr.echoed, e.h) + r.sent])
  }

  /** The histories after a batch, dispatched as DispatchAll does; the event
      whose exception escapes has still done its recv. */
  ghost function LogAll(t: Table, batch: seq<Event>, tr: Traffic): Traffic
    requires Selected(t, batch)
    decreases |batch|
  {
    if batch == [] then tr
    else
      var first := Dispatch(t, batch[0]);
      var tr1 := Log(t, batch[0], tr);
      if first.fault.Some? then tr1
      else
        assert Selected(first.table, batch[1..]) by {
          forall i | 0 <= i < |batch| - 1 ensures batch[1..][i].h != batch[0].h {
            assert batch[1..][i] == batch[i + 1];
          }
        }
        LogAll(first.table, batch[1..], tr1)
  }

  /** The histories after the event loop, as Serve runs it. */
  ghost function LogServe(t: Table, reports: seq<seq<Event>>, tr: Traffic): Traffic
    decreases |reports|
  {
    if reports == [] then tr
    else
      var batch := Select(t, reports[0]);
      var first := DispatchAll(t, batch);
      var tr1 := LogAll(t, batch, tr);
      if first.fault.Some? then tr1 else LogServe(first.table, reports[1..], tr1)
  }

  /** `while True`: select a batch from each list of readiness reports and
      dispatch it, until an exception escapes. */
  function Serve(t: Table, reports: seq<seq<Event>>): (o: Outcome)
    // a connection the kernel never reports on is never touched
    ensures forall k :: k in t && NeverReported(k, reports) ==> k in o.table && o.table[k] == t[k]
    decreases |reports|
  {
    if reports == [] then Outcome(t, None)
    else
      var first := DispatchAll(t, Select(t, reports[0]));
      assert forall k :: k in t && NeverReported(k, reports) ==>
               k in first.table && first.table[k] == t[k] && NeverReported(k, reports[1..]) by {
        forall k | k in t && NeverReported(k, reports)
          ensures k in first.table && first.table[k] == t[k] && NeverReported(k, reports[1..])
        {
          assert NotIn(k, reports[0]);
          SelectOnlyReported(t, reports[0], k);
          forall i | 0 <= i < |reports| - 1 ensures NotIn(k, reports[1..][i]) {
            assert reports[1..][i] == reports[i + 1];
          }
        }
      }
      if first.fault.Some? then first
      else Serve(first.table, reports[1..])
  }

  /** The kernel never reports on handle `k`. */
  predicate NeverReported(k: Handle, reports: seq<seq<Event>>) {
    forall i :: 0 <= i < |reports| ==> NotIn(k, reports[i])
  }

  /** Accepting and servicing keep the table's shape: the listening socket
      stays registered for reading with no data, and it remains the only
      such key. */
  lemma DispatchKeepsWellformed(t: Table, lsock: Handle, e: Event)
    requires Wellformed(t, lsock) && e.h in t
    ensures Wellformed(Dispatch(t, e).table, lsock)
  {
  }

  lemma {:induction false} DispatchAllKeepsWellformed(t: Table, lsock: Handle, batch: seq<Event>)
    requires Wellformed(t, lsock) && Selected(t, batch)
    ensures Wellformed(DispatchAll(t, batch).table, lsock)
    decreases |batch|
  {
    if batch != [] {
      DispatchKeepsWellformed(t, lsock, batch[0]);
      var first := Dispatch(t, batch[0]);
      if first.fault.None? {
        assert Selected(first.table, batch[1..]) by {
          forall i | 0 <= i < |batch| - 1 ensures batch[1..][i].h != batch[0].h {
            assert batch[1..][i] == batch[i + 1];
          }
        }
        DispatchAllKeepsWellformed(first.table, lsock, batch[1..]);
      }
    }
  }

  /** The listening socket is never unregistered and never gains data; every
      other key is a client record, whatever the kernel reports. */
  lemma {:induction false} ServeKeepsWellformed(t: Table, lsock: Handle, reports: seq<seq<Event>>)
    requires Wellformed(t, lsock)
    ensures Wellformed(Serve(t, reports).table, lsock)
    decreases |reports|
  {
    if reports != [] {
      DispatchAllKeepsWellformed(t, lsock, Select(t, reports[0]));
      var first := DispatchAll(t, Select(t, reports[0]));
      if first.fault.None? {
        ServeKeepsWellformed(first.table, lsock, reports[1..]);
      }
    }
  }

  /** Every dispatch keeps the echo invariant, with its traffic logged. */
  lemma DispatchKeepsEchoing(t: Table, lsock: Handle, e: Event, tr: Traffic)
    requires Wellformed(t, lsock) && Echoing(t, lsock, tr.received, tr.echoed) && e.h in t
    ensures var o := Dispatch(t, e).table; var tr' := Log(t, e, tr);
      Wellformed(o, lsock) && Echoing(o, lsock, tr'.received, tr'.echoed)
  {
    if t[e.h].data.Some? {
      ServiceKeepsEchoing(t, lsock, tr.received, tr.echoed, e.h, e.mask, e.recv, e.send);
      assert Past(tr.received, e.h) == tr.received[e.h] && Past(tr.echoed, e.h) == tr.echoed[e.h];
    }
  }

  lemma {:induction false} DispatchAllKeepsEchoing(t: Table, lsock: Handle, batch: seq<Event>, tr: Traffic)
    requires Wellformed(t, lsock) && Echoing(t, lsock, tr.received, tr.echoed) && Selected(t, batch)
    ensures var o := DispatchAll(t, batch).table; var tr' := LogAll(t, batch, tr);
      Wellformed(o, lsock) && Echoing(o, lsock, tr'.received, tr'.echoed)
    decreases |batch|
  {
    if batch != [] {
      DispatchAllFirst(t, batch, tr);
      DispatchKeepsEchoing(t, lsock, batch[0], tr);
      var first := Dispatch(t, batch[0]);
      if first.fault.None? {
        DispatchAllKeepsEchoing(first.table, lsock, batch[1..], Log(t, batch[0], tr));
      }
    }
  }

  /** Whatever the kernel reports, every open connection has sent exactly
      what it received, minus what is still queued. */
  lemma {:induction false} ServeKeepsEchoing(t: Table, lsock: Handle, reports: seq<seq<Event>>, tr: Traffic)
    requires Wellformed(t, lsock) && Echoing(t, lsock, tr.received, tr.echoed)
    ensures var o := Serve(t, reports).table; var tr' := LogServe(t, reports, tr);
      Wellformed(o, lsock) && Echoing(o, lsock, tr'.received, tr'.echoed)
    decreases |reports|
  {
    if reports != [] {
      var batch := Select(t, reports[0]);
      DispatchAllKeepsEchoing(t, lsock, batch, tr);
      var first := DispatchAll(t, batch);
      if first.fault.None? {
        ServeKeepsEchoing(first.table, lsock, reports[1..], LogAll(t, batch, tr));
      }
    }
  }

  /** Two echo steps compose into one. */
  lemma EchoCompose(q0: seq<byte>, s1: seq<byte>, q1: seq<byte>, g1: seq<byte>, s2: seq<byte>, q2: seq<byte>, g2: seq<byte>)
    requires s1 + q1 == q0 + g1 && s2 + q2 == q1 + g2
    ensures (s1 + s2) + q2 == q0 + (g1 + g2)
  {
    calc {
      (s1 + s2) + q2;
      s1 + (q1 + g2);
      (q0 + g1) + g2;
    }
  }

  /** The replies for one service_connection call on a connection. */
  datatype Call = Call(mask: Mask, recv: RecvReply, send: SendReply)

  /** What a run of service_connection calls did to one connection: the
      record afterwards, whether it ended closed or with an exception, every
      byte received and sent, and how many of the calls were serviced. */
  datatype SessionResult = SessionResult(conn: Conn, closed: bool, fault: Option<Fault>,
                                         got: seq<byte>, sent: seq<byte>, served: nat)

  /** The call's recv returns end of file while READ is ready. */
  predicate Closes(call: Call) {
    Readable(call.mask) && call.recv == Received([])
  }

  /** The calls that end a connection whatever its record: a close, or a
      recv that raises. */
  predicate Ends(call: Call) {
    Closes(call) || (Readable(call.mask) && call.recv.RecvRaised?)
  }

  /** No call ends the connection and no send raises. */
  predicate Quiet(calls: seq<Call>) {
    forall i :: 0 <= i < |calls| ==>
      !Ends(calls[i]) && !(Writable(calls[i].mask) && calls[i].send.SendRaised?)
  }

  /** The bytes the kernel hands to a call's recv. */
  function Offered(call: Call): seq<byte> {
    if Readable(call.mask) && call.recv.Received? then call.recv.bytes else []
  }

  /** Everything the kernel hands over in these calls, in order. */
  function Incoming(calls: seq<Call>): seq<byte>
    decreases |calls|
  {
    if calls == [] then [] else Incoming(calls[..|calls| - 1]) + Offered(calls[|calls| - 1])
  }

  /** The life of one connection: its record serviced once per call, until
      the connection is closed or an exception escapes. */
  function Session(c: Conn, calls: seq<Call>): (r: SessionResult)
    // per-connection echo: sent so far ++ outb == outb at the start ++ received so far
    ensures r.sent + r.conn.outb == c.outb + r.got
    ensures r.conn.addr == c.addr && r.conn.inb == c.inb
    // what is received is what the kernel offered to the calls serviced
    ensures r.served <= |calls| && r.got == Incoming(calls[..r.served])
    // servicing stops only at a close or an exception
    ensures r.served < |calls| ==> r.closed || r.fault.Some?
    ensures r.closed || r.fault.Some? ==> 0 < r.served
    decreases |calls|
  {
    if calls == [] then SessionResult(c, false, None, [], [], 0)
    else
      var front := calls[..|calls| - 1];
      var prev := Session(c, front);
      assert calls[..|calls|] == calls;
      assert front[..prev.served] == calls[..prev.served];
      if prev.closed || prev.fault.Some? then prev
      else
        var call := calls[|calls| - 1];
        var s := Service(prev.conn, call.mask, call.recv, call.send);
        EchoCompose(c.outb, prev.sent, prev.conn.outb, prev.got, s.sent, s.conn.outb, s.got);
        assert s.got == Offered(call);
        SessionResult(s.conn, s.closed, s.fault, prev.got + s.got, prev.sent + s.sent, |calls|)
  }

  /** A session ends closed exactly when the last call serviced is a close. */
  lemma {:induction false} SessionCloses(c: Conn, calls: seq<Call>)
    ensures var r := Session(c, calls); r.closed <==> 0 < r.served && Closes(calls[r.served - 1])
    decreases |calls|
  {
    if calls != [] {
      var front := calls[..|calls| - 1];
      SessionCloses(c, front);
      var prev := Session(c, front);
      if prev.closed || prev.fault.Some? {
        assert front[prev.served - 1] == calls[prev.served - 1];
      } else {
        assert Session(c, calls).served == |calls|;
      }
    }
  }

  /** A session is serviced up to the first call that ends the connection
      (or stops earlier, at a send that raises). */
  lemma {:induction false} SessionEnds(c: Conn, calls: seq<Call>)
    ensures var r := Session(c, calls);
      && (forall i :: 0 <= i < r.served - 1 ==> !Ends(calls[i]))
      && (0 < r.served && Ends(calls[r.served - 1]) ==> r.closed || r.fault.Some?)
    decreases |calls|
  {
    if calls != [] {
      var front := calls[..|calls| - 1];
      SessionEnds(c, front);
      var prev := Session(c, front);
      assert forall i :: 0 <= i < |front| ==> front[i] == calls[i];
      if !(prev.closed || prev.fault.Some?) {
        assert prev.served == |front|;
        forall i | 0 <= i < |front| ensures !Ends(calls[i]) {
          assert front[i] == calls[i];
        }
        var call := calls[|calls| - 1];
        var s := Service(prev.conn, call.mask, call.recv, call.send);
        assert Ends(call) ==> s.closed || s.fault.Some?;
      }
    }
  }

  /** With no close, no failing recv and no failing send, every call is
      serviced and everything offered is received. */
  lemma {:induction false} SessionQuiet(c: Conn, calls: seq<Call>)
    requires Quiet(calls)
    ensures var r := Session(c, calls); !r.closed && r.fault.None? && r.served == |calls| && r.got == Incoming(calls)
    decreases |calls|
  {
    if calls != [] {
      var front := calls[..|calls| - 1];
      assert forall i :: 0 <= i < |front| ==> front[i] == calls[i];
      SessionQuiet(c, front);
      var call := calls[|calls| - 1];
      assert !Ends(call) && !(Writable(call.mask) && call.send.SendRaised?);
      assert calls[..|calls|] == calls;
    }
  }

  /** Calls in which only WRITE is ready and every send succeeds. */
  predicate WritesOnly(calls: seq<Call>) {
    forall i :: 0 <= i < |calls| ==> calls[i].mask == EVENT_WRITE && calls[i].send.Accepts?
  }

  /** The total the kernel was willing to take over these calls. */
  function Room(calls: seq<Call>): nat
    requires WritesOnly(calls)
    decreases |calls|
  {
    if calls == [] then 0 else Room(calls[..|calls| - 1]) + calls[|calls| - 1].send.limit
  }

  /** Partial writes: a run of WRITE-ready calls sends a prefix of the queue
      as long as the kernel's room allows, keeps the rest queued unchanged,
      and empties the queue once the room covers it. */
  lemma {:induction false} WritesDrain(c: Conn, calls: seq<Call>)
    requires WritesOnly(calls)
    ensures var r := Session(c, calls);
      && !r.closed && r.fault.None? && r.got == []
      && |r.conn.outb| == (if Room(calls) >= |c.outb| then 0 else |c.outb| - Room(calls))
      && r.sent == c.outb[..|r.sent|] && r.conn.outb == c.outb[|r.sent|..]
    decreases |calls|
  {
    var r := Session(c, calls);
    if calls != [] {
      var front := calls[..|calls| - 1];
      assert WritesOnly(front);
      WritesDrain(c, front);
      var prev := Session(c, front);
      var call := calls[|calls| - 1];
      var s := Service(prev.conn, call.mask, call.recv, call.send);
      assert !Readable(call.mask) && Writable(call.mask);
      assert r == SessionResult(s.conn, s.closed, s.fault, prev.got + s.got, prev.sent + s.sent, |calls|);
      if prev.conn.outb != [] {
        assert s.sent != [];
      }
    }
    assert r.sent + r.conn.outb == c.outb;
    assert r.sent == c.outb[..|r.sent|];
  }
}
