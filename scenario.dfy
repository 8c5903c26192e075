/** A concrete run of the server: a client connects, sends "hello", gets
    it back, shuts down its side, and a second client is then accepted on
    the same descriptor. */
module Scenario {
  import opened Net
  import opened Selector
  import opened EchoServer

  const LSOCK: Handle := 3
  const CLIENT: Handle := 4
  const PEER1 := Address("127.0.0.1", 50001)
  const PEER2 := Address("127.0.0.1", 50002)
  const HELLO: seq<byte> := [104, 101, 108, 108, 111]

  function AcceptEvent(peer: Address): Event {
    Event(LSOCK, EVENT_READ, Accepted(CLIENT, peer), RecvRaised, SendRaised)
  }

  function ClientEvent(bytes: Chunk): Event {
    Event(CLIENT, EVENT_READ | EVENT_WRITE, AcceptRaised, Received(bytes), Accepts(1024))
  }

  lemma {:induction false} HelloThenClose()
    ensures var t1 := Dispatch(InitialTable(LSOCK), AcceptEvent(PEER1));
      && t1 == Outcome(map[LSOCK := Key(EVENT_READ, None), CLIENT := Key(EVENT_READ | EVENT_WRITE, Some(Conn(PEER1, [], [])))], None)
      && Service(t1.table[CLIENT].data.value, EVENT_READ | EVENT_WRITE, Received(HELLO), Accepts(1024)).sent == HELLO
      && var t2 := Dispatch(t1.table, ClientEvent(HELLO));
      && t2 == Outcome(t1.table, None)
      && var t3 := Dispatch(t2.table, ClientEvent([]));
      && t3 == Outcome(InitialTable(LSOCK), None)
      && Dispatch(t3.table, AcceptEvent(PEER2)).table[CLIENT] == Key(EVENT_READ | EVENT_WRITE, Some(Conn(PEER2, [], [])))
  {
    var both := EVENT_READ | EVENT_WRITE;
    assert Readable(both) && Writable(both);
    var t1 := Dispatch(InitialTable(LSOCK), AcceptEvent(PEER1));
    var c := t1.table[CLIENT].data.value;
    var r := Service(c, both, Received(HELLO), Accepts(1024));
    assert r.sent + r.conn.outb == HELLO;
    assert r.conn == c;
    assert t1.table[CLIENT := t1.table[CLIENT].(data := Some(c))] == t1.table;
    var t3 := Dispatch(t1.table, ClientEvent([]));
    assert t3.table == t1.table - {CLIENT};
    assert t1.table - {CLIENT} == InitialTable(LSOCK);
  }
}
