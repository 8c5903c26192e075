/** The registration table of the selector `sel`: each registered handle
    maps to its key, that is its interest mask and its attached data. */
module Selector {
  import opened Net

  /** The per-connection record attached to a client handle. */
  datatype Conn = Conn(addr: Address, inb: seq<byte>, outb: seq<byte>)

  /** A selector key without its file object (the file object is the map key);
      `data == None` marks the listening socket. */
  datatype Key = Key(events: Mask, data: Option<Conn>)

  type Table = map<Handle, Key>

  /** A batch as select() returns it for table `t`: only registered handles,
      each once, each with a ready mask inside its interest. */
  predicate Selected(t: Table, batch: seq<Event>) {
    && (forall i :: 0 <= i < |batch| ==>
          batch[i].h in t && batch[i].mask & t[batch[i].h].events == batch[i].mask)
    && Distinct(batch)
  }

  /** No handle is reported twice. */
  predicate Distinct(batch: seq<Event>)
    decreases |batch|
  {
    batch == [] || ((forall i :: 1 <= i < |batch| ==> batch[i].h != batch[0].h) && Distinct(batch[1..]))
  }

  /** A report narrowed to the interest of the handle's key. */
  function Narrow(t: Table, r: Event): Event
    requires r.h in t
  {
    r.(mask := r.mask & t[r.h].events)
  }

  /** select(): the readiness reports of the kernel narrowed to the table.
      Reports for unregistered handles are dropped; every registered handle
      the kernel reports appears once, with its first report narrowed. */
  function Select(t: Table, ready: seq<Event>): (batch: seq<Event>)
    ensures Selected(t, batch)
    ensures forall e :: e in batch ==> exists r :: r in ready && r.h in t && e == Narrow(t, r)
    ensures forall j :: 0 <= j < |ready| && ready[j].h in t ==> Reported(ready[j].h, batch)
  {
    SelectExcept(t, ready, {})
  }

  function SelectExcept(t: Table, ready: seq<Event>, seen: set<Handle>): (batch: seq<Event>)
    ensures Selected(t, batch)
    ensures forall i :: 0 <= i < |batch| ==> batch[i].h !in seen
    ensures forall e :: e in batch ==> exists r :: r in ready && r.h in t && e == Narrow(t, r)
    ensures forall j :: 0 <= j < |ready| && ready[j].h in t && ready[j].h !in seen ==> Reported(ready[j].h, batch)
    decreases |ready|
  {
    if ready == [] then []
    else if ready[0].h in t && ready[0].h !in seen then
      var rest := SelectExcept(t, ready[1..], seen + {ready[0].h});
      var batch := [Narrow(t, ready[0])] + rest;
      assert forall j :: 0 <= j < |ready| && ready[j].h in t && ready[j].h !in seen ==> Reported(ready[j].h, batch) by {
        forall j | 0 <= j < |ready| && ready[j].h in t && ready[j].h !in seen
          ensures Reported(ready[j].h, batch)
        {
          if ready[j].h == ready[0].h {
            assert batch[0].h == ready[j].h;
          } else {
            assert ready[1..][j - 1] == ready[j];
            var i :| 0 <= i < |rest| && rest[i].h == ready[j].h;
            assert batch[i + 1] == rest[i];
          }
        }
      }
      batch
    else
      var rest := SelectExcept(t, ready[1..], seen);
      assert forall j :: 1 <= j < |ready| ==> ready[j] == ready[1..][j - 1];
      rest
  }

  /** Some event of the batch concerns handle `k`. */
  predicate Reported(k: Handle, batch: seq<Event>) {
    exists i :: 0 <= i < |batch| && batch[i].h == k
  }

  /** The reports of registered handles, narrowed, in report order. */
  function Registered(t: Table, ready: seq<Event>): seq<Event>
    decreases |ready|
  {
    if ready == [] then []
    else if ready[0].h in t then [Narrow(t, ready[0])] + Registered(t, ready[1..])
    else Registered(t, ready[1..])
  }

  /** When the kernel reports each handle at most once, as epoll, poll and
      select(2) do, select() keeps every registered report, in order. */
  lemma {:induction false} SelectDistinct(t: Table, ready: seq<Event>)
    requires Distinct(ready)
    ensures Select(t, ready) == Registered(t, ready)
  {
    SelectExceptDistinct(t, ready, {});
  }

  lemma {:induction false} SelectExceptDistinct(t: Table, ready: seq<Event>, seen: set<Handle>)
    requires Distinct(ready) && forall i :: 0 <= i < |ready| ==> ready[i].h !in seen
    ensures SelectExcept(t, ready, seen) == Registered(t, ready)
    decreases |ready|
  {
    if ready != [] {
      var seen' := if ready[0].h in t then seen + {ready[0].h} else seen;
      assert forall i :: 0 <= i < |ready[1..]| ==> ready[1..][i] == ready[i + 1];
      SelectExceptDistinct(t, ready[1..], seen');
    }
  }

  /** No event of the batch concerns handle `k`. */
  predicate NotIn(k: Handle, batch: seq<Event>) {
    forall i :: 0 <= i < |batch| ==> batch[i].h != k
  }

  /** select() only reports handles the kernel reported. */
  lemma SelectOnlyReported(t: Table, ready: seq<Event>, k: Handle)
    requires NotIn(k, ready)
    ensures NotIn(k, Select(t, ready))
  {
    var batch := Select(t, ready);
    forall i | 0 <= i < |batch| ensures batch[i].h != k {
      assert batch[i] in batch;
      var r :| r in ready && r.h in t && batch[i] == Narrow(t, r);
    }
  }
}
