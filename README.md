# Multi-connection echo server: a Dafny model

This project models `multiconn-server.py`: a single-threaded TCP echo
server built on a `selectors` selector. The selector's registration table
maps each registered socket to its key. The listening socket is registered
for READ with no data. Each accepted client is registered for READ|WRITE;
its data is a record holding the peer address and two byte buffers, `inb`
and `outb`. On each wake-up the loop sends the listening socket's key to
`accept_wrapper` and every other key to `service_connection`.
`service_connection` does one `recv(1024)` when the socket is readable and
appends the bytes to `outb`. An empty receive unregisters and closes the
socket. When the socket is writable and `outb` is not empty, it does one
`send` and drops the bytes sent from the front of `outb`.

The operating system is an input. Every reply of `accept`, `recv` and
`send`, and every readiness report, comes from the environment
(`Net.Event`):

- `recv` returns at most 1024 bytes (`Net.Chunk`) or raises.
- `send` takes `min(limit, |outb|)` bytes for some positive `limit`, or raises.
- `accept` returns a new handle and an address, or raises.
- `select()` is modelled by `Selector.Select`. It drops the kernel's reports
  for unregistered handles and masks each report by the key's interest. The
  model assumes a kernel that reports each handle at most once per wake-up,
  as epoll, poll and select(2) do; given a repeated report anyway, `Select`
  keeps the first one (see Left out).

The files:

- `net.dfy`: bytes, handles, masks, kernel replies and the exceptions that
  can escape a dispatch.
- `selector.dfy`: the registration table and `select()`.
- `echo.dfy`: `accept_wrapper`, `service_connection`, one dispatch, one batch
  and the `while True` loop, all as functions on the table, with their
  lemmas.
- `reactor.dfy`: the same operations as methods of a `Reactor` object.
  They update the table in place, as the module-level `sel` is updated.
  Ghost histories of the bytes each connection has received and sent
  carry the echo invariant: bytes sent so far `++ outb ==` bytes received
  so far.
- `scenario.dfy`: one concrete run.
- `findings.dfy`: `service_connection` exactly as written (see Findings).

Three behaviours of the code are easy to miss, and the model keeps them:

- Nothing in the loop catches an exception except `KeyboardInterrupt`. So
  every exception from `accept`, `recv`, `send` or `register` ends the loop
  (`Fault`). The loop does not log the exception and carry on.
- A spurious `accept` raises `BlockingIOError` and ends the loop too. It is
  not a no-op.
- The write branch at multiconn-server.py:87 is a separate `if`, not an
  `else`. Servicing a WRITE-ready key whose READ just closed the socket,
  with bytes still queued, calls `send` on the closed socket. That raises
  `OSError`, and the model gives `Fault SendOnClosed`. By then the handle
  is already unregistered.

## Model

| member | source | states |
|---|---|---|
| `Selector.Select` | multiconn-server.py:96-97 | the batch holds only registered handles, each once, each with a ready mask inside the key's interest; every entry comes from a kernel report, and every registered handle the kernel reports is in the batch |
| `Selector.SelectDistinct` | multiconn-server.py:96-97 | when the kernel reports each handle at most once, the batch is exactly the reports of registered handles, narrowed, in report order |
| `Selector.SelectOnlyReported` | multiconn-server.py:96 | a handle the kernel did not report is not in the batch |
| `EchoServer.InitialTable` | multiconn-server.py:15 | the table right after start-up has only the listening socket, with READ interest and no data |
| `EchoServer.Accept` | multiconn-server.py:41-46 | on success the table gains exactly the accepted handle, with READ\|WRITE interest and a record with empty `inb` and `outb`; every existing key is unchanged; an `accept` that raises, or a handle that is already registered, is a fault that leaves the table alone |
| `EchoServer.ReadPhase` | multiconn-server.py:79-86 | a non-empty receive is appended whole to `outb`; only an empty receive closes; a raising `recv` is the only fault; `inb` and the address never change |
| `EchoServer.WritePhase` | multiconn-server.py:87-91 | the bytes sent are exactly a prefix of `outb` and the rest stays queued; with `outb` empty nothing happens; on an open socket the kernel takes exactly `min(limit, \|outb\|)` bytes; it faults with SendOnClosed exactly when the socket was just closed and bytes are queued, and with SendFailed exactly when a `send` on the open socket raises with bytes queued |
| `EchoServer.Service` | multiconn-server.py:77-91 | sent `++` new `outb` == old `outb` `++` received; received bytes are one `recv` of at most 1024 bytes; it closes iff READ is ready and the receive is empty, and then sends nothing; it sends only when WRITE is ready, and then exactly `min(limit, \|queue\|)` bytes; exactly when each of RecvFailed, SendOnClosed and SendFailed escapes |
| `EchoServer.ServiceTable` | multiconn-server.py:77-91 | the callee's key is kept with its interest and now holds the serviced record, or is removed iff READ was ready and the receive was empty; the call's exception escapes; no other key changes and no key is added |
| `EchoServer.ServiceKeepsEchoing` | multiconn-server.py:44-91 | each service step keeps the table's shape and the echo invariant (sent so far `++ outb ==` received so far) on every open connection |
| `EchoServer.Dispatch` | multiconn-server.py:97-101 | a key with no data goes to `Accept`, every other key to `ServiceTable`; no other handle's key changes or disappears; only the listening socket's event adds a key |
| `EchoServer.DispatchAll` | multiconn-server.py:97-101 | the events of a batch are dispatched in order, and the first exception ends the batch; a handle the batch does not name keeps its key |
| `EchoServer.DispatchAllFirst` | multiconn-server.py:97-101 | after the first event of a batch, the rest is still a valid batch for the new table, and dispatching and logging it gives the same result |
| `EchoServer.Serve` | multiconn-server.py:94-101 | the `while True` loop: one select and one batch per round until an exception escapes; a connection the kernel never reports on is never touched |
| `EchoServer.DispatchKeepsWellformed` | multiconn-server.py:15-101 | one dispatch keeps the listening socket registered for READ with no data, as the only key without data, and keeps every client key at READ\|WRITE with an empty `inb` |
| `EchoServer.DispatchAllKeepsWellformed` | multiconn-server.py:97-101 | the same for a whole batch |
| `EchoServer.ServeKeepsWellformed` | multiconn-server.py:94-101 | the same for any run of the loop, whatever the kernel reports |
| `EchoServer.DispatchKeepsEchoing` | multiconn-server.py:41-101 | one dispatch, with its traffic logged (a new connection starts with empty histories, a serviced one adds what it received and sent), keeps the echo invariant |
| `EchoServer.DispatchAllKeepsEchoing` | multiconn-server.py:97-101 | the same for a whole batch |
| `EchoServer.ServeKeepsEchoing` | multiconn-server.py:94-101 | for any run of the loop, every open connection has sent exactly what it received, minus what is still queued |
| `EchoServer.Session` | multiconn-server.py:77-91 | over the life of one connection, all bytes sent `++` the final `outb` == the initial `outb` `++` all bytes received; the bytes received are exactly what the kernel offered to the calls serviced; servicing stops only at a close or an exception; `inb` and the address never change |
| `EchoServer.SessionCloses` | multiconn-server.py:83-86 | a connection ends closed exactly when the last call serviced returned end of file |
| `EchoServer.SessionEnds` | multiconn-server.py:79-86 | no call before the last serviced one closes or fails its `recv`, and such a call always ends the session |
| `EchoServer.SessionQuiet` | multiconn-server.py:77-91 | with no close and no raising `recv` or `send`, every call is serviced and every byte offered is received |
| `EchoServer.WritesDrain` | multiconn-server.py:87-91 | a run of WRITE-ready calls sends a prefix of `outb` and keeps the rest unchanged; the bytes left queued are the old length minus the total kernel room, or none once the room covers the queue |
| `MulticonnServer.Reactor.constructor` | multiconn-server.py:6-15 | the selector holds only the listening socket, with READ interest and no data |
| `MulticonnServer.Reactor.AcceptWrapper` | multiconn-server.py:41-46 | updates the table as `Accept` says; the new connection's histories start empty; the object invariant holds |
| `MulticonnServer.Reactor.ServiceConnection` | multiconn-server.py:77-91 | updates the table in place as `ServiceTable` says; adds the received and sent bytes to the connection's histories; keeps the echo invariant |
| `MulticonnServer.Reactor.HandleEvent` | multiconn-server.py:97-101 | routes each event as `Dispatch` says; logs its traffic as `Log` says: an accepted connection's histories start empty, a serviced one's grow by the bytes received and sent, and no other history changes |
| `MulticonnServer.Reactor.HandleBatch` | multiconn-server.py:97-101 | its loop over a batch ends in the table `DispatchAll` gives, with the histories `LogAll` gives |
| `MulticonnServer.Reactor.Run` | multiconn-server.py:94-101 | its nested loops end in the table `Serve` gives, with the histories `LogServe` gives, keeping the object invariant throughout |
| `AsWritten.ServiceAsWritten` | multiconn-server.py:44-91 | as written, `service_connection` never closes and never sends, because both paths raise `AttributeError` first; where it does not raise, it agrees with `Service` |
| `AsWritten.FirstEchoRaises` | multiconn-server.py:87-91 | a client that sends "hi": the written code raises at its first echo, while `Service` sends both bytes back |
| `AsWritten.CloseRaises` | multiconn-server.py:83-86 | a peer that shuts down: the written code raises before unregistering, while `Service` closes |
| `Scenario.HelloThenClose` | multiconn-server.py:41-101 | connect, echo "hello", half-close (the table is back to its initial state), then a second client is accepted on the same descriptor |

## Findings

| source | as written | input that shows it | evidently intended | confidence | as-written member | corrected member |
|---|---|---|---|---|---|---|
| multiconn-server.py:44, :84, :89 | the record is created with the field `add` (:44), but the log lines at :84 and :89 read `data.addr`; the lookup raises `AttributeError` before `sock.close()` (:85-86) and before `sock.send` (:90), and nothing catches it | a client connects and sends `b"hi"`; the first READ\|WRITE call raises at :89 and ends the server, so nothing is ever echoed; a peer that half-closes raises at :84 and is never unregistered | the field is named `addr`, so `service_connection` echoes and closes as described | high (not executed) | `AsWritten.ServiceAsWritten`, `AsWritten.FirstEchoRaises`, `AsWritten.CloseRaises` | `EchoServer.Service` |

## Left out

- Argument parsing, creating, binding and listening on the socket, and `setblocking` (multiconn-server.py:9-14, :43). These are operating-system calls with no logic of their own. The listening handle is a constructor parameter.
- All `print` calls (multiconn-server.py:13, :42, :84, :89). They are logging only. Their one effect on control flow is the `addr` lookup, which the Findings section covers.
- How the kernel decides readiness, and blocking in `sel.select` (multiconn-server.py:96). The kernel's reports are an input sequence, and `Select` only narrows them to the registration table.
- The `KeyboardInterrupt` handler and `sel.close()` in `finally` (multiconn-server.py:102-105). They are process shutdown. A run ends when the reports run out or when a fault escapes.
- The `fileobj` and `fd` fields of a selector key. A handle stands for both.
- Records are values in the model. In the source, each key holds a reference to a mutable namespace. No two keys share a record, so no aliasing is lost, but the model writes the updated record back to the table.
- `send` on a handle whose kernel buffer is full. `select()` reports WRITE only when the kernel has room, so the kernel's limit is positive (`Net.Pos`). A would-block `send` is covered by `SendRaised`.
- Exceptions other than the modelled ones, such as out of memory, and the exact exception class of each `Fault`.
- app-server.py. It depends on `libserver`, which is not part of this model.
- Concurrency and timeouts. The source has none.
- Selectors that report one handle twice in a batch. `KqueueSelector` (macOS, BSD) reports READ and WRITE as two entries, and after the READ entry closes the socket the WRITE entry is still dispatched with the old key. The model takes each handle to be reported at most once per wake-up, as `DefaultSelector` does with epoll, poll or select(2), and `Select` keeps only the first of repeated reports.
