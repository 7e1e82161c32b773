# Sandshark back-seat link and driver, in Dafny

This project models two parts of the BWSI AUV back-seat software. Both are
written as pure functions and heap-free methods over immutable state, with
lemmas about them.

The first part is the link layer in `Sandshark_Interface.py`. It covers:

- the two bounded queues each side owns: an outgoing queue of 10 messages that
  drops its oldest entry when full (`send_command` / `send_message`), and an
  incoming queue of 50 messages that `receive_mail` drains whole, oldest first;
- the front-seat server's `select` loop, reduced to its bookkeeping of
  `inputs` and `outputs`. That means accepting, receiving data, end of stream,
  flushing the outgoing queue to a writable socket, and dropping exceptional
  sockets. Sockets are names, and what `select`, `accept` and `recv` report is
  an input;
- the back-seat client's loop: take the oldest queued message, send it, and
  queue the peer's reply when it is non-empty.

The second part is the driver in `BWSI_BackSeat.py`. It covers:

- the `hhmmss.ss` timestamp, which is `strftime('%H%M%S.%f')` with the last
  four characters cut off;
- `send_status`, and the order in which each control cycle sends and logs its
  messages: status first, then the mail, then the motion requests;
- the translation of the autonomy engine's output into `BPRMB` motion
  requests. The output is split on `;`, and each piece is split on a single
  space;
- the way a malformed piece raises `IndexError` and ends the loop;
- the host and port defaults of `main`.

The modules are:

| module | file | contents |
|---|---|---|
| `Wrappers` | `wrappers.dfy` | `Option` and `Result` |
| `Text` | `text.dfy` | decimal digits, zero padding, `str.split` and `str.join` on one character |
| `Mailbox` | `mailbox.dfy` | the drop-oldest outgoing queue, the incoming queue, draining |
| `Server` | `server.dfy` | one pass of the server loop, `send_command`, `receive_mail` |
| `Client` | `client.dfy` | `send_message`, `receive_mail`, the client loop |
| `Bluefin` | `bluefin.dfy` | the three payload messages as abstract values |
| `Timestamp` | `timestamp.dfy` | the `hhmmss.ss` stamp |
| `Directives` | `directives.dfy` | autonomy output to motion requests |
| `BackSeat` | `backseat.dfy` | the driver's cycles, its log, and `main`'s arguments |

Three behaviours of the code are easy to misread. The model follows the code
each time.

- A speed request comes from a piece whose SECOND token is `thruster`, and
  its speed is that token. So `"5 thruster"` sends speed `thruster`, and
  `"thruster 5"` sends nothing.
- `args[1]` is read before the token count is checked. So a piece with no
  space raises `IndexError`, and that ends the whole loop: `"turn"` alone,
  `"spin"`, or the empty piece after a trailing `;`. The commands of earlier
  pieces in the same output have already been sent.
- `main` defaults the port to 8042. The `BackSeat` and `SandsharkClient`
  constructors default it to 8000.

## Model

| member | source | states |
|---|---|---|
| `Mailbox.Offer` | Sandshark_Interface.py:87-91 | adding to the outgoing queue keeps at most 10 entries and ends with the new message; below capacity it appends, at capacity it drops exactly the oldest entry; the result is the newest 10 of the old queue plus the message |
| `Mailbox.OfferAllKeepsNewest` | Sandshark_Interface.py:87-91 | after any sequence of `send_command` calls the queue holds exactly the newest 10 of everything ever offered, in the order offered (11 into an empty queue leave the last 10) |
| `Mailbox.Put` | Sandshark_Interface.py:55-57 | queuing received data on a queue with room appends it at the back, keeps what was there, and stays within 50 |
| `Mailbox.Drain` | Sandshark_Interface.py:112-119 | draining returns every queued item in FIFO order and leaves the queue empty |
| `Server.Init` | Sandshark_Interface.py:36-43 | before the loop only the listening socket is read from, nothing is written to, and both queues are empty |
| `Server.Read` | Sandshark_Interface.py:48-66 | no contract; one readable socket's step is specified by `Server.AcceptFresh`, `Server.RecvData`, `Server.RecvEndOfStream` and `Server.ReadValid`; accepting or receiving on a socket no longer in `inputs` ends the loop |
| `Server.AcceptFresh` | Sandshark_Interface.py:48-53 | accepting adds one connection to `inputs`, one that was not listed before, so `inputs` stays free of duplicates |
| `Server.RecvData` | Sandshark_Interface.py:55-61 | data from an open connection is queued at the back of the incoming queue; that connection is then in `outputs` exactly once; no other socket enters or leaves either list; the outgoing queue, what was sent and the connection counter are unchanged |
| `Server.RecvEndOfStream` | Sandshark_Interface.py:62-66 | a zero-byte read removes the connection from `inputs` and `outputs` and changes nothing else: other sockets, the listening socket, both queues, what was sent and the connection counter are untouched |
| `Server.ReadAllKeepsListener` | Sandshark_Interface.py:48-66 | no sequence of read events removes the listening socket from `inputs` |
| `Server.Write` | Sandshark_Interface.py:67-76 | no contract; specified by `Server.FirstWritableTakesAll`, `Server.WriteToClosed` and `Server.WriteValid` |
| `Server.FirstWritableTakesAll` | Sandshark_Interface.py:67-76 | when the first writable socket is still open, it receives every queued message, oldest first, and empties the queue; later writable sockets in the pass get nothing; the socket lists and the incoming queue are unchanged; a closed socket ahead of it with messages queued ends the loop instead (`Server.WriteToClosed`) |
| `Server.WriteToClosed` | Sandshark_Interface.py:67-76 | writing to a socket closed earlier in the same pass takes the oldest message off the queue, sends nothing, and ends the loop through the outer handler |
| `Server.Except` | Sandshark_Interface.py:78-82 | no contract; specified by `Server.ExceptRemoves` and `Server.ExceptValid` |
| `Server.ExceptRemoves` | Sandshark_Interface.py:78-82 | an exceptional socket still in `inputs` leaves both lists and nothing else leaves `inputs`; one already removed makes `inputs.remove` raise, which ends the loop |
| `Server.ServePass` | Sandshark_Interface.py:45-84 | no contract; readable, then writable, then exceptional sockets, and the loop ends when `inputs` is empty; specified by `Server.ServePassValid` |
| `Server.ServePassValid` | Sandshark_Interface.py:40-84 | a whole pass (readable, then writable, then exceptional) keeps the bookkeeping invariant: no socket listed twice, every socket in `outputs` is in `inputs`, the listening socket never in `outputs`, connection names fresh, both queues within capacity |
| `Server.SendCommand` | Sandshark_Interface.py:87-91 | `send_command` leaves the newest 10 of the queue plus the command, and changes nothing but the outgoing queue |
| `Server.SendCommandValid` | Sandshark_Interface.py:87-91 | `send_command` keeps the bookkeeping invariant |
| `Server.ReceiveMail` | Sandshark_Interface.py:112-119 | `receive_mail` returns everything received so far, oldest first, and leaves the incoming queue empty with the rest of the state unchanged |
| `Client.Init` | Sandshark_Interface.py:144-145 | the client starts with both queues empty and nothing sent, which satisfies its capacity invariant |
| `Client.SendMessage` | Sandshark_Interface.py:172-176 | `send_message` uses the same drop-oldest policy and capacity as `send_command`, and touches only the outgoing queue |
| `Client.SendMessagesKeepsNewest` | Sandshark_Interface.py:172-176 | any number of `send_message` calls leave exactly the newest 10 messages offered, in order, and change neither the incoming queue nor what was sent |
| `Client.ReceiveMail` | Sandshark_Interface.py:179-186 | the client's `receive_mail` returns every received reply, oldest first, and empties its queue |
| `Client.Cycle` | Sandshark_Interface.py:150-165 | no contract; specified by `Client.CycleValid` and `Client.CyclesSendInOrder` |
| `Client.CyclesSendInOrder` | Sandshark_Interface.py:147-166 | as many loop iterations as there are queued messages send all of them in the order they were queued, and queue the non-empty replies in the order they arrived |
| `Client.CycleValid` | Sandshark_Interface.py:150-165 | one iteration sends exactly one message when one is queued and none otherwise, and keeps both queues within capacity |
| `Text.SplitJoinInverse` | BWSI_BackSeat.py:64-65 | joining the pieces of `split(sep)` with `sep` gives back the string, and there is one piece more than there are separators |
| `Text.SplitJoin` | BWSI_BackSeat.py:64-65 | splitting undoes joining pieces that are free of the separator |
| `Text.SplitTwo` | BWSI_BackSeat.py:65-73 | a piece splits into exactly the two tokens `a` and `b` if and only if it is `a`, one space, then `b`, with no other space |
| `Text.PadValue` | BWSI_BackSeat.py:94 | a zero-padded field of width `w` reads back as the number printed, when the number has at most `w` digits |
| `Timestamp.Hhmmss` | BWSI_BackSeat.py:94 | the stamp is nine characters; its layout and fields are specified by `Timestamp.HhmmssLayout` and `Timestamp.HhmmssFields` |
| `Timestamp.Hundredths` | BWSI_BackSeat.py:94 | the stamp's fraction is the hundredths of the second, truncated and never rounded: it is the one `h < 100` with `h*10000 <= micro < (h+1)*10000` |
| `Timestamp.HhmmssLayout` | BWSI_BackSeat.py:94 | cutting four characters off `%H%M%S.%f` leaves two-digit hour, minute and second, a point, and the two-digit hundredths |
| `Timestamp.HhmmssFields` | BWSI_BackSeat.py:94 | the stamp is nine characters with a point at index 6, and its digit fields read back as the hour, minute, second and hundredths |
| `Timestamp.HhmmssEqual` | BWSI_BackSeat.py:68 | two times print the same stamp exactly when they agree on hour, minute, second and hundredths |
| `Directives.TranslatePiece` | BWSI_BackSeat.py:65-75 | no contract; specified by `Directives.PieceCrashes`, `Directives.PieceTurn`, `Directives.PieceThrustSource`, `Directives.PieceThrust` and `Directives.PieceSkip` |
| `Directives.PieceCrashes` | BWSI_BackSeat.py:65-73 | a piece raises `IndexError` exactly when it holds no space |
| `Directives.PieceTurn` | BWSI_BackSeat.py:70-72 | a piece yields a turn request for heading `h` exactly when it is `turn`, one space, then `h` with no space; the heading is sent as written |
| `Directives.PieceThrustSource` | BWSI_BackSeat.py:73-75 | any speed request comes from `<first> thruster`, where `first` has no space and is not `turn`, and its speed is the literal `thruster` |
| `Directives.PieceThrust` | BWSI_BackSeat.py:73-75 | every such piece yields that speed request |
| `Directives.PieceSkip` | BWSI_BackSeat.py:70-75 | a piece is dropped without error exactly when it holds two or more spaces, or is `a`, one space, `b` with neither holding a space, `a` not `turn` and `b` not `thruster` |
| `Directives.Translate` | BWSI_BackSeat.py:63-75 | no contract; specified by `Directives.TranslateCrashes`, `Directives.TranslateShape` and the worked cases below |
| `Directives.CollectAppend` | BWSI_BackSeat.py:64-75 | pieces are handled in order: the commands of a prefix are sent first, and a prefix that raised stops everything after it |
| `Directives.CollectContents` | BWSI_BackSeat.py:64-75 | the loop raises exactly when some piece raises, sends at most one command per piece, and sends only commands that pieces produced |
| `Directives.TranslateCrashes` | BWSI_BackSeat.py:63-75 | translating an output raises exactly when the output is non-empty and one of its `;`-pieces holds no space |
| `Directives.TranslateShape` | BWSI_BackSeat.py:63-75 | every command sent is a `BPRMB` with a nine-character stamp that is either a turn request or a speed request whose speed is `thruster` |
| `Directives.EmptyOutput` | BWSI_BackSeat.py:63 | an empty output is not split, sends nothing and does not raise |
| `Directives.TurnOutput` | BWSI_BackSeat.py:63-72 | the output `turn h` sends one turn request for heading `h`, stamped with the time read for its piece |
| `Directives.ThrustOutput` | BWSI_BackSeat.py:63-75 | the output `<first> thruster` sends one speed request whose speed is `thruster` |
| `Directives.UnknownOutput` | BWSI_BackSeat.py:63-75 | a two-token output matching neither rule sends nothing and does not raise |
| `Directives.TurnThenEmptyPiece` | BWSI_BackSeat.py:63-79 | `turn h;` sends the turn request, then raises on the empty piece after the `;` |
| `BackSeat.Start` | BWSI_BackSeat.py:43-44 | no contract; sends and logs `BPLOG('ALL','ON')` once; specified by `BackSeat.RunOrder` |
| `BackSeat.Send` | BWSI_BackSeat.py:87-89 | no contract; logs the message as sent, then hands it to the client; specified by `BackSeat.DispatchSent` |
| `BackSeat.StatusMessage` | BWSI_BackSeat.py:91-96 | no contract; `BPSTS` with the current `hhmmss` stamp, code 1 and text `BWSI Autonomy OK` |
| `BackSeat.RunCycle` | BWSI_BackSeat.py:46-75 | no contract; specified by `BackSeat.CycleOrder` |
| `BackSeat.Run` | BWSI_BackSeat.py:43-79 | no contract; specified by `BackSeat.RunOrder` and `BackSeat.RunStops` |
| `BackSeat.RunUnroll` | BWSI_BackSeat.py:46-75 | translating each cycle's output up front runs the same loop as translating it when the cycle comes: a run is its first cycle followed by the run of the rest |
| `BackSeat.DispatchOrder` | BWSI_BackSeat.py:46-75 | within a cycle the log records the status message, then each item of mail in arrival order, then each command; exactly status and commands are handed to the client |
| `BackSeat.CycleOrder` | BWSI_BackSeat.py:46-96 | a cycle logs its `BPSTS` status first, then its mail in order, then only motion requests; it counts one cycle and ends the loop exactly when its output raises |
| `BackSeat.DispatchSent` | BWSI_BackSeat.py:87-89 | after a cycle the entries the log records as sent are exactly the messages handed to the client, in the same order |
| `BackSeat.RunOrder` | BWSI_BackSeat.py:43-75 | over any run `BPLOG('ALL','ON')` is sent first and never again; after it only status and motion messages are sent, a status first; there is one status message per cycle begun; and the log's sent entries equal what was handed to the client |
| `BackSeat.RunPlansStops` | BWSI_BackSeat.py:46-79 | the loop performs cycles up to and including the first whose translation raised, and all of them when none raised |
| `BackSeat.RunStops` | BWSI_BackSeat.py:46-79 | in terms of the cycles: the loop stops exactly at the first cycle whose output raises, and cycles after it are never begun |
| `BackSeat.ParseInt` | BWSI_BackSeat.py:110 | a parse succeeds only on non-empty text; specified by `BackSeat.ParseIntText` |
| `BackSeat.ParseIntText` | BWSI_BackSeat.py:110 | `int` reads back every integer written in decimal, negative ones included |
| `BackSeat.ParseArgs` | BWSI_BackSeat.py:103-112 | host is `argv[1]`, or `localhost` when absent; port is 8042 when `argv[2]` is absent; otherwise parsing succeeds exactly when `argv[2]` is an integer, and the port is its value |
| `BackSeat.ParseArgsPort` | BWSI_BackSeat.py:109-110 | given a host and an integer written in decimal, `main` uses exactly that host and port |

## Left out

- Sockets, `select`, `accept`, `recv` and `send` are not modelled. Their
  results are inputs: the readiness lists of a pass, the bytes each `recv`
  returned, and the peer's reply to each client send. Packet size and message
  framing are therefore not modelled.
- Threads and timing are left out. The client loop runs in its own thread
  beside the driver, and the model treats each queue operation as atomic. The
  sleeps (BWSI_BackSeat.py:57, Sandshark_Interface.py:159,167) and the warp
  factor arithmetic (BWSI_BackSeat.py:47-51) have no effect on what is sent.
- Server.Read: a data read on a full incoming queue makes `put` block until
  another thread's `receive_mail` frees a slot. The model has no threads, so
  it only takes such a step when there is room (`CanRead`). The client loop has
  the same guard (`CanCycle`).
- Server.Write: the `except` branch at Sandshark_Interface.py:71-72 cannot be
  reached, because `get` on a queue just seen non-empty returns at once. The
  `print` at line 74 is not modelled.
- The client's connect-retry loop (Sandshark_Interface.py:137-143) and its
  reconnect attempt before each send (lines 153-155) are left out. The model
  starts connected.
- The outer `except` handlers are modelled only as the end of their loop. In
  the server it is the `Failed` status, and in the driver it is the
  `terminated` flag. What happens after that is not modelled. The driver's
  handler closes the client's socket and then waits in `client.join()`
  (BWSI_BackSeat.py:78-79) for the client thread. That thread ends only when
  its own loop raises (Sandshark_Interface.py:168-169). With an empty outgoing
  queue it never touches the closed socket, so the back seat can hang at
  `join` instead of exiting. `Client.State` has no stopped state.
- Exceptions from `recv` and `send` on sockets that are still open are not
  modelled. An example is a reset by the peer. On the server such an
  exception ends the whole loop (Sandshark_Interface.py:83-84), and on the
  client it ends the client thread (lines 168-169). In the model, `recv` and
  `send` on a socket in `inputs` always succeed, and so does the client's
  send/reply step.
- Server.FirstWritableTakesAll: its `Serving` result holds only because a
  `send` on an open socket never fails in the model.
- `__listener_thread` and `__handle_data` are never called. The `main` of
  `Sandshark_Interface.py` does nothing.
- Timestamp.Hhmmss: the conversion of the epoch clock to local wall-clock
  fields (`fromtimestamp`) is not modelled. Hour, minute, second and
  microsecond are the input, one reading per status message and per piece.
- The autonomy engine (`AUVController.decide`) is not part of this model. Its
  output string is an input of each cycle.
- Bluefin: the wire text of `BPLOG`, `BPSTS` and `BPRMB` comes from the
  external `BluefinMessages` library. The model keeps only which message is
  built and with which arguments.
- The `Logger` writes a file. The model keeps the sequence of `log_event`
  calls as `Sent` and `Received` entries. The tag strings the program passes
  (`"SENT"`, `"RECIEVED"`) are not modelled.
- `process_message` only logs. NMEA parsing, datum handling, image processing
  (`Image_Processor.py`, `imageProcessing.py`) and `Logger.py` are not part of
  this model.
- BackSeat.ParseArgs / BackSeat.ParseInt: the port parser accepts only an optional sign followed by ASCII
  digits. Python's `int` also accepts surrounding whitespace, underscores
  between digits and non-ASCII decimal digits, and the model rejects those.
- The `BackSeat` and `SandsharkClient` constructor default port of 8000 is
  not modelled, because `main` always passes a port.
- A run is modelled over any finite number of cycles. The source loop has no
  exit other than an exception.
