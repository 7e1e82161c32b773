/** The front-seat server's connection bookkeeping: one pass of its `select`
    loop over abstract readiness events, and the two calls its owner makes on
    it (`send_command`, `receive_mail`). Sockets are names; what the
    operating system reports is the input. */
module Server {
  import opened Mailbox

  /** The listening socket, or the `id`-th connection it accepted. */
  datatype Sock = Listener | Conn(id: nat)

  /** One `send` of a queued message on a socket. */
  datatype Delivery = Delivery(to: Sock, msg: string)

  /** `Serving` while the loop runs; `Exited` when `inputs` became empty;
      `Failed` when an exception reached the outer handler (which closes the
      listening socket and ends the loop). */
  datatype Status = Serving | Exited | Failed

  datatype State = State(
    inputs: seq<Sock>,
    outputs: seq<Sock>,
    incoming: seq<string>,
    outgoing: seq<string>,
    wire: seq<Delivery>,
    nextId: nat,
    status: Status)

  /** What a socket reported as readable yields: the listening socket accepts a
      new connection; a connection returns the bytes `recv` read (empty at end
      of stream). */
  datatype ReadEvent = Accept | Recv(conn: nat, data: string)

  /** The three lists `select` returns for one pass. */
  datatype Ready = Ready(readable: seq<ReadEvent>, writable: seq<Sock>, exceptional: seq<Sock>)

  predicate NoDups(s: seq<Sock>) {
    forall i, j :: 0 <= i < j < |s| ==> s[i] != s[j]
  }

  /** `list.remove(x)`: drop the first occurrence of `x`. */
  function Remove(s: seq<Sock>, x: Sock): (r: seq<Sock>)
    ensures forall y :: y != x ==> (y in r <==> y in s)
    ensures NoDups(s) ==> NoDups(r) && x !in r
    ensures |r| == if x in s then |s| - 1 else |s|
  {
    if s == [] then []
    else if s[0] == x then s[1..]
    else
      var rest := Remove(s[1..], x);
      assert s == [s[0]] + s[1..];
      assert NoDups(s) ==> s[0] !in s[1..] && NoDups(s[1..]);
      assert NoDups(s) ==> s[0] !in rest;
      [s[0]] + rest
  }

  /** The bookkeeping invariant of the loop: no socket is listed twice, every
      socket waiting to be written to is also read from, the listening socket
      is never written to, connection names are fresh, and both queues are
      within capacity. */
  ghost predicate Valid(st: State) {
    && NoDups(st.inputs)
    && NoDups(st.outputs)
    && (forall s :: s in st.outputs ==> s in st.inputs)
    && Listener !in st.outputs
    && (forall s :: s in st.inputs && s.Conn? ==> s.id < st.nextId)
    && |st.incoming| <= IncomingCapacity
    && |st.outgoing| <= OutgoingCapacity
  }

  /** Just after `listen`: only the listening socket is read from. */
  function Init(): (st: State)
    ensures Valid(st)
    ensures st.inputs == [Listener] && st.outputs == []
    ensures st.incoming == [] && st.outgoing == [] && st.status == Serving
  {
    State([Listener], [], [], [], [], 0, Serving)
  }

  /** `put` on a full incoming queue would block this loop, so a read event
      carrying data is only taken while there is room. */
  predicate CanRead(st: State, e: ReadEvent) {
    e.Recv? && e.data != "" && Conn(e.conn) in st.inputs ==> |st.incoming| < IncomingCapacity
  }

  /** The body of `for s in readable`. A socket no longer in `inputs` has been
      closed, and accepting or receiving on it raises. */
  function Read(st: State, e: ReadEvent): State
    requires st.status == Serving
    requires CanRead(st, e)
  {
    match e
    case Accept =>
      if Listener in st.inputs then
        st.(inputs := st.inputs + [Conn(st.nextId)], nextId := st.nextId + 1)
      else
        st.(status := Failed)
    case Recv(c, data) =>
      var s := Conn(c);
      if s !in st.inputs then
        st.(status := Failed)
      else if data != "" then
        st.(incoming := Put(st.incoming, data),
            outputs := if s in st.outputs then st.outputs else st.outputs + [s])
      else
        st.(outputs := if s in st.outputs then Remove(st.outputs, s) else st.outputs,
            inputs := Remove(st.inputs, s))
  }

  /** No `put` in the readable list blocks. */
  predicate CanReadAll(st: State, es: seq<ReadEvent>)
    decreases |es|
  {
    es == [] || st.status != Serving ||
    (CanRead(st, es[0]) && CanReadAll(Read(st, es[0]), es[1..]))
  }

  function ReadAll(st: State, es: seq<ReadEvent>): State
    requires CanReadAll(st, es)
    decreases |es|
  {
    if es == [] || st.status != Serving then st
    else ReadAll(Read(st, es[0]), es[1..])
  }

  /** The inner `while not outgoing.empty()` loop: send every queued message on
      `s`, oldest first. */
  function Flush(wire: seq<Delivery>, s: Sock, q: seq<string>): (r: seq<Delivery>)
    ensures |r| == |wire| + |q|
    ensures r[..|wire|] == wire
    ensures forall i :: 0 <= i < |q| ==> r[|wire| + i] == Delivery(s, q[i])
    decreases |q|
  {
    if q == [] then wire
    else
      Flush(wire + [Delivery(s, q[0])], s, q[1..])
  }

  /** The body of `for s in writeable`. A socket closed earlier in this pass has
      its first message taken off the queue, then `send` raises. */
  function Write(st: State, s: Sock): State
    requires st.status == Serving
  {
    if st.outgoing == [] then st
    else if s !in st.inputs then st.(outgoing := st.outgoing[1..], status := Failed)
    else st.(wire := Flush(st.wire, s, st.outgoing), outgoing := [])
  }

  function WriteAll(st: State, ws: seq<Sock>): State
    decreases |ws|
  {
    if ws == [] || st.status != Serving then st
    else WriteAll(Write(st, ws[0]), ws[1..])
  }

  /** The body of `for s in exceptional`: `inputs.remove(s)` raises when `s`
      was already removed in this pass. */
  function Except(st: State, s: Sock): State
    requires st.status == Serving
  {
    if s !in st.inputs then st.(status := Failed)
    else
      st.(inputs := Remove(st.inputs, s),
          outputs := if s in st.outputs then Remove(st.outputs, s) else st.outputs)
  }

  function ExceptAll(st: State, xs: seq<Sock>): State
    decreases |xs|
  {
    if xs == [] || st.status != Serving then st
    else ExceptAll(Except(st, xs[0]), xs[1..])
  }

  /** One iteration of `while inputs`: readable, then writable, then
      exceptional sockets; the loop ends when no socket is left to read. */
  function ServePass(st: State, p: Ready): State
    requires st.status == Serving
    requires CanReadAll(st, p.readable)
  {
    var st' := ExceptAll(WriteAll(ReadAll(st, p.readable), p.writable), p.exceptional);
    if st'.status == Serving && st'.inputs == [] then st'.(status := Exited) else st'
  }

  /** `send_command`: drop-oldest enqueue on the shared outgoing queue. */
  function SendCommand(st: State, cmd: string): (r: State)
    requires |st.outgoing| <= OutgoingCapacity
    ensures |r.outgoing| <= OutgoingCapacity
    ensures r.outgoing == Newest(st.outgoing + [cmd], OutgoingCapacity)
    ensures r == st.(outgoing := r.outgoing)
  {
    st.(outgoing := Offer(st.outgoing, cmd))
  }

  /** `receive_mail`: everything received so far, oldest first, leaving the
      incoming queue empty (so a second call with nothing new returns `[]`). */
  method ReceiveMail(st: State) returns (mail: seq<string>, st': State)
    ensures mail == st.incoming
    ensures st' == st.(incoming := [])
  {
    var rest;
    mail, rest := Drain(st.incoming);
    st' := st.(incoming := rest);
  }

  // ---------------------------------------------------------------------------
  // Properties of the read phase

  /** Data on an open connection is queued and the connection becomes eligible
      for writing, listed once however often it sends. */
  lemma RecvData(st: State, c: nat, data: string)
    requires Valid(st) && st.status == Serving
    requires Conn(c) in st.inputs && data != ""
    requires |st.incoming| < IncomingCapacity
    ensures var r := Read(st, Recv(c, data));
      && r.status == Serving
      && r.incoming == st.incoming + [data]
      && r.inputs == st.inputs
      && Conn(c) in r.outputs
      && NoDups(r.outputs)
      && |r.outputs| == (if Conn(c) in st.outputs then |st.outputs| else |st.outputs| + 1)
      && (forall s :: s != Conn(c) ==> (s in r.outputs <==> s in st.outputs))
      && r == st.(incoming := st.incoming + [data], outputs := r.outputs)
  {
  }

  /** A zero-byte read closes the connection: it leaves both lists, and nothing
      else is added or removed; in particular the listening socket stays. */
  lemma RecvEndOfStream(st: State, c: nat)
    requires Valid(st) && st.status == Serving
    requires Conn(c) in st.inputs
    ensures var r := Read(st, Recv(c, ""));
      && r.status == Serving
      && Conn(c) !in r.inputs && Conn(c) !in r.outputs
      && (forall s :: s != Conn(c) ==> (s in r.inputs <==> s in st.inputs))
      && (forall s :: s != Conn(c) ==> (s in r.outputs <==> s in st.outputs))
      && (Listener in r.inputs <==> Listener in st.inputs)
      && r.incoming == st.incoming && r.outgoing == st.outgoing
      && r == st.(inputs := r.inputs, outputs := r.outputs)
  {
  }

  /** An accepted connection is new: it was not already read from. */
  lemma AcceptFresh(st: State)
    requires Valid(st) && st.status == Serving && Listener in st.inputs
    ensures var r := Read(st, Accept);
      && r.status == Serving
      && r.inputs == st.inputs + [Conn(st.nextId)]
      && Conn(st.nextId) !in st.inputs
      && NoDups(r.inputs)
      && r.outputs == st.outputs
      && r.incoming == st.incoming && r.outgoing == st.outgoing && r.wire == st.wire
  {
  }

  lemma ReadValid(st: State, e: ReadEvent)
    requires Valid(st) && st.status == Serving && CanRead(st, e)
    ensures Valid(Read(st, e))
  {
    var r := Read(st, e);
    match e
    case Accept =>
      if Listener in st.inputs {
        assert Conn(st.nextId) !in st.inputs;
        assert forall s :: s in r.inputs ==> s in st.inputs || s == Conn(st.nextId);
      }
    case Recv(c, data) =>
  }

  lemma {:induction false} ReadAllValid(st: State, es: seq<ReadEvent>)
    requires Valid(st) && CanReadAll(st, es)
    ensures Valid(ReadAll(st, es))
    decreases |es|
  {
    if es != [] && st.status == Serving {
      ReadValid(st, es[0]);
      ReadAllValid(Read(st, es[0]), es[1..]);
    }
  }

  /** Read events never remove the listening socket. */
  lemma {:induction false} ReadAllKeepsListener(st: State, es: seq<ReadEvent>)
    requires Valid(st) && CanReadAll(st, es)
    requires Listener in st.inputs
    ensures Listener in ReadAll(st, es).inputs
    decreases |es|
  {
    if es != [] && st.status == Serving {
      ReadValid(st, es[0]);
      ReadAllKeepsListener(Read(st, es[0]), es[1..]);
    }
  }

  // ---------------------------------------------------------------------------
  // Properties of the write phase

  lemma {:induction false} WriteAllIdle(st: State, ws: seq<Sock>)
    requires st.outgoing == []
    ensures WriteAll(st, ws) == st
    decreases |ws|
  {
    if ws != [] && st.status == Serving {
      WriteAllIdle(Write(st, ws[0]), ws[1..]);
    }
  }

  /** When the first writable socket is still open, it receives every queued
      message in FIFO order and empties the queue; later writable sockets in
      the same pass receive nothing. A closed socket ahead of it with messages
      queued ends the loop instead (`WriteToClosed`). */
  lemma FirstWritableTakesAll(st: State, ws: seq<Sock>)
    requires st.status == Serving
    requires ws != [] && ws[0] in st.inputs
    ensures var r := WriteAll(st, ws);
      && r.status == Serving
      && r.outgoing == []
      && |r.wire| == |st.wire| + |st.outgoing|
      && r.wire[..|st.wire|] == st.wire
      && (forall i :: 0 <= i < |st.outgoing| ==> r.wire[|st.wire| + i] == Delivery(ws[0], st.outgoing[i]))
      && r.inputs == st.inputs && r.outputs == st.outputs && r.incoming == st.incoming
  {
    WriteAllIdle(Write(st, ws[0]), ws[1..]);
  }

  /** Writing to a socket closed earlier in the pass loses the oldest queued
      message and ends the loop. */
  lemma WriteToClosed(st: State, s: Sock)
    requires st.status == Serving && st.outgoing != [] && s !in st.inputs
    ensures Write(st, s).status == Failed
    ensures Write(st, s).outgoing == st.outgoing[1..]
    ensures Write(st, s).wire == st.wire
  {
  }

  lemma WriteValid(st: State, s: Sock)
    requires Valid(st) && st.status == Serving
    ensures Valid(Write(st, s))
  {
  }

  lemma {:induction false} WriteAllValid(st: State, ws: seq<Sock>)
    requires Valid(st)
    ensures Valid(WriteAll(st, ws))
    decreases |ws|
  {
    if ws != [] && st.status == Serving {
      WriteValid(st, ws[0]);
      WriteAllValid(Write(st, ws[0]), ws[1..]);
    }
  }

  // ---------------------------------------------------------------------------
  // Properties of the exceptional phase and of a whole pass

  /** An exceptional socket leaves both lists; one already closed in this pass
      makes `inputs.remove` raise. */
  lemma ExceptRemoves(st: State, s: Sock)
    requires Valid(st) && st.status == Serving
    ensures var r := Except(st, s);
      && (s in st.inputs <==> r.status == Serving)
      && (r.status == Serving ==> s !in r.inputs && s !in r.outputs)
      && (r.status == Serving ==> forall x :: x != s ==> (x in r.inputs <==> x in st.inputs))
      && (r.status == Serving ==> forall x :: x != s ==> (x in r.outputs <==> x in st.outputs))
      && r.incoming == st.incoming && r.outgoing == st.outgoing && r.wire == st.wire
      && r.nextId == st.nextId
      && (r.status != Serving ==> r == st.(status := Failed))
  {
  }

  lemma ExceptValid(st: State, s: Sock)
    requires Valid(st) && st.status == Serving
    ensures Valid(Except(st, s))
  {
  }

  lemma {:induction false} ExceptAllValid(st: State, xs: seq<Sock>)
    requires Valid(st)
    ensures Valid(ExceptAll(st, xs))
    decreases |xs|
  {
    if xs != [] && st.status == Serving {
      ExceptValid(st, xs[0]);
      ExceptAllValid(Except(st, xs[0]), xs[1..]);
    }
  }

  /** A whole pass keeps the bookkeeping invariant: no duplicate sockets,
      writers are readers, the listener is never a writer, both queues bounded. */
  lemma ServePassValid(st: State, p: Ready)
    requires Valid(st) && st.status == Serving && CanReadAll(st, p.readable)
    ensures Valid(ServePass(st, p))
  {
    ReadAllValid(st, p.readable);
    WriteAllValid(ReadAll(st, p.readable), p.writable);
    ExceptAllValid(WriteAll(ReadAll(st, p.readable), p.writable), p.exceptional);
  }

  /** `send_command` keeps the invariant and touches nothing but the queue. */
  lemma SendCommandValid(st: State, cmd: string)
    requires Valid(st)
    ensures Valid(SendCommand(st, cmd))
  {
  }
}
