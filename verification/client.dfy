/** The back-seat client's queues and one iteration of its sending loop. The
    connection itself (connect retries, reconnect attempts, blocking) is not
    modelled; what the peer answers is an input. */
module Client {
  import opened Mailbox

  datatype State = State(outgoing: seq<string>, incoming: seq<string>, wire: seq<string>)

  /** Connected, with both queues empty. */
  function Init(): (st: State)
    ensures st.outgoing == [] && st.incoming == [] && st.wire == []
    ensures Valid(st)
  {
    State([], [], [])
  }

  ghost predicate Valid(st: State) {
    |st.outgoing| <= OutgoingCapacity && |st.incoming| <= IncomingCapacity
  }

  /** `send_message`: the same drop-oldest policy and capacity as the server's
      `send_command`. */
  function SendMessage(st: State, cmd: string): (r: State)
    requires |st.outgoing| <= OutgoingCapacity
    ensures |r.outgoing| <= OutgoingCapacity
    ensures r.outgoing == Newest(st.outgoing + [cmd], OutgoingCapacity)
    ensures r == st.(outgoing := r.outgoing)
  {
    st.(outgoing := Offer(st.outgoing, cmd))
  }

  /** `send_message` for each element of `cmds` in turn, with nothing taken off
      the queue in between. */
  function SendMessages(st: State, cmds: seq<string>): State
    requires |st.outgoing| <= OutgoingCapacity
    decreases |cmds|
  {
    if cmds == [] then st else SendMessages(SendMessage(st, cmds[0]), cmds[1..])
  }

  /** The queue keeps the newest ten of everything offered, in order. */
  lemma {:induction false} SendMessagesKeepsNewest(st: State, cmds: seq<string>)
    requires |st.outgoing| <= OutgoingCapacity
    ensures SendMessages(st, cmds).outgoing == Newest(st.outgoing + cmds, OutgoingCapacity)
    ensures SendMessages(st, cmds).incoming == st.incoming
    ensures SendMessages(st, cmds).wire == st.wire
    decreases |cmds|
  {
    if cmds == [] {
      assert st.outgoing + cmds == st.outgoing;
    } else {
      SendMessagesKeepsNewest(SendMessage(st, cmds[0]), cmds[1..]);
      OfferAllKeepsNewest(st.outgoing, cmds);
      assert OfferAll(st.outgoing, cmds) == OfferAll(Offer(st.outgoing, cmds[0]), cmds[1..]);
      OfferAllKeepsNewest(Offer(st.outgoing, cmds[0]), cmds[1..]);
    }
  }

  /** `receive_mail`: everything received so far, oldest first, leaving the
      incoming queue empty. */
  method ReceiveMail(st: State) returns (mail: seq<string>, st': State)
    ensures mail == st.incoming
    ensures st' == st.(incoming := [])
  {
    var rest;
    mail, rest := Drain(st.incoming);
    st' := st.(incoming := rest);
  }

  /** A non-empty reply is put on the incoming queue, which would block when
      full; the model takes the step only when there is room. */
  predicate CanCycle(st: State, reply: string) {
    st.outgoing != [] && reply != "" ==> |st.incoming| < IncomingCapacity
  }

  /** One iteration of the client loop: when a message is waiting, take the
      oldest, send it, then read the peer's reply and queue it if non-empty. */
  function Cycle(st: State, reply: string): State
    requires CanCycle(st, reply)
  {
    if st.outgoing == [] then st
    else
      st.(outgoing := st.outgoing[1..],
          wire := st.wire + [st.outgoing[0]],
          incoming := if reply != "" then Put(st.incoming, reply) else st.incoming)
  }

  predicate CanCycles(st: State, replies: seq<string>)
    decreases |replies|
  {
    replies == [] || (CanCycle(st, replies[0]) && CanCycles(Cycle(st, replies[0]), replies[1..]))
  }

  function Cycles(st: State, replies: seq<string>): State
    requires CanCycles(st, replies)
    decreases |replies|
  {
    if replies == [] then st else Cycles(Cycle(st, replies[0]), replies[1..])
  }

  /** What a reply contributes to the incoming queue. */
  function Kept(reply: string): seq<string> {
    if reply != "" then [reply] else []
  }

  /** The non-empty elements of `s`, in order. */
  function NonEmpty(s: seq<string>): (r: seq<string>)
    ensures |r| <= |s|
    ensures forall i :: 0 <= i < |r| ==> r[i] != ""
  {
    if s == [] then [] else Kept(s[0]) + NonEmpty(s[1..])
  }

  /** One iteration with a message waiting moves that message onto the wire
      and queues a non-empty reply. */
  lemma CycleStep(st: State, reply: string)
    requires CanCycle(st, reply) && st.outgoing != []
    ensures Cycle(st, reply).outgoing == st.outgoing[1..]
    ensures Cycle(st, reply).wire == st.wire + [st.outgoing[0]]
    ensures Cycle(st, reply).incoming == st.incoming + Kept(reply)
  {
    if reply == "" {
      assert st.incoming + [] == st.incoming;
    }
  }

  /** Unrolling the loop once. */
  lemma CyclesUnroll(st: State, replies: seq<string>)
    requires CanCycles(st, replies) && replies != []
    ensures CanCycle(st, replies[0]) && CanCycles(Cycle(st, replies[0]), replies[1..])
    ensures Cycles(st, replies) == Cycles(Cycle(st, replies[0]), replies[1..])
  {
  }

  /** The loop sends the queued messages in the order they were queued. */
  lemma {:induction false} CyclesDrain(st: State, replies: seq<string>)
    requires CanCycles(st, replies)
    requires |replies| == |st.outgoing|
    ensures Cycles(st, replies).outgoing == []
    ensures Cycles(st, replies).wire == st.wire + st.outgoing
    decreases |replies|
  {
    if replies != [] {
      CyclesUnroll(st, replies);
      CycleStep(st, replies[0]);
      CyclesDrain(Cycle(st, replies[0]), replies[1..]);
      assert st.wire + [st.outgoing[0]] + st.outgoing[1..] == st.wire + st.outgoing;
    }
  }

  /** The loop queues the non-empty replies in the order they arrived. */
  lemma {:induction false} CyclesQueueReplies(st: State, replies: seq<string>)
    requires CanCycles(st, replies)
    requires |replies| == |st.outgoing|
    ensures Cycles(st, replies).incoming == st.incoming + NonEmpty(replies)
    decreases |replies|
  {
    if replies != [] {
      CyclesUnroll(st, replies);
      CycleStep(st, replies[0]);
      CyclesQueueReplies(Cycle(st, replies[0]), replies[1..]);
      var h := Kept(replies[0]);
      assert NonEmpty(replies) == h + NonEmpty(replies[1..]);
      assert st.incoming + h + NonEmpty(replies[1..]) == st.incoming + (h + NonEmpty(replies[1..]));
    }
  }

  /** As many loop iterations as there are queued messages send them all, in
      the order they were queued, and queue the non-empty replies in the order
      they arrived. */
  lemma CyclesSendInOrder(st: State, replies: seq<string>)
    requires CanCycles(st, replies)
    requires |replies| == |st.outgoing|
    ensures var r := Cycles(st, replies);
      && r.outgoing == []
      && r.wire == st.wire + st.outgoing
      && r.incoming == st.incoming + NonEmpty(replies)
  {
    CyclesDrain(st, replies);
    CyclesQueueReplies(st, replies);
  }

  lemma CycleValid(st: State, reply: string)
    requires Valid(st) && CanCycle(st, reply)
    ensures Valid(Cycle(st, reply))
    ensures |Cycle(st, reply).wire| == |st.wire| + (if st.outgoing == [] then 0 else 1)
  {
  }
}
