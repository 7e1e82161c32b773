/** The two bounded queues that the link layer's server and client each own:
    an outgoing queue of at most 10 messages that drops its oldest entry when
    full, and an incoming queue of at most 50 messages that is drained whole. */
module Mailbox {

  /** `queue.Queue(maxsize=10)` for messages waiting to be sent. */
  const OutgoingCapacity: nat := 10

  /** `queue.Queue(maxsize=50)` for messages received from the peer. */
  const IncomingCapacity: nat := 50

  /** The last `n` elements of `s` (all of `s` when it is shorter). */
  function Newest<T>(s: seq<T>, n: nat): (r: seq<T>)
    ensures |r| == if |s| <= n then |s| else n
  {
    if |s| <= n then s else s[|s| - n..]
  }

  /** `send_command` / `send_message`: when the queue is full the oldest entry is
      taken out first, then the new message is put at the back. */
  function Offer<T>(q: seq<T>, x: T): (r: seq<T>)
    requires |q| <= OutgoingCapacity
    ensures |r| <= OutgoingCapacity
    ensures r == Newest(q + [x], OutgoingCapacity)
    ensures |r| > 0 && r[|r| - 1] == x
    ensures |q| < OutgoingCapacity ==> r == q + [x]
    ensures |q| == OutgoingCapacity ==> r == q[1..] + [x]
  {
    if |q| == OutgoingCapacity then q[1..] + [x] else q + [x]
  }

  /** Offering each element of `xs` in turn. */
  function OfferAll<T>(q: seq<T>, xs: seq<T>): (r: seq<T>)
    requires |q| <= OutgoingCapacity
    decreases |xs|
  {
    if xs == [] then q else OfferAll(Offer(q, xs[0]), xs[1..])
  }

  lemma NewestOfNewest<T>(a: seq<T>, b: seq<T>, n: nat)
    ensures Newest(Newest(a, n) + b, n) == Newest(a + b, n)
  {
    var l, r := Newest(Newest(a, n) + b, n), Newest(a + b, n);
    assert |l| == |r|;
    forall i | 0 <= i < |l|
      ensures l[i] == r[i]
    {
    }
  }

  /** Whatever a queue held and however many messages are offered, what remains
      is exactly the newest 10 of the whole stream, in their original order:
      enqueueing 11 messages into an empty queue leaves the last 10. */
  lemma {:induction false} OfferAllKeepsNewest<T>(q: seq<T>, xs: seq<T>)
    requires |q| <= OutgoingCapacity
    ensures OfferAll(q, xs) == Newest(q + xs, OutgoingCapacity)
    decreases |xs|
  {
    if xs == [] {
      assert q + xs == q;
    } else {
      var a := q + [xs[0]];
      var q' := Offer(q, xs[0]);
      calc {
        OfferAll(q, xs);
        OfferAll(q', xs[1..]);
        { OfferAllKeepsNewest(q', xs[1..]); }
        Newest(q' + xs[1..], OutgoingCapacity);
        Newest(Newest(a, OutgoingCapacity) + xs[1..], OutgoingCapacity);
        { NewestOfNewest(a, xs[1..], OutgoingCapacity); }
        Newest(a + xs[1..], OutgoingCapacity);
        { assert a + xs[1..] == q + xs; }
        Newest(q + xs, OutgoingCapacity);
      }
    }
  }

  /** `put` on the incoming queue (which would block when full, so the model
      only takes it when there is room). */
  function Put<T>(q: seq<T>, x: T): (r: seq<T>)
    requires |q| < IncomingCapacity
    ensures |r| <= IncomingCapacity
    ensures |r| == |q| + 1 && r[..|q|] == q && r[|q|] == x
  {
    q + [x]
  }

  /** `receive_mail`: take items off the front of the queue until it is empty,
      appending each to the result. */
  method Drain<T>(q: seq<T>) returns (mail: seq<T>, rest: seq<T>)
    ensures mail == q
    ensures rest == []
  {
    mail, rest := [], q;
    while rest != []
      invariant mail + rest == q
      decreases |rest|
    {
      mail := mail + [rest[0]];
      rest := rest[1..];
    }
    assert mail + [] == mail;
  }
}
