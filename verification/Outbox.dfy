/**
 The leased outbox of one table: events are enqueued, claimed under a 30-second lease and
 acknowledged. Each operation is one atomic load, change and save; the clock is whatever
 the host reads, and may step back.
 */
module Outbox {
  import opened Wrappers

  const CLAIM_LEASE_MS: nat := 30_000

  datatype Event = Event(id: string, contentType: string, body: seq<bv8>, claimedAtMs: Option<nat>)

  datatype Delivery = Delivery(id: string, contentType: string, body: seq<bv8>)

  function Payload(e: Event): Delivery {
    Delivery(e.id, e.contentType, e.body)
  }

  function SaturatingSub(a: nat, b: nat): nat {
    if a >= b then a - b else 0
  }

  predicate Available(e: Event, now: nat) {
    e.claimedAtMs.Some? ==> SaturatingSub(now, e.claimedAtMs.value) >= CLAIM_LEASE_MS
  }

  function Stamp(e: Event, now: nat): Event {
    e.(claimedAtMs := Some(now))
  }

  /** The claim, decided event by event in table order. */
  function Claimed(events: seq<Event>, now: nat, max: nat): seq<Event>
    decreases events
  {
    if events == [] || max == 0 then events
    else if Available(events[0], now) then [Stamp(events[0], now)] + Claimed(events[1..], now, max - 1)
    else [events[0]] + Claimed(events[1..], now, max)
  }

  function AvailableEvents(events: seq<Event>, now: nat): seq<Event> {
    if events == [] then []
    else (if Available(events[0], now) then [events[0]] else []) + AvailableEvents(events[1..], now)
  }

  function Take<T>(s: seq<T>, n: nat): seq<T> {
    if n <= |s| then s[..n] else s
  }

  function Payloads(events: seq<Event>): seq<Delivery> {
    seq(|events|, i requires 0 <= i < |events| => Payload(events[i]))
  }

  /** The deliveries of a claim: the first `max` available events, in table order. */
  function Deliveries(events: seq<Event>, now: nat, max: nat): seq<Delivery> {
    Payloads(Take(AvailableEvents(events, now), max))
  }

  function Without(events: seq<Event>, id: string): seq<Event> {
    if events == [] then []
    else (if events[0].id != id then [events[0]] else []) + Without(events[1..], id)
  }

  // ---- What a claim does ---------------------------------------------------------------------

  /** Never claimed, or claimed at least thirty seconds ago. */
  predicate Due(e: Event, now: nat) {
    e.claimedAtMs.None? || now >= e.claimedAtMs.value + 30_000
  }

  /** How many of the first `i` events are due. */
  function DueBefore(events: seq<Event>, now: nat, i: nat): nat
    requires i <= |events|
  {
    if i == 0 then 0 else DueBefore(events, now, i - 1) + if Due(events[i - 1], now) then 1 else 0
  }

  /** Event `i` is due and among the first `max` that are. */
  predicate Served(events: seq<Event>, now: nat, max: nat, i: nat)
    requires i < |events|
  {
    Due(events[i], now) && DueBefore(events, now, i) < max
  }

  /** A claim stamps exactly the first `max` due events, changes nothing else, and delivers exactly
      their payloads, each in its turn. */
  ghost predicate ClaimsFirstDue(events: seq<Event>, now: nat, max: nat, after: seq<Event>, claimed: seq<Delivery>) {
    && |after| == |events|
    && |claimed| == (if DueBefore(events, now, |events|) <= max then DueBefore(events, now, |events|) else max)
    && (forall i: nat :: i < |events| ==> ClaimedAt(events, now, max, after, claimed, i))
  }

  ghost predicate ClaimedAt(events: seq<Event>, now: nat, max: nat, after: seq<Event>, claimed: seq<Delivery>, i: nat)
    requires i < |events|
  {
    var e := events[i];
    && i < |after|
    && after[i] == (if Served(events, now, max, i) then Event(e.id, e.contentType, e.body, Some(now)) else e)
    && (Served(events, now, max, i) ==> DeliveredAs(claimed, DueBefore(events, now, i), e))
  }

  predicate DeliveredAs(claimed: seq<Delivery>, k: nat, e: Event) {
    k < |claimed| && claimed[k] == Delivery(e.id, e.contentType, e.body)
  }

  lemma ClaimIsExact(events: seq<Event>, now: nat, max: nat)
    ensures ClaimsFirstDue(events, now, max, Claimed(events, now, max), Deliveries(events, now, max))
  {
    ClaimSize(events, now, max, |events|);
    forall i: nat | i < |events|
      ensures ClaimedAt(events, now, max, Claimed(events, now, max), Deliveries(events, now, max), i)
    {
      ClaimAt(events, now, max, i);
    }
  }

  lemma {:induction false} ClaimAt(events: seq<Event>, now: nat, max: nat, i: nat)
    requires i < |events|
    ensures ClaimedAt(events, now, max, Claimed(events, now, max), Deliveries(events, now, max), i)
    decreases events
  {
    if max == 0 {
      ClaimedEvents(events, now, max);
      return;
    }
    var rest, first := events[1..], Due(events[0], now);
    var left := if first then max - 1 else max;
    if first {
      ClaimFirst(events, now, max);
    } else {
      SkipFirst(events, now, max);
    }
    if i > 0 {
      var k := i - 1;
      ClaimAt(rest, now, left, k);
      DueShift(events, rest, now, k, i);
      ClaimedLater(events, rest, now, max, Claimed(rest, now, left), Deliveries(rest, now, left), k, i);
    }
  }

  /** What holds of an event among the rest holds of it in the whole table. */
  lemma ClaimedLater(events: seq<Event>, rest: seq<Event>, now: nat, max: nat, after: seq<Event>,
                     claimed: seq<Delivery>, k: nat, i: nat)
    requires events != [] && rest == events[1..] && k < |rest| && i == k + 1 && max > 0
    requires DueBefore(events, now, i) == (if Due(events[0], now) then 1 else 0) + DueBefore(rest, now, k)
    requires ClaimedAt(rest, now, if Due(events[0], now) then max - 1 else max, after, claimed, k)
    ensures forall x :: ClaimedAt(events, now, max, [x] + after,
                                  (if Due(events[0], now) then [Payload(events[0])] else []) + claimed, i)
  {
  }

  lemma {:induction false} ClaimSize(events: seq<Event>, now: nat, max: nat, n: nat)
    requires n == |events|
    ensures |Claimed(events, now, max)| == n
    ensures |Deliveries(events, now, max)| ==
      if DueBefore(events, now, n) <= max then DueBefore(events, now, n) else max
    decreases events
  {
    ClaimedEvents(events, now, max);
    if events == [] || max == 0 {
      NothingToDeliver(events, now, max);
      return;
    }
    var rest, m := events[1..], n - 1;
    DueShift(events, rest, now, m, n);
    if Due(events[0], now) {
      ClaimFirst(events, now, max);
      ClaimSize(rest, now, max - 1, m);
    } else {
      SkipFirst(events, now, max);
      ClaimSize(rest, now, max, m);
    }
  }

  lemma {:induction false} DueShift(events: seq<Event>, rest: seq<Event>, now: nat, k: nat, i: nat)
    requires events != [] && rest == events[1..] && k <= |rest| && i == k + 1
    ensures DueBefore(events, now, i) == (if Due(events[0], now) then 1 else 0) + DueBefore(rest, now, k)
  {
    if k > 0 {
      DueShift(events, rest, now, k - 1, k);
    }
  }

  /** Fewer events are due before `i` than there are. */
  lemma {:induction false} DueBeforeBound(events: seq<Event>, now: nat, i: nat)
    requires i <= |events|
    ensures DueBefore(events, now, i) <= i
  {
    if i > 0 {
      DueBeforeBound(events, now, i - 1);
    }
  }

  /** A due event near enough to the head of the table is delivered, and whatever is delivered is
      the payload of a due event. */
  lemma DueIsDelivered(events: seq<Event>, now: nat, max: nat, i: nat)
    requires i < |events|
    ensures i < max && Due(events[i], now) ==> Payload(events[i]) in Deliveries(events, now, max)
    ensures forall d <- Deliveries(events, now, max) ::
      exists k :: 0 <= k < |events| && Due(events[k], now) && Payload(events[k]) == d
  {
    ClaimIsExact(events, now, max);
    DueBeforeBound(events, now, i);
    if i < max && Due(events[i], now) {
      assert ClaimedAt(events, now, max, Claimed(events, now, max), Deliveries(events, now, max), i);
    }
    forall d | d in Deliveries(events, now, max)
      ensures exists k :: 0 <= k < |events| && Due(events[k], now) && Payload(events[k]) == d
    {
      var k := DeliveryOf(events, now, max, d);
    }
  }

  /** Progress of the claiming loop: `head` is what it has made of the first `i` events. */
  ghost predicate Claiming(before: seq<Event>, i: nat, head: seq<Event>, claimed: seq<Delivery>, now: nat, max: nat) {
    && i == |head| <= |before| && |claimed| <= max
    && Claimed(before, now, max) == head + Claimed(before[i..], now, max - |claimed|)
    && Deliveries(before, now, max) == claimed + Deliveries(before[i..], now, max - |claimed|)
  }

  lemma Regroup<T>(all: seq<T>, head: seq<T>, rest: seq<T>, x: T, tail: seq<T>)
    requires all == head + rest && rest == [x] + tail
    ensures all == head + [x] + tail
  {
  }

  /** The next event is available: it is stamped and delivered. */
  lemma ClaimingTake(before: seq<Event>, i: nat, head: seq<Event>, claimed: seq<Delivery>, now: nat, max: nat)
    requires i < |before| && Claiming(before, i, head, claimed, now, max) && |claimed| < max
    requires Available(before[i], now)
    ensures Claiming(before, i + 1, head + [Stamp(before[i], now)], claimed + [Payload(before[i])], now, max)
  {
    var rest, tail, left := before[i..], before[i + 1..], max - |claimed|;
    assert rest[0] == before[i] && rest[1..] == tail;
    ClaimFirst(rest, now, left);
    Regroup(Claimed(before, now, max), head, Claimed(rest, now, left), Stamp(before[i], now),
            Claimed(tail, now, left - 1));
    Regroup(Deliveries(before, now, max), claimed, Deliveries(rest, now, left), Payload(before[i]),
            Deliveries(tail, now, left - 1));
  }

  /** The next event is leased: it is left as it is. */
  lemma ClaimingSkip(before: seq<Event>, i: nat, head: seq<Event>, claimed: seq<Delivery>, now: nat, max: nat)
    requires i < |before| && Claiming(before, i, head, claimed, now, max) && |claimed| < max
    requires !Available(before[i], now)
    ensures Claiming(before, i + 1, head + [before[i]], claimed, now, max)
  {
    var rest, tail, left := before[i..], before[i + 1..], max - |claimed|;
    assert rest[0] == before[i] && rest[1..] == tail;
    SkipFirst(rest, now, left);
    Regroup(Claimed(before, now, max), head, Claimed(rest, now, left), before[i], Claimed(tail, now, left));
  }

  lemma LoopSplit(events: seq<Event>, before: seq<Event>, head: seq<Event>, i: nat, now: nat)
    requires i == |head| < |before| && events == head + before[i..]
    ensures events[i] == before[i] && events == head + [before[i]] + before[i + 1..]
    ensures events[i := Stamp(before[i], now)] == head + [Stamp(before[i], now)] + before[i + 1..]
  {
    assert before[i..] == [before[i]] + before[i + 1..];
  }

  /** An available event at the head of the table is delivered. */
  lemma ClaimFirst(events: seq<Event>, now: nat, max: nat)
    requires events != [] && max > 0 && Available(events[0], now)
    ensures Claimed(events, now, max) == [Stamp(events[0], now)] + Claimed(events[1..], now, max - 1)
    ensures Deliveries(events, now, max) == [Payload(events[0])] + Deliveries(events[1..], now, max - 1)
  {
    PayloadsOfFirst(events[0], AvailableEvents(events[1..], now), max);
  }

  lemma PayloadsOfFirst(first: Event, rest: seq<Event>, max: nat)
    requires max > 0
    ensures Payloads(Take([first] + rest, max)) == [Payload(first)] + Payloads(Take(rest, max - 1))
  {
    assert Take([first] + rest, max) == [first] + Take(rest, max - 1);
  }

  /** A leased event at the head of the table is passed over. */
  lemma SkipFirst(events: seq<Event>, now: nat, max: nat)
    requires events != [] && max > 0 && !Available(events[0], now)
    ensures Claimed(events, now, max) == [events[0]] + Claimed(events[1..], now, max)
    ensures Deliveries(events, now, max) == Deliveries(events[1..], now, max)
  {
    var rest := AvailableEvents(events[1..], now);
    assert [] + rest == rest;
  }

  // ---- The table -----------------------------------------------------------------------------

  /** One outbox table, loaded with the events `stored`; `history` is what was done since. */
  class OutboxTable {
    var events: seq<Event>
    ghost const stored: seq<Event>
    ghost var history: seq<Op>

    ghost predicate Valid()
      reads this
    {
      events == Run(stored, history)
    }

    /** The payloads of a plain queue after the same operations. */
    ghost function Queue(): seq<Delivery>
      reads this
    {
      QueueRun(Payloads(stored), history)
    }

    constructor (events: seq<Event>)
      ensures Valid() && this.events == stored == events && history == []
    {
      this.events, this.stored, this.history := events, events, [];
    }

    /** The event goes to the end of the queue, unclaimed. */
    method EnqueueEvent(id: string, contentType: string, body: seq<bv8>)
      requires Valid()
      modifies this
      ensures Valid() && history == old(history) + [Enqueue(id, contentType, body)]
      ensures Payloads(events) == Queue() == old(Queue()) + [Delivery(id, contentType, body)]
      ensures events == old(events) + [Event(id, contentType, body, None)]
    {
      events := events + [Event(id, contentType, body, None)];
      Record(Enqueue(id, contentType, body));
    }

    /** Exactly the first available events are delivered, in table order, and stamped. */
    method ClaimEvents(now: nat, maxEvents: nat) returns (claimed: seq<Delivery>)
      requires Valid()
      modifies this
      ensures Valid() && history == old(history) + [Claim(now, maxEvents)]
      ensures events == Claimed(old(events), now, maxEvents)
      ensures claimed == Deliveries(old(events), now, maxEvents)
      ensures ClaimsFirstDue(old(events), now, maxEvents, events, claimed)
      ensures Payloads(events) == Queue() == old(Queue())
    {
      claimed := ClaimLoop(now, maxEvents);
      ClaimIsExact(old(events), now, maxEvents);
      Record(Claim(now, maxEvents));
    }

    method ClaimLoop(now: nat, maxEvents: nat) returns (claimed: seq<Delivery>)
      modifies `events
      ensures events == Claimed(old(events), now, maxEvents)
      ensures claimed == Deliveries(old(events), now, maxEvents)
    {
      claimed := [];
      if maxEvents == 0 {
        return;
      }
      ghost var before, head := events, [];
      var i := 0;
      while i < |events|
        invariant |claimed| < maxEvents && i <= |before| && events == head + before[i..]
        invariant Claiming(before, i, head, claimed, now, maxEvents)
      {
        ghost var tail := before[i + 1..];
        LoopSplit(events, before, head, i, now);
        if Available(events[i], now) {
          ClaimingTake(before, i, head, claimed, now, maxEvents);
          claimed := claimed + [Payload(events[i])];
          events := events[i := Stamp(events[i], now)];
        } else {
          ClaimingSkip(before, i, head, claimed, now, maxEvents);
        }
        head := head + [events[i]];
        assert events == head + tail;
        i := i + 1;
        if |claimed| >= maxEvents {
          break;
        }
      }
      assert Claimed(before[i..], now, maxEvents - |claimed|) == before[i..];
    }

    /** Exactly the events with the id leave the queue. */
    method AckEvent(id: string)
      requires Valid()
      modifies this
      ensures Valid() && history == old(history) + [Ack(id)]
      ensures events == Without(old(events), id)
      ensures Payloads(events) == Queue() == WithoutDelivery(old(Queue()), id)
    {
      ghost var before := events;
      var kept, i := [], 0;
      while i < |events|
        invariant i <= |events| && events == before && history == old(history)
        invariant Without(before, id) == kept + Without(before[i..], id)
      {
        assert before[i..][1..] == before[i + 1..];
        if events[i].id != id {
          kept := kept + [events[i]];
        }
        i := i + 1;
      }
      events := kept;
      Record(Ack(id));
    }

    /** How many events the queue holds: enqueued or stored, and not acknowledged since. */
    method PendingCount() returns (count: nat)
      requires Valid()
      ensures count == |Queue()|
    {
      OutboxRefinesQueue(stored, history);
      count := |events|;
    }

    /** Adds an operation, already carried out, to the history. */
    ghost method Record(op: Op)
      requires events == Apply(Run(stored, history), op)
      modifies `history
      ensures Valid() && history == old(history) + [op] && Payloads(events) == Queue()
      ensures Queue() == QueueStep(old(Queue()), op)
    {
      assert (history + [op])[..|history|] == history;
      history := history + [op];
      OutboxRefinesQueue(stored, history);
    }
  }

  // ---- Runs ----------------------------------------------------------------------------------

  datatype Op = Enqueue(id: string, contentType: string, body: seq<bv8>) | Claim(now: nat, max: nat) | Ack(id: string)

  function Apply(events: seq<Event>, op: Op): seq<Event> {
    match op
    case Enqueue(id, contentType, body) => events + [Event(id, contentType, body, None)]
    case Claim(now, max) => Claimed(events, now, max)
    case Ack(id) => Without(events, id)
  }

  function Run(events: seq<Event>, ops: seq<Op>): seq<Event> {
    if ops == [] then events else Apply(Run(events, ops[..|ops| - 1]), ops[|ops| - 1])
  }

  /** Each event is left alone or, if its lease allows, stamped. */
  lemma {:induction false} ClaimedEvents(events: seq<Event>, now: nat, max: nat)
    ensures |Claimed(events, now, max)| == |events|
    ensures forall i :: 0 <= i < |events| ==>
      || Claimed(events, now, max)[i] == events[i]
      || (Available(events[i], now) && Claimed(events, now, max)[i] == Stamp(events[i], now))
    decreases events
  {
    if events != [] && max > 0 {
      ClaimedEvents(events[1..], now, if Available(events[0], now) then max - 1 else max);
    }
  }

  // ---- The queue behind the leases --------------------------------------------------------------

  function WithoutDelivery(queue: seq<Delivery>, id: string): seq<Delivery> {
    if queue == [] then []
    else (if queue[0].id != id then [queue[0]] else []) + WithoutDelivery(queue[1..], id)
  }

  /** A plain queue: append, remove by id, and claims that change nothing. */
  function QueueRun(queue: seq<Delivery>, ops: seq<Op>): seq<Delivery> {
    if ops == [] then queue
    else
      QueueStep(QueueRun(queue, ops[..|ops| - 1]), ops[|ops| - 1])
  }

  function QueueStep(queue: seq<Delivery>, op: Op): seq<Delivery> {
    match op
    case Enqueue(id, contentType, body) => queue + [Delivery(id, contentType, body)]
    case Claim(_, _) => queue
    case Ack(id) => WithoutDelivery(queue, id)
  }

  lemma {:induction false} AckIsQueueRemoval(events: seq<Event>, id: string)
    ensures Payloads(Without(events, id)) == WithoutDelivery(Payloads(events), id)
  {
    if events != [] {
      AckIsQueueRemoval(events[1..], id);
      assert Payloads(events)[1..] == Payloads(events[1..]);
      if events[0].id != id {
        var rest := Without(events[1..], id);
        assert Payloads([events[0]] + rest) == [Payload(events[0])] + Payloads(rest);
      } else {
        assert [] + Without(events[1..], id) == Without(events[1..], id);
      }
    }
  }

  /** An acknowledgement removes every event with the id, however often it was enqueued, and no
      copy of any other. */
  lemma {:induction false} AckRemovesExactly(events: seq<Event>, id: string, e: Event)
    ensures multiset(Without(events, id))[e] == if e.id == id then 0 else multiset(events)[e]
  {
    if events != [] {
      AckRemovesExactly(events[1..], id, e);
      assert events == [events[0]] + events[1..];
      if events[0].id == id {
        assert Without(events, id) == Without(events[1..], id);
      }
    }
  }

  /** Over any run, the pending payloads are those of the plain queue: an event stays,
      unaltered and in order, until it is acknowledged. */
  lemma {:induction false} OutboxRefinesQueue(events: seq<Event>, ops: seq<Op>)
    ensures Payloads(Run(events, ops)) == QueueRun(Payloads(events), ops)
  {
    if ops != [] {
      var n := |ops| - 1;
      var before := Run(events, ops[..n]);
      OutboxRefinesQueue(events, ops[..n]);
      match ops[n]
      case Enqueue(_, _, _) =>
      case Claim(now, max) => ClaimedEvents(before, now, max);
      case Ack(id) => AckIsQueueRemoval(before, id);
    }
  }

  // ---- Leases ----------------------------------------------------------------------------------

  ghost predicate DistinctIds(events: seq<Event>) {
    forall i, j :: 0 <= i < j < |events| ==> events[i].id != events[j].id
  }

  ghost predicate Delivers(events: seq<Event>, op: Op, id: string) {
    op.Claim? && exists d :: d in Deliveries(events, op.now, op.max) && d.id == id
  }

  /** Every event with this id was claimed at `t` or later. */
  ghost predicate LeasedSince(events: seq<Event>, id: string, t: nat) {
    forall i :: 0 <= i < |events| && events[i].id == id ==>
      events[i].claimedAtMs.Some? && events[i].claimedAtMs.value >= t
  }

  /** What a claim delivers was available, and is stamped with the claim's time. */
  lemma DeliveredIsStamped(events: seq<Event>, now: nat, max: nat, id: string) returns (i: nat)
    requires Delivers(events, Claim(now, max), id)
    ensures i < |events| && events[i].id == id && Available(events[i], now)
    ensures |Claimed(events, now, max)| == |events| && Claimed(events, now, max)[i] == Stamp(events[i], now)
  {
    var d :| d in Deliveries(events, now, max) && d.id == id;
    i := DeliveryOf(events, now, max, d);
  }

  /** Delivery `d` is of event `i`, which `after` shows stamped. */
  ghost predicate StampedAt(events: seq<Event>, after: seq<Event>, now: nat, d: Delivery, i: nat) {
    && i < |events| == |after| && Payload(events[i]) == d && Available(events[i], now)
    && after[i] == Stamp(events[i], now)
  }

  lemma StampedLater(events: seq<Event>, rest: seq<Event>, after: seq<Event>, x: Event, tail: seq<Event>, now: nat,
                     d: Delivery, i: nat, next: nat)
    requires events != [] && rest == events[1..] && after == [x] + tail && next == i + 1
    requires StampedAt(rest, tail, now, d, i)
    ensures StampedAt(events, after, now, d, next)
  {
  }

  lemma StampedFirst(events: seq<Event>, now: nat, max: nat)
    requires events != [] && max > 0 && Available(events[0], now)
    ensures StampedAt(events, Claimed(events, now, max), now, Payload(events[0]), 0)
  {
    ClaimedEvents(events, now, max);
  }

  /** The event a delivery is of. */
  lemma {:induction false} DeliveryOf(events: seq<Event>, now: nat, max: nat, d: Delivery) returns (i: nat)
    requires d in Deliveries(events, now, max)
    ensures StampedAt(events, Claimed(events, now, max), now, d, i)
    decreases events
  {
    NothingToDeliver(events, now, max);
    var first, rest, after := events[0], events[1..], Claimed(events, now, max);
    if !Available(first, now) {
      SkipFirst(events, now, max);
      var k := DeliveryOf(rest, now, max, d);
      i := k + 1;
      StampedLater(events, rest, after, first, Claimed(rest, now, max), now, d, k, i);
    } else if d == Payload(first) {
      i := 0;
      StampedFirst(events, now, max);
    } else {
      ClaimFirst(events, now, max);
      var k := DeliveryOf(rest, now, max - 1, d);
      i := k + 1;
      StampedLater(events, rest, after, Stamp(first, now), Claimed(rest, now, max - 1), now, d, k, i);
    }
  }

  lemma NothingToDeliver(events: seq<Event>, now: nat, max: nat)
    ensures events == [] || max == 0 ==> Deliveries(events, now, max) == []
  {
  }

  lemma {:induction false} WithoutMembers(events: seq<Event>, id: string)
    ensures forall e <- Without(events, id) :: e in events
  {
    if events != [] {
      WithoutMembers(events[1..], id);
    }
  }

  lemma StepKeepsLease(events: seq<Event>, op: Op, id: string, t: nat)
    requires LeasedSince(events, id, t) && !(op.Enqueue? && op.id == id)
    ensures LeasedSince(Apply(events, op), id, t)
  {
    match op
    case Enqueue(_, _, _) =>
    case Claim(now, max) => ClaimedEvents(events, now, max);
    case Ack(gone) =>
      WithoutMembers(events, gone);
      var kept := Without(events, gone);
      assert forall i :: 0 <= i < |kept| ==> kept[i] in kept && kept[i] in events;
  }

  /** Any two claims that deliver one event read clocks at least a lease apart, in that
      order, whatever the clock did in between. */
  lemma {:induction false} ClaimsAreALeaseApart(events: seq<Event>, ops: seq<Op>, i: nat, j: nat, id: string)
    requires i < j < |ops|
    requires DistinctIds(Run(events, ops[..i]))
    requires forall k :: i < k < j && ops[k].Enqueue? ==> ops[k].id != id
    requires Delivers(Run(events, ops[..i]), ops[i], id) && Delivers(Run(events, ops[..j]), ops[j], id)
    ensures ops[j].now >= ops[i].now + CLAIM_LEASE_MS
  {
    LeaseHolds(events, ops, i, j, id);
    var k := DeliveredIsStamped(Run(events, ops[..j]), ops[j].now, ops[j].max, id);
  }

  lemma LeaseBegins(events: seq<Event>, now: nat, max: nat, id: string)
    requires DistinctIds(events) && Delivers(events, Claim(now, max), id)
    ensures LeasedSince(Claimed(events, now, max), id, now)
  {
    var k := DeliveredIsStamped(events, now, max, id);
    ClaimedEvents(events, now, max);
    StampLeases(events, Claimed(events, now, max), now, id, k);
  }

  lemma StampLeases(events: seq<Event>, after: seq<Event>, now: nat, id: string, k: nat)
    requires DistinctIds(events) && k < |events| == |after| && events[k].id == id
    requires after[k] == Stamp(events[k], now) && forall i :: 0 <= i < |events| ==> after[i].id == events[i].id
    ensures LeasedSince(after, id, now)
  {
    forall i | 0 <= i < |after| && after[i].id == id
      ensures i == k
    {
      assert events[i].id == events[k].id;
    }
  }

  lemma {:induction false} LeaseHolds(events: seq<Event>, ops: seq<Op>, i: nat, j: nat, id: string)
    requires i < j <= |ops|
    requires DistinctIds(Run(events, ops[..i]))
    requires forall k :: i < k < j && ops[k].Enqueue? ==> ops[k].id != id
    requires Delivers(Run(events, ops[..i]), ops[i], id)
    ensures LeasedSince(Run(events, ops[..j]), id, ops[i].now)
  {
    assert ops[..j][..j - 1] == ops[..j - 1];
    var before := Run(events, ops[..j - 1]);
    if j == i + 1 {
      LeaseBegins(before, ops[i].now, ops[i].max, id);
    } else {
      LeaseHolds(events, ops, i, j - 1, id);
      StepKeepsLease(before, ops[j - 1], id, ops[i].now);
    }
  }

  // ---- Draining --------------------------------------------------------------------------------

  predicate ClaimedIn(e: Event, start: nat) {
    e.claimedAtMs.Some? && e.claimedAtMs.value >= start
  }

  function Undelivered(events: seq<Event>, start: nat): nat {
    if events == [] then 0
    else (if ClaimedIn(events[0], start) then 0 else 1) + Undelivered(events[1..], start)
  }

  /** There are no more of them than events, and none exactly when all were claimed since. */
  lemma {:induction false} UndeliveredBound(events: seq<Event>, start: nat)
    ensures Undelivered(events, start) <= |events|
    ensures Undelivered(events, start) == 0 <==> forall i :: 0 <= i < |events| ==> ClaimedIn(events[i], start)
  {
    if events != [] {
      UndeliveredBound(events[1..], start);
      assert events == [events[0]] + events[1..];
    }
  }

  /** One claim inside the window: every delivery is of an event not yet claimed in it, and
      there are `max` of them unless everything available is delivered. */
  lemma {:induction false} ClaimInWindow(events: seq<Event>, now: nat, max: nat, start: nat)
    requires start <= now < start + CLAIM_LEASE_MS
    ensures |Claimed(events, now, max)| == |events|
    ensures Undelivered(Claimed(events, now, max), start) + |Deliveries(events, now, max)| == Undelivered(events, start)
    ensures |Deliveries(events, now, max)| <= max
    ensures |Deliveries(events, now, max)| == max
      || forall i :: 0 <= i < |events| && Available(events[i], now) ==> ClaimedIn(Claimed(events, now, max)[i], start)
    decreases events
  {
    if events != [] && max > 0 {
      var rest := events[1..];
      if Available(events[0], now) {
        ClaimFirst(events, now, max);
        ClaimInWindow(rest, now, max - 1, start);
        assert Claimed(events, now, max)[1..] == Claimed(rest, now, max - 1);
      } else {
        SkipFirst(events, now, max);
        ClaimInWindow(rest, now, max, start);
        assert Claimed(events, now, max)[1..] == Claimed(rest, now, max);
      }
    }
  }

  /** What a claim stamps it delivers. */
  lemma {:induction false} StampedIsDelivered(events: seq<Event>, now: nat, max: nat, i: nat)
    requires i < |events|
    ensures |Claimed(events, now, max)| == |events|
    ensures Claimed(events, now, max)[i] != events[i] ==> Payload(events[i]) in Deliveries(events, now, max)
    decreases events
  {
    ClaimedEvents(events, now, max);
    if max > 0 {
      if Available(events[0], now) {
        ClaimFirst(events, now, max);
      } else {
        SkipFirst(events, now, max);
      }
      if i > 0 {
        StampedIsDelivered(events[1..], now, if Available(events[0], now) then max - 1 else max, i - 1);
      }
    }
  }

  /** The table after claims at these times. */
  function ClaimAll(events: seq<Event>, times: seq<nat>, max: nat): seq<Event>
    decreases times
  {
    if times == [] then events else ClaimAll(Claimed(events, times[0], max), times[1..], max)
  }

  /** Everything those claims deliver, in order. */
  function DeliverAll(events: seq<Event>, times: seq<nat>, max: nat): seq<Delivery>
    decreases times
  {
    if times == [] then []
    else Deliveries(events, times[0], max) + DeliverAll(Claimed(events, times[0], max), times[1..], max)
  }

  ghost predicate InWindow(times: seq<nat>, start: nat) {
    forall i :: 0 <= i < |times| ==> start <= times[i] < start + CLAIM_LEASE_MS
  }

  /** Claims inside the window deliver exactly the events that come to be claimed in it: an event
      not claimed in it before is so afterwards only by a delivery, and each delivery takes one. */
  lemma {:induction false} DeliveriesInWindow(events: seq<Event>, times: seq<nat>, max: nat, start: nat)
    requires InWindow(times, start)
    ensures |ClaimAll(events, times, max)| == |events|
    ensures Undelivered(ClaimAll(events, times, max), start) + |DeliverAll(events, times, max)| ==
      Undelivered(events, start)
    ensures forall i :: 0 <= i < |events| ==> Payload(ClaimAll(events, times, max)[i]) == Payload(events[i])
    ensures forall i :: 0 <= i < |events| && ClaimedIn(events[i], start) ==>
      ClaimedIn(ClaimAll(events, times, max)[i], start)
    ensures forall i :: 0 <= i < |events| && !ClaimedIn(events[i], start) ==>
      ClaimedIn(ClaimAll(events, times, max)[i], start) ==> Payload(events[i]) in DeliverAll(events, times, max)
    decreases times
  {
    if times != [] {
      var after := Claimed(events, times[0], max);
      ClaimInWindow(events, times[0], max, start);
      ClaimedEvents(events, times[0], max);
      DeliveriesInWindow(after, times[1..], max, start);
      forall i | 0 <= i < |events|
        ensures after[i] != events[i] ==> Payload(events[i]) in Deliveries(events, times[0], max)
        ensures Payload(after[i]) == Payload(events[i])
      {
        StampedIsDelivered(events, times[0], max, i);
      }
    }
  }

  /** Claims inside one lease window, enough of them for the events not yet claimed in it,
      deliver everything that was due when the window began. */
  lemma ClaimsDrainOutbox(events: seq<Event>, times: seq<nat>, max: nat, start: nat)
    requires InWindow(times, start) && |times| * max >= Undelivered(events, start)
    ensures forall i :: 0 <= i < |events| && Due(events[i], start) ==>
      Payload(events[i]) in DeliverAll(events, times, max)
  {
    ClaimsStampAll(events, times, max, start);
    DeliveriesInWindow(events, times, max, start);
  }

  lemma {:induction false} ClaimsStampAll(events: seq<Event>, times: seq<nat>, max: nat, start: nat)
    requires InWindow(times, start) && |times| * max >= Undelivered(events, start)
    ensures |ClaimAll(events, times, max)| == |events|
    ensures forall i :: 0 <= i < |events| && Available(events[i], start) ==>
      ClaimedIn(ClaimAll(events, times, max)[i], start)
    decreases times
  {
    if times == [] {
      UndeliveredBound(events, start);
      return;
    }
    var after := Claimed(events, times[0], max);
    ClaimInWindow(events, times[0], max, start);
    DeliveriesInWindow(after, times[1..], max, start);
    if |Deliveries(events, times[0], max)| == max {
      OneClaimFewer(|times|, max);
      ClaimsStampAll(after, times[1..], max, start);
    }
    forall i | 0 <= i < |events| && Available(events[i], start)
      ensures ClaimedIn(ClaimAll(events, times, max)[i], start)
    {
      AfterOneClaim(events, times[0], max, start, i);
    }
  }

  lemma OneClaimFewer(n: nat, max: nat)
    requires n > 0
    ensures (n - 1) * max == n * max - max
  {
  }

  /** An event available when the window began is, after a claim inside it, still available then
      or claimed in it; and it is available to that claim unless claimed in the window before. */
  lemma AfterOneClaim(events: seq<Event>, now: nat, max: nat, start: nat, i: nat)
    requires start <= now < start + CLAIM_LEASE_MS && i < |events| && Available(events[i], start)
    ensures |Claimed(events, now, max)| == |events|
    ensures var after := Claimed(events, now, max)[i]; after == events[i] || ClaimedIn(after, start)
    ensures Available(events[i], now) || ClaimedIn(events[i], start)
  {
    ClaimedEvents(events, now, max);
  }
}
