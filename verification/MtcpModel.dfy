/**
  TCP deferral of one client (mtcp.c:265-325): packets the socket cannot take at once wait in the
  client's own queue, and what is written keeps the order in which packets were made.
*/
module MtcpModel {
  import opened Options
  import opened MbufModel

  /** A packet is known by the order of its creation; an empty to_link buffer carries none. */
  datatype Event = Outgoing(defer: bool, empty: bool) | Ready

  datatype Client = Client(queue: Queue, written: seq<nat>, next: nat)

  predicate OwnItems(items: seq<Item>, mi: nat) {
    forall i | 0 <= i < |items| :: items[i].Item? && items[i].instance == mi
  }

  /** The packet numbers in the queue. */
  function Packets(items: seq<Item>): (r: seq<nat>)
    ensures |r| == |items|
  {
    seq(|items|, i requires 0 <= i < |items| => if items[i].Item? then items[i].buffer else 0)
  }

  predicate Increasing(s: seq<nat>) {
    forall i, j | 0 <= i < j < |s| :: s[i] < s[j]
  }

  predicate Below(s: seq<nat>, n: nat) {
    forall i | 0 <= i < |s| :: s[i] < n
  }

  /** Everything written or waiting, oldest first. */
  function Order(c: Client): seq<nat> {
    c.written + Packets(c.queue.items)
  }

  ghost predicate Valid(c: Client, mi: nat, capacity: nat) {
    && 0 < capacity && |c.queue.items| <= capacity
    && OwnItems(c.queue.items, mi)
    && Counted(c.queue, multiset{})
    && Increasing(Order(c)) && Below(Order(c), c.next)
  }

  /** mbuf_alloc_buf: a new buffer with one reference. */
  function Alloc(q: Queue, b: nat): Queue {
    q.(refs := q.refs[b := 1])
  }

  lemma {:induction false} NewHasNoSlot(items: seq<Item>, b: nat)
    requires forall i | 0 <= i < |items| && items[i].Item? :: items[i].buffer != b
    ensures Slots(items, b) == 0
  {
    if items != [] {
      NewHasNoSlot(items[..|items| - 1], b);
    }
  }

  /** Saving needs what mbuf_add_item needs; SaveCounted shows that it always has it. */
  predicate Savable(q: Queue, b: nat, mi: nat, capacity: nat) {
    Addable(Alloc(q, b), capacity, Item(b, mi)) && b in Add(Alloc(q, b), capacity, Item(b, mi)).refs
  }

  /** Saving a packet to the queue: allocate, add, give the first reference back. */
  function Saved(q: Queue, b: nat, mi: nat, capacity: nat): Queue
    requires Savable(q, b, mi, capacity)
  {
    var added := Add(Alloc(q, b), capacity, Item(b, mi));
    added.(refs := FreeBuf(added.refs, b))
  }

  lemma SaveCounted(q: Queue, b: nat, mi: nat, capacity: nat)
    requires Counted(q, multiset{}) && OwnItems(q.items, mi) && 0 < capacity && |q.items| <= capacity && b !in Packets(q.items)
    ensures Savable(q, b, mi, capacity) && Counted(Saved(q, b, mi, capacity), multiset{})
    ensures b !in q.refs && Counted(Alloc(q, b), multiset{b}) && Counted(Add(Alloc(q, b), capacity, Item(b, mi)), multiset{b})
  {
    forall i | 0 <= i < |q.items| && q.items[i].Item? ensures q.items[i].buffer != b {
      assert Packets(q.items)[i] == q.items[i].buffer;
    }
    NewHasNoSlot(q.items, b);
    assert CountedAt(q, multiset{}, b);
    MakeCounted(q, multiset{}, b);
    assert multiset{} + multiset{b} == multiset{b};
    var a := Alloc(q, b);
    if |q.items| == capacity {
      assert q.items[0].Item?;
    }
    AddCounted(a, multiset{b}, capacity, Item(b, mi));
    FreeCounted(Add(a, capacity, Item(b, mi)), multiset{b}, b);
    assert multiset{b} - multiset{b} == multiset{};
  }

  /** multi_tcp_process_outgoing_link for the packet numbered c.next, or multi_tcp_process_outgoing_link_ready. */
  ghost function Step(c: Client, e: Event, mi: nat, capacity: nat): Client
    requires Valid(c, mi, capacity)
  {
    match e
    case Outgoing(defer, empty) =>
      if empty then c
      else if defer || c.queue.items != [] then
        NewPacket(c, mi, capacity);
        SaveCounted(c.queue, c.next, mi, capacity);
        c.(queue := Saved(c.queue, c.next, mi, capacity), next := c.next + 1)
      else c.(written := c.written + [c.next], next := c.next + 1)
    case Ready =>
      var (rest, got) := Extract(c.queue.items);
      if got.Some? then
        CountedKnown(c.queue, multiset{});
        c.(queue := Queue(rest, FreeBuf(c.queue.refs, got.value.buffer)), written := c.written + [got.value.buffer])
      else c.(queue := c.queue.(items := rest))
  }

  lemma NewPacket(c: Client, mi: nat, capacity: nat)
    requires Valid(c, mi, capacity)
    ensures c.next !in Packets(c.queue.items)
  {
    forall i | 0 <= i < |c.queue.items| ensures Packets(c.queue.items)[i] != c.next {
      assert Order(c)[|c.written| + i] == Packets(c.queue.items)[i];
    }
  }

  /** With only live items the oldest is the first. */
  lemma ExtractOwn(items: seq<Item>, mi: nat)
    requires OwnItems(items, mi)
    ensures Extract(items) == if items == [] then ([], None) else (items[1..], Some(items[0]))
  {
  }

  /** What is saved goes last, at the cost of the first when the ring is full. */
  lemma SavedItems(q: Queue, b: nat, mi: nat, capacity: nat)
    requires Counted(q, multiset{}) && OwnItems(q.items, mi) && 0 < capacity && |q.items| <= capacity && b !in Packets(q.items)
    ensures Savable(q, b, mi, capacity)
    ensures Saved(q, b, mi, capacity).items == (if |q.items| == capacity then q.items[1..] else q.items) + [Item(b, mi)]
  {
    SaveCounted(q, b, mi, capacity);
    ExtractOwn(q.items, mi);
  }

  /** A packet taken from the queue was the oldest waiting: the order is untouched. */
  lemma ReadyKeeps(c: Client, mi: nat, capacity: nat)
    requires Valid(c, mi, capacity)
    ensures var c' := Step(c, Ready, mi, capacity); Valid(c', mi, capacity) && Order(c') == Order(c)
  {
    hide Counted, Increasing, Below, Packets, FreeBuf, Extract;
    ExtractOwn(c.queue.items, mi);
    var c' := Step(c, Ready, mi, capacity);
    if c.queue.items != [] {
      var b := c.queue.items[0].buffer;
      ExtractCounted(c.queue, multiset{});
      assert multiset{} + multiset{b} == multiset{b} && multiset{b} - multiset{b} == multiset{};
      FreeCounted(c.queue.(items := c.queue.items[1..]), multiset{b}, b);
      HeadPacket(c.queue.items);
      assert c.written + [b] + Packets(c.queue.items[1..]) == c.written + ([b] + Packets(c.queue.items[1..]));
    } else {
      assert c'.queue == c.queue;
    }
  }

  /**
    Where to a packet goes: straight out when nothing waits and writing is not put off, else to the
    end of the queue, from which a full ring gives up its first.  An empty buffer is nothing.
  */
  lemma TakesOrDefers(c: Client, defer: bool, empty: bool, mi: nat, capacity: nat)
    requires Valid(c, mi, capacity)
    ensures var c' := Step(c, Outgoing(defer, empty), mi, capacity);
            if empty then c' == c
            else
              && c'.next == c.next + 1
              && if !defer && c.queue.items == [] then c'.written == c.written + [c.next] && c'.queue == c.queue
                 else
                   && c'.written == c.written
                   && c'.queue.items == (if |c.queue.items| == capacity then c.queue.items[1..] else c.queue.items)
                                        + [Item(c.next, mi)]
  {
    hide Saved, Savable, Counted;
    if !empty && (defer || c.queue.items != []) {
      NewPacket(c, mi, capacity);
      SavedItems(c.queue, c.next, mi, capacity);
    }
  }

  /** A ready socket gets the packet that has waited longest, and no other. */
  lemma ReadyWritesOldest(c: Client, mi: nat, capacity: nat)
    requires Valid(c, mi, capacity)
    ensures var c', items := Step(c, Ready, mi, capacity), c.queue.items;
            && c'.next == c.next
            && if items == [] then c' == c
               else items[0].Item? && c'.written == c.written + [items[0].buffer] && c'.queue.items == items[1..]
  {
    hide Counted, FreeBuf;
    ExtractOwn(c.queue.items, mi);
  }

  lemma HeadPacket(items: seq<Item>)
    requires items != [] && items[0].Item?
    ensures Packets(items) == [items[0].buffer] + Packets(items[1..])
  {
  }

  /** A new packet comes last; only a full queue loses one, the oldest waiting. */
  lemma OutgoingKeeps(c: Client, defer: bool, empty: bool, mi: nat, capacity: nat)
    requires Valid(c, mi, capacity)
    ensures var c' := Step(c, Outgoing(defer, empty), mi, capacity);
            && Valid(c', mi, capacity)
            && Order(c') == (if empty then Order(c)
                             else if |c.queue.items| == capacity then c.written + Tail(Packets(c.queue.items)) + [c.next]
                             else Order(c) + [c.next])
  {
    hide Counted, Savable, Saved, Increasing, Below, Packets;
    var c' := Step(c, Outgoing(defer, empty), mi, capacity);
    var full := |c.queue.items| == capacity;
    if empty {
    } else if defer || c.queue.items != [] {
      NewPacket(c, mi, capacity);
      SaveCounted(c.queue, c.next, mi, capacity);
      SavedItems(c.queue, c.next, mi, capacity);
      var kept := if full then Tail(c.queue.items) else c.queue.items;
      TailPackets(c.queue.items);
      AppendPackets(kept, c.next, mi);
      assert Order(c') == c.written + Packets(kept) + [c.next];
      DropKeepsOrder(c.written, Packets(c.queue.items), c.next, full);
    } else {
      assert Order(c') == Order(c) + [c.next];
      DropKeepsOrder(c.written, [], c.next, false);
      assert c.written + [] == c.written;
    }
  }

  lemma AppendPackets(items: seq<Item>, b: nat, mi: nat)
    ensures Packets(items + [Item(b, mi)]) == Packets(items) + [b]
  {
  }

  lemma TailPackets(items: seq<Item>)
    ensures Packets(Tail(items)) == Tail(Packets(items))
  {
  }

  lemma DropKeepsOrder(a: seq<nat>, b: seq<nat>, n: nat, drop: bool)
    requires Increasing(a + b) && Below(a + b, n)
    ensures var r := a + (if drop then Tail(b) else b) + [n]; Increasing(r) && Below(r, n + 1)
  {
    var d := drop && b != [];
    var kept := if drop then Tail(b) else b;
    var r := a + kept + [n];
    forall i | 0 <= i < |r| - 1 ensures Back(i, |a|, d) < |a + b| && (a + b)[Back(i, |a|, d)] == r[i] {
    }
    forall i, j | 0 <= i < j < |r| ensures r[i] < r[j] {
      if j < |r| - 1 {
        assert (a + b)[Back(i, |a|, d)] < (a + b)[Back(j, |a|, d)];
      } else {
        assert (a + b)[Back(i, |a|, d)] < n;
      }
    }
  }

  /** Where the i-th kept element stood. */
  function Back(i: nat, n: nat, drop: bool): nat {
    if i >= n && drop then i + 1 else i
  }

  lemma StepKeeps(c: Client, e: Event, mi: nat, capacity: nat)
    requires Valid(c, mi, capacity)
    ensures var c' := Step(c, e, mi, capacity);
            && Valid(c', mi, capacity)
            && (|c.queue.items| < capacity ==>
                  Order(c') == if e.Outgoing? && !e.empty then Order(c) + [c.next] else Order(c))
  {
    match e
    case Outgoing(defer, empty) => OutgoingKeeps(c, defer, empty, mi, capacity);
    case Ready => ReadyKeeps(c, mi, capacity);
  }

  ghost function RunAll(c: Client, es: seq<Event>, mi: nat, capacity: nat): (r: Client)
    requires Valid(c, mi, capacity)
    ensures Valid(r, mi, capacity)
    decreases |es|
  {
    if es == [] then c
    else
      StepKeeps(c, es[0], mi, capacity);
      RunAll(Step(c, es[0], mi, capacity), es[1..], mi, capacity)
  }

  /** multi_tcp_instance_specific_init. */
  function Fresh(mi: nat, capacity: nat): (c: Client)
    requires 0 < capacity
    ensures Valid(c, mi, capacity)
  {
    Client(Queue([], map[]), [], 0)
  }

  /** Over every run the packets written are in the order they were made, each at most once. */
  lemma WrittenInOrder(es: seq<Event>, mi: nat, capacity: nat)
    requires 0 < capacity
    ensures var c := RunAll(Fresh(mi, capacity), es, mi, capacity);
            Increasing(c.written) && Counted(c.queue, multiset{})
  {
    var c := RunAll(Fresh(mi, capacity), es, mi, capacity);
    forall i, j | 0 <= i < j < |c.written| ensures c.written[i] < c.written[j] {
      assert Order(c)[i] == c.written[i] && Order(c)[j] == c.written[j];
    }
  }

  /** No packet is made while the queue is full. */
  ghost predicate NeverFull(c: Client, es: seq<Event>, mi: nat, capacity: nat)
    requires Valid(c, mi, capacity)
    decreases |es|
  {
    es == []
    || (StepKeeps(c, es[0], mi, capacity);
        (es[0].Outgoing? && !es[0].empty ==> |c.queue.items| < capacity)
        && NeverFull(Step(c, es[0], mi, capacity), es[1..], mi, capacity))
  }

  /** The packet numbers n, n + 1, ... that the events make. */
  function Made(es: seq<Event>, n: nat): seq<nat>
    decreases |es|
  {
    if es == [] then []
    else if es[0].Outgoing? && !es[0].empty then [n] + Made(es[1..], n + 1)
    else Made(es[1..], n)
  }

  lemma StepCounts(c: Client, e: Event, mi: nat, capacity: nat)
    requires Valid(c, mi, capacity)
    ensures var c' := Step(c, e, mi, capacity);
            var made := if e.Outgoing? && !e.empty then 1 else 0;
            && c'.next == c.next + made
            && |Order(c')| == |Order(c)| + (if made == 1 && |c.queue.items| == capacity then 0 else made)
  {
    match e
    case Outgoing(defer, empty) => OutgoingKeeps(c, defer, empty, mi, capacity);
    case Ready => ReadyKeeps(c, mi, capacity);
  }

  /** A run never ends with more packets than were waiting, written or made, and with fewer if one was dropped. */
  lemma {:induction false} RunCounts(c: Client, es: seq<Event>, mi: nat, capacity: nat)
    requires Valid(c, mi, capacity)
    ensures |Order(RunAll(c, es, mi, capacity))| <= |Order(c)| + |Made(es, c.next)|
    ensures !NeverFull(c, es, mi, capacity) ==> |Order(RunAll(c, es, mi, capacity))| < |Order(c)| + |Made(es, c.next)|
    decreases |es|
  {
    hide Order, Step, Valid;
    if es != [] {
      StepKeeps(c, es[0], mi, capacity);
      StepCounts(c, es[0], mi, capacity);
      Bounded(c, mi, capacity);
      RunCounts(Step(c, es[0], mi, capacity), es[1..], mi, capacity);
    }
  }

  lemma Bounded(c: Client, mi: nat, capacity: nat)
    requires Valid(c, mi, capacity)
    ensures |c.queue.items| <= capacity
  {
  }

  lemma {:induction false} KeptWhileRoom(c: Client, es: seq<Event>, mi: nat, capacity: nat)
    requires Valid(c, mi, capacity) && NeverFull(c, es, mi, capacity)
    ensures Order(RunAll(c, es, mi, capacity)) == Order(c) + Made(es, c.next)
    decreases |es|
  {
    hide Order, Valid, Step;
    if es == [] {
      assert Order(c) + [] == Order(c);
    } else {
      StepKeeps(c, es[0], mi, capacity);
      StepCounts(c, es[0], mi, capacity);
      ReadyOrder(c, es[0], mi, capacity);
      KeptWhileRoom(Step(c, es[0], mi, capacity), es[1..], mi, capacity);
      assert Order(c) + [c.next] + Made(es[1..], c.next + 1) == Order(c) + ([c.next] + Made(es[1..], c.next + 1));
    }
  }

  lemma ReadyOrder(c: Client, e: Event, mi: nat, capacity: nat)
    requires Valid(c, mi, capacity) && (e.Outgoing? && !e.empty ==> |c.queue.items| < capacity)
    ensures Order(Step(c, e, mi, capacity)) == if e.Outgoing? && !e.empty then Order(c) + [c.next] else Order(c)
  {
    match e
    case Outgoing(defer, empty) => OutgoingKeeps(c, defer, empty, mi, capacity);
    case Ready => ReadyKeeps(c, mi, capacity);
  }

  /** A run loses nothing exactly when no packet is made while the queue is full. */
  lemma NothingLostIff(c: Client, es: seq<Event>, mi: nat, capacity: nat)
    requires Valid(c, mi, capacity)
    ensures Order(RunAll(c, es, mi, capacity)) == Order(c) + Made(es, c.next) <==> NeverFull(c, es, mi, capacity)
  {
    RunCounts(c, es, mi, capacity);
    if NeverFull(c, es, mi, capacity) {
      KeptWhileRoom(c, es, mi, capacity);
    }
  }

  function Readies(n: nat): seq<Event> {
    seq(n, _ => Ready)
  }

  /** As many ready events as packets wait write every one of them, in order. */
  lemma {:induction false} ReadiesWriteAll(c: Client, n: nat, mi: nat, capacity: nat)
    requires Valid(c, mi, capacity) && |c.queue.items| <= n
    ensures var c' := RunAll(c, Readies(n), mi, capacity); c'.queue.items == [] && c'.written == Order(c)
    decreases n
  {
    if n == 0 {
      assert Order(c) == c.written + Packets([]) == c.written;
    } else {
      assert Readies(n)[1..] == Readies(n - 1);
      ReadyKeeps(c, mi, capacity);
      ExtractOwn(c.queue.items, mi);
      ReadiesWriteAll(Step(c, Ready, mi, capacity), n - 1, mi, capacity);
    }
  }

  /** So while the queue is never full when a packet is made, every packet is written in the end. */
  lemma AllWritten(es: seq<Event>, n: nat, mi: nat, capacity: nat)
    requires 0 < capacity && NeverFull(Fresh(mi, capacity), es, mi, capacity)
    requires |RunAll(Fresh(mi, capacity), es, mi, capacity).queue.items| <= n
    ensures RunAll(RunAll(Fresh(mi, capacity), es, mi, capacity), Readies(n), mi, capacity).written == Made(es, 0)
  {
    NothingLostIff(Fresh(mi, capacity), es, mi, capacity);
    ReadiesWriteAll(RunAll(Fresh(mi, capacity), es, mi, capacity), n, mi, capacity);
    assert Order(Fresh(mi, capacity)) + Made(es, 0) == Made(es, 0);
  }

  // ------------------------------------------------------------------ the limit on queued packets

  /** multi_output_queue_ready: the queue is no longer than the limit. */
  predicate OutputQueueReady(c: Client, limit: nat) {
    |c.queue.items| <= limit
  }

  /** Packets are made only where the queue is ready, as for those read from the tunnel. */
  ghost predicate Gated(c: Client, es: seq<Event>, mi: nat, capacity: nat, limit: nat)
    requires Valid(c, mi, capacity)
    decreases |es|
  {
    es == []
    || (StepKeeps(c, es[0], mi, capacity);
        (es[0].Outgoing? && !es[0].empty ==> OutputQueueReady(c, limit))
        && Gated(Step(c, es[0], mi, capacity), es[1..], mi, capacity, limit))
  }

  lemma StepLength(c: Client, e: Event, mi: nat, capacity: nat)
    requires Valid(c, mi, capacity)
    ensures var made := e.Outgoing? && !e.empty;
            made && |c.queue.items| < capacity ==> |Step(c, e, mi, capacity).queue.items| <= |c.queue.items| + 1
    ensures !(e.Outgoing? && !e.empty) ==> |Step(c, e, mi, capacity).queue.items| <= |c.queue.items|
  {
    ExtractIsFirst(c.queue.items);
  }

  lemma {:induction false} KeptIfRoom(c: Client, es: seq<Event>, mi: nat, capacity: nat, limit: nat)
    requires Valid(c, mi, capacity) && limit < capacity && |c.queue.items| <= limit + 1
    requires Gated(c, es, mi, capacity, limit)
    ensures |RunAll(c, es, mi, capacity).queue.items| <= limit + 1 && NeverFull(c, es, mi, capacity)
    decreases |es|
  {
    hide Order, Step, Valid;
    if es != [] {
      StepKeeps(c, es[0], mi, capacity);
      StepLength(c, es[0], mi, capacity);
      KeptIfRoom(Step(c, es[0], mi, capacity), es[1..], mi, capacity, limit);
    }
  }

  /** Under a limit below the capacity the queue stays within one packet of it and nothing is lost. */
  lemma LimitLosesNothing(c: Client, es: seq<Event>, mi: nat, capacity: nat, limit: nat)
    requires Valid(c, mi, capacity) && limit < capacity && |c.queue.items| <= limit + 1
    requires Gated(c, es, mi, capacity, limit)
    ensures |RunAll(c, es, mi, capacity).queue.items| <= limit + 1
    ensures Order(RunAll(c, es, mi, capacity)) == Order(c) + Made(es, c.next)
  {
    hide Order, Step, Valid;
    KeptIfRoom(c, es, mi, capacity, limit);
    KeptWhileRoom(c, es, mi, capacity);
  }
}
