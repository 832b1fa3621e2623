/**
  The reference-counted packet queue (mbuf.c) and TCP deferral (mtcp.c:265-325) on values.
  Packet buffers and client instances are numbers; a slot whose client has gone is Gone.
*/
module MbufModel {
  import opened Options

  /** struct mbuf_item; Gone is a slot with both pointers NULL. */
  datatype Item = Item(buffer: nat, instance: nat) | Gone

  /** The refcount of every allocated buffer. */
  type Refs = map<nat, int>

  datatype Queue = Queue(items: seq<Item>, refs: Refs)

  // ------------------------------------------------------------------ operations

  /** mbuf_free_buf. */
  function FreeBuf(refs: Refs, b: nat): Refs
    requires b in refs
  {
    if refs[b] - 1 <= 0 then refs - {b} else refs[b := refs[b] - 1]
  }

  /** mbuf_extract_item: drop dead slots up to the first live one. */
  function Extract(items: seq<Item>): (r: (seq<Item>, Option<Item>))
    ensures |r.0| <= |items| && (items != [] ==> |r.0| < |items|)
    ensures r.1.Some? ==> r.1.value.Item? && r.1.value in items
    ensures r.1 == None <==> forall i | 0 <= i < |items| :: items[i] == Gone
    ensures r.1 == None ==> r.0 == []
  {
    if items == [] then ([], None)
    else if items[0].Item? then (items[1..], Some(items[0]))
    else Extract(items[1..])
  }

  predicate HasLive(items: seq<Item>) {
    exists i :: 0 <= i < |items| && items[i].Item?
  }

  /** mbuf_peek. */
  function Peek(items: seq<Item>): Option<nat> {
    if items == [] then None else if items[0].Item? then Some(items[0].instance) else Peek(items[1..])
  }

  predicate BuffersKnown(q: Queue) {
    forall i | 0 <= i < |q.items| && q.items[i].Item? :: q.items[i].buffer in q.refs
  }

  /** The overflow branch of mbuf_add_item: the oldest live packet is dropped. */
  function MakeRoom(q: Queue, capacity: nat): (r: Queue)
    requires BuffersKnown(q) && (|q.items| == capacity ==> HasLive(q.items))
  {
    if |q.items| != capacity then q
    else var (rest, rm) := Extract(q.items); Queue(rest, FreeBuf(q.refs, rm.value.buffer))
  }

  /** mbuf_add_item's assertion that a full ring has something to drop, for an item whose buffer its maker holds. */
  predicate Addable(q: Queue, capacity: nat, item: Item) {
    && BuffersKnown(q) && (|q.items| == capacity ==> HasLive(q.items))
    && item.Item? && item.buffer in MakeRoom(q, capacity).refs
  }

  /** mbuf_add_item. */
  function Add(q: Queue, capacity: nat, item: Item): Queue
    requires Addable(q, capacity, item)
  {
    var r := MakeRoom(q, capacity);
    Queue(r.items + [item], r.refs[item.buffer := r.refs[item.buffer] + 1])
  }

  // ------------------------------------------------------------------ reference counts

  /** How many slots hold buffer b. */
  function Slots(items: seq<Item>, b: nat): nat {
    if items == [] then 0
    else Slots(items[..|items| - 1], b) + (if items[|items| - 1].Item? && items[|items| - 1].buffer == b then 1 else 0)
  }

  lemma {:induction false} SlotsConcat(a: seq<Item>, c: seq<Item>, b: nat)
    ensures Slots(a + c, b) == Slots(a, b) + Slots(c, b)
  {
    if c == [] {
      assert a + c == a;
    } else {
      assert (a + c)[..|a + c| - 1] == a + c[..|c| - 1];
      SlotsConcat(a, c[..|c| - 1], b);
    }
  }

  lemma {:induction false} SlotsPositive(items: seq<Item>, i: nat)
    requires i < |items| && items[i].Item?
    ensures Slots(items, items[i].buffer) > 0
  {
    if i < |items| - 1 {
      SlotsPositive(items[..|items| - 1], i);
    }
  }

  lemma SlotsHead(items: seq<Item>, b: nat)
    requires items != []
    ensures Slots(items, b) == Slots(items[1..], b) + (if items[0].Item? && items[0].buffer == b then 1 else 0)
  {
    assert items == [items[0]] + items[1..];
    SlotsConcat([items[0]], items[1..], b);
    assert [items[0]][..0] == [];
  }

  lemma {:induction false} SlotsExtract(items: seq<Item>, b: nat)
    ensures var (rest, got) := Extract(items);
            Slots(items, b) == Slots(rest, b) + (if got.Some? && got.value.buffer == b then 1 else 0)
  {
    if items != [] {
      SlotsHead(items, b);
      if items[0] == Gone {
        SlotsExtract(items[1..], b);
      }
    }
  }

  /** A buffer is allocated exactly while something refers to it, and its refcount is the holders plus the slots. */
  predicate CountedAt(q: Queue, held: multiset<nat>, b: nat) {
    && (b in q.refs <==> held[b] + Slots(q.items, b) > 0)
    && (b in q.refs ==> q.refs[b] == held[b] + Slots(q.items, b))
  }

  ghost predicate Counted(q: Queue, held: multiset<nat>) {
    forall b: nat :: CountedAt(q, held, b)
  }

  lemma CountedKnown(q: Queue, held: multiset<nat>)
    requires Counted(q, held)
    ensures BuffersKnown(q) && forall b <- held :: b in q.refs
  {
    forall i | 0 <= i < |q.items| && q.items[i].Item? ensures q.items[i].buffer in q.refs {
      SlotsPositive(q.items, i);
      assert CountedAt(q, held, q.items[i].buffer);
    }
    forall b | b in held ensures b in q.refs {
      assert CountedAt(q, held, b);
    }
  }

  /** A holder gives its reference back. */
  lemma FreeCounted(q: Queue, held: multiset<nat>, b: nat)
    requires Counted(q, held) && b in held
    ensures b in q.refs && Counted(q.(refs := FreeBuf(q.refs, b)), held - multiset{b})
  {
    CountedKnown(q, held);
    forall c: nat ensures CountedAt(q.(refs := FreeBuf(q.refs, b)), held - multiset{b}, c) {
      assert CountedAt(q, held, c);
    }
  }

  /** The slot's reference passes to whoever extracts. */
  lemma ExtractCounted(q: Queue, held: multiset<nat>)
    requires Counted(q, held)
    ensures var (rest, got) := Extract(q.items);
            Counted(q.(items := rest), if got.Some? then held + multiset{got.value.buffer} else held)
  {
    var (rest, got) := Extract(q.items);
    var q', held' := q.(items := rest), if got.Some? then held + multiset{got.value.buffer} else held;
    forall b: nat ensures CountedAt(q', held', b) {
      assert CountedAt(q, held, b);
      SlotsExtract(q.items, b);
    }
  }

  lemma MakeRoomCounted(q: Queue, held: multiset<nat>, capacity: nat)
    requires Counted(q, held) && (|q.items| == capacity ==> HasLive(q.items))
    ensures BuffersKnown(q) && Counted(MakeRoom(q, capacity), held)
  {
    CountedKnown(q, held);
    if |q.items| == capacity {
      var (rest, got) := Extract(q.items);
      ExtractCounted(q, held);
      FreeCounted(q.(items := rest), held + multiset{got.value.buffer}, got.value.buffer);
      assert held + multiset{got.value.buffer} - multiset{got.value.buffer} == held;
    }
  }

  /** The queue takes its own reference; the caller keeps the one it has. */
  lemma AddCounted(q: Queue, held: multiset<nat>, capacity: nat, item: Item)
    requires Counted(q, held) && (|q.items| == capacity ==> HasLive(q.items)) && item.Item? && item.buffer in held
    ensures Addable(q, capacity, item) && Counted(Add(q, capacity, item), held)
  {
    MakeRoomCounted(q, held, capacity);
    var r := MakeRoom(q, capacity);
    CountedKnown(r, held);
    forall b: nat ensures CountedAt(Add(q, capacity, item), held, b) {
      assert CountedAt(r, held, b);
      SlotsConcat(r.items, [item], b);
      assert [item][..0] == [];
    }
  }

  // ------------------------------------------------------------------ dereferencing a client

  /** What the loop of mbuf_dereference_instance does to one slot. */
  function DerefAt(q: Queue, i: nat, mi: nat): Queue
    requires i < |q.items| && BuffersKnown(q)
  {
    if q.items[i].Item? && q.items[i].instance == mi
    then Queue(q.items[i := Gone], FreeBuf(q.refs, q.items[i].buffer))
    else q
  }

  lemma DerefCounted(q: Queue, held: multiset<nat>, i: nat, mi: nat)
    requires Counted(q, held) && i < |q.items|
    ensures BuffersKnown(q) && Counted(DerefAt(q, i, mi), held)
  {
    CountedKnown(q, held);
    if q.items[i].Item? && q.items[i].instance == mi {
      var b := q.items[i].buffer;
      forall c: nat ensures CountedAt(DerefAt(q, i, mi), held, c) {
        assert CountedAt(q, held, c);
        SlotsUpdate(q.items, i, Gone, c);
      }
    }
  }

  lemma {:induction false} SlotsUpdate(items: seq<Item>, i: nat, item: Item, b: nat)
    requires i < |items|
    ensures Slots(items[i := item], b) == Slots(items, b) - (if items[i].Item? && items[i].buffer == b then 1 else 0)
                                                           + (if item.Item? && item.buffer == b then 1 else 0)
  {
    if i < |items| - 1 {
      assert items[i := item][..|items| - 1] == items[..|items| - 1][i := item];
      SlotsUpdate(items[..|items| - 1], i, item, b);
    } else {
      assert items[i := item][..|items| - 1] == items[..|items| - 1];
    }
  }

  /** mbuf_dereference_instance from slot i on. */
  ghost function Deref(q: Queue, i: nat, mi: nat, held: multiset<nat>): (r: Queue)
    requires Counted(q, held) && i <= |q.items|
    ensures Counted(r, held) && |r.items| == |q.items|
    decreases |q.items| - i
  {
    if i == |q.items| then q
    else
      DerefCounted(q, held, i, mi);
      Deref(DerefAt(q, i, mi), i + 1, mi, held)
  }

  function Forgotten(items: seq<Item>, mi: nat): (r: seq<Item>)
    ensures |r| == |items|
  {
    seq(|items|, i requires 0 <= i < |items| => if items[i].Item? && items[i].instance == mi then Gone else items[i])
  }

  /** Afterwards no slot names the client, and every other slot is as it was, in its place. */
  lemma {:induction false} DerefForgets(q: Queue, i: nat, mi: nat, held: multiset<nat>)
    requires Counted(q, held) && i <= |q.items| && (forall j | 0 <= j < i :: !(q.items[j].Item? && q.items[j].instance == mi))
    ensures Deref(q, i, mi, held).items == Forgotten(q.items, mi)
    decreases |q.items| - i
  {
    if i < |q.items| {
      DerefCounted(q, held, i, mi);
      DerefForgets(DerefAt(q, i, mi), i + 1, mi, held);
    }
  }

  // ------------------------------------------------------------------ first in, first out

  /** The live items, oldest first. */
  function LiveOf(items: seq<Item>): (r: seq<Item>)
    ensures forall i | 0 <= i < |r| :: r[i].Item? && r[i] in items
  {
    if items == [] then []
    else (if items[0].Item? then [items[0]] else []) + LiveOf(items[1..])
  }

  lemma {:induction false} LiveConcat(a: seq<Item>, b: seq<Item>)
    ensures LiveOf(a + b) == LiveOf(a) + LiveOf(b)
  {
    if a == [] {
      assert a + b == b;
    } else {
      assert (a + b)[1..] == a[1..] + b;
      LiveConcat(a[1..], b);
    }
  }

  /** Extracting takes the oldest live item and peeking names its client; dead slots are never seen. */
  lemma {:induction false} ExtractIsFirst(items: seq<Item>)
    ensures var (rest, got) := Extract(items);
            && LiveOf(items) == (if got.Some? then [got.value] + LiveOf(rest) else [])
            && (if got.Some? then Peek(items) == Some(got.value.instance) else Peek(items) == None)
            && rest == items[|items| - |rest|..]
  {
    if items != [] && items[0] == Gone {
      ExtractIsFirst(items[1..]);
      assert items[|items| - |Extract(items).0|..] == items[1..][|items| - 1 - |Extract(items).0|..];
    }
  }

  function Tail<T>(s: seq<T>): seq<T> {
    if s == [] then [] else s[1..]
  }

  /** Adding puts the item last; a full ring loses its oldest live item and nothing else. */
  lemma AddIsLast(q: Queue, capacity: nat, item: Item)
    requires Addable(q, capacity, item)
    ensures LiveOf(Add(q, capacity, item).items)
            == (if |q.items| == capacity then Tail(LiveOf(q.items)) else LiveOf(q.items)) + [item]
    ensures 0 < capacity && |q.items| <= capacity ==> |Add(q, capacity, item).items| <= capacity
  {
    ExtractIsFirst(q.items);
    LiveConcat(MakeRoom(q, capacity).items, [item]);
    assert LiveOf([item]) == [item];
  }

  function Except(items: seq<Item>, mi: nat): seq<Item> {
    if items == [] then []
    else (if items[0].Item? && items[0].instance == mi then [] else [items[0]]) + Except(items[1..], mi)
  }

  /** Dereferencing a client removes its packets from the order and keeps everyone else's. */
  lemma {:induction false} ForgottenOrder(items: seq<Item>, mi: nat)
    ensures LiveOf(Forgotten(items, mi)) == Except(LiveOf(items), mi)
  {
    if items != [] {
      assert Forgotten(items, mi)[1..] == Forgotten(items[1..], mi);
      ForgottenOrder(items[1..], mi);
      var f, live := Forgotten(items, mi), LiveOf(items[1..]);
      assert LiveOf(f) == (if f[0].Item? then [f[0]] + LiveOf(f[1..]) else LiveOf(f[1..]));
      assert LiveOf(items) == if items[0].Item? then [items[0]] + live else live;
      if items[0].Item? {
        assert ([items[0]] + live)[1..] == live;
      }
    }
  }

  // ------------------------------------------------------------------ whole runs

  /** A buffer is made or given back outside the queue; a packet goes in, comes out, or loses its client. */
  datatype Event = Make(b: nat) | Give(b: nat) | Push(b: nat, mi: nat) | Pop | Leave(mi: nat)

  /** The queue with the references held outside it. */
  datatype State = State(queue: Queue, held: multiset<nat>)

  /** What callers keep to: new buffers are new, references are their own, and a full ring has a live packet. */
  predicate Enabled(s: State, capacity: nat, e: Event) {
    match e
    case Make(b) => b !in s.queue.refs
    case Give(b) => b in s.held
    case Push(b, mi) => b in s.held && (|s.queue.items| == capacity ==> HasLive(s.queue.items))
    case Pop => true
    case Leave(mi) => true
  }

  ghost function Next(s: State, capacity: nat, e: Event): (r: State)
    requires Counted(s.queue, s.held) && Enabled(s, capacity, e)
    ensures Counted(r.queue, r.held)
  {
    match e
    case Make(b) => MakeCounted(s.queue, s.held, b); State(s.queue.(refs := s.queue.refs[b := 1]), s.held + multiset{b})
    case Give(b) => FreeCounted(s.queue, s.held, b); State(s.queue.(refs := FreeBuf(s.queue.refs, b)), s.held - multiset{b})
    case Push(b, mi) => AddCounted(s.queue, s.held, capacity, Item(b, mi)); State(Add(s.queue, capacity, Item(b, mi)), s.held)
    case Pop =>
      ExtractCounted(s.queue, s.held);
      var (rest, got) := Extract(s.queue.items);
      State(s.queue.(items := rest), if got.Some? then s.held + multiset{got.value.buffer} else s.held)
    case Leave(mi) => State(Deref(s.queue, 0, mi, s.held), s.held)
  }

  lemma MakeCounted(q: Queue, held: multiset<nat>, b: nat)
    requires Counted(q, held) && b !in q.refs
    ensures Counted(q.(refs := q.refs[b := 1]), held + multiset{b})
  {
    var q', held' := q.(refs := q.refs[b := 1]), held + multiset{b};
    assert CountedAt(q, held, b);
    forall c: nat ensures CountedAt(q', held', c) {
      assert CountedAt(q, held, c);
    }
  }

  /** mbuf_init. */
  function Start(): (s: State)
    ensures Counted(s.queue, s.held)
  {
    State(Queue([], map[]), multiset{})
  }

  /** Every event of the run is enabled when it comes. */
  ghost predicate IsRun(s: State, capacity: nat, es: seq<Event>)
    requires Counted(s.queue, s.held)
    decreases |es|
  {
    es == [] || (Enabled(s, capacity, es[0]) && IsRun(Next(s, capacity, es[0]), capacity, es[1..]))
  }

  ghost function After(s: State, capacity: nat, es: seq<Event>): (r: State)
    requires Counted(s.queue, s.held) && IsRun(s, capacity, es)
    ensures Counted(r.queue, r.held)
    decreases |es|
  {
    if es == [] then s else After(Next(s, capacity, es[0]), capacity, es[1..])
  }

  /**
    Over every run from an empty queue, a buffer is allocated exactly while somebody holds it or a
    slot refers to it, and its refcount is their number: none leaks, none is freed too early.
  */
  lemma RefcountsExact(capacity: nat, es: seq<Event>, b: nat)
    requires IsRun(Start(), capacity, es)
    ensures var s := After(Start(), capacity, es);
            && (b in s.queue.refs <==> s.held[b] + Slots(s.queue.items, b) > 0)
            && (b in s.queue.refs ==> s.queue.refs[b] == s.held[b] + Slots(s.queue.items, b))
  {
    var s := After(Start(), capacity, es);
    assert CountedAt(s.queue, s.held, b);
  }

  // ------------------------------------------------------------------ order over whole runs

  /** What a run puts in, and what comes out of it live, in order. */
  function Pushed(es: seq<Event>): seq<Item> {
    if es == [] then [] else In(es[0]) + Pushed(es[1..])
  }

  ghost function Popped(s: State, capacity: nat, es: seq<Event>): seq<Item>
    requires Counted(s.queue, s.held) && IsRun(s, capacity, es)
    decreases |es|
  {
    if es == [] then []
    else Out(s, es[0]) + Popped(Next(s, capacity, es[0]), capacity, es[1..])
  }

  /** a is b with some elements left out. */
  predicate Within(a: seq<Item>, b: seq<Item>)
    decreases |b|
  {
    a == [] || (b != [] && ((a[0] == b[0] && Within(a[1..], b[1..])) || Within(a, b[1..])))
  }

  lemma {:induction false} WithinSelf(a: seq<Item>)
    ensures Within(a, a)
  {
    if a != [] {
      WithinSelf(a[1..]);
    }
  }

  lemma {:induction false} WithinTrans(a: seq<Item>, b: seq<Item>, c: seq<Item>)
    requires Within(a, b) && Within(b, c)
    ensures Within(a, c)
    decreases |b| + |c|
  {
    if a != [] && b != [] {
      if b[0] == c[0] && Within(b[1..], c[1..]) {
        if a[0] == b[0] && Within(a[1..], b[1..]) {
          WithinTrans(a[1..], b[1..], c[1..]);
        } else {
          WithinTrans(a, b[1..], c[1..]);
        }
      } else {
        WithinTrans(a, b, c[1..]);
      }
    }
  }

  /** Leaving out some of a front part. */
  lemma {:induction false} WithinFront(a: seq<Item>, b: seq<Item>, tail: seq<Item>)
    requires Within(a, b)
    ensures Within(a + tail, b + tail)
    decreases |b|
  {
    if b == [] {
      assert a + tail == tail && b + tail == tail;
      WithinSelf(tail);
    } else {
      assert (b + tail)[1..] == b[1..] + tail;
      if a != [] && a[0] == b[0] && Within(a[1..], b[1..]) {
        assert (a + tail)[1..] == a[1..] + tail;
        WithinFront(a[1..], b[1..], tail);
      } else {
        EmptyWithin(b[1..]);
        WithinFront(a, b[1..], tail);
      }
    }
  }

  lemma EmptyWithin(b: seq<Item>)
    ensures Within([], b)
  {
  }

  lemma {:induction false} ExceptWithin(items: seq<Item>, mi: nat)
    ensures Within(Except(items, mi), items)
  {
    if items != [] {
      ExceptWithin(items[1..], mi);
      if items[0].Item? && items[0].instance == mi {
        assert Except(items, mi) == Except(items[1..], mi);
      } else {
        assert Except(items, mi)[1..] == Except(items[1..], mi);
      }
    }
  }

  lemma TailWithin(items: seq<Item>)
    ensures Within(Tail(items), items)
  {
    if items != [] {
      WithinSelf(Tail(items));
    }
  }

  /** What an event lets out. */
  function Out(s: State, e: Event): seq<Item> {
    if e.Pop? && Extract(s.queue.items).1.Some? then [Extract(s.queue.items).1.value] else []
  }

  function In(e: Event): seq<Item> {
    if e.Push? then [Item(e.b, e.mi)] else []
  }

  lemma PushOrder(q: Queue, held: multiset<nat>, capacity: nat, b: nat, mi: nat)
    requires Counted(q, held) && b in held && (|q.items| == capacity ==> HasLive(q.items))
    ensures Addable(q, capacity, Item(b, mi))
    ensures Within(LiveOf(Add(q, capacity, Item(b, mi)).items), LiveOf(q.items) + [Item(b, mi)])
  {
    hide Within, Add, LiveOf;
    AddCounted(q, held, capacity, Item(b, mi));
    AddIsLast(q, capacity, Item(b, mi));
    var live := LiveOf(q.items);
    TailWithin(live);
    WithinSelf(live);
    WithinFront(if |q.items| == capacity then Tail(live) else live, live, [Item(b, mi)]);
  }

  lemma PopOrder(items: seq<Item>)
    ensures var (rest, got) := Extract(items);
            Within((if got.Some? then [got.value] else []) + LiveOf(rest), LiveOf(items))
  {
    hide Within;
    ExtractIsFirst(items);
    WithinSelf(LiveOf(items));
    if Extract(items).1.None? {
      assert LiveOf([]) == [] && [] + LiveOf([]) == [];
      EmptyWithin(LiveOf(items));
    }
  }

  lemma LeaveOrder(q: Queue, held: multiset<nat>, mi: nat)
    requires Counted(q, held)
    ensures Within(LiveOf(Deref(q, 0, mi, held).items), LiveOf(q.items))
  {
    hide Within, Counted;
    DerefForgets(q, 0, mi, held);
    ForgottenOrder(q.items, mi);
    ExceptWithin(LiveOf(q.items), mi);
  }

  /** One event: what was live before and is put in now covers what comes out and is live after. */
  lemma StepOrder(s: State, capacity: nat, e: Event)
    requires Counted(s.queue, s.held) && Enabled(s, capacity, e)
    ensures Within(Out(s, e) + LiveOf(Next(s, capacity, e).queue.items), LiveOf(s.queue.items) + In(e))
  {
    hide Within, LiveOf, Counted, Add, Deref;
    var live := LiveOf(s.queue.items);
    Units(live);
    Units(LiveOf(Next(s, capacity, e).queue.items));
    match e
    case Make(b) => WithinSelf(live);
    case Give(b) => WithinSelf(live);
    case Push(b, mi) => PushOrder(s.queue, s.held, capacity, b, mi);
    case Pop => PopOrder(s.queue.items);
    case Leave(mi) => LeaveOrder(s.queue, s.held, mi);
  }

  lemma Units(x: seq<Item>)
    ensures x + [] == x && [] + x == x
  {
  }

  /** Two stretches of a run one after the other. */
  lemma ChainOrder(out: seq<Item>, rest: seq<Item>, live': seq<Item>, more: seq<Item>, live: seq<Item>, first: seq<Item>)
    requires Within(rest, live' + more) && Within(out + live', live + first)
    ensures Within(out + rest, live + (first + more))
  {
    hide Within;
    WithinBehind(out, rest, live' + more);
    WithinFront(out + live', live + first, more);
    assert out + (live' + more) == out + live' + more;
    assert live + first + more == live + (first + more);
    WithinTrans(out + rest, out + live' + more, live + (first + more));
  }

  lemma RunSplit(s: State, capacity: nat, es: seq<Event>)
    requires Counted(s.queue, s.held) && IsRun(s, capacity, es) && es != []
    ensures var s' := Next(s, capacity, es[0]);
            && IsRun(s', capacity, es[1..])
            && Pushed(es) == In(es[0]) + Pushed(es[1..])
            && After(s, capacity, es) == After(s', capacity, es[1..])
            && forall end: seq<Item> :: Popped(s, capacity, es) + end == Out(s, es[0]) + (Popped(s', capacity, es[1..]) + end)
  {
    hide Next, Enabled, Extract;
  }

  /**
    First in, first out over every run: the live items that come out, followed by those still in,
    are the items put in, in that order, with drops and departed clients' items left out.
  */
  lemma {:induction false} PopsInOrder(s: State, capacity: nat, es: seq<Event>)
    requires Counted(s.queue, s.held) && IsRun(s, capacity, es)
    ensures Within(Popped(s, capacity, es) + LiveOf(After(s, capacity, es).queue.items), LiveOf(s.queue.items) + Pushed(es))
    decreases |es|
  {
    hide Next, Enabled, LiveOf, Extract, Within, Counted, Out, In;
    if es == [] {
      Units(LiveOf(s.queue.items));
      WithinSelf(LiveOf(s.queue.items));
    } else {
      RunSplit(s, capacity, es);
      var s' := Next(s, capacity, es[0]);
      var end := LiveOf(After(s', capacity, es[1..]).queue.items);
      PopsInOrder(s', capacity, es[1..]);
      StepOrder(s, capacity, es[0]);
      ChainOrder(Out(s, es[0]), Popped(s', capacity, es[1..]) + end, LiveOf(s'.queue.items), Pushed(es[1..]),
                 LiveOf(s.queue.items), In(es[0]));
    }
  }

  lemma {:induction false} WithinBehind(front: seq<Item>, a: seq<Item>, b: seq<Item>)
    requires Within(a, b)
    ensures Within(front + a, front + b)
    decreases |front|
  {
    if front == [] {
      assert front + a == a && front + b == b;
    } else {
      assert (front + a)[1..] == front[1..] + a && (front + b)[1..] == front[1..] + b;
      WithinBehind(front[1..], a, b);
    }
  }

  // ------------------------------------------------------------------ where the assertion fails

  /** One packet for client mi fills a ring of one slot; then the client leaves. */
  function FillAndLeave(mi: nat): seq<Event> {
    [Make(0), Push(0, mi), Leave(mi)]
  }

  /**
    mbuf_add_item asserts that a full ring gives up a live packet.  From an empty queue a run can
    fill the ring and lose the client, so that no packet can be added: the assertion then fails.
  */
  lemma FullOfDeadSlots(mi: nat)
    ensures IsRun(Start(), 1, FillAndLeave(mi))
    ensures var s := After(Start(), 1, FillAndLeave(mi));
            |s.queue.items| == 1 && !HasLive(s.queue.items) && 0 in s.held && !Enabled(s, 1, Push(0, mi))
  {
    hide Counted, IsRun, After;
    var es := FillAndLeave(mi);
    var s1 := Next(Start(), 1, es[0]);
    assert s1.queue.items == [] && 0 in s1.held;
    var s2 := Next(s1, 1, Push(0, mi));
    assert s2.queue.items == [Item(0, mi)] && s2.held == s1.held;
    var s3 := Next(s2, 1, Leave(mi));
    DerefForgets(s2.queue, 0, mi, s2.held);
    assert s3.queue.items == [Gone] && s3.held == s1.held;
    assert [Make(0)] + es[1..] == es && [Push(0, mi)] + es[2..] == es[1..] && [Leave(mi)] + [] == es[2..];
    OneMore(s2, 1, Leave(mi), []);
    OneMore(s1, 1, Push(0, mi), es[2..]);
    OneMore(Start(), 1, Make(0), es[1..]);
  }

  lemma OneMore(s: State, capacity: nat, e: Event, es: seq<Event>)
    requires Counted(s.queue, s.held) && Enabled(s, capacity, e)
    requires es == [] || IsRun(Next(s, capacity, e), capacity, es)
    ensures IsRun(Next(s, capacity, e), capacity, es) && IsRun(s, capacity, [e] + es)
    ensures After(s, capacity, [e] + es) == After(Next(s, capacity, e), capacity, es)
    ensures es == [] ==> After(s, capacity, [e] + es) == Next(s, capacity, e)
  {
    hide Next, Enabled, Counted;
    assert ([e] + es)[1..] == es;
  }
}
