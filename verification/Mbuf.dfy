/** struct mbuf_set as the ring it is, holding real packet buffers with their reference counts. */
module Mbuf {
  import opened Options
  import opened IntegerOps
  import opened MbufModel

  /** struct mbuf_buffer; buffers are named by the order of their allocation. */
  class MbufBuffer {
    const id: nat
    var refcount: int

    constructor (id: nat)
      ensures this.id == id && refcount == 1
    {
      this.id, refcount := id, 1;
    }
  }

  /** struct mbuf_item. */
  datatype Slot = Slot(buffer: MbufBuffer?, instance: Option<nat>)

  const EMPTY := Slot(null, None)

  function RefsOf(heap: map<nat, MbufBuffer>): (r: Refs)
    reads heap.Values
    ensures r.Keys == heap.Keys
  {
    map id | id in heap :: heap[id].refcount
  }

  ghost function Shown(s: Slot): Item {
    if s.buffer != null && s.instance.Some? then Item(s.buffer.id, s.instance.value) else Gone
  }

  /** MBUF_INDEX; the capacity is a power of 2, so the mask is the remainder. */
  function Index(head: nat, offset: nat, capacity: nat): nat
    requires 0 < capacity
  {
    (head + offset) % capacity
  }

  lemma IndexIs(head: nat, offset: nat, capacity: nat)
    requires head < capacity && offset <= capacity
    ensures Index(head, offset, capacity) == if head + offset < capacity then head + offset else head + offset - capacity
  {
    if head + offset < capacity {
      Below(0, head + offset, capacity);
    } else {
      Below(1, head + offset - capacity, capacity);
    }
  }

  /** What the ring shows, oldest first. */
  function Ring(a: seq<Slot>, head: nat, len: nat): (r: seq<Slot>)
    requires head < |a| && len <= |a|
    ensures |r| == len
  {
    seq(len, i requires 0 <= i < len => a[Index(head, i, |a|)])
  }

  lemma RingPush(a: seq<Slot>, head: nat, len: nat, s: Slot)
    requires head < |a| && len < |a|
    ensures Ring(a[Index(head, len, |a|) := s], head, len + 1) == Ring(a, head, len) + [s]
  {
    IndexIs(head, len, |a|);
    forall i | 0 <= i < len ensures Index(head, i, |a|) != Index(head, len, |a|) {
      IndexIs(head, i, |a|);
    }
  }

  lemma RingPop(a: seq<Slot>, head: nat, len: nat)
    requires head < |a| && 0 < len <= |a|
    ensures Index(head, 1, |a|) < |a|
    ensures Ring(a, Index(head, 1, |a|), len - 1) == Ring(a, head, len)[1..] && Ring(a, head, len)[0] == a[head]
  {
    IndexIs(head, 1, |a|);
    IndexIs(head, 0, |a|);
    forall i | 0 <= i < len - 1 ensures Index(Index(head, 1, |a|), i, |a|) == Index(head, i + 1, |a|) {
      IndexIs(Index(head, 1, |a|), i, |a|);
      IndexIs(head, i + 1, |a|);
    }
  }

  lemma RingSet(a: seq<Slot>, head: nat, len: nat, i: nat, s: Slot)
    requires head < |a| && i < len <= |a|
    ensures Ring(a[Index(head, i, |a|) := s], head, len) == Ring(a, head, len)[i := s]
  {
    IndexIs(head, i, |a|);
    forall j | 0 <= j < len && j != i ensures Index(head, j, |a|) != Index(head, i, |a|) {
      IndexIs(head, j, |a|);
    }
  }

  ghost function ShownAll(slots: seq<Slot>): (r: seq<Item>)
    ensures |r| == |slots|
  {
    seq(|slots|, i requires 0 <= i < |slots| => Shown(slots[i]))
  }

  lemma ShownWithout(slots: seq<Slot>, i: nat)
    requires i < |slots|
    ensures ShownAll(slots[i := EMPTY]) == ShownAll(slots)[i := Gone]
  {
  }

  class MbufSet {
    const capacity: nat
    const slots: array<Slot>
    var head: nat
    var len: nat
    var maxQueued: nat

    /** The buffers that are allocated, by number. */
    ghost var heap: map<nat, MbufBuffer>

    ghost predicate Valid()
      reads this, slots
    {
      && 0 < capacity == slots.Length
      && head < capacity && len <= capacity
      && (forall b <- heap :: heap[b].id == b)
      && (forall i | 0 <= i < len :: SlotOk(Ring(slots[..], head, len)[i]))
    }

    /** A slot holds an allocated buffer and a client, or neither. */
    ghost predicate SlotOk(s: Slot)
      reads this
    {
      (s.buffer == null && s.instance == None)
      || (s.buffer != null && s.instance.Some? && s.buffer.id in heap && heap[s.buffer.id] == s.buffer)
    }

    ghost function View(): Queue
      requires Valid()
      reads this, slots, heap.Values
    {
      Queue(ShownAll(Ring(slots[..], head, len)), RefsOf(heap))
    }

    /** mbuf_init, for a capacity already rounded up to a power of 2. */
    constructor (capacity: nat)
      requires 0 < capacity
      ensures Valid() && View() == Queue([], map[]) && this.capacity == capacity && fresh(slots)
    {
      this.capacity, head, len, maxQueued, heap := capacity, 0, 0, 0, map[];
      slots := new Slot[capacity](_ => EMPTY);
    }

    /** mbuf_free_buf: the last reference frees. */
    method FreeBuffer(mb: MbufBuffer)
      requires mb.id in heap && heap[mb.id] == mb && forall b <- heap :: heap[b].id == b
      modifies `heap, mb
      ensures RefsOf(heap) == FreeBuf(old(RefsOf(heap)), mb.id)
      ensures forall b <- heap :: b in old(heap) && heap[b] == old(heap)[b]
    {
      mb.refcount := mb.refcount - 1;
      assert RefsOf(heap) == old(RefsOf(heap))[mb.id := old(mb.refcount) - 1];
      if mb.refcount <= 0 {
        heap := heap - {mb.id};
      }
    }

    /** What the head of the ring shows, and what is left without it. */
    lemma Popped()
      requires Valid() && len > 0
      ensures Index(head, 1, capacity) < capacity
      ensures Ring(slots[..], head, len)[0] == slots[head]
      ensures Ring(slots[..], Index(head, 1, capacity), len - 1) == Ring(slots[..], head, len)[1..]
      ensures View().items[0] == Shown(slots[head]) && SlotOk(slots[head])
      ensures ShownAll(Ring(slots[..], head, len)[1..]) == View().items[1..]
    {
      RingPop(slots[..], head, len);
    }

    /** mbuf_extract_item. */
    method ExtractItem() returns (item: Slot)
      requires Valid()
      modifies `head, `len
      ensures Valid() && SlotOk(item)
      ensures View() == old(View()).(items := Extract(old(View()).items).0)
      ensures Shown(item) == match Extract(old(View()).items).1 case Some(i) => i case None => Gone
    {
      hide Index, Ring, ShownAll;
      item := EMPTY;
      while len > 0
        invariant Valid() && View().refs == old(View()).refs
        invariant Extract(View().items) == Extract(old(View()).items)
        invariant item == EMPTY
      {
        Popped();
        ghost var ring := Ring(slots[..], head, len);
        item := slots[head];
        head := Index(head, 1, capacity);
        len := len - 1;
        assert Ring(slots[..], head, len) == ring[1..];
        if item.instance.Some? {
          return;
        }
      }
      assert View().items == [];
    }

    /** mbuf_alloc_buf: a new buffer, held by its maker. */
    method AllocBuffer(id: nat) returns (mb: MbufBuffer)
      requires Valid() && id !in heap
      modifies `heap
      ensures Valid() && fresh(mb) && mb.id == id && heap == old(heap)[id := mb]
      ensures View() == old(View()).(refs := old(View()).refs[id := 1])
    {
      hide Index, Ring, ShownAll;
      mb := new MbufBuffer(id);
      heap := heap[id := mb];
      assert RefsOf(heap) == old(RefsOf(heap))[id := 1];
    }

    /** With every slot's buffer still allocated the ring stays in order. */
    twostate lemma StillValid()
      requires old(Valid()) && unchanged(slots) && head == old(head) && len == old(len)
      requires forall b <- heap :: b in old(heap) && heap[b] == old(heap)[b]
      requires BuffersKnown(Queue(ShownAll(Ring(slots[..], head, len)), RefsOf(heap)))
      ensures Valid() && View().items == old(View()).items
    {
      forall i | 0 <= i < len ensures SlotOk(Ring(slots[..], head, len)[i]) {
        assert ShownAll(Ring(slots[..], head, len))[i] == Shown(Ring(slots[..], head, len)[i]);
        assert old(SlotOk(Ring(slots[..], head, len)[i]));
      }
    }

    /** mbuf_free_buf by a holder outside the queue. */
    method GiveBack(mb: MbufBuffer, ghost held: multiset<nat>)
      requires Valid() && Counted(View(), held) && mb.id in held && mb.id in heap && heap[mb.id] == mb
      modifies `heap, mb
      ensures Valid() && View() == old(View()).(refs := FreeBuf(old(View()).refs, mb.id))
      ensures forall b <- heap :: b in old(heap) && heap[b] == old(heap)[b]
    {
      hide Index, Ring, ShownAll, Counted, FreeBuf;
      FreeCounted(View(), held, mb.id);
      CountedKnown(View().(refs := FreeBuf(View().refs, mb.id)), held - multiset{mb.id});
      FreeBuffer(mb);
      StillValid();
    }

    /** The overflow branch of mbuf_add_item. */
    method DropOldest(ghost held: multiset<nat>)
      requires Valid() && Counted(View(), held) && len == capacity && HasLive(View().items)
      modifies `head, `len, `heap, heap.Values
      ensures Valid() && len < capacity && View() == MakeRoom(old(View()), capacity)
      ensures forall b <- heap :: b in old(heap) && heap[b] == old(heap)[b]
    {
      hide Index, Ring, ShownAll, Counted;
      ghost var q := View();
      MakeRoomCounted(q, held, capacity);
      var rm := ExtractItem();
      label extracted:
      ghost var items := View().items;
      FreeBuffer(rm.buffer);
      assert Queue(items, RefsOf(heap)) == MakeRoom(q, capacity);
      CountedKnown(MakeRoom(q, capacity), held);
      StillValid@extracted();
    }

    /** mbuf_add_item; its assertion that a full ring gives an item up is a precondition. */
    method AddItem(mb: MbufBuffer, instance: nat, ghost held: multiset<nat>)
      requires Valid() && Counted(View(), held) && mb.id in heap && heap[mb.id] == mb
      requires Addable(View(), capacity, Item(mb.id, instance))
      modifies this, slots, heap.Values
      ensures Valid() && View() == Add(old(View()), capacity, Item(mb.id, instance))
      ensures maxQueued == if len > old(maxQueued) then len else old(maxQueued)
      ensures mb.id in heap && forall b <- heap :: b in old(heap) && heap[b] == old(heap)[b]
    {
      hide Index, Ring, ShownAll, Counted, FreeBuf;
      if len == capacity {
        DropOldest(held);
      }
      Append(mb, instance);
    }

    method Append(mb: MbufBuffer, instance: nat)
      requires Valid() && len < capacity && mb.id in heap && heap[mb.id] == mb
      modifies slots, `len, `maxQueued, mb
      ensures heap == old(heap)
      ensures Valid() && View() == Queue(old(View()).items + [Item(mb.id, instance)], old(View()).refs[mb.id := old(View()).refs[mb.id] + 1])
      ensures len == old(len) + 1 && maxQueued == if len > old(maxQueued) then len else old(maxQueued)
    {
      hide Index, Ring, RefsOf;
      ghost var ring := Ring(slots[..], head, len);
      RingPush(slots[..], head, len, Slot(mb, Some(instance)));
      IndexIs(head, len, capacity);
      slots[Index(head, len, capacity)] := Slot(mb, Some(instance));
      len := len + 1;
      if len > maxQueued {
        maxQueued := len;
      }
      mb.refcount := mb.refcount + 1;
      assert Ring(slots[..], head, len) == ring + [Slot(mb, Some(instance))];
      OneMore(mb);
    }

    twostate lemma OneMore(mb: MbufBuffer)
      requires heap == old(heap) && mb.id in heap && heap[mb.id] == mb && forall b <- heap :: heap[b].id == b
      requires mb.refcount == old(mb.refcount) + 1 && forall b <- heap :: b != mb.id ==> unchanged(heap[b])
      ensures RefsOf(heap) == old(RefsOf(heap))[mb.id := old(RefsOf(heap))[mb.id] + 1]
    {
    }

    /** mbuf_peek_dowork. */
    method PeekInstance() returns (ret: Option<nat>)
      requires Valid()
      ensures ret == Peek(View().items)
    {
      hide Ring, ShownAll, Index;
      var i := 0;
      while i < len
        invariant 0 <= i <= len && Peek(View().items) == Peek(View().items[i..])
      {
        Slotted(i);
        assert View().items[i..][0] == View().items[i] && View().items[i..][1..] == View().items[i + 1..];
        if slots[Index(head, i, capacity)].instance.Some? {
          return slots[Index(head, i, capacity)].instance;
        }
        i := i + 1;
      }
      assert View().items[i..] == [];
      ret := None;
    }

    /** Slot i of the ring is item i of the view. */
    lemma Slotted(i: nat)
      requires Valid() && i < len
      ensures Index(head, i, capacity) < capacity
      ensures var s := slots[Index(head, i, capacity)];
              SlotOk(s) && Ring(slots[..], head, len)[i] == s && View().items[i] == Shown(s)
    {
      IndexIs(head, i, capacity);
      assert SlotOk(Ring(slots[..], head, len)[i]);
    }

    /** The loop body of mbuf_dereference_instance. */
    method Forget(i: nat, mi: nat, ghost held: multiset<nat>)
      requires Valid() && Counted(View(), held) && BuffersKnown(View()) && i < len
      modifies `heap, heap.Values, slots
      ensures Valid() && View() == DerefAt(old(View()), i, mi)
      ensures forall b <- heap :: b in old(heap) && heap[b] == old(heap)[b]
    {
      hide Index, Counted, FreeBuf;
      ghost var q := View();
      DerefCounted(q, held, i, mi);
      Slotted(i);
      var item := slots[Index(head, i, capacity)];
      if item.instance == Some(mi) {
        CountedKnown(DerefAt(q, i, mi), held);
        ghost var ring := Ring(slots[..], head, len);
        RingSet(slots[..], head, len, i, EMPTY);
        FreeBuffer(item.buffer);
        slots[Index(head, i, capacity)] := EMPTY;
        ghost var ring' := Ring(slots[..], head, len);
        assert ring' == ring[i := EMPTY];
        ShownWithout(ring, i);
        forall j | 0 <= j < len ensures SlotOk(ring'[j]) {
          assert DerefAt(q, i, mi).items[j] == Shown(ring'[j]);
        }
      }
    }

    /** mbuf_dereference_instance. */
    method DereferenceInstance(mi: nat, ghost held: multiset<nat>)
      requires Valid() && Counted(View(), held)
      modifies `heap, heap.Values, slots
      ensures Valid() && View() == Deref(old(View()), 0, mi, held)
      ensures View().items == Forgotten(old(View()).items, mi) && Counted(View(), held)
    {
      hide Index, Counted, FreeBuf, Ring, ShownAll, DerefAt;
      DerefForgets(View(), 0, mi, held);
      var i := 0;
      while i < len
        invariant Valid() && Counted(View(), held) && 0 <= i <= len
        invariant Deref(View(), i, mi, held) == Deref(old(View()), 0, mi, held)
        invariant forall b <- heap :: b in old(heap) && heap[b] == old(heap)[b]
      {
        CountedKnown(View(), held);
        DerefCounted(View(), held, i, mi);
        Forget(i, mi, held);
        i := i + 1;
      }
    }
  }
}
