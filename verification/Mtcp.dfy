/** The two halves of TCP deferral as they move packets between to_link, the queue and the socket. */
module Mtcp {
  import opened MbufModel
  import opened Mbuf
  import opened MtcpModel

  /** The part of struct multi_instance that TCP deferral works on; `written` is what the socket took. */
  class TcpInstance {
    const mi: nat
    const deferred: MbufSet
    var written: seq<nat>
    var next: nat

    ghost predicate Sound()
      reads this, deferred, deferred.slots, deferred.heap.Values
    {
      deferred.Valid() && MtcpModel.Valid(View(), mi, deferred.capacity)
    }

    ghost function View(): Client
      requires deferred.Valid()
      reads this, deferred, deferred.slots, deferred.heap.Values
    {
      Client(deferred.View(), written, next)
    }

    /** multi_tcp_instance_specific_init. */
    constructor (mi: nat, limit: nat)
      requires 0 < limit
      ensures Sound() && View() == Fresh(mi, limit)
    {
      this.mi, written, next := mi, [], 0;
      deferred := new MbufSet(limit);
      new;
      assert View() == Fresh(mi, limit);
    }

    /** The deferring branch of multi_tcp_process_outgoing_link. */
    method Save()
      requires Sound()
      modifies deferred, deferred.slots, deferred.heap.Values
      ensures deferred.Valid() && Savable(old(deferred.View()), next, mi, deferred.capacity)
      ensures deferred.View() == Saved(old(deferred.View()), next, mi, deferred.capacity)
    {
      hide Counted, FreeBuf, MbufModel.Add, Addable, MbufSet.Valid, Increasing, Below;
      ghost var q := deferred.View();
      NewPacket(View(), mi, deferred.capacity);
      SaveCounted(q, next, mi, deferred.capacity);
      var mb := deferred.AllocBuffer(next);
      deferred.AddItem(mb, mi, multiset{next});
      deferred.GiveBack(mb, multiset{next});
    }

    /** multi_tcp_process_outgoing_link for the packet numbered next. */
    method ProcessOutgoingLink(defer: bool, empty: bool)
      requires Sound()
      modifies this, deferred, deferred.slots, deferred.heap.Values
      ensures Sound() && View() == Step(old(View()), Outgoing(defer, empty), mi, deferred.capacity)
    {
      hide Counted, MbufSet.Valid, Increasing, Below, Savable, Saved;
      OutgoingKeeps(View(), defer, empty, mi, deferred.capacity);
      if defer || deferred.len > 0 {
        if !empty {
          Save();
          next := next + 1;
        }
      } else if !empty {
        written := written + [next];
        next := next + 1;
      }
    }

    /** multi_tcp_process_outgoing_link_ready; the extracted packet is the client's own, as asserted. */
    method ProcessOutgoingLinkReady()
      requires Sound()
      modifies this, deferred, deferred.heap.Values
      ensures Sound() && View() == Step(old(View()), Ready, mi, deferred.capacity)
    {
      hide Counted, MbufSet.Valid, Increasing, Below, FreeBuf;
      ReadyKeeps(View(), mi, deferred.capacity);
      ExtractOwn(deferred.View().items, mi);
      ExtractCounted(deferred.View(), multiset{});
      var item := deferred.ExtractItem();
      if item.instance.Some? {
        assert item.instance.value == mi;
        written := written + [item.buffer.id];
        assert multiset{} + multiset{item.buffer.id} == multiset{item.buffer.id};
        deferred.GiveBack(item.buffer, multiset{item.buffer.id});
      }
    }
  }
}
