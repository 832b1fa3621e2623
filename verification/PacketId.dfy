/** The receiving side of packet_id.c, updating its record and circular list in place. */
module PacketIds {
  import opened CircularList
  import opened ReplayModel

  class PacketIdRec {
    var lastReap: int
    var time: nat
    var id: PacketId
    const seqBacktrack: nat
    const timeBacktrack: nat
    const seqList: CircList?

    ghost predicate Valid()
      reads this, seqList, if seqList != null then {seqList.list} else {}
    {
      && Configured(seqBacktrack, timeBacktrack)
      && (seqBacktrack == 0 <==> seqList == null)
      && (seqList != null ==> seqList.Valid() && seqList.cap == seqBacktrack)
    }

    ghost function View(): Rec
      requires Valid()
      reads this, seqList, if seqList != null then {seqList.list} else {}
    {
      Rec(time, id, if seqList == null then [] else seqList.items, seqBacktrack, timeBacktrack, lastReap)
    }

    /** The objects a record may write. */
    ghost function Footprint(): set<object>
      reads this
    {
      if seqList == null then {this} else {this, seqList, seqList.list}
    }

    /** packet_id_init; a window of 0 selects strict mode and leaves both limits clear. */
    constructor (seq_backtrack: nat, time_backtrack: nat)
      requires seq_backtrack <= MAX_SEQ_BACKTRACK && time_backtrack <= MAX_TIME_BACKTRACK
      ensures Valid() && fresh(Footprint())
      ensures View() == Init(seq_backtrack, if seq_backtrack == 0 then 0 else time_backtrack)
    {
      lastReap, time, id := 0, 0, 0;
      if seq_backtrack != 0 {
        seqList := new CircList(seq_backtrack);
        seqBacktrack := seq_backtrack;
        timeBacktrack := time_backtrack;
      } else {
        seqList := null;
        seqBacktrack := 0;
        timeBacktrack := 0;
      }
    }

    /** The push loop of packet_id_add: one unseen slot for every id up to `top`. */
    method SlideTo(top: PacketId) returns (ghost pushes: nat)
      requires Valid() && seqList != null
      modifies `id, seqList, seqList.list
      ensures Valid()
      ensures id == (if old(id) < top then top else old(id)) && pushes == id - old(id)
      ensures seqList.items == Slid(old(seqList.items), pushes, seqBacktrack)
    {
      pushes := 0;
      ghost var win := seqList.items;
      while id < top
        invariant Valid() && old(id) <= id && (id <= top || id == old(id))
        invariant pushes == id - old(id)
        invariant seqList.items == Slid(win, pushes, seqBacktrack)
      {
        SlidPush(win, pushes, seqBacktrack);
        seqList.Push(SEQ_UNSEEN);
        id := id + 1;
        pushes := pushes + 1;
      }
    }

    /** packet_id_add; `pushes` counts the slots it moves the window by. */
    method AddPacket(pin: Pin, now: int) returns (ghost pushes: nat)
      requires Valid()
      modifies Footprint()
      ensures Valid()
      ensures View() == Add(old(View()), pin, now)
      ensures pushes <= seqBacktrack
    {
      hide CircList.Valid, Slid;
      pushes := 0;
      if seqList != null {
        if seqList.size == 0
           || pin.time > time
           || (pin.id >= seqBacktrack && pin.id - seqBacktrack > id)
        {
          time := pin.time;
          id := 0;
          if pin.id > seqBacktrack {
            id := pin.id - seqBacktrack;
          }
          seqList.Reset();
        }
        assert View() == Rebased(old(View()), pin);
        pushes := SlideTo(pin.id);
        assert View() == Advanced(Rebased(old(View()), pin), pin.id);
        var diff := id - pin.id;
        if diff < seqList.size && now > SEQ_EXPIRED {
          seqList.SetItem(diff, now);
        }
      } else {
        time := pin.time;
        id := pin.id;
      }
    }

    /** The scan inside packet_id_reap. */
    static method ExpireMarks(list: CircList, tb: nat, now: int)
      requires list.Valid()
      modifies list, list.list
      ensures list.Valid() && list.items == EarlyScan(old(list.items), false, tb, now)
    {
      var i := 0;
      var expire := false;
      ghost var win := list.items;
      ghost var scanned := EarlyScan(win, false, tb, now);
      assert win[0..] == win && scanned[0..] == scanned;
      while i < list.size
        invariant list.Valid() && 0 <= i <= list.size == |win|
        invariant ScanRest(win, scanned, i, expire, tb, now)
        invariant forall k | 0 <= k < |win| :: list.items[k] == if k < i then scanned[k] else win[k]
      {
        var t := list.Item(i);
        if t == SEQ_EXPIRED {
          break;
        }
        ScanStep(win, scanned, i, expire, tb, now);
        if !expire && t != 0 && t + tb < now {
          expire := true;
        }
        if expire {
          list.SetItem(i, SEQ_EXPIRED);
        }
        i := i + 1;
      }
      ScanEnds(win, scanned, i, expire, tb, now);
    }

    /** packet_id_reap. */
    method ReapExpired(now: int)
      requires Valid()
      modifies Footprint()
      ensures Valid() && View() == Reap(old(View()), now)
    {
      if timeBacktrack != 0 {
        ExpireMarks(seqList, timeBacktrack, now);
      }
      lastReap := now;
    }

    /** packet_id_reap_test. */
    method ReapIfDue(now: int)
      requires Valid()
      modifies Footprint()
      ensures Valid() && View() == ReapTest(old(View()), now)
    {
      if lastReap + SEQ_REAP_INTERVAL <= now {
        ReapExpired(now);
      }
    }

    /** packet_id_test. */
    method TestPacket(pin: Pin) returns (ok: bool)
      requires Valid()
      ensures ok == Test(View(), pin)
    {
      if pin.id == 0 {
        return false;
      }
      if seqBacktrack != 0 {
        if pin.time == time {
          if pin.id > id {
            return true;
          }
          var diff := id - pin.id;
          if diff >= seqList.size {
            return false;
          }
          var mark := seqList.Item(diff);
          return mark == SEQ_UNSEEN;
        } else if pin.time < time {
          return false;
        } else {
          return true;
        }
      } else {
        if pin.time == time {
          return pin.id == (id + 1) % ID_LIMIT;
        } else if pin.time < time {
          return false;
        } else {
          return pin.id == 1;
        }
      }
    }

    /** The receive path of openvpn_decrypt once a packet id has been read. */
    method ReceivePacket(pin: Pin, now: int) returns (ok: bool)
      requires Valid()
      modifies Footprint()
      ensures Valid()
      ensures ok == Accepts(old(View()), pin, now)
      ensures View() == Receive(old(View()), pin, now)
    {
      ReapIfDue(now);
      ok := TestPacket(pin);
      if ok {
        ghost var pushes := AddPacket(pin, now);
      }
    }
  }
}
