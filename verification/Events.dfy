/** struct we_set, po_set and se_set: the tables in place. */
module Events {
  import opened EventModel

  class WeSet {
    const events: array<Handle>
    const esr: array<Return>
    var nEvents: nat
    const capacity: nat

    ghost predicate Valid()
      reads this
    {
      events.Length == esr.Length == capacity && nEvents <= capacity
    }

    ghost function Slots(): (list: seq<WeSlot>)
      requires Valid()
      reads this, events, esr
      ensures |list| == nEvents
    {
      seq(nEvents, i requires 0 <= i < nEvents && Valid() reads this, events, esr => WeSlot(events[i], esr[i]))
    }

    /** we_init. */
    constructor (capacity: nat)
      ensures Valid() && this.capacity == capacity && Slots() == [] && fresh(events) && fresh(esr)
    {
      this.capacity, nEvents := capacity, 0;
      events := new Handle[capacity](_ => Handle(0, false));
      esr := new Return[capacity](_ => Return(NONE, 0));
    }

    /** we_set_event. */
    method SetEvent(i: nat, event: int, write: bool, arg: int)
      requires Valid() && i < capacity
      modifies events, esr
      ensures forall j | 0 <= j < capacity && j != i :: events[j] == old(events[j]) && esr[j] == old(esr[j])
      ensures WeSlot(events[i], esr[i]) == Slot(event, write, arg)
    {
      events[i] := Handle(event, write);
      esr[i] := Return(if write then WRITE else READ, arg);
    }

    /** One branch of we_append_event. */
    method Push(event: int, write: bool, arg: int) returns (ok: bool)
      requires Valid()
      modifies `nEvents, events, esr
      ensures Valid() && (Slots(), ok) == WePush(old(Slots()), capacity, Slot(event, write, arg))
    {
      ghost var was := Slots();
      ok := nEvents < capacity;
      if ok {
        SetEvent(nEvents, event, write, arg);
        nEvents := nEvents + 1;
        assert Slots() == was + [Slot(event, write, arg)];
      }
    }

    /** we_append_event. */
    method AppendEvent(event: int, rw: Interest, arg: int) returns (ok: bool)
      requires Valid()
      modifies `nEvents, events, esr
      ensures Valid() && (Slots(), ok) == WeAppend(old(Slots()), capacity, event, rw, arg)
    {
      ok := true;
      if rw.write {
        ok := Push(event, true, arg);
      }
      if ok && rw.read {
        ok := Push(event, false, arg);
      }
    }

    /** we_del_event: the slots that stay are moved down over those that go. */
    method DelEvent(event: int)
      requires Valid()
      modifies `nEvents, events, esr
      ensures Valid() && Slots() == WeDelEvent(old(Slots()), event)
    {
      ghost var was := Slots();
      var j, len := 0, nEvents;
      for i := 0 to len
        invariant 0 <= j <= i && nEvents == len - (i - j)
        invariant forall k | i <= k < len :: WeSlot(events[k], esr[k]) == was[k]
        invariant |WeDelEvent(was[..i], event)| == j
        invariant forall k | 0 <= k < j :: WeSlot(events[k], esr[k]) == WeDelEvent(was[..i], event)[k]
      {
        assert was[..i + 1][..i] == was[..i];
        assert WeSlot(events[i], esr[i]) == was[i];
        if events[i].event == event {
          nEvents := nEvents - 1;
        } else {
          if i != j {
            events[j] := events[i];
            esr[j] := esr[i];
          }
          j := j + 1;
        }
      }
      assert was[..len] == was;
      assert Slots() == WeDelEvent(was, event);
    }

    /** we_del_index. */
    method DelIndex(index: nat)
      requires Valid() && index < nEvents
      modifies `nEvents, events, esr
      ensures Valid() && Slots() == WeDelIndex(old(Slots()), index)
    {
      ghost var was := Slots();
      for i := index to nEvents - 1
        invariant nEvents == |was|
        invariant forall k | 0 <= k < nEvents :: WeSlot(events[k], esr[k]) == was[if index <= k < i then k + 1 else k]
      {
        events[i] := events[i + 1];
        esr[i] := esr[i + 1];
      }
      nEvents := nEvents - 1;
      assert Slots() == WeDelIndex(was, index);
    }

    /** we_get_rw_indices; its assertions say that no handle is there twice. */
    method GetRwIndices(event: int) returns (ri: int, wi: int)
      requires Valid() && WeOk(Slots())
      ensures ri == Place(Slots(), Handle(event, false)) && wi == Place(Slots(), Handle(event, true))
    {
      ghost var list := Slots();
      ri, wi := -1, -1;
      for i := 0 to nEvents
        invariant ri == Place(list[..i], Handle(event, false)) && wi == Place(list[..i], Handle(event, true))
      {
        assert list[..i + 1][..i] == list[..i] && list[i].handle == events[i];
        if events[i] == Handle(event, false) {
          assert ri == -1;
          ri := i;
        } else if events[i] == Handle(event, true) {
          assert wi == -1;
          wi := i;
        }
      }
      assert list[..nEvents] == list;
    }

    /** we_del. */
    method Del(event: int)
      requires Valid()
      modifies `nEvents, events, esr
      ensures Valid() && Slots() == WeStep(old(Slots()), capacity, EventModel.Op.Del(event))
    {
      DelEvent(event);
    }

    /** we_ctl. */
    method Ctl(event: int, rw: Interest, arg: int) returns (ok: bool)
      requires Valid() && WeOk(Slots())
      modifies `nEvents, events, esr
      ensures Valid() && WeOk(Slots())
      ensures (Slots(), ok) == WeCtl(old(Slots()), capacity, event, rw, arg)
    {
      hide WeOk, WeAppend, WeDelEvent, WeDelIndex, Controlled, Keys;
      CtlControls(Slots(), capacity, event, rw, arg);
      ControlledIsOk(Slots(), capacity, event, rw, arg);
      ok := CtlTable(event, rw, arg);
    }

    /** The two switches of we_ctl. */
    method CtlTable(event: int, rw: Interest, arg: int) returns (ok: bool)
      requires Valid() && WeOk(Slots())
      modifies `nEvents, events, esr
      ensures Valid() && (Slots(), ok) == WeCtl(old(Slots()), capacity, event, rw, arg)
    {
      hide WeOk, WeAppend, WeDelEvent, WeDelIndex;
      ghost var was := Slots();
      var ri, wi := GetRwIndices(event);
      ok := true;
      var one := if ri >= 0 then ri else wi;
      var n := (if ri >= 0 then 1 else 0) + (if wi >= 0 then 1 else 0);
      if rw == NONE {
        if n == 1 {
          DelIndex(one);
        } else if n == 2 {
          DelEvent(event);
        } else {
          AppendNothing(was, capacity, event, arg);
        }
      } else if rw == BOTH {
        if n == 0 {
          ok := AppendEvent(event, BOTH, arg);
        } else if n == 1 {
          ok := AppendEvent(event, if ri == -1 then READ else WRITE, arg);
        }
      } else if n == 0 {
        ok := AppendEvent(event, rw, arg);
      } else if n == 1 {
        SetEvent(one, event, rw.write, arg);
        assert Slots() == was[one := Slot(event, rw.write, arg)];
      } else {
        DelIndex(if rw.read then wi else ri);
      }
    }
  }

  lemma AppendNothing(list: seq<WeSlot>, capacity: nat, event: int, arg: int)
    ensures WeAppend(list, capacity, event, NONE, arg) == (list, true)
  {
  }

  lemma ControlledIsOk(list: seq<WeSlot>, capacity: nat, event: int, rw: Interest, arg: int)
    requires Controlled(Keys(list), capacity, event, rw, WeCtl(list, capacity, event, rw, arg).0, WeCtl(list, capacity, event, rw, arg).1)
    ensures WeOk(WeCtl(list, capacity, event, rw, arg).0)
  {
  }

  class PoSet {
    const events: array<int>
    const wanted: array<Interest>
    const args: array<int>
    var nEvents: nat
    const capacity: nat

    ghost predicate Valid()
      reads this
    {
      events.Length == wanted.Length == args.Length == capacity && nEvents <= capacity && args != events
    }

    ghost function Slots(): (list: seq<PoSlot>)
      requires Valid()
      reads this, events, wanted, args
      ensures |list| == nEvents
    {
      seq(nEvents, i requires 0 <= i < nEvents && Valid() reads this, events, wanted, args =>
        PoSlot(events[i], Entry(wanted[i], args[i])))
    }

    /** po_init. */
    constructor (capacity: nat)
      ensures Valid() && this.capacity == capacity && Slots() == [] && fresh(events) && fresh(wanted) && fresh(args)
    {
      this.capacity, nEvents := capacity, 0;
      events := new int[capacity](_ => 0);
      wanted := new Interest[capacity](_ => NONE);
      args := new int[capacity](_ => NULL);
    }

    /** po_append_event. */
    method AppendEvent(event: int, rw: Interest, arg: int) returns (ok: bool)
      requires Valid()
      modifies `nEvents, events, wanted, args
      ensures Valid() && ok == (old(nEvents) < capacity)
      ensures Slots() == if ok then old(Slots()) + [PoSlot(event, Entry(rw, arg))] else old(Slots())
    {
      ghost var was := Slots();
      ok := nEvents < capacity;
      if ok {
        events[nEvents], wanted[nEvents], args[nEvents] := event, rw, arg;
        nEvents := nEvents + 1;
        assert Slots() == was + [PoSlot(event, Entry(rw, arg))];
      }
    }

    /** po_ctl. */
    method Ctl(event: int, rw: Interest, arg: int) returns (ok: bool)
      requires Valid()
      modifies `nEvents, events, wanted, args
      ensures Valid() && (Slots(), ok) == PoCtl(old(Slots()), capacity, event, rw, arg)
    {
      ghost var was := Slots();
      for i := 0 to nEvents
        invariant Slots() == was
        invariant forall k | 0 <= k < i :: events[k] != event
      {
        if events[i] == event {
          args[i], wanted[i] := arg, rw;
          FirstIs(was, i, event);
          assert Slots() == was[i := PoSlot(event, Entry(rw, arg))];
          return true;
        }
      }
      assert PoPlace(was, event) < 0;
      ok := AppendEvent(event, rw, arg);
    }

    /** po_del. */
    method Del(event: int)
      requires Valid()
      modifies `nEvents, events, wanted, args
      ensures Valid() && Slots() == PoStep(old(Slots()), capacity, EventModel.Op.Del(event))
    {
      ghost var was := Slots();
      for i := 0 to nEvents
        invariant Slots() == was
        invariant forall k | 0 <= k < i :: events[k] != event
      {
        if events[i] == event {
          FirstIs(was, i, event);
          DelIndex(i);
          return;
        }
      }
    }

    /** The inner loop of po_del. */
    method DelIndex(index: nat)
      requires Valid() && index < nEvents
      modifies `nEvents, events, wanted, args
      ensures Valid() && Slots() == old(Slots()[..index] + Slots()[index + 1..])
    {
      ghost var was := Slots();
      for j := index to nEvents - 1
        invariant nEvents == |was|
        invariant forall k | 0 <= k < nEvents ::
          PoSlot(events[k], Entry(wanted[k], args[k])) == was[if index <= k < j then k + 1 else k]
      {
        events[j], wanted[j], args[j] := events[j + 1], wanted[j + 1], args[j + 1];
      }
      nEvents := nEvents - 1;
      assert Slots() == was[..index] + was[index + 1..];
    }
  }

  lemma FirstIs(list: seq<PoSlot>, i: nat, fd: int)
    requires i < |list| && list[i].fd == fd && forall k | 0 <= k < i :: list[k].fd != fd
    ensures PoPlace(list, fd) == i
  {
  }

  class SeSet {
    const readFds: array<bool>
    const writeFds: array<bool>
    const args: array<int>
    var maxfd: int
    const capacity: nat

    ghost predicate Valid()
      reads this
    {
      readFds.Length == writeFds.Length == args.Length == capacity && readFds != writeFds
    }

    ghost function Value(): Se
      reads this, readFds, writeFds, args
    {
      Se(readFds[..], writeFds[..], args[..], maxfd)
    }

    /** se_init. */
    constructor (capacity: nat)
      ensures Valid() && this.capacity == capacity && Value() == SeNew(capacity)
      ensures fresh(readFds) && fresh(writeFds) && fresh(args)
    {
      this.capacity, maxfd := capacity, -1;
      readFds := new bool[capacity](_ => false);
      writeFds := new bool[capacity](_ => false);
      args := new int[capacity](_ => NULL);
      new;
      assert readFds[..] == writeFds[..] == seq(capacity, _ => false);
      assert args[..] == seq(capacity, _ => NULL);
    }

    /** se_ctl. */
    method Ctl(event: int, rw: Interest, arg: int) returns (ok: bool)
      requires Valid()
      modifies `maxfd, readFds, writeFds, args
      ensures Valid() && ok == (0 <= event < capacity)
      ensures Value() == SeStep(old(Value()), EventModel.Op.Ctl(event, rw, arg))
    {
      ok := event >= 0 && event < capacity;
      if ok {
        if event > maxfd {
          maxfd := event;
        }
        args[event] := arg;
        readFds[event] := rw.read;
        writeFds[event] := rw.write;
      }
    }

    /** se_del. */
    method Del(event: int) returns (ok: bool)
      requires Valid()
      modifies `maxfd, readFds, writeFds, args
      ensures Valid() && ok == (0 <= event < capacity)
      ensures Value() == SeStep(old(Value()), EventModel.Op.Del(event))
    {
      ok := event >= 0 && event < capacity;
      if ok {
        readFds[event] := false;
        writeFds[event] := false;
        args[event] := NULL;
      }
    }
  }
}
