/**
  The event sets of event.c without EVENT_METHOD_FAST. One abstract map from event to interest
  and argument, and the three tables that stand for it: a list of handles (Windows), a list of
  descriptors (poll), and two bit sets (select).
*/
module EventModel {

  /** rwflags, as EVENT_READ and EVENT_WRITE. */
  datatype Interest = Interest(read: bool, write: bool)

  const NONE := Interest(false, false)
  const READ := Interest(true, false)
  const WRITE := Interest(false, true)
  const BOTH := Interest(true, true)

  // ------------------------------------------------------------ what was asked for

  datatype Entry = Entry(rw: Interest, arg: int)

  type Wants = map<int, Entry>

  /** event_ctl and event_del. */
  datatype Op = Ctl(event: int, rw: Interest, arg: int) | Del(event: int)

  function Ask(m: Wants, op: Op): Wants {
    match op
    case Ctl(event, rw, arg) => m[event := Entry(rw, arg)]
    case Del(event) => m - {event}
  }

  /** What a run of calls asks for, from an empty set. */
  function Asked(ops: seq<Op>): Wants {
    if ops == [] then map[] else Ask(Asked(ops[..|ops| - 1]), ops[|ops| - 1])
  }

  function Wanted(m: Wants, event: int): Interest {
    if event in m then m[event].rw else NONE
  }

  /** The last call about an event decides. */
  lemma {:induction false} LastCallDecides(ops: seq<Op>, k: nat)
    requires k < |ops| && forall j | k < j < |ops| :: ops[j].event != ops[k].event
    ensures Wanted(Asked(ops), ops[k].event) == if ops[k].Ctl? then ops[k].rw else NONE
  {
    if k < |ops| - 1 {
      LastCallDecides(ops[..|ops| - 1], k);
    }
  }

  // ------------------------------------------------------------------ Windows

  /** event->read or event->write; no two events share a handle. */
  datatype Handle = Handle(event: int, write: bool)

  /** struct event_set_return. */
  datatype Return = Return(rwflags: Interest, arg: int)

  datatype WeSlot = WeSlot(handle: Handle, ret: Return)

  function Slot(event: int, write: bool, arg: int): WeSlot {
    WeSlot(Handle(event, write), Return(if write then WRITE else READ, arg))
  }

  /** No handle twice, and each slot's flags are those of its handle. */
  predicate WeOk(list: seq<WeSlot>) {
    && (forall i, j | 0 <= i < j < |list| :: list[i].handle != list[j].handle)
    && (forall i | 0 <= i < |list| :: list[i].ret.rwflags == if list[i].handle.write then WRITE else READ)
  }

  ghost function Keys(list: seq<WeSlot>): set<Handle> {
    set s | s in list :: s.handle
  }

  /** The place of a handle, or -1. */
  function Place(list: seq<WeSlot>, h: Handle): (i: int)
    ensures -1 <= i < |list|
    ensures i >= 0 ==> list[i].handle == h
    ensures i < 0 ==> forall j | 0 <= j < |list| :: list[j].handle != h
  {
    if list == [] then -1
    else if list[|list| - 1].handle == h then |list| - 1
    else Place(list[..|list| - 1], h)
  }

  /** One slot more, where there is room. */
  function WePush(list: seq<WeSlot>, capacity: nat, s: WeSlot): (seq<WeSlot>, bool) {
    if |list| < capacity then (list + [s], true) else (list, false)
  }

  /** we_append_event: write first, then read; it stops at the first that does not fit. */
  function WeAppend(list: seq<WeSlot>, capacity: nat, event: int, rw: Interest, arg: int): (seq<WeSlot>, bool) {
    var (more, ok) := if rw.write then WePush(list, capacity, Slot(event, true, arg)) else (list, true);
    if ok && rw.read then WePush(more, capacity, Slot(event, false, arg)) else (more, ok)
  }

  /** we_del_event. */
  function WeDelEvent(list: seq<WeSlot>, event: int): (less: seq<WeSlot>)
    ensures |less| <= |list|
  {
    if list == [] then []
    else
      var rest := WeDelEvent(list[..|list| - 1], event);
      if list[|list| - 1].handle.event == event then rest else rest + [list[|list| - 1]]
  }

  /** we_del_index. */
  function WeDelIndex(list: seq<WeSlot>, i: int): (less: seq<WeSlot>)
    requires 0 <= i < |list|
    ensures |less| == |list| - 1
  {
    list[..i] + list[i + 1..]
  }

  /** we_ctl; the flag is false where the source reports an error. */
  function WeCtl(list: seq<WeSlot>, capacity: nat, event: int, rw: Interest, arg: int): (seq<WeSlot>, bool) {
    var ri, wi := Place(list, Handle(event, false)), Place(list, Handle(event, true));
    if ri >= 0 && wi >= 0 then
      (if rw == NONE then WeDelEvent(list, event)
       else if rw == READ then WeDelIndex(list, wi)
       else if rw == WRITE then WeDelIndex(list, ri)
       else list, true)
    else if ri >= 0 || wi >= 0 then
      var one := if ri >= 0 then ri else wi;
      if rw == NONE then (WeDelIndex(list, one), true)
      else if rw == BOTH then WeAppend(list, capacity, event, if ri >= 0 then WRITE else READ, arg)
      else (list[one := Slot(event, rw.write, arg)], true)
    else
      WeAppend(list, capacity, event, rw, arg)
  }

  /** The handles of one event. */
  function Of(event: int, rw: Interest): set<Handle> {
    if rw == BOTH then {Handle(event, true), Handle(event, false)}
    else if rw == NONE then {}
    else {Handle(event, rw.write)}
  }

  /** Every handle a map asks for. */
  function Handles(m: Wants): set<Handle> {
    set event, write: bool | event in m && (if write then m[event].rw.write else m[event].rw.read) :: Handle(event, write)
  }

  lemma {:induction false} KeysSize(list: seq<WeSlot>)
    requires WeOk(list)
    ensures |Keys(list)| == |list|
  {
    if list != [] {
      var less, s := list[..|list| - 1], list[|list| - 1];
      KeysSize(less);
      assert list == less + [s];
      assert Keys(list) == Keys(less) + {s.handle};
      assert s.handle !in Keys(less);
    }
  }

  lemma PushKeys(list: seq<WeSlot>, s: WeSlot)
    ensures Keys(list + [s]) == Keys(list) + {s.handle}
    ensures WeOk(list) && s.handle !in Keys(list) && s == Slot(s.handle.event, s.handle.write, s.ret.arg) ==> WeOk(list + [s])
  {
    var more := list + [s];
    assert more[|list|] == s;
    assert forall t :: t in more <==> t in list || t == s;
    assert forall i | 0 <= i < |list| :: list[i] in list;
  }

  lemma DelIndexKeys(list: seq<WeSlot>, i: int)
    requires WeOk(list) && 0 <= i < |list|
    ensures WeOk(WeDelIndex(list, i)) && Keys(WeDelIndex(list, i)) == Keys(list) - {list[i].handle}
  {
    var less := WeDelIndex(list, i);
    assert forall j | 0 <= j < |less| :: less[j] == list[if j < i then j else j + 1];
    forall h ensures h in Keys(less) <==> h in Keys(list) && h != list[i].handle {
      if h in Keys(list) && h != list[i].handle {
        var k :| 0 <= k < |list| && list[k].handle == h;
        assert less[if k < i then k else k - 1].handle == h;
      }
    }
  }

  lemma SetKeys(list: seq<WeSlot>, i: int, s: WeSlot)
    requires WeOk(list) && 0 <= i < |list| && s == Slot(s.handle.event, s.handle.write, s.ret.arg)
    requires s.handle == list[i].handle || s.handle !in Keys(list)
    ensures WeOk(list[i := s]) && Keys(list[i := s]) == Keys(list) - {list[i].handle} + {s.handle}
  {
    var now := list[i := s];
    assert now[i] == s;
    assert forall j | 0 <= j < |list| :: list[j] in list;
    forall h | h in Keys(list) && h != list[i].handle ensures h in Keys(now) {
      var k :| 0 <= k < |list| && list[k].handle == h;
      assert now[k].handle == h;
    }
  }

  lemma {:induction false} DelEventKeys(list: seq<WeSlot>, event: int)
    requires WeOk(list)
    ensures WeOk(WeDelEvent(list, event)) && Keys(WeDelEvent(list, event)) == Keys(list) - Of(event, BOTH)
  {
    if list != [] {
      var less, s := list[..|list| - 1], list[|list| - 1];
      DelEventKeys(less, event);
      assert list == less + [s];
      PushKeys(less, s);
      assert s.handle !in Keys(less);
      if s.handle.event != event {
        PushKeys(WeDelEvent(less, event), s);
      }
    }
  }

  lemma PlaceIsKey(list: seq<WeSlot>, h: Handle)
    ensures Place(list, h) >= 0 <==> h in Keys(list)
  {
    var i := Place(list, h);
    if i >= 0 {
      assert list[i] in list;
    }
  }

  lemma PushFits(list: seq<WeSlot>, capacity: nat, s: WeSlot)
    requires WeOk(list) && |list| <= capacity && s.handle !in Keys(list)
    requires s == Slot(s.handle.event, s.handle.write, s.ret.arg)
    ensures var (now, ok) := WePush(list, capacity, s);
            && WeOk(now) && |now| <= capacity
            && (ok <==> |Keys(list) + {s.handle}| <= capacity)
            && Keys(now) == Keys(list) + if ok then {s.handle} else {}
  {
    PushKeys(list, s);
    KeysSize(list);
  }

  /** The handles after an append: all of them where they fit. */
  ghost predicate Appended(was: set<Handle>, added: set<Handle>, capacity: nat, now: seq<WeSlot>, ok: bool) {
    && WeOk(now) && |now| <= capacity && was <= Keys(now) <= was + added
    && (ok <==> |was + added| <= capacity)
    && (ok ==> Keys(now) == was + added)
  }

  lemma PushTwo(list: seq<WeSlot>, capacity: nat, w: WeSlot, r: WeSlot)
    requires WeOk(list) && |list| <= capacity && w.handle !in Keys(list) && r.handle !in Keys(list)
    requires w == Slot(w.handle.event, true, w.ret.arg) && r == Slot(r.handle.event, false, r.ret.arg)
    ensures var (more, ok) := WePush(list, capacity, w);
            var (now, both) := if ok then WePush(more, capacity, r) else (more, false);
            Appended(Keys(list), {w.handle, r.handle}, capacity, now, both)
  {
    hide WeOk, Keys, WePush;
    var keys := Keys(list);
    PushFits(list, capacity, w);
    var (more, ok) := WePush(list, capacity, w);
    assert keys + {w.handle} + {r.handle} == keys + {w.handle, r.handle};
    if ok {
      PushFits(more, capacity, r);
    } else {
      SubsetSize(keys + {w.handle}, keys + {w.handle, r.handle});
    }
  }

  lemma AppendKeys(list: seq<WeSlot>, capacity: nat, event: int, rw: Interest, arg: int)
    requires WeOk(list) && |list| <= capacity && Keys(list) !! Of(event, rw)
    ensures var (now, ok) := WeAppend(list, capacity, event, rw, arg);
            Appended(Keys(list), Of(event, rw), capacity, now, ok)
  {
    hide WeOk, Keys, WePush;
    if rw == BOTH {
      PushTwo(list, capacity, Slot(event, true, arg), Slot(event, false, arg));
    } else if rw == NONE {
      assert Keys(list) + {} == Keys(list);
      KeysSize(list);
    } else {
      PushFits(list, capacity, Slot(event, rw.write, arg));
    }
  }

  lemma {:induction false} SubsetSize<T>(a: set<T>, b: set<T>)
    requires a <= b
    ensures |a| <= |b|
  {
    assert b == a + (b - a);
  }

  /** The handles held once an event's interest is rw. */
  ghost function Changed(keys: set<Handle>, event: int, rw: Interest): set<Handle> {
    keys - Of(event, BOTH) + Of(event, rw)
  }

  /** we_ctl, on handles: all of them where they fit; else an error, and nothing of another event moves. */
  ghost predicate Controlled(keys: set<Handle>, capacity: nat, event: int, rw: Interest, now: seq<WeSlot>, ok: bool) {
    && WeOk(now) && |now| <= capacity
    && Keys(now) - Of(event, BOTH) == keys - Of(event, BOTH)
    && (ok <==> |Changed(keys, event, rw)| <= capacity)
    && (ok <==> Keys(now) == Changed(keys, event, rw))
  }

  lemma AppendControls(keys: set<Handle>, capacity: nat, event: int, rw: Interest, more: Interest, now: seq<WeSlot>, ok: bool)
    requires Appended(keys, Of(event, more), capacity, now, ok)
    requires keys + Of(event, more) == Changed(keys, event, rw)
    ensures Controlled(keys, capacity, event, rw, now, ok)
  {
    hide WeOk, Keys;
    assert Of(event, more) <= Of(event, BOTH);
    KeysSize(now);
  }

  lemma ShrinkControls(keys: set<Handle>, capacity: nat, event: int, rw: Interest, now: seq<WeSlot>)
    requires WeOk(now) && |now| <= capacity && Keys(now) == Changed(keys, event, rw)
    ensures Controlled(keys, capacity, event, rw, now, true)
  {
    KeysSize(now);
    assert Of(event, rw) <= Of(event, BOTH);
  }

  /** Both handles held. */
  lemma CtlTwo(list: seq<WeSlot>, capacity: nat, event: int, rw: Interest, arg: int)
    requires WeOk(list) && |list| <= capacity && Of(event, BOTH) <= Keys(list)
    ensures var (now, ok) := WeCtl(list, capacity, event, rw, arg);
            Controlled(Keys(list), capacity, event, rw, now, ok)
  {
    hide WeOk, Keys, Controlled, WeDelEvent, WeDelIndex, Place, WeAppend;
    var r, w := Handle(event, false), Handle(event, true);
    PlaceIsKey(list, r);
    PlaceIsKey(list, w);
    if rw == NONE {
      DelEventKeys(list, event);
    } else if rw == READ {
      DelIndexKeys(list, Place(list, w));
    } else if rw == WRITE {
      DelIndexKeys(list, Place(list, r));
    }
    ShrinkControls(Keys(list), capacity, event, rw, WeCtl(list, capacity, event, rw, arg).0);
  }

  /** One handle held, for reading or for writing. */
  lemma CtlOne(list: seq<WeSlot>, capacity: nat, event: int, write: bool, rw: Interest, arg: int)
    requires WeOk(list) && |list| <= capacity && Handle(event, write) in Keys(list) && Handle(event, !write) !in Keys(list)
    ensures var (now, ok) := WeCtl(list, capacity, event, rw, arg);
            Controlled(Keys(list), capacity, event, rw, now, ok)
  {
    hide WeOk, Keys, Appended, Controlled, WeDelEvent, WeDelIndex, Place, WeAppend;
    PlaceIsKey(list, Handle(event, write));
    PlaceIsKey(list, Handle(event, !write));
    var one := Place(list, Handle(event, write));
    var (now, ok) := WeCtl(list, capacity, event, rw, arg);
    if rw == BOTH {
      var more := Interest(write, !write);
      AppendKeys(list, capacity, event, more, arg);
      AppendControls(Keys(list), capacity, event, rw, more, now, ok);
    } else {
      if rw == NONE {
        DelIndexKeys(list, one);
      } else {
        SetKeys(list, one, Slot(event, rw.write, arg));
      }
      ShrinkControls(Keys(list), capacity, event, rw, now);
    }
  }

  lemma CtlControls(list: seq<WeSlot>, capacity: nat, event: int, rw: Interest, arg: int)
    requires WeOk(list) && |list| <= capacity
    ensures var (now, ok) := WeCtl(list, capacity, event, rw, arg);
            Controlled(Keys(list), capacity, event, rw, now, ok)
  {
    hide WeOk, Keys, Appended, Controlled, WeDelEvent, WeDelIndex, Place, WeAppend;
    var r, w := Handle(event, false), Handle(event, true);
    if r in Keys(list) && w in Keys(list) {
      CtlTwo(list, capacity, event, rw, arg);
    } else if r in Keys(list) || w in Keys(list) {
      CtlOne(list, capacity, event, w in Keys(list), rw, arg);
    } else {
      PlaceIsKey(list, r);
      PlaceIsKey(list, w);
      AppendKeys(list, capacity, event, rw, arg);
      var (now, ok) := WeCtl(list, capacity, event, rw, arg);
      AppendControls(Keys(list), capacity, event, rw, rw, now, ok);
    }
  }

  ghost function Held(list: seq<WeSlot>, event: int): Interest {
    Interest(Handle(event, false) in Keys(list), Handle(event, true) in Keys(list))
  }

  /** The cases where we_ctl leaves a slot of the event untouched, its argument included. */
  predicate Keeps(was: Interest, rw: Interest) {
    rw != NONE && was != NONE && (was == BOTH || rw == BOTH)
  }

  lemma {:induction false} DelEventSlots(list: seq<WeSlot>, event: int)
    ensures forall s :: s in WeDelEvent(list, event) <==> s in list && s.handle.event != event
  {
    if list != [] {
      DelEventSlots(list[..|list| - 1], event);
      assert list == list[..|list| - 1] + [list[|list| - 1]];
    }
  }

  /** A slot is as it was, or the event's with the new argument; one of the event's own stays only where it is kept. */
  ghost predicate Retold(list: seq<WeSlot>, event: int, arg: int, kept: bool, now: seq<WeSlot>) {
    && (forall s | s in now && s.handle.event != event :: s in list)
    && (forall s | s in now && s.handle.event == event :: s.ret.arg == arg || (kept && s in list))
    && (kept ==> exists s :: s in now && s in list && s.handle.event == event)
  }

  lemma DelIndexRetold(list: seq<WeSlot>, i: int, k: int, event: int, arg: int)
    requires WeOk(list) && 0 <= i < |list| && 0 <= k < |list|
    requires list[i].handle == Handle(event, !list[k].handle.write) && list[k].handle.event == event
    ensures Retold(list, event, arg, true, WeDelIndex(list, i))
  {
    var less := WeDelIndex(list, i);
    assert forall j | 0 <= j < |less| :: less[j] == list[if j < i then j else j + 1];
    assert less[if k < i then k else k - 1] == list[k];
  }

  lemma AppendRetold(list: seq<WeSlot>, capacity: nat, event: int, rw: Interest, arg: int, kept: bool)
    requires WeAppend(list, capacity, event, rw, arg).1
    requires kept <==> exists i :: 0 <= i < |list| && list[i].handle.event == event
    ensures Retold(list, event, arg, kept, WeAppend(list, capacity, event, rw, arg).0)
  {
    var now := WeAppend(list, capacity, event, rw, arg).0;
    assert forall i | 0 <= i < |list| :: now[i] == list[i];
  }

  /** The event's only slot is removed or replaced. */
  lemma OneRetold(list: seq<WeSlot>, i: int, event: int, arg: int)
    requires 0 <= i < |list| && forall j | 0 <= j < |list| && j != i :: list[j].handle.event != event
    ensures Retold(list, event, arg, false, WeDelIndex(list, i))
    ensures forall write :: Retold(list, event, arg, false, list[i := Slot(event, write, arg)])
  {
    var less := WeDelIndex(list, i);
    assert forall j | 0 <= j < |less| :: less[j] == list[if j < i then j else j + 1];
  }

  lemma CtlRetold(list: seq<WeSlot>, capacity: nat, event: int, rw: Interest, arg: int)
    requires WeOk(list) && WeCtl(list, capacity, event, rw, arg).1
    ensures Retold(list, event, arg, Keeps(Held(list, event), rw), WeCtl(list, capacity, event, rw, arg).0)
  {
    hide Keys, Held, Retold, WeDelIndex, WeDelEvent, WeAppend;
    var r, w := Handle(event, false), Handle(event, true);
    var ri, wi := Place(list, r), Place(list, w);
    HeldIs(list, event);
    assert forall j | 0 <= j < |list| && list[j].handle.event == event :: list[j].handle == r || list[j].handle == w;
    if ri >= 0 && wi >= 0 {
      if rw == NONE || rw == BOTH {
        AllOrNone(list, event, arg, ri);
      } else {
        DelIndexRetold(list, if rw.read then wi else ri, if rw.read then ri else wi, event, arg);
      }
    } else if (ri >= 0 || wi >= 0) && rw != BOTH {
      OneRetold(list, if ri >= 0 then ri else wi, event, arg);
    } else if ri >= 0 || wi >= 0 {
      assert list[if ri >= 0 then ri else wi].handle.event == event;
      AppendRetold(list, capacity, event, if ri >= 0 then WRITE else READ, arg, true);
    } else {
      AppendRetold(list, capacity, event, rw, arg, false);
    }
  }

  lemma AllOrNone(list: seq<WeSlot>, event: int, arg: int, i: int)
    requires 0 <= i < |list| && list[i].handle.event == event
    ensures Retold(list, event, arg, false, WeDelEvent(list, event))
    ensures Retold(list, event, arg, true, list)
  {
    DelEventSlots(list, event);
    assert list[i] in list;
  }

  lemma HeldIs(list: seq<WeSlot>, event: int)
    ensures Held(list, event) == Interest(Place(list, Handle(event, false)) >= 0, Place(list, Handle(event, true)) >= 0)
  {
    PlaceIsKey(list, Handle(event, false));
    PlaceIsKey(list, Handle(event, true));
  }

  function WeStep(list: seq<WeSlot>, capacity: nat, op: Op): seq<WeSlot> {
    match op
    case Ctl(event, rw, arg) => WeCtl(list, capacity, event, rw, arg).0
    case Del(event) => WeDelEvent(list, event)
  }

  ghost predicate WeShows(list: seq<WeSlot>, m: Wants) {
    WeOk(list) && Keys(list) == Handles(m)
  }

  /** Every slot carries the last argument. */
  ghost predicate Told(list: seq<WeSlot>, m: Wants) {
    forall s | s in list :: s.handle.event in m && s.ret.arg == m[s.handle.event].arg
  }

  lemma HandlesAsk(m: Wants, op: Op)
    ensures op.Ctl? ==> Handles(Ask(m, op)) == Changed(Handles(m), op.event, op.rw)
    ensures op.Del? ==> Handles(Ask(m, op)) == Handles(m) - Of(op.event, BOTH)
  {
  }

  lemma HeldIsWanted(list: seq<WeSlot>, m: Wants, event: int)
    requires Keys(list) == Handles(m)
    ensures Held(list, event) == Wanted(m, event)
  {
    assert Handle(event, false) in Handles(m) <==> event in m && m[event].rw.read;
    assert Handle(event, true) in Handles(m) <==> event in m && m[event].rw.write;
  }

  /** A call leaves the table showing the new map exactly when the handles fit; other events never move. */
  lemma WeShowsIff(list: seq<WeSlot>, m: Wants, capacity: nat, op: Op)
    requires WeShows(list, m) && |list| <= capacity
    ensures |WeStep(list, capacity, op)| <= capacity && WeOk(WeStep(list, capacity, op))
    ensures WeShows(WeStep(list, capacity, op), Ask(m, op)) <==> |Handles(Ask(m, op))| <= capacity
    ensures forall event | event != op.event :: Held(WeStep(list, capacity, op), event) == Held(list, event)
  {
    hide WeCtl, Handles, WeDelEvent;
    HandlesAsk(m, op);
    var now := WeStep(list, capacity, op);
    match op
    case Ctl(event, rw, arg) =>
      CtlControls(list, capacity, event, rw, arg);
      Others(Keys(list), Keys(now), event);
    case Del(event) =>
      DelEventKeys(list, event);
      KeysSize(now);
  }

  lemma Others(keys: set<Handle>, now: set<Handle>, event: int)
    requires now - Of(event, BOTH) == keys - Of(event, BOTH)
    ensures forall h: Handle | h.event != event :: h in now <==> h in keys
  {
    forall h: Handle | h.event != event ensures h in now <==> h in keys {
      assert h in now - Of(event, BOTH) <==> h in now;
      assert h in keys - Of(event, BOTH) <==> h in keys;
    }
  }

  /** The arguments stay current exactly when no slot that is kept had another one. */
  lemma ToldIff(list: seq<WeSlot>, m: Wants, capacity: nat, event: int, rw: Interest, arg: int)
    requires WeShows(list, m) && Told(list, m) && |list| <= capacity
    requires |Handles(Ask(m, Ctl(event, rw, arg)))| <= capacity
    ensures Told(WeStep(list, capacity, Ctl(event, rw, arg)), Ask(m, Ctl(event, rw, arg)))
            <==> (Keeps(Wanted(m, event), rw) ==> m[event].arg == arg)
  {
    hide WeCtl, Handles, WeOk, Keys, Held;
    CtlControls(list, capacity, event, rw, arg);
    HandlesAsk(m, Ctl(event, rw, arg));
    HeldIsWanted(list, m, event);
    CtlRetold(list, capacity, event, rw, arg);
    RetoldIsTold(list, m, event, rw, arg, Keeps(Wanted(m, event), rw), WeCtl(list, capacity, event, rw, arg).0);
  }

  lemma RetoldIsTold(list: seq<WeSlot>, m: Wants, event: int, rw: Interest, arg: int, kept: bool, now: seq<WeSlot>)
    requires Told(list, m) && Retold(list, event, arg, kept, now) && (kept ==> event in m)
    ensures Told(now, m[event := Entry(rw, arg)]) <==> (kept ==> m[event].arg == arg)
  {
  }

  /** Reading and writing with one place left: the error leaves the event asked to write only. */
  lemma HalfRegistered(event: int, arg: int)
    ensures WeCtl([], 1, event, BOTH, arg) == ([Slot(event, true, arg)], false)
  {
    assert [] + [Slot(event, true, arg)] == [Slot(event, true, arg)];
  }

  /** Going from two handles to one, Windows keeps the argument it was given first. */
  lemma OldArgumentStays(event: int, arg: int, newer: int)
    requires arg != newer
    ensures var list := WeCtl([], 2, event, BOTH, arg).0;
            WeCtl(list, 2, event, READ, newer) == ([Slot(event, false, arg)], true)
  {
    var list := WeCtl([], 2, event, BOTH, arg).0;
    assert list == [Slot(event, true, arg), Slot(event, false, arg)];
    assert Place(list, Handle(event, false)) == 1;
    var w := Place(list, Handle(event, true));
    assert w == 0 by {
      assert list[0].handle == Handle(event, true);
    }
    assert list[..0] + list[1..] == [Slot(event, false, arg)];
  }

  // ------------------------------------------------------------------ poll

  /** struct pollfd, with the argument beside it. */
  datatype PoSlot = PoSlot(fd: int, entry: Entry)

  function PoPlace(list: seq<PoSlot>, fd: int): (i: int)
    ensures -1 <= i < |list|
    ensures i >= 0 ==> list[i].fd == fd && forall j | 0 <= j < i :: list[j].fd != fd
    ensures i < 0 ==> forall j | 0 <= j < |list| :: list[j].fd != fd
  {
    if list == [] then -1
    else
      var i := PoPlace(list[..|list| - 1], fd);
      if i >= 0 then i else if list[|list| - 1].fd == fd then |list| - 1 else -1
  }

  /** po_ctl; the flag is false where the source reports an error. */
  function PoCtl(list: seq<PoSlot>, capacity: nat, fd: int, rw: Interest, arg: int): (seq<PoSlot>, bool) {
    var i := PoPlace(list, fd);
    if i >= 0 then (list[i := PoSlot(fd, Entry(rw, arg))], true)
    else if |list| < capacity then (list + [PoSlot(fd, Entry(rw, arg))], true)
    else (list, false)
  }

  /** po_del: the first match goes. */
  function PoDel(list: seq<PoSlot>, fd: int): seq<PoSlot> {
    var i := PoPlace(list, fd);
    if i < 0 then list else list[..i] + list[i + 1..]
  }

  function PoStep(list: seq<PoSlot>, capacity: nat, op: Op): seq<PoSlot> {
    match op
    case Ctl(event, rw, arg) => PoCtl(list, capacity, event, rw, arg).0
    case Del(event) => PoDel(list, event)
  }

  function PoInterest(list: seq<PoSlot>, fd: int): Interest {
    var i := PoPlace(list, fd);
    if i < 0 then NONE else list[i].entry.rw
  }

  ghost predicate PoShows(list: seq<PoSlot>, m: Wants) {
    && (forall i, j | 0 <= i < j < |list| :: list[i].fd != list[j].fd)
    && |list| == |m|
    && (forall i | 0 <= i < |list| :: list[i].fd in m && m[list[i].fd] == list[i].entry)
    && (forall fd | fd in m :: PoPlace(list, fd) >= 0)
  }

  lemma RemovedSize(m: Wants, fd: int)
    ensures |m - {fd}| == if fd in m then |m| - 1 else |m|
  {
    if fd in m {
      assert m == (m - {fd})[fd := m[fd]];
    } else {
      assert m - {fd} == m;
    }
  }

  lemma CutAt(list: seq<PoSlot>, i: int)
    requires 0 <= i < |list| && forall j, k | 0 <= j < k < |list| :: list[j].fd != list[k].fd
    ensures var less := list[..i] + list[i + 1..];
            && |less| == |list| - 1
            && (forall j, k | 0 <= j < k < |less| :: less[j].fd != less[k].fd)
            && (forall s :: s in less <==> s in list && s.fd != list[i].fd)
  {
    var less := list[..i] + list[i + 1..];
    assert forall j | 0 <= j < |less| :: less[j] == list[if j < i then j else j + 1];
    forall s | s in list && s.fd != list[i].fd ensures s in less {
      var k :| 0 <= k < |list| && list[k] == s;
      assert less[if k < i then k else k - 1] == s;
    }
  }

  /** Every slot is in the map, and every descriptor of the map has a slot. */
  lemma PoShowsBy(list: seq<PoSlot>, m: Wants)
    requires forall i, j | 0 <= i < j < |list| :: list[i].fd != list[j].fd
    requires |list| == |m|
    requires forall s | s in list :: s.fd in m && m[s.fd] == s.entry
    requires forall fd | fd in m :: PoSlot(fd, m[fd]) in list
    ensures PoShows(list, m)
  {
    assert forall i | 0 <= i < |list| :: list[i] in list;
  }

  lemma PoShowsSlots(list: seq<PoSlot>, m: Wants)
    requires PoShows(list, m)
    ensures forall s | s in list :: s.fd in m && m[s.fd] == s.entry
    ensures forall fd | fd in m :: PoSlot(fd, m[fd]) in list
  {
    forall fd | fd in m ensures PoSlot(fd, m[fd]) in list {
      assert list[PoPlace(list, fd)] in list;
    }
  }

  lemma PoShowsSize(list: seq<PoSlot>, m: Wants)
    requires PoShows(list, m)
    ensures |list| == |m| && forall i, j | 0 <= i < j < |list| :: list[i].fd != list[j].fd
  {
  }

  lemma PoDelShows(list: seq<PoSlot>, m: Wants, fd: int)
    requires PoShows(list, m)
    ensures |PoDel(list, fd)| <= |list| && PoShows(PoDel(list, fd), m - {fd})
  {
    hide PoShows, PoPlace;
    var i := PoPlace(list, fd);
    PoShowsSlots(list, m);
    PoShowsSize(list, m);
    RemovedSize(m, fd);
    if i >= 0 {
      assert list[i] in list;
      CutAt(list, i);
      PoShowsBy(PoDel(list, fd), m - {fd});
    } else {
      assert fd !in m;
      assert m - {fd} == m;
    }
  }

  lemma PoSetShows(list: seq<PoSlot>, m: Wants, i: int, entry: Entry)
    requires PoShows(list, m) && 0 <= i < |list|
    ensures PoShows(list[i := PoSlot(list[i].fd, entry)], m[list[i].fd := entry])
  {
    hide PoShows;
    PoShowsSlots(list, m);
    PoShowsSize(list, m);
    assert list[i] in list;
    var s := PoSlot(list[i].fd, entry);
    var now := list[i := s];
    assert now[i] == s;
    forall fd | fd in m && fd != s.fd ensures PoSlot(fd, m[fd]) in now {
      var k :| 0 <= k < |list| && list[k] == PoSlot(fd, m[fd]);
      assert now[k] == list[k];
    }
    PoShowsBy(now, m[s.fd := entry]);
  }

  lemma PoPushShows(list: seq<PoSlot>, m: Wants, fd: int, entry: Entry)
    requires PoShows(list, m) && PoPlace(list, fd) < 0
    ensures fd !in m && PoShows(list + [PoSlot(fd, entry)], m[fd := entry])
  {
    hide PoShows;
    PoShowsSlots(list, m);
    PoShowsSize(list, m);
    var now := list + [PoSlot(fd, entry)];
    assert now[|list|] == PoSlot(fd, entry);
    PoShowsBy(now, m[fd := entry]);
  }

  lemma PoCtlShows(list: seq<PoSlot>, m: Wants, capacity: nat, fd: int, rw: Interest, arg: int)
    requires PoShows(list, m) && |list| <= capacity
    ensures var (now, ok) := PoCtl(list, capacity, fd, rw, arg);
            && |now| <= capacity
            && (ok <==> |m[fd := Entry(rw, arg)]| <= capacity)
            && (ok <==> PoShows(now, m[fd := Entry(rw, arg)]))
  {
    hide PoShows;
    var i := PoPlace(list, fd);
    PoShowsSize(list, m);
    if i >= 0 {
      PoShowsSlots(list, m);
      assert list[i] in list;
      PoSetShows(list, m, i, Entry(rw, arg));
      assert m[fd := Entry(rw, arg)].Keys == m.Keys;
    } else {
      PoPushShows(list, m, fd, Entry(rw, arg));
      if |list| >= capacity && PoShows(list, m[fd := Entry(rw, arg)]) {
        PoShowsSize(list, m[fd := Entry(rw, arg)]);
      }
    }
  }

  lemma PoShowsIff(list: seq<PoSlot>, m: Wants, capacity: nat, op: Op)
    requires PoShows(list, m) && |list| <= capacity
    ensures |PoStep(list, capacity, op)| <= capacity
    ensures PoShows(PoStep(list, capacity, op), Ask(m, op)) <==> |Ask(m, op)| <= capacity
  {
    hide PoCtl, PoDel;
    match op
    case Ctl(event, rw, arg) => PoCtlShows(list, m, capacity, event, rw, arg);
    case Del(event) => PoDelShows(list, m, event);
  }

  lemma PoInterestIsWanted(list: seq<PoSlot>, m: Wants, fd: int)
    requires PoShows(list, m)
    ensures PoInterest(list, fd) == Wanted(m, fd)
    ensures fd in m ==> list[PoPlace(list, fd)].entry == m[fd]
  {
  }

  // ------------------------------------------------------------------ select

  /** struct se_set; every field of the capacity's length. */
  datatype Se = Se(readFds: seq<bool>, writeFds: seq<bool>, args: seq<int>, maxfd: int)

  const NULL := 0

  predicate SeOk(s: Se, capacity: nat) {
    && |s.readFds| == |s.writeFds| == |s.args| == capacity && -1 <= s.maxfd < capacity
    // what select() is told to look at covers every bit that is set
    && forall fd | s.maxfd < fd < capacity :: !s.readFds[fd] && !s.writeFds[fd]
  }

  function SeStep(s: Se, op: Op): Se
    requires |s.readFds| == |s.writeFds| == |s.args|
  {
    if op.event < 0 || op.event >= |s.args| then s
    else
      match op
      case Ctl(fd, rw, arg) =>
        Se(s.readFds[fd := rw.read], s.writeFds[fd := rw.write], s.args[fd := arg], if fd > s.maxfd then fd else s.maxfd)
      case Del(fd) => Se(s.readFds[fd := false], s.writeFds[fd := false], s.args[fd := NULL], s.maxfd)
  }

  function SeInterest(s: Se, fd: int): Interest
    requires |s.readFds| == |s.writeFds|
  {
    if 0 <= fd < |s.readFds| then Interest(s.readFds[fd], s.writeFds[fd]) else NONE
  }

  ghost predicate SeShows(s: Se, capacity: nat, m: Wants) {
    && SeOk(s, capacity)
    && (forall fd | 0 <= fd < capacity :: SeInterest(s, fd) == Wanted(m, fd))
    && (forall fd | fd in m :: 0 <= fd < capacity && s.args[fd] == m[fd].arg)
  }

  lemma SeShowsIff(s: Se, capacity: nat, m: Wants, op: Op)
    requires SeShows(s, capacity, m)
    ensures SeShows(SeStep(s, op), capacity, Ask(m, op)) <==> op.Del? || 0 <= op.event < capacity
  {
    var wants := Ask(m, op);
    assert op.Ctl? ==> op.event in wants;
    assert forall fd | fd != op.event :: fd in wants <==> fd in m;
    assert forall fd | fd != op.event :: Wanted(wants, fd) == Wanted(m, fd);
  }

  /** Deleting a descriptor in range forgets its argument too. */
  lemma SeDelForgets(s: Se, capacity: nat, fd: int)
    requires SeOk(s, capacity) && 0 <= fd < capacity
    ensures SeStep(s, Del(fd)).args[fd] == NULL && SeInterest(SeStep(s, Del(fd)), fd) == NONE
  {
  }

  // ------------------------------------------------------------------ runs

  function Last<T>(ops: seq<T>): T
    requires ops != []
  {
    ops[|ops| - 1]
  }

  function WeRun(capacity: nat, ops: seq<Op>): seq<WeSlot> {
    if ops == [] then [] else WeStep(WeRun(capacity, ops[..|ops| - 1]), capacity, Last(ops))
  }

  function PoRun(capacity: nat, ops: seq<Op>): seq<PoSlot> {
    if ops == [] then [] else PoStep(PoRun(capacity, ops[..|ops| - 1]), capacity, Last(ops))
  }

  /** se_init: no bit, no argument, maxfd -1. */
  function SeNew(capacity: nat): (s: Se)
    ensures SeShows(s, capacity, map[])
  {
    Se(seq(capacity, _ => false), seq(capacity, _ => false), seq(capacity, _ => NULL), -1)
  }

  function SeRun(capacity: nat, ops: seq<Op>): (s: Se)
    ensures |s.readFds| == |s.writeFds| == |s.args| == capacity
  {
    if ops == [] then SeNew(capacity) else SeStep(SeRun(capacity, ops[..|ops| - 1]), Last(ops))
  }

  /** The handles asked for always fit the Windows table. */
  ghost predicate WeFits(capacity: nat, ops: seq<Op>) {
    forall k | 0 <= k <= |ops| :: |Handles(Asked(ops[..k]))| <= capacity
  }

  /** The descriptors asked for always fit the poll table; one asked for with no flags takes a place too. */
  ghost predicate PoFits(capacity: nat, ops: seq<Op>) {
    forall k | 0 <= k <= |ops| :: |Asked(ops[..k])| <= capacity
  }

  predicate SeFits(capacity: nat, ops: seq<Op>) {
    forall k | 0 <= k < |ops| :: ops[k].Ctl? ==> 0 <= ops[k].event < capacity
  }

  /** An event is asked for with one argument for as long as it is in the set. */
  predicate OneArgument(ops: seq<Op>) {
    forall k | 0 <= k < |ops| && ops[k].Ctl? ::
      var m := Asked(ops[..k]);
      ops[k].event in m ==> m[ops[k].event].arg == ops[k].arg
  }

  lemma {:induction false} WeRunShows(capacity: nat, ops: seq<Op>)
    requires WeFits(capacity, ops)
    ensures WeShows(WeRun(capacity, ops), Asked(ops)) && |WeRun(capacity, ops)| <= capacity
    ensures OneArgument(ops) ==> Told(WeRun(capacity, ops), Asked(ops))
  {
    hide WeStep, Handles, Told, Keeps, WeOk;
    if ops == [] {
      NothingShows();
    } else {
      var less := ops[..|ops| - 1];
      assert forall k | 0 <= k <= |less| :: less[..k] == ops[..k];
      assert ops[..|ops|] == ops;
      WeRunShows(capacity, less);
      var list, m := WeRun(capacity, less), Asked(less);
      WeShowsIff(list, m, capacity, Last(ops));
      if OneArgument(ops) {
        assert less == ops[..|ops| - 1];
        if Last(ops).Ctl? {
          ToldIff(list, m, capacity, Last(ops).event, Last(ops).rw, Last(ops).arg);
          WantedIsAsked(m, Last(ops).event, Last(ops).rw);
        } else {
          DelTold(list, m, capacity, Last(ops));
        }
      }
    }
  }

  lemma NothingShows()
    ensures WeShows([], map[]) && Told([], map[])
  {
  }

  lemma WantedIsAsked(m: Wants, event: int, rw: Interest)
    ensures Keeps(Wanted(m, event), rw) ==> event in m
  {
  }

  lemma DelTold(list: seq<WeSlot>, m: Wants, capacity: nat, op: Op)
    requires Told(list, m) && op.Del?
    ensures Told(WeStep(list, capacity, op), Ask(m, op))
  {
    DelEventSlots(list, op.event);
  }

  lemma {:induction false} PoRunShows(capacity: nat, ops: seq<Op>)
    requires PoFits(capacity, ops)
    ensures PoShows(PoRun(capacity, ops), Asked(ops)) && |PoRun(capacity, ops)| <= capacity
  {
    hide PoStep;
    if ops != [] {
      var less := ops[..|ops| - 1];
      assert forall k | 0 <= k <= |less| :: less[..k] == ops[..k];
      assert ops[..|ops|] == ops;
      PoRunShows(capacity, less);
      PoShowsIff(PoRun(capacity, less), Asked(less), capacity, Last(ops));
    }
  }

  lemma {:induction false} SeRunShows(capacity: nat, ops: seq<Op>)
    requires SeFits(capacity, ops)
    ensures SeShows(SeRun(capacity, ops), capacity, Asked(ops))
  {
    hide SeStep, SeShows;
    if ops != [] {
      var less := ops[..|ops| - 1];
      SeRunShows(capacity, less);
      SeShowsIff(SeRun(capacity, less), capacity, Asked(less), Last(ops));
    }
  }

  /** After any run that fits, the three tables agree on every event, and on what was last asked for it. */
  lemma AllAgree(we: nat, po: nat, se: nat, ops: seq<Op>, event: int)
    requires WeFits(we, ops) && PoFits(po, ops) && SeFits(se, ops)
    ensures Held(WeRun(we, ops), event) == PoInterest(PoRun(po, ops), event) == SeInterest(SeRun(se, ops), event)
            == Wanted(Asked(ops), event)
  {
    hide WeRun, PoRun, SeRun, Keys, Handles;
    WeRunShows(we, ops);
    HeldIsWanted(WeRun(we, ops), Asked(ops), event);
    PoRunShows(po, ops);
    PoInterestIsWanted(PoRun(po, ops), Asked(ops), event);
    SeRunShows(se, ops);
    if event in Asked(ops) {
      assert 0 <= event < se;
    }
  }
}
