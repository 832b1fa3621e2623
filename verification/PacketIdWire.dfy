/**
  The sending side of packet_id.h, the wire form of packet_id.c, and what the two receivers
  do with everything a sender emits.
*/
module PacketIdWire {
  import opened ReplayModel
  import opened Buffers

  // ------------------------------------------------------------------ allocation

  /** struct packet_id_send. */
  datatype Send = Send(id: PacketId, time: nat)

  predicate WrapsNext(s: Send) {
    s.id == ID_LIMIT - 1
  }

  /** packet_id_alloc_outgoing; wrapping is asserted to happen in long form only. */
  function Alloc(s: Send, now: nat): (Send, Pin) {
    var time := if s.time == 0 then now else s.time;
    var id := (s.id + 1) % ID_LIMIT;
    if id == 0 then (Send(1, now), Pin(now, 1)) else (Send(id, time), Pin(time, id))
  }

  class PacketIdSend {
    var id: PacketId
    var time: nat

    ghost function View(): Send
      reads this
    {
      Send(id, time)
    }

    constructor ()
      ensures View() == Send(0, 0)
    {
      id, time := 0, 0;
    }

    method AllocOutgoing(longForm: bool, now: nat) returns (pin: Pin)
      requires WrapsNext(View()) ==> longForm
      modifies this
      ensures (View(), pin) == Alloc(old(View()), now)
    {
      if time == 0 {
        time := now;
      }
      id := (id + 1) % ID_LIMIT;
      if id == 0 {
        time := now;
        id := 1;
      }
      pin := Pin(time, id);
    }
  }

  predicate PinLess(a: Pin, b: Pin) {
    a.time < b.time || (a.time == b.time && a.id < b.id)
  }

  /** One allocation goes up exactly when the id does not wrap or the clock has moved on. */
  lemma AllocIncreasesIff(s: Send, now: nat)
    requires now > 0
    ensures PinLess(Pin(s.time, s.id), Alloc(s, now).1) <==> (!WrapsNext(s) || now > s.time)
    ensures Alloc(s, now).1 == Pin(Alloc(s, now).0.time, Alloc(s, now).0.id) && Alloc(s, now).1.id != 0
  {
    assert !WrapsNext(s) ==> (s.id + 1) % ID_LIMIT == s.id + 1;
  }

  /** The ids handed out at the given clock readings. */
  function Sent(s: Send, clock: seq<nat>): (pins: seq<Pin>)
    ensures |pins| == |clock|
    decreases |clock|
  {
    if clock == [] then [] else [Alloc(s, clock[0]).1] + Sent(Alloc(s, clock[0]).0, clock[1..])
  }

  /** Clocks fit the wire; every wrap happens in long form, after the clock has moved on. */
  predicate GoodClock(s: Send, clock: seq<nat>, longForm: bool)
    decreases |clock|
  {
    clock == [] ||
    (0 < clock[0] < ID_LIMIT
     && (WrapsNext(s) ==> longForm && clock[0] > s.time)
     && GoodClock(Alloc(s, clock[0]).0, clock[1..], longForm))
  }

  lemma {:induction false} SentAboveStart(s: Send, clock: seq<nat>, longForm: bool, k: nat)
    requires GoodClock(s, clock, longForm) && k < |clock|
    ensures PinLess(Pin(s.time, s.id), Sent(s, clock)[k])
    decreases |clock|
  {
    var next := Alloc(s, clock[0]).0;
    AllocIncreasesIff(s, clock[0]);
    if k > 0 {
      SentAboveStart(next, clock[1..], longForm, k - 1);
    }
  }

  /** Everything one sender emits is strictly increasing by (time, id). */
  lemma {:induction false} SentIncreases(s: Send, clock: seq<nat>, longForm: bool, i: nat, j: nat)
    requires GoodClock(s, clock, longForm) && i < j < |clock|
    ensures PinLess(Sent(s, clock)[i], Sent(s, clock)[j])
    decreases |clock|
  {
    var next := Alloc(s, clock[0]).0;
    AllocIncreasesIff(s, clock[0]);
    if i == 0 {
      SentAboveStart(next, clock[1..], longForm, j - 1);
    } else {
      SentIncreases(next, clock[1..], longForm, i - 1, j - 1);
    }
  }

  // ------------------------------------------------------------------ the wire form

  /** The id, then in long form the time cut to 32 bits. */
  function Encode(pin: Pin, longForm: bool): seq<byte> {
    U32(pin.id) + if longForm then U32(pin.time % ID_LIMIT) else []
  }

  datatype Decoded = Decoded(pin: Pin, rest: seq<byte>) | TooShort

  function Decode(s: seq<byte>, longForm: bool): Decoded {
    if |s| < 4 then TooShort
    else if !longForm then Decoded(Pin(0, FromU32(s[..4])), s[4..])
    else if |s| < 8 then TooShort
    else Decoded(Pin(FromU32(s[4..8]), FromU32(s[..4])), s[8..])
  }

  /** What a receiver sees of a packet id: short form drops the time. */
  function OnWire(pin: Pin, longForm: bool): Pin {
    if longForm then Pin(pin.time % ID_LIMIT, pin.id) else Pin(0, pin.id)
  }

  /** Four bytes of id, and in long form four of time behind them, each most significant byte first. */
  lemma WireBytes(pin: Pin, longForm: bool)
    ensures var s := Encode(pin, longForm);
            && |s| == (if longForm then 8 else 4)
            && pin.id == s[0] as int * 0x100_0000 + s[1] as int * 0x1_0000 + s[2] as int * 0x100 + s[3] as int
            && (longForm ==> pin.time % 0x1_0000_0000
                             == s[4] as int * 0x100_0000 + s[5] as int * 0x1_0000 + s[6] as int * 0x100 + s[7] as int)
  {
    NetworkOrder(pin.id);
    NetworkOrder(pin.time % 0x1_0000_0000);
  }

  lemma WireRoundTrip(pin: Pin, longForm: bool, rest: seq<byte>)
    ensures Decode(Encode(pin, longForm) + rest, longForm) == Decoded(OnWire(pin, longForm), rest)
  {
    var s := Encode(pin, longForm) + rest;
    U32RoundTrip(pin.id);
    U32RoundTrip(pin.time % ID_LIMIT);
    assert s[..4] == U32(pin.id);
    if longForm {
      assert s[4..8] == U32(pin.time % ID_LIMIT);
      assert s[8..] == rest;
    } else {
      assert s[4..] == rest;
    }
  }

  /** packet_id_write: the same bytes whether appended or prepended; a refused append may leave the id behind. */
  method PacketIdWrite(pin: Pin, buf: Buffer, longForm: bool, prepend: bool) returns (ok: bool)
    requires buf.Valid()
    modifies buf, buf.data
    ensures buf.Valid()
    ensures ok == (|Encode(pin, longForm)| <=
                   if prepend then old(buf.offset) else buf.data.Length - old(buf.offset + buf.len))
    ensures ok ==> buf.Contents() == if prepend then Encode(pin, longForm) + old(buf.Contents())
                                     else old(buf.Contents()) + Encode(pin, longForm)
  {
    var netId := U32(pin.id);
    var netTime := U32(pin.time % ID_LIMIT);
    ghost var was := buf.Contents();
    if prepend {
      if longForm {
        ok := buf.WritePrepend(netTime);
        if !ok { return; }
        assert netId + (netTime + was) == (netId + netTime) + was;
      }
      ok := buf.WritePrepend(netId);
    } else {
      ok := buf.Write(netId);
      if !ok { return; }
      if longForm {
        ok := buf.Write(netTime);
        assert (was + netId) + netTime == was + (netId + netTime);
      }
    }
  }

  /** packet_id_read. */
  method PacketIdRead(buf: Buffer, longForm: bool) returns (ok: bool, pin: Pin)
    requires buf.Valid()
    modifies buf
    ensures buf.Valid()
    ensures match Decode(old(buf.Contents()), longForm)
            case TooShort => !ok
            case Decoded(p, rest) => ok && pin == p && buf.Contents() == rest
  {
    pin := Pin(0, 0);
    ghost var all := buf.Contents();
    var netId: seq<byte>;
    ok, netId := buf.Read(4);
    if !ok { return; }
    assert all[..4] == netId && all[4..] == buf.Contents();
    pin := Pin(0, FromU32(netId));
    if longForm {
      var netTime: seq<byte>;
      ok, netTime := buf.Read(4);
      if !ok { return; }
      assert all == netId + (netTime + buf.Contents());
      assert all[4..8] == netTime && all[8..] == buf.Contents();
      pin := Pin(FromU32(netTime), pin.id);
    }
  }

  // ------------------------------------------------------------------ sender meets strict receiver

  /** The packets of a sender as they come off the wire, in order, at the receiver's clock readings. */
  function Delivered(pins: seq<Pin>, longForm: bool, clock: seq<int>): seq<Arrival>
    requires |pins| == |clock|
  {
    seq(|pins|, k requires 0 <= k < |pins| => Arrival(OnWire(pins[k], longForm), clock[k]))
  }

  predicate AllAccepted(verdicts: seq<bool>) {
    forall k | 0 <= k < |verdicts| :: verdicts[k]
  }

  lemma {:induction false} StrictFollowsSender(r: Rec, s: Send, sendClock: seq<nat>, longForm: bool, run: seq<Arrival>)
    requires r.w == 0 && r.tb == 0 && r.id == s.id && r.time == (if longForm then s.time else 0)
    requires s.time < ID_LIMIT && (s.time == 0 ==> s.id == 0)
    requires GoodClock(s, sendClock, longForm)
    requires |run| == |sendClock|
    requires forall k | 0 <= k < |run| :: run[k].pin == OnWire(Sent(s, sendClock)[k], longForm)
    ensures AllAccepted(Verdicts(r, run))
    decreases |run|
  {
    if run != [] {
      var (s', pin) := Alloc(s, sendClock[0]);
      assert !WrapsNext(s) ==> (s.id + 1) % ID_LIMIT == s.id + 1;
      assert pin == Sent(s, sendClock)[0];
      var r' := Receive(r, run[0].pin, run[0].now);
      assert Accepts(r, run[0].pin, run[0].now);
      forall k | 0 <= k < |run[1..]| ensures run[1..][k].pin == OnWire(Sent(s', sendClock[1..])[k], longForm) {
        assert Sent(s, sendClock)[k + 1] == Sent(s', sendClock[1..])[k];
      }
      StrictFollowsSender(r', s', sendClock[1..], longForm, run[1..]);
    }
  }

  /** A fresh sender's whole output, in order, is accepted by a fresh strict receiver, in both wire forms. */
  lemma StrictAcceptsSender(sendClock: seq<nat>, longForm: bool, recvClock: seq<int>)
    requires GoodClock(Send(0, 0), sendClock, longForm) && |recvClock| == |sendClock|
    ensures var run := Delivered(Sent(Send(0, 0), sendClock), longForm, recvClock);
            AllAccepted(Verdicts(Init(0, 0), run))
  {
    var run := Delivered(Sent(Send(0, 0), sendClock), longForm, recvClock);
    StrictFollowsSender(Init(0, 0), Send(0, 0), sendClock, longForm, run);
  }

  /** How many packet ids an epoch has. */
  const EPOCH := ID_LIMIT - 1

  /** How many packets of its epoch come before the n-th. */
  function PlaceInEpoch(n: nat): nat {
    n % EPOCH
  }

  lemma PlaceFacts(n: nat)
    ensures PlaceInEpoch(n) < EPOCH
    ensures n < EPOCH ==> PlaceInEpoch(n) == n
    ensures n >= EPOCH ==> PlaceInEpoch(n) == PlaceInEpoch(n - EPOCH) <= n - EPOCH
  {
  }

  /** The k-th packet from a given state on. */
  lemma {:induction false} SentFrom(s: Send, clock: seq<nat>, k: nat)
    requires k < |clock| && (forall i | 0 <= i < |clock| :: clock[i] > 0) && (s.time == 0 ==> s.id == 0)
    ensures var n, place := s.id + k, PlaceInEpoch(s.id + k);
            && (n >= EPOCH ==> place <= k)
            && Sent(s, clock)[k] == Pin(if n >= EPOCH then clock[k - place] else if s.time == 0 then clock[0] else s.time,
                                        place + 1)
    decreases k
  {
    hide PlaceInEpoch, Alloc;
    PlaceFacts(s.id + k);
    PlaceFacts(k);
    AllocCases(s, clock[0]);
    if k > 0 {
      SentFrom(Alloc(s, clock[0]).0, clock[1..], k - 1);
    }
  }

  lemma AllocCases(s: Send, now: nat)
    ensures var (s', pin) := Alloc(s, now);
            && pin == Pin(s'.time, s'.id)
            && s' == if s.id == EPOCH then Send(1, now) else Send(s.id + 1, if s.time == 0 then now else s.time)
  {
  }

  /** Ids count from 1 to 2^32 - 1 and start over; each epoch's time is the clock at its first packet. */
  lemma SentIs(clock: seq<nat>, k: nat)
    requires k < |clock| && forall i | 0 <= i < |clock| :: clock[i] > 0
    ensures var place := PlaceInEpoch(k);
            place <= k && Sent(Send(0, 0), clock)[k] == Pin(clock[k - place], place + 1)
  {
    hide PlaceInEpoch;
    PlaceFacts(k);
    SentFrom(Send(0, 0), clock, k);
  }

  // ------------------------------------------------------------------ sender meets windowed receiver

  /** `b` may arrive after `a`: not from an older epoch, not the same, not displaced by `w` or more. */
  predicate MayFollow(w: nat, a: Pin, b: Pin) {
    a.time < b.time || (a.time == b.time && a.id != b.id && a.id < b.id + w)
  }

  predicate ReorderedWithin(w: nat, pins: seq<Pin>) {
    && (forall k | 0 <= k < |pins| :: pins[k].id != 0)
    && (forall i, j | 0 <= i < j < |pins| :: MayFollow(w, pins[i], pins[j]))
  }

  function Pins(run: seq<Arrival>): seq<Pin> {
    seq(|run|, k requires 0 <= k < |run| => run[k].pin)
  }

  /** The plain description after accepting every packet of `past`, never expiring. */
  ghost predicate Tracks(p: Plain, past: seq<Pin>) {
    && p.expired == {}
    && (if past == [] then p.time == 0 && p.high == 0 && p.arrival == map[] else p.time == past[|past| - 1].time)
    && (forall k | 0 <= k < |past| :: past[k].time <= p.time)
    && (forall k | 0 <= k < |past| && past[k].time == p.time :: past[k].id in p.arrival && past[k].id <= p.high)
    && (forall i <- p.arrival :: i < ID_LIMIT && Pin(p.time, i) in past)
    && (past != [] ==> p.high in p.arrival)
  }

  lemma TracksTest(p: Plain, w: nat, past: seq<Pin>, pin: Pin)
    requires 0 < w && Tracks(p, past)
    ensures PlainTest(p, w, pin) <==> (pin.id != 0 && forall k | 0 <= k < |past| :: MayFollow(w, past[k], pin))
  {
    if PlainTest(p, w, pin) {
      forall k | 0 <= k < |past| ensures MayFollow(w, past[k], pin) {
      }
    } else if pin.id != 0 && past != [] {
      if pin.time < p.time {
        assert !MayFollow(w, past[|past| - 1], pin);
      } else if pin.id in p.arrival {
        var k :| 0 <= k < |past| && past[k] == Pin(p.time, pin.id);
        assert !MayFollow(w, past[k], pin);
      } else {
        var k :| 0 <= k < |past| && past[k] == Pin(p.time, p.high);
        assert !MayFollow(w, past[k], pin);
      }
    }
  }

  lemma TracksAdd(p: Plain, w: nat, past: seq<Pin>, pin: Pin, now: int)
    requires 0 < w && Tracks(p, past) && PlainTest(p, w, pin)
    ensures Tracks(PlainAdd(p, pin, now), past + [pin])
  {
    var p' := PlainAdd(p, pin, now);
    var past' := past + [pin];
    assert past'[|past|] == pin;
    forall i | i in p'.arrival ensures i < ID_LIMIT && Pin(p'.time, i) in past' {
      if i != pin.id { assert Pin(p.time, i) in past; }
    }
  }

  lemma ReorderedOneMore(w: nat, past: seq<Pin>, pin: Pin)
    requires ReorderedWithin(w, past)
    ensures ReorderedWithin(w, past + [pin]) <==>
            (pin.id != 0 && forall k | 0 <= k < |past| :: MayFollow(w, past[k], pin))
  {
    var all := past + [pin];
    assert all[|past|] == pin;
    if ReorderedWithin(w, all) {
      forall k | 0 <= k < |past| ensures MayFollow(w, past[k], pin) {
        assert MayFollow(w, all[k], all[|past|]);
      }
    }
  }

  lemma ReorderedPrefix(w: nat, past: seq<Pin>, rest: seq<Pin>)
    requires ReorderedWithin(w, past + rest)
    ensures ReorderedWithin(w, past)
  {
    var all := past + rest;
    assert forall k | 0 <= k < |past| :: all[k] == past[k];
    forall i, j | 0 <= i < j < |past| ensures MayFollow(w, past[i], past[j]) {
      assert MayFollow(w, all[i], all[j]);
    }
  }

  lemma {:induction false} WindowAcceptsIffFrom(p: Plain, w: nat, past: seq<Pin>, run: seq<Arrival>)
    requires 0 < w && Tracks(p, past) && ReorderedWithin(w, past)
    ensures AllAccepted(PlainVerdicts(p, w, 0, run)) <==> ReorderedWithin(w, past + Pins(run))
    decreases |run|
  {
    if run == [] {
      assert past + Pins(run) == past;
    } else {
      var a := run[0];
      var p1 := PlainReapTest(p, 0, a.now);
      var v := PlainVerdicts(p, w, 0, run);
      var past' := past + [a.pin];
      assert past + Pins(run) == past' + Pins(run[1..]);
      TracksTest(p1, w, past, a.pin);
      ReorderedOneMore(w, past, a.pin);
      assert v[0] == PlainTest(p1, w, a.pin);
      if v[0] {
        var p2 := PlainAdd(p1, a.pin, a.now);
        TracksAdd(p1, w, past, a.pin, a.now);
        WindowAcceptsIffFrom(p2, w, past', run[1..]);
        AllOfTail(v, PlainVerdicts(p2, w, 0, run[1..]));
      } else if ReorderedWithin(w, past' + Pins(run[1..])) {
        ReorderedPrefix(w, past', Pins(run[1..]));
      }
    }
  }

  lemma AllOfTail(v: seq<bool>, tail: seq<bool>)
    requires v == [true] + tail
    ensures AllAccepted(v) <==> AllAccepted(tail)
  {
    assert forall k | 0 <= k < |tail| :: tail[k] == v[k + 1];
  }

  /**
    A fresh windowed receiver without time expiry accepts EVERY packet of a run exactly when
    no id is 0, none repeats, epochs do not go back, and none is displaced by the window or more.
  */
  lemma WindowAcceptsAllIff(w: nat, run: seq<Arrival>)
    requires 0 < w <= MAX_SEQ_BACKTRACK && Clocked(run)
    ensures AllAccepted(Verdicts(Init(w, 0), run)) <==> ReorderedWithin(w, Pins(run))
  {
    WindowIsPlainSet(w, 0, run);
    WindowAcceptsIffFrom(PLAIN_INIT, w, [], run);
    assert [] + Pins(run) == Pins(run);
  }

  lemma {:induction false} SentFits(s: Send, clock: seq<nat>, k: nat)
    requires s.time < ID_LIMIT && GoodClock(s, clock, true) && k < |clock|
    ensures Sent(s, clock)[k].id != 0 && Sent(s, clock)[k].time < ID_LIMIT
    decreases k
  {
    if k > 0 { SentFits(Alloc(s, clock[0]).0, clock[1..], k - 1); }
  }

  /** The indices `order` deliver `pins` with epochs kept apart and ids displaced by less than w. */
  predicate KeepsOrderWithin(w: nat, pins: seq<Pin>, order: seq<nat>) {
    && (forall k | 0 <= k < |order| :: order[k] < |pins|)
    && (forall i, j | 0 <= i < j < |order| ::
          && order[i] != order[j]
          && pins[order[i]].time <= pins[order[j]].time
          && (pins[order[i]].time == pins[order[j]].time ==> pins[order[i]].id < pins[order[j]].id + w))
  }

  lemma SentMayFollow(w: nat, clock: seq<nat>, order: seq<nat>, i: nat, j: nat)
    requires GoodClock(Send(0, 0), clock, true) && KeepsOrderWithin(w, Sent(Send(0, 0), clock), order)
    requires i < j < |order|
    ensures MayFollow(w, Sent(Send(0, 0), clock)[order[i]], Sent(Send(0, 0), clock)[order[j]])
  {
    if order[i] < order[j] {
      SentIncreases(Send(0, 0), clock, true, order[i], order[j]);
    } else {
      SentIncreases(Send(0, 0), clock, true, order[j], order[i]);
    }
  }

  /** So a long-form sender loses nothing to any such reordering. */
  lemma WindowAcceptsSender(w: nat, sendClock: seq<nat>, order: seq<nat>, run: seq<Arrival>)
    requires 0 < w <= MAX_SEQ_BACKTRACK && Clocked(run) && |run| == |order|
    requires GoodClock(Send(0, 0), sendClock, true)
    requires KeepsOrderWithin(w, Sent(Send(0, 0), sendClock), order)
    requires forall k | 0 <= k < |run| :: run[k].pin == OnWire(Sent(Send(0, 0), sendClock)[order[k]], true)
    ensures AllAccepted(Verdicts(Init(w, 0), run))
  {
    var pins := Sent(Send(0, 0), sendClock);
    forall k | 0 <= k < |run| ensures run[k].pin == pins[order[k]] && run[k].pin.id != 0 {
      SentFits(Send(0, 0), sendClock, order[k]);
    }
    forall i, j | 0 <= i < j < |run| ensures MayFollow(w, Pins(run)[i], Pins(run)[j]) {
      SentMayFollow(w, sendClock, order, i, j);
    }
    WindowAcceptsAllIff(w, run);
  }
}
