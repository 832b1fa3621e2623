/**
  Anti-replay window (packet_id.c): the specification the class `PacketIdRec` is
  proved against, and the properties of every run of it.

  A window is the sequence of arrival marks, newest id first: slot d belongs to the
  id `id - d`.  A mark is SEQ_UNSEEN, SEQ_EXPIRED or the arrival time.
*/
module ReplayModel {
  import opened IntegerOps

  const SEQ_UNSEEN := 0
  const SEQ_EXPIRED := 1
  const MAX_SEQ_BACKTRACK := 65536
  const MAX_TIME_BACKTRACK := 600
  const SEQ_REAP_INTERVAL := 5
  const ID_LIMIT := 0x1_0000_0000

  /** packet_id_type is an unsigned 32-bit number. */
  type PacketId = n: nat | n < ID_LIMIT

  datatype Pin = Pin(time: nat, id: PacketId)

  /** The receiving record; `w` is seq_backtrack (0 selects strict mode), `tb` is time_backtrack. */
  datatype Rec = Rec(time: nat, id: PacketId, win: seq<int>, w: nat, tb: nat, lastReap: int)

  /** packet_id_init: everything clear, an empty list of capacity `w`. */
  function Init(w: nat, tb: nat): Rec {
    Rec(0, 0, [], w, tb, 0)
  }

  predicate Configured(w: nat, tb: nat) {
    w <= MAX_SEQ_BACKTRACK && tb <= MAX_TIME_BACKTRACK && (w == 0 ==> tb == 0)
  }

  function Unseen(n: nat): seq<int> {
    seq(n, _ => SEQ_UNSEEN)
  }

  /** The window after `n` pushes of SEQ_UNSEEN. */
  function Slid(win: seq<int>, n: nat, w: nat): seq<int> {
    (Unseen(n) + win)[..MinInt(n + |win|, w)]
  }

  /** Does packet_id_add start a new sequence? */
  predicate StartsOver(r: Rec, pin: Pin) {
    |r.win| == 0 || pin.time > r.time || (pin.id >= r.w && pin.id - r.w > r.id)
  }

  /** The record packet_id_add slides forward: emptied just below the packet's id, or as it was. */
  function Rebased(r: Rec, pin: Pin): Rec {
    if StartsOver(r, pin) then
      r.(time := pin.time, id := if pin.id > r.w then pin.id - r.w else 0, win := [])
    else r
  }

  /** Slide the window up to `top`, one unseen slot for each id. */
  function Advanced(r: Rec, top: PacketId): Rec {
    if r.id < top then r.(id := top, win := Slid(r.win, top - r.id, r.w))
    else r.(win := Slid(r.win, 0, r.w))
  }

  /** Record the arrival time of an id the window covers. */
  function Stamped(r: Rec, id: PacketId, now: int): Rec
    requires id <= r.id
  {
    if r.id - id < |r.win| && now > SEQ_EXPIRED then r.(win := r.win[r.id - id := now]) else r
  }

  /** packet_id_add. */
  function Add(r: Rec, pin: Pin, now: int): Rec {
    if r.w == 0 then r.(time := pin.time, id := pin.id)
    else Stamped(Advanced(Rebased(r, pin), pin.id), pin.id, now)
  }

  /** Is this arrival mark too old at `now`? */
  predicate Stale(mark: int, tb: nat, now: int) {
    mark != SEQ_UNSEEN && mark + tb < now
  }

  /** packet_id_reap's scan, which stops at the first expired mark. */
  function EarlyScan(win: seq<int>, expire: bool, tb: nat, now: int): (r: seq<int>)
    ensures |r| == |win|
  {
    if win == [] || win[0] == SEQ_EXPIRED then win
    else
      var e := expire || Stale(win[0], tb, now);
      [if e then SEQ_EXPIRED else win[0]] + EarlyScan(win[1..], e, tb, now)
  }

  /** What a scan that has handled `i` marks and not stopped still has to do. */
  ghost predicate ScanRest(win: seq<int>, scanned: seq<int>, i: nat, expire: bool, tb: nat, now: int) {
    && i <= |win| == |scanned|
    && scanned[i..] == EarlyScan(win[i..], expire, tb, now)
  }

  lemma ScanStep(win: seq<int>, scanned: seq<int>, i: nat, expire: bool, tb: nat, now: int)
    requires ScanRest(win, scanned, i, expire, tb, now) && i < |win| && win[i] != SEQ_EXPIRED
    ensures var e := expire || Stale(win[i], tb, now);
            scanned[i] == (if e then SEQ_EXPIRED else win[i]) && ScanRest(win, scanned, i + 1, e, tb, now)
  {
    assert win[i..][1..] == win[i + 1..];
    assert scanned[i..][1..] == scanned[i + 1..];
  }

  /** The scan ends at the end of the window or at an expired mark. */
  lemma ScanEnds(win: seq<int>, scanned: seq<int>, i: nat, expire: bool, tb: nat, now: int)
    requires ScanRest(win, scanned, i, expire, tb, now) && (i == |win| || win[i] == SEQ_EXPIRED)
    ensures forall k | i <= k < |win| :: scanned[k] == win[k]
  {
    assert scanned[i..] == win[i..];
    forall k | i <= k < |win| ensures scanned[k] == win[k] {
      assert scanned[i..][k - i] == win[i..][k - i];
    }
  }

  /** The same scan without the early exit. */
  function FullScan(win: seq<int>, expire: bool, tb: nat, now: int): (r: seq<int>)
    ensures |r| == |win|
  {
    if win == [] then win
    else
      var e := expire || Stale(win[0], tb, now);
      [if e then SEQ_EXPIRED else win[0]] + FullScan(win[1..], e, tb, now)
  }

  /** packet_id_reap. */
  function Reap(r: Rec, now: int): Rec {
    if r.tb != 0 then r.(win := EarlyScan(r.win, false, r.tb, now), lastReap := now)
    else r.(lastReap := now)
  }

  /** packet_id_reap_test. */
  function ReapTest(r: Rec, now: int): Rec {
    if r.lastReap + SEQ_REAP_INTERVAL <= now then Reap(r, now) else r
  }

  /** packet_id_test. */
  predicate Test(r: Rec, pin: Pin) {
    if pin.id == 0 then false
    else if r.w != 0 then
      if pin.time == r.time then
        pin.id > r.id || (r.id - pin.id < |r.win| && r.win[r.id - pin.id] == SEQ_UNSEEN)
      else pin.time > r.time
    else
      if pin.time == r.time then pin.id == (r.id + 1) % ID_LIMIT
      else pin.time > r.time && pin.id == 1
  }

  /** One authenticated packet, in the order of the receive path: reap test, test, add on success. */
  function Receive(r: Rec, pin: Pin, now: int): Rec {
    var r' := ReapTest(r, now);
    if Test(r', pin) then Add(r', pin, now) else r'
  }

  predicate Accepts(r: Rec, pin: Pin, now: int) {
    Test(ReapTest(r, now), pin)
  }

  datatype Arrival = Arrival(pin: Pin, now: int)

  /** Clocks are above SEQ_EXPIRED; nothing else is asked of them. */
  predicate Clocked(run: seq<Arrival>) {
    forall a <- run :: a.now > SEQ_EXPIRED
  }

  /** The record after a run. */
  function After(r: Rec, run: seq<Arrival>): Rec
    decreases |run|
  {
    if run == [] then r else After(Receive(r, run[0].pin, run[0].now), run[1..])
  }

  /** The verdict on each packet of a run. */
  function Verdicts(r: Rec, run: seq<Arrival>): (v: seq<bool>)
    ensures |v| == |run|
    decreases |run|
  {
    if run == [] then []
    else [Accepts(r, run[0].pin, run[0].now)] + Verdicts(Receive(r, run[0].pin, run[0].now), run[1..])
  }

  // ------------------------------------------------------------------ the window as a plain set

  /**
    The plain description of windowed mode: the ids accepted in the current epoch with
    their arrival times, and the ids expired in it.  No window, no ring, no forgetting.
  */
  datatype Plain = Plain(time: nat, high: PacketId, arrival: map<nat, int>, expired: set<nat>, lastReap: int)

  const PLAIN_INIT := Plain(0, 0, map[], {}, 0)

  predicate PlainTest(p: Plain, w: nat, pin: Pin) {
    pin.id != 0 &&
    (pin.time > p.time ||
     (pin.time == p.time &&
      (pin.id > p.high ||
       (p.high - pin.id < w && pin.id !in p.arrival && pin.id !in p.expired))))
  }

  function PlainAdd(p: Plain, pin: Pin, now: int): Plain {
    if pin.time > p.time then Plain(pin.time, pin.id, map[pin.id := now], {}, p.lastReap)
    else p.(high := if pin.id > p.high then pin.id else p.high, arrival := p.arrival[pin.id := now])
  }

  /** An accepted id that is too old expires itself and every id below it. */
  predicate Outdated(p: Plain, tb: nat, now: int, i: nat) {
    exists j <- p.arrival :: i <= j && p.arrival[j] + tb < now
  }

  function PlainReap(p: Plain, tb: nat, now: int): Plain {
    if tb == 0 then p.(lastReap := now)
    else p.(expired := p.expired + (set i: nat | i <= p.high && Outdated(p, tb, now, i)), lastReap := now)
  }

  function PlainReapTest(p: Plain, tb: nat, now: int): Plain {
    if p.lastReap + SEQ_REAP_INTERVAL <= now then PlainReap(p, tb, now) else p
  }

  function PlainReceive(p: Plain, w: nat, tb: nat, pin: Pin, now: int): Plain {
    var p' := PlainReapTest(p, tb, now);
    if PlainTest(p', w, pin) then PlainAdd(p', pin, now) else p'
  }

  /** The verdicts of the plain description on a run. */
  function PlainVerdicts(p: Plain, w: nat, tb: nat, run: seq<Arrival>): (v: seq<bool>)
    ensures |v| == |run|
    decreases |run|
  {
    if run == [] then []
    else
      [PlainTest(PlainReapTest(p, tb, run[0].now), w, run[0].pin)]
      + PlainVerdicts(PlainReceive(p, w, tb, run[0].pin, run[0].now), w, tb, run[1..])
  }

  /** What the window shows for an id. */
  function Mark(p: Plain, i: nat): int {
    if i in p.expired then SEQ_EXPIRED
    else if i in p.arrival then p.arrival[i]
    else SEQ_UNSEEN
  }

  ghost predicate PlainValid(p: Plain) {
    && (forall i <- p.arrival :: 0 < i <= p.high && p.arrival[i] > SEQ_EXPIRED)
    && (forall i <- p.expired :: i <= p.high)
    && (forall i: nat, k: nat | i in p.expired && k <= i :: k in p.expired)
  }

  /** The window of size min(w, id) shows exactly the marks of the plain state. */
  ghost predicate Refines(r: Rec, p: Plain) {
    && PlainValid(p)
    && 0 < r.w
    && r.time == p.time && r.id == p.high && r.lastReap == p.lastReap
    && |r.win| == MinInt(r.w, r.id)
    && (forall d: nat | d < |r.win| :: r.win[d] == Mark(p, r.id - d))
  }

  lemma {:induction false} EarlyScanAt(win: seq<int>, expire: bool, tb: nat, now: int, d: nat)
    requires d < |win|
    requires ExpiredSuffix(win)
    ensures EarlyScan(win, expire, tb, now)[d] ==
            if expire || win[d] == SEQ_EXPIRED || (exists k: nat :: k <= d && win[k] != SEQ_EXPIRED && Stale(win[k], tb, now))
            then SEQ_EXPIRED else win[d]
  {
    if win[0] == SEQ_EXPIRED {
      assert win[d] == SEQ_EXPIRED;
    } else {
      var e := expire || Stale(win[0], tb, now);
      if d > 0 {
        var rest := win[1..];
        assert forall k: nat | k < |rest| :: rest[k] == win[k + 1];
        EarlyScanAt(rest, e, tb, now, d - 1);
        if k: nat :| k <= d && win[k] != SEQ_EXPIRED && Stale(win[k], tb, now) {
          if k > 0 { assert Stale(rest[k - 1], tb, now); }
        }
      }
    }
  }

  /** Expired marks, once they start, run to the end of the window. */
  ghost predicate ExpiredSuffix(win: seq<int>) {
    forall i: nat, k: nat | i <= k < |win| && win[i] == SEQ_EXPIRED :: win[k] == SEQ_EXPIRED
  }

  lemma SimInit(w: nat, tb: nat)
    requires 0 < w
    ensures Refines(Init(w, tb), PLAIN_INIT)
  {
  }

  lemma RefinesSuffix(r: Rec, p: Plain)
    requires Refines(r, p)
    ensures ExpiredSuffix(r.win)
  {
    forall i: nat, k: nat | i <= k < |r.win| && r.win[i] == SEQ_EXPIRED ensures r.win[k] == SEQ_EXPIRED {
      assert r.id - i in p.expired;
    }
  }

  lemma ReapMark(r: Rec, p: Plain, now: int, d: nat)
    requires Refines(r, p) && r.tb != 0 && d < |r.win|
    ensures EarlyScan(r.win, false, r.tb, now)[d] == Mark(PlainReap(p, r.tb, now), r.id - d)
  {
    RefinesSuffix(r, p);
    EarlyScanAt(r.win, false, r.tb, now, d);
    var i := r.id - d;
    if k: nat :| k <= d && r.win[k] != SEQ_EXPIRED && Stale(r.win[k], r.tb, now) {
      assert r.id - k in p.arrival;
      assert Outdated(p, r.tb, now, i);
    } else if Outdated(p, r.tb, now, i) {
      var j :| j in p.arrival && i <= j && p.arrival[j] + r.tb < now;
      assert r.win[r.id - j] == Mark(p, j);
      assert j in p.expired;
    }
  }

  lemma SimReap(r: Rec, p: Plain, now: int)
    requires Refines(r, p)
    ensures Refines(Reap(r, now), PlainReap(p, r.tb, now))
  {
    if r.tb != 0 {
      var p' := PlainReap(p, r.tb, now);
      forall i: nat, k: nat | i in p'.expired && k <= i ensures k in p'.expired {
        if i !in p.expired {
          assert Outdated(p, r.tb, now, k);
        }
      }
      var win' := Reap(r, now).win;
      forall d: nat | d < |win'| ensures win'[d] == Mark(p', r.id - d) {
        ReapMark(r, p, now, d);
      }
    }
  }

  lemma SimTest(r: Rec, p: Plain, pin: Pin)
    requires Refines(r, p)
    ensures Test(r, pin) == PlainTest(p, r.w, pin)
  {
  }

  lemma SlidAt(win: seq<int>, n: nat, w: nat)
    ensures |Slid(win, n, w)| == MinInt(n + |win|, w)
    ensures forall d: nat | d < |Slid(win, n, w)| :: Slid(win, n, w)[d] == if d < n then SEQ_UNSEEN else win[d - n]
  {
  }

  /** One more push of SEQ_UNSEEN. */
  lemma SlidPush(win: seq<int>, n: nat, w: nat)
    requires |win| <= w
    ensures ([SEQ_UNSEEN] + Slid(win, n, w))[..MinInt(|Slid(win, n, w)| + 1, w)] == Slid(win, n + 1, w)
  {
    SlidAt(win, n, w);
    SlidAt(win, n + 1, w);
  }

  /** The mark an added packet leaves at each distance from the new top. */
  function AddedMark(r: Rec, pin: Pin, now: int, top: nat, d: nat): int
    requires d <= top
  {
    if top - d == pin.id then now
    else if StartsOver(r, pin) || top - d > r.id || r.id - (top - d) >= |r.win| then SEQ_UNSEEN
    else r.win[r.id - (top - d)]
  }

  /** The window add writes into shows what was there, at its new distance from the top. */
  lemma SlidMarks(r: Rec, pin: Pin, top: nat)
    requires 0 < r.w && |r.win| == MinInt(r.w, r.id) && Test(r, pin)
    requires top == if pin.time > r.time || pin.id > r.id then pin.id else r.id
    ensures Rebased(r, pin).time == pin.time && Rebased(r, pin).id <= top
    ensures MaxInt(Rebased(r, pin).id, pin.id) == top && top - pin.id < MinInt(r.w, top)
    ensures var win := Slid(Rebased(r, pin).win, top - Rebased(r, pin).id, r.w);
            && |win| == MinInt(r.w, top)
            && forall d: nat | d < |win| ::
                 win[d] == if StartsOver(r, pin) || top - d > r.id || r.id - (top - d) >= |r.win| then SEQ_UNSEEN
                           else r.win[r.id - (top - d)]
  {
    hide Slid;
    var base := Rebased(r, pin);
    SlidAt(base.win, top - base.id, r.w);
  }

  lemma AddWindow(r: Rec, pin: Pin, now: int)
    requires 0 < r.w && |r.win| == MinInt(r.w, r.id) && Test(r, pin) && now > SEQ_EXPIRED
    ensures var r' := Add(r, pin, now);
            && r'.time == pin.time
            && r'.id == (if pin.time > r.time || pin.id > r.id then pin.id else r.id)
            && |r'.win| == MinInt(r.w, r'.id)
            && forall d: nat | d < |r'.win| :: r'.win[d] == AddedMark(r, pin, now, r'.id, d)
  {
    hide StartsOver, Slid, Test;
    var top := if pin.time > r.time || pin.id > r.id then pin.id else r.id;
    SlidMarks(r, pin, top);
    var base := Rebased(r, pin);
    var win := Slid(base.win, top - base.id, r.w);
    assert Add(r, pin, now).win == win[top - pin.id := now];
  }

  lemma AddConfig(r: Rec, pin: Pin, now: int)
    ensures Add(r, pin, now).w == r.w && Add(r, pin, now).tb == r.tb && Add(r, pin, now).lastReap == r.lastReap
  {
  }

  lemma PlainAddValid(p: Plain, w: nat, pin: Pin, now: int)
    requires PlainValid(p) && PlainTest(p, w, pin) && now > SEQ_EXPIRED
    ensures PlainValid(PlainAdd(p, pin, now))
  {
  }

  lemma AddedMarkIsPlain(r: Rec, p: Plain, pin: Pin, now: int, d: nat)
    requires Refines(r, p) && PlainTest(p, r.w, pin)
    requires d < MinInt(r.w, PlainAdd(p, pin, now).high)
    ensures AddedMark(r, pin, now, PlainAdd(p, pin, now).high, d)
         == Mark(PlainAdd(p, pin, now), PlainAdd(p, pin, now).high - d)
  {
    var p' := PlainAdd(p, pin, now);
    var i := p'.high - d;
    if pin.time == p.time && i != pin.id {
      assert Mark(p', i) == Mark(p, i);
      if i <= r.id && r.id - i < |r.win| && !StartsOver(r, pin) {
        assert r.win[r.id - i] == Mark(p, i);
      } else {
        assert i > p.high;
      }
    }
  }

  lemma SimAdd(r: Rec, p: Plain, pin: Pin, now: int)
    requires Refines(r, p) && PlainTest(p, r.w, pin) && now > SEQ_EXPIRED
    ensures Refines(Add(r, pin, now), PlainAdd(p, pin, now))
  {
    hide Add, AddedMark, StartsOver, Mark, Test;
    SimTest(r, p, pin);
    AddWindow(r, pin, now);
    AddConfig(r, pin, now);
    PlainAddValid(p, r.w, pin, now);
    var r' := Add(r, pin, now);
    var p' := PlainAdd(p, pin, now);
    assert r'.id == p'.high;
    assert r'.w == r.w;
    forall d: nat | d < |r'.win| ensures r'.win[d] == Mark(p', r'.id - d) {
      assert r'.win[d] == AddedMark(r, pin, now, r'.id, d);
      AddedMarkIsPlain(r, p, pin, now, d);
    }
  }

  /** The window decides exactly as the plain set does, over a whole run. */
  lemma {:induction false} WindowIsPlainSetFrom(r: Rec, p: Plain, run: seq<Arrival>)
    requires Refines(r, p) && Clocked(run)
    ensures Verdicts(r, run) == PlainVerdicts(p, r.w, r.tb, run)
    decreases |run|
  {
    hide Add, PlainAdd, PlainReap, Test, PlainTest, EarlyScan;
    if run != [] {
      var a := run[0];
      SimReap(r, p, a.now);
      var r', p' := ReapTest(r, a.now), PlainReapTest(p, r.tb, a.now);
      SimTest(r', p', a.pin);
      if PlainTest(p', r.w, a.pin) {
        SimAdd(r', p', a.pin, a.now);
        AddConfig(r', a.pin, a.now);
      }
      WindowIsPlainSetFrom(Receive(r, a.pin, a.now), PlainReceive(p, r.w, r.tb, a.pin, a.now), run[1..]);
    }
  }

  lemma WindowIsPlainSet(w: nat, tb: nat, run: seq<Arrival>)
    requires 0 < w && Configured(w, tb) && Clocked(run)
    ensures Verdicts(Init(w, tb), run) == PlainVerdicts(PLAIN_INIT, w, tb, run)
  {
    SimInit(w, tb);
    WindowIsPlainSetFrom(Init(w, tb), PLAIN_INIT, run);
  }

  // ------------------------------------------------------------------ no packet is accepted twice

  /** A (time, id) pair the plain description has used up. */
  predicate PlainSpent(p: Plain, pin: Pin) {
    p.time > pin.time || (p.time == pin.time && pin.id in p.arrival && pin.id <= p.high)
  }

  lemma {:induction false} PlainSpentStays(p: Plain, w: nat, tb: nat, run: seq<Arrival>, k: nat, pin: Pin)
    requires PlainSpent(p, pin) && k < |run| && run[k].pin == pin
    ensures !PlainVerdicts(p, w, tb, run)[k]
    decreases |run|
  {
    if k > 0 {
      PlainSpentStays(PlainReceive(p, w, tb, run[0].pin, run[0].now), w, tb, run[1..], k - 1, pin);
    }
  }

  lemma {:induction false} PlainAcceptsOnce(p: Plain, w: nat, tb: nat, run: seq<Arrival>, i: nat, j: nat)
    requires i < j < |run| && run[i].pin == run[j].pin
    ensures !(PlainVerdicts(p, w, tb, run)[i] && PlainVerdicts(p, w, tb, run)[j])
    decreases |run|
  {
    var next := PlainReceive(p, w, tb, run[0].pin, run[0].now);
    if i > 0 {
      PlainAcceptsOnce(next, w, tb, run[1..], i - 1, j - 1);
    } else if PlainVerdicts(p, w, tb, run)[0] {
      PlainSpentStays(next, w, tb, run[1..], j - 1, run[0].pin);
    }
  }

  /** The strict receiver never looks at or below its last accepted pair again. */
  predicate StrictSpent(r: Rec, pin: Pin) {
    r.time > pin.time || (r.time == pin.time && r.id >= pin.id)
  }

  lemma {:induction false} StrictSpentStays(r: Rec, run: seq<Arrival>, k: nat, pin: Pin)
    requires r.w == 0 && StrictSpent(r, pin) && k < |run| && run[k].pin == pin
    ensures !Verdicts(r, run)[k]
    decreases |run|
  {
    if k > 0 {
      StrictSpentStays(Receive(r, run[0].pin, run[0].now), run[1..], k - 1, pin);
    }
  }

  lemma {:induction false} StrictAcceptsOnce(r: Rec, run: seq<Arrival>, i: nat, j: nat)
    requires r.w == 0 && i < j < |run| && run[i].pin == run[j].pin
    ensures !(Verdicts(r, run)[i] && Verdicts(r, run)[j])
    decreases |run|
  {
    var next := Receive(r, run[0].pin, run[0].now);
    if i > 0 {
      StrictAcceptsOnce(next, run[1..], i - 1, j - 1);
    } else if Verdicts(r, run)[0] {
      StrictSpentStays(next, run[1..], j - 1, run[0].pin);
    }
  }

  /** The purpose of the whole component: from packet_id_init, in either mode, whatever arrives. */
  lemma NoReplay(w: nat, tb: nat, run: seq<Arrival>, i: nat, j: nat)
    requires Configured(w, tb) && Clocked(run) && i < j < |run|
    requires Verdicts(Init(w, tb), run)[i] && Verdicts(Init(w, tb), run)[j]
    ensures run[i].pin != run[j].pin
  {
    if run[i].pin == run[j].pin {
      if w == 0 {
        StrictAcceptsOnce(Init(w, tb), run, i, j);
      } else {
        WindowIsPlainSet(w, tb, run);
        PlainAcceptsOnce(PLAIN_INIT, w, tb, run, i, j);
      }
    }
  }

  // ------------------------------------------------------------------ expired marks form a suffix

  /** Stopping at the first expired mark loses nothing, because the marks behind it are expired too. */
  lemma {:induction false} EarlyScanIsFullScan(win: seq<int>, expire: bool, tb: nat, now: int)
    requires ExpiredSuffix(win)
    ensures EarlyScan(win, expire, tb, now) == FullScan(win, expire, tb, now)
    ensures ExpiredSuffix(EarlyScan(win, expire, tb, now))
    decreases |win|
  {
    if win != [] {
      var e := expire || Stale(win[0], tb, now);
      var rest := win[1..];
      assert forall k: nat | k < |rest| :: rest[k] == win[k + 1];
      EarlyScanIsFullScan(rest, e, tb, now);
      ScanAllOnceExpiring(rest, tb, now);
      if win[0] == SEQ_EXPIRED {
        AllExpiredScan(win, expire, tb, now);
      } else {
        var tail := EarlyScan(rest, e, tb, now);
        var scanned := EarlyScan(win, expire, tb, now);
        assert forall k: nat | 0 < k < |win| :: scanned[k] == tail[k - 1];
      }
    }
  }

  lemma {:induction false} AllExpiredScan(win: seq<int>, expire: bool, tb: nat, now: int)
    requires forall k: nat | k < |win| :: win[k] == SEQ_EXPIRED
    ensures FullScan(win, expire, tb, now) == win
    decreases |win|
  {
    if win != [] {
      AllExpiredScan(win[1..], expire || Stale(win[0], tb, now), tb, now);
    }
  }

  lemma {:induction false} ScanAllOnceExpiring(win: seq<int>, tb: nat, now: int)
    requires ExpiredSuffix(win)
    ensures forall k: nat | k < |win| :: EarlyScan(win, true, tb, now)[k] == SEQ_EXPIRED
    decreases |win|
  {
    if win != [] && win[0] != SEQ_EXPIRED {
      var rest := win[1..];
      assert forall k: nat | k < |rest| :: rest[k] == win[k + 1];
      ScanAllOnceExpiring(rest, tb, now);
    }
  }

  /** The window add writes into: slid up to the packet, or emptied below it. */
  function SlidTo(r: Rec, pin: Pin): seq<int> {
    var base := Rebased(r, pin);
    Slid(base.win, if base.id < pin.id then pin.id - base.id else 0, r.w)
  }

  /** How far below the new top the packet's slot is. */
  function Depth(r: Rec, pin: Pin): nat {
    var base := Rebased(r, pin);
    if base.id < pin.id then 0 else base.id - pin.id
  }

  lemma AddIsSlideAndWrite(r: Rec, pin: Pin, now: int)
    requires 0 < r.w && now > SEQ_EXPIRED
    ensures Add(r, pin, now).win
            == if Depth(r, pin) < |SlidTo(r, pin)| then SlidTo(r, pin)[Depth(r, pin) := now] else SlidTo(r, pin)
  {
  }

  /** Sliding in unseen marks keeps the suffix; a packet below the top finds the window as it was. */
  lemma SlideKeepsSuffix(r: Rec, pin: Pin)
    requires 0 < r.w && |r.win| <= r.w && |r.win| <= r.id && ExpiredSuffix(r.win)
    ensures ExpiredSuffix(SlidTo(r, pin))
    ensures StartsOver(r, pin) || pin.id >= r.id ==> Depth(r, pin) == 0 || Depth(r, pin) >= |SlidTo(r, pin)|
    ensures !StartsOver(r, pin) && pin.id <= r.id ==> SlidTo(r, pin) == r.win && Depth(r, pin) == r.id - pin.id
  {
    var base := Rebased(r, pin);
    var n := if base.id < pin.id then pin.id - base.id else 0;
    SlidAt(base.win, n, r.w);
    var win := SlidTo(r, pin);
    forall i: nat, k: nat | i <= k < |win| && win[i] == SEQ_EXPIRED ensures win[k] == SEQ_EXPIRED {
      assert base.win[i - n] == SEQ_EXPIRED && base.win[k - n] == win[k];
    }
  }

  /** Writing a live mark into a window keeps the suffix exactly when nothing above it has expired. */
  lemma WriteKeepsSuffixIff(win: seq<int>, at: nat, now: int)
    requires ExpiredSuffix(win) && at < |win| && now > SEQ_EXPIRED
    ensures ExpiredSuffix(win[at := now]) <==> forall k: nat | k < at :: win[k] != SEQ_EXPIRED
  {
    var win' := win[at := now];
    if k: nat :| k < at && win[k] == SEQ_EXPIRED {
      assert win'[k] == SEQ_EXPIRED && win'[at] == now;
    } else {
      forall i: nat, k: nat | i <= k < |win'| && win'[i] == SEQ_EXPIRED ensures win'[k] == SEQ_EXPIRED {
        assert win[i] == SEQ_EXPIRED && win[k] == SEQ_EXPIRED;
      }
    }
  }

  /**
    Adding WITHOUT testing first can break the suffix; it keeps it exactly when the
    packet starts over, falls outside the window, or has no expired mark above it.
  */
  lemma AddKeepsSuffixIff(r: Rec, pin: Pin, now: int)
    requires 0 < r.w && |r.win| <= r.w && |r.win| <= r.id && ExpiredSuffix(r.win) && now > SEQ_EXPIRED
    ensures ExpiredSuffix(Add(r, pin, now).win) <==>
            (StartsOver(r, pin) || r.id - pin.id >= |r.win| ||
             forall k: nat | k < |r.win| && k < r.id - pin.id :: r.win[k] != SEQ_EXPIRED)
  {
    hide Add, StartsOver, SlidTo, Depth, ExpiredSuffix;
    AddIsSlideAndWrite(r, pin, now);
    SlideKeepsSuffix(r, pin);
    if Depth(r, pin) < |SlidTo(r, pin)| {
      WriteKeepsSuffixIff(SlidTo(r, pin), Depth(r, pin), now);
    }
  }

  /** A packet added again after its slot expired leaves a hole in the expired suffix. */
  lemma AddWithoutTestBreaksSuffix()
    ensures var r := Rec(5, 3, [SEQ_EXPIRED, SEQ_EXPIRED, SEQ_EXPIRED], 4, 15, 0);
            ExpiredSuffix(r.win) && !Test(r, Pin(5, 2)) && !ExpiredSuffix(Add(r, Pin(5, 2), 40).win)
  {
    var r := Rec(5, 3, [SEQ_EXPIRED, SEQ_EXPIRED, SEQ_EXPIRED], 4, 15, 0);
    AddKeepsSuffixIff(r, Pin(5, 2), 40);
    assert r.win[0] == SEQ_EXPIRED;
  }

  lemma SuffixReceive(r: Rec, pin: Pin, now: int)
    requires 0 < r.w && |r.win| == MinInt(r.w, r.id) && ExpiredSuffix(r.win) && now > SEQ_EXPIRED
    ensures var r' := Receive(r, pin, now);
            r'.w == r.w && r'.tb == r.tb && |r'.win| == MinInt(r'.w, r'.id) && ExpiredSuffix(r'.win)
  {
    hide Add, AddedMark, EarlyScan;
    EarlyScanIsFullScan(r.win, false, r.tb, now);
    var r' := ReapTest(r, now);
    if Test(r', pin) {
      AddConfig(r', pin, now);
      AddWindow(r', pin, now);
      AddKeepsSuffixIff(r', pin, now);
    }
  }

  /** Over any run of the receive path the suffix is kept, so every reap equals the full scan. */
  lemma {:induction false} SuffixAlways(r: Rec, run: seq<Arrival>)
    requires 0 < r.w && |r.win| == MinInt(r.w, r.id) && ExpiredSuffix(r.win) && Clocked(run)
    ensures ExpiredSuffix(After(r, run).win)
    ensures forall now :: EarlyScan(After(r, run).win, false, r.tb, now) == FullScan(After(r, run).win, false, r.tb, now)
    decreases |run|
  {
    if run == [] {
      forall now ensures EarlyScan(r.win, false, r.tb, now) == FullScan(r.win, false, r.tb, now) {
        EarlyScanIsFullScan(r.win, false, r.tb, now);
      }
    } else {
      SuffixReceive(r, run[0].pin, run[0].now);
      SuffixAlways(Receive(r, run[0].pin, run[0].now), run[1..]);
    }
  }
}
