/** The strict mode of packet_id_test, for TCP: exactly the sequences without gaps are accepted. */
module ReplayStrict {
  import opened ReplayModel
  import opened PacketIdWire

  /** The next id of the same epoch, or the first of a later one. */
  predicate Follows(a: Pin, b: Pin) {
    (b.time == a.time && b.id == a.id + 1) || (b.time > a.time && b.id == 1)
  }

  /** A series begins at 1, and every pair follows the one before it. */
  predicate Linear(pins: seq<Pin>) {
    && (pins != [] ==> pins[0].id == 1)
    && forall k | 0 < k < |pins| :: Follows(pins[k - 1], pins[k])
  }

  predicate LinearAfter(last: Pin, pins: seq<Pin>)
    decreases |pins|
  {
    pins == [] || (Follows(last, pins[0]) && LinearAfter(pins[0], pins[1..]))
  }

  lemma {:induction false} LinearAfterIff(last: Pin, pins: seq<Pin>)
    ensures LinearAfter(last, pins) <==>
            (pins != [] ==> Follows(last, pins[0])) && forall k | 0 < k < |pins| :: Follows(pins[k - 1], pins[k])
    decreases |pins|
  {
    if |pins| > 1 {
      LinearAfterIff(pins[0], pins[1..]);
      assert forall k | 0 < k < |pins[1..]| :: pins[1..][k - 1] == pins[k] && pins[1..][k] == pins[k + 1];
      if LinearAfter(last, pins) {
        forall k | 0 < k < |pins| ensures Follows(pins[k - 1], pins[k]) {
          if k > 1 {
            assert Follows(pins[1..][k - 2], pins[1..][k - 1]);
          }
        }
      }
    }
  }

  /** Which pairs a receiver takes that remembers nothing but the last pair it took. */
  function LinearVerdicts(last: Pin, pins: seq<Pin>): (v: seq<bool>)
    ensures |v| == |pins|
    decreases |pins|
  {
    if pins == [] then []
    else [Follows(last, pins[0])] + LinearVerdicts(if Follows(last, pins[0]) then pins[0] else last, pins[1..])
  }

  /** The pairs taken, in order. */
  function Taken(pins: seq<Pin>, verdicts: seq<bool>): seq<Pin>
    requires |pins| == |verdicts|
    decreases |pins|
  {
    if pins == [] then [] else (if verdicts[0] then [pins[0]] else []) + Taken(pins[1..], verdicts[1..])
  }

  lemma {:induction false} StrictFrom(r: Rec, run: seq<Arrival>)
    requires r.w == 0 && r.tb == 0
    ensures Verdicts(r, run) == LinearVerdicts(Pin(r.time, r.id), Pins(run))
    decreases |run|
  {
    if run != [] {
      assert Pins(run)[1..] == Pins(run[1..]);
      assert Accepts(r, run[0].pin, run[0].now) <==> Follows(Pin(r.time, r.id), run[0].pin);
      StrictFrom(Receive(r, run[0].pin, run[0].now), run[1..]);
    }
  }

  lemma {:induction false} TakenIsLinear(last: Pin, pins: seq<Pin>)
    ensures LinearAfter(last, Taken(pins, LinearVerdicts(last, pins)))
    ensures AllAccepted(LinearVerdicts(last, pins)) <==> LinearAfter(last, pins)
    decreases |pins|
  {
    if pins != [] {
      var next := if Follows(last, pins[0]) then pins[0] else last;
      var v, rest := LinearVerdicts(last, pins), LinearVerdicts(next, pins[1..]);
      TakenIsLinear(next, pins[1..]);
      assert v[1..] == rest;
      if Follows(last, pins[0]) {
        assert Taken(pins, v)[1..] == Taken(pins[1..], rest);
        assert AllAccepted(v) <==> AllAccepted(rest) by {
          assert forall k | 0 <= k < |rest| :: rest[k] == v[k + 1];
        }
      } else {
        assert !v[0];
        assert Taken(pins, v) == Taken(pins[1..], rest);
      }
    }
  }

  /** From the start, strict mode gives the verdicts of that receiver: clocks and reaping play no part. */
  lemma StrictIsLinear(run: seq<Arrival>)
    ensures Verdicts(Init(0, 0), run) == LinearVerdicts(Pin(0, 0), Pins(run))
  {
    StrictFrom(Init(0, 0), run);
  }

  /** Every packet of a run is accepted exactly when the run is one gapless series. */
  lemma StrictAcceptsAllIff(run: seq<Arrival>)
    ensures AllAccepted(Verdicts(Init(0, 0), run)) <==> Linear(Pins(run))
  {
    StrictIsLinear(run);
    TakenIsLinear(Pin(0, 0), Pins(run));
    LinearAfterIff(Pin(0, 0), Pins(run));
  }

  /** Whatever arrives, the packets accepted form a gapless series. */
  lemma AcceptedIsLinear(run: seq<Arrival>)
    ensures Linear(Taken(Pins(run), Verdicts(Init(0, 0), run)))
  {
    StrictIsLinear(run);
    TakenIsLinear(Pin(0, 0), Pins(run));
    LinearAfterIff(Pin(0, 0), Taken(Pins(run), Verdicts(Init(0, 0), run)));
  }

  /** A gap is refused: (7, 3) after (7, 1). */
  lemma GapIsRefused(now: int)
    ensures Verdicts(Init(0, 0), [Arrival(Pin(7, 1), now), Arrival(Pin(7, 3), now)]) == [true, false]
  {
    var run := [Arrival(Pin(7, 1), now), Arrival(Pin(7, 3), now)];
    StrictIsLinear(run);
    assert Pins(run) == [Pin(7, 1), Pin(7, 3)];
    assert [Pin(7, 1), Pin(7, 3)][1..] == [Pin(7, 3)] && [Pin(7, 3)][1..] == [];
  }
}
