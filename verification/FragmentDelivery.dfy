/**
  What the sender of fragment.c owes its caller: every datagram it takes goes out, whole or as all of
  its fragments, and arrives where the channel lets it.
*/
module FragmentDelivery {
  import opened Buffers
  import opened IntegerOps
  import opened FragmentModel
  import opened FragmentRing
  import opened FragmentChannel

  // ------------------------------------------------------------------ datagrams within the limit

  /** A datagram within the limit goes out at once behind a whole-packet header, and any receiver hands it up. */
  lemma WholeGoesThrough(o: Out, buf: seq<byte>, limit: nat, l: FragList, now: int)
    requires 4 <= limit && o.seqId < N_SEQ_ID && 0 < |buf| <= limit && ListOk(l)
    ensures var (o', packet) := Outgoing(o, buf, limit);
            o' == o && packet == [0, 0, 0, 0] + buf && Incoming(l, packet, now) == (l, buf)
  {
    IncomingWhole(l, buf, now);
    assert Pack(FRAG_WHOLE, 0, 0, 0) == 0;
  }

  /** Nothing is sent for an empty datagram. */
  lemma EmptyGoesNowhere(o: Out, limit: nat)
    requires 4 <= limit && o.seqId < N_SEQ_ID
    ensures Outgoing(o, [], limit) == (o, [])
  {
  }

  // ------------------------------------------------------------------ runs of the sender

  function SenderAfter(o: Out, turns: seq<SenderTurn>): (o': Out)
    requires OutOk(o)
    ensures OutOk(o')
    decreases |turns|
  {
    if turns == [] then o
    else
      TurnSound(o, turns[0]);
      SenderAfter(SendTurn(o, turns[0]).0, turns[1..])
  }

  lemma {:induction false} EmitsSplit(o: Out, a: seq<SenderTurn>, b: seq<SenderTurn>)
    requires OutOk(o)
    ensures Emits(o, a + b) == Emits(o, a) + Emits(SenderAfter(o, a), b)
    ensures SenderAfter(o, a + b) == SenderAfter(SenderAfter(o, a), b)
    decreases |a|
  {
    hide SendTurn;
    if a == [] {
      assert a + b == b;
    } else {
      assert (a + b)[1..] == a[1..] + b;
      TurnSound(o, a[0]);
      EmitsSplit(SendTurn(o, a[0]).0, a[1..], b);
    }
  }

  function Pulls(n: nat): seq<SenderTurn> {
    seq(n, _ => Pull)
  }

  /** Pulling often enough gets everything that waits, in order, and then nothing. */
  lemma {:induction false} PullsDrain(o: Out, n: nat)
    requires OutOk(o) && |Drain(o)| <= n
    ensures Emits(o, Pulls(n)) == Drain(o) && SenderAfter(o, Pulls(n)).data == []
    ensures SenderAfter(o, Pulls(n)).seqId == o.seqId
    decreases n
  {
    if n > 0 {
      assert Pulls(n)[1..] == Pulls(n - 1) && Pulls(n)[0] == Pull;
      TurnSound(o, Pull);
      PullsDrain(SendTurn(o, Pull).0, n - 1);
    }
  }

  /** How many pulls a datagram needs behind its first packet. */
  function Waiting(job: Job): nat {
    if Cut(job) then CutFits(job); Count(Flight(job.data, SizeFor(job))) - 1 else 0
  }

  /** A datagram given to an idle sender and then pulled goes out exactly as its packets, in order. */
  lemma GiveAndPull(o: Out, job: Job, n: nat)
    requires OutOk(o) && (o.data == [] || Cut(job)) && Waiting(job) <= n
    ensures Emits(o, [Give(job)] + Pulls(n)) == SendOne(o.seqId, job).1
    ensures var o' := SenderAfter(o, [Give(job)] + Pulls(n)); o'.data == [] && o'.seqId == IdAfter(o.seqId, job)
  {
    var turns := [Give(job)] + Pulls(n);
    assert turns[0] == Give(job) && turns[1..] == Pulls(n);
    TurnSound(o, Give(job));
    var (o', first) := SendTurn(o, Give(job));
    GiveSends(o, job);
    if Cut(job) {
      CutFits(job);
      OutgoingSendsFragments(o, job.data, job.limit);
      assert |[first] + Drain(o')| == Count(Flight(job.data, SizeFor(job)));
      assert first == ([first] + Drain(o'))[0] && first != [];
    }
    PullsDrain(o', n);
  }

  /** Datagrams, each with the number of pulls that follow it. */
  function Schedule(jobs: seq<(Job, nat)>): seq<SenderTurn> {
    if jobs == [] then [] else [Give(jobs[0].0)] + Pulls(jobs[0].1) + Schedule(jobs[1..])
  }

  function JobsOf(jobs: seq<(Job, nat)>): seq<Job> {
    if jobs == [] then [] else [jobs[0].0] + JobsOf(jobs[1..])
  }

  /** Where every datagram is pulled before the next is given, what goes out is all of their packets, in order. */
  lemma {:induction false} DrainedRunSendsAll(o: Out, jobs: seq<(Job, nat)>)
    requires OutOk(o) && o.data == [] && forall i | 0 <= i < |jobs| :: Waiting(jobs[i].0) <= jobs[i].1
    ensures Emits(o, Schedule(jobs)) == SendAll(o.seqId, JobsOf(jobs))
    decreases |jobs|
  {
    hide Waiting, SendOne, Cut;
    if jobs != [] {
      var first := [Give(jobs[0].0)] + Pulls(jobs[0].1);
      GiveAndPull(o, jobs[0].0, jobs[0].1);
      EmitsSplit(o, first, Schedule(jobs[1..]));
      DrainedRunSendsAll(SenderAfter(o, first), jobs[1..]);
      assert JobsOf(jobs)[1..] == JobsOf(jobs[1..]);
    }
  }

  /** What a datagram's packets are: itself behind four zero bytes, or its fragments; none for one that is empty or refused. */
  lemma PacketsOf(seqId: nat, job: Job)
    requires seqId < N_SEQ_ID
    ensures job.data == [] || Refused(job) ==> SendOne(seqId, job).1 == []
    ensures 0 < |job.data| <= job.limit ==> SendOne(seqId, job).1 == [[0, 0, 0, 0] + job.data]
    ensures Cut(job) ==> |SendOne(seqId, job).1| == Waiting(job) + 1
    ensures job.data != [] && !Refused(job) ==> SendOne(seqId, job).1 != []
  {
    assert Pack(FRAG_WHOLE, 0, 0, 0) == 0;
  }

  /** Whatever was given before and comes after, a datagram's packets all go out if nothing is given until they are pulled. */
  lemma JobIsEmitted(o: Out, before: seq<SenderTurn>, job: Job, n: nat, after: seq<SenderTurn>, packet: seq<byte>)
    requires OutOk(o) && Waiting(job) <= n && packet in SendOne(SenderAfter(o, before).seqId, job).1
    ensures packet in Emits(o, before + ([Give(job)] + Pulls(n)) + after)
  {
    hide Waiting, Emits, Drain;
    var mid := [Give(job)] + Pulls(n);
    EmitsSplit(o, before + mid, after);
    EmitsSplit(o, before, mid);
    var o1 := SenderAfter(o, before);
    if Cut(job) {
      GiveAndPull(o1, job, n);
    } else {
      WholeIsFirst(o1, job, mid);
    }
  }

  lemma WholeIsFirst(o: Out, job: Job, turns: seq<SenderTurn>)
    requires OutOk(o) && turns != [] && turns[0] == Give(job) && !Cut(job)
    ensures forall p <- SendOne(o.seqId, job).1 :: p in Emits(o, turns)
  {
    TurnSound(o, turns[0]);
  }

  // ------------------------------------------------------------------ end to end

  function IdAfterAll(seqId: nat, jobs: seq<Job>): (id: nat)
    requires seqId < N_SEQ_ID
    ensures id < N_SEQ_ID
    decreases |jobs|
  {
    if jobs == [] then seqId else IdAfterAll(IdAfter(seqId, jobs[0]), jobs[1..])
  }

  /** Among no more than 256 cut datagrams each keeps the sequence id it was sent under. */
  lemma {:induction false} FlightKept(seqId: nat, a: seq<Job>, job: Job, b: seq<Job>)
    requires seqId < N_SEQ_ID && Cut(job) && IdsUsed(a + [job] + b) <= N_SEQ_ID
    ensures var s, flights := IdAfter(IdAfterAll(seqId, a), job), FlightsOf(seqId, a + [job] + b);
            s in flights && flights[s] == Flight(job.data, SizeFor(job))
    decreases |a|
  {
    hide Cut, SizeFor;
    var jobs := a + [job] + b;
    if a == [] {
      assert jobs[0] == job && jobs[1..] == b;
    } else {
      assert jobs[0] == a[0] && jobs[1..] == a[1..] + [job] + b;
      var next := IdAfter(seqId, a[0]);
      FlightKept(next, a[1..], job, b);
      if Cut(a[0]) {
        NextIdIsNew(next, jobs[1..]);
      }
    }
  }

  lemma {:induction false} JobsConcat(a: seq<SenderTurn>, b: seq<SenderTurn>)
    ensures Jobs(a + b) == Jobs(a) + Jobs(b)
  {
    if a == [] {
      assert a + b == b;
    } else {
      assert (a + b)[0] == a[0] && (a + b)[1..] == a[1..] + b;
      JobsConcat(a[1..], b);
      JobsSplit(a);
      JobsSplit(a + b);
    }
  }

  lemma {:induction false} JobsOfPulls(n: nat)
    ensures Jobs(Pulls(n)) == []
  {
    if n > 0 {
      assert Pulls(n)[1..] == Pulls(n - 1);
      JobsOfPulls(n - 1);
    }
  }

  lemma {:induction false} SenderIds(o: Out, a: seq<SenderTurn>, b: seq<SenderTurn>)
    requires OutOk(o) && Polite(o, a + b)
    ensures SenderAfter(o, a).seqId == IdAfterAll(o.seqId, Jobs(a))
    decreases |a|
  {
    hide SendTurn, Cut, IdAfter;
    if a != [] {
      assert (a + b)[0] == a[0] && (a + b)[1..] == a[1..] + b;
      TurnSound(o, a[0]);
      JobsSplit(a);
      if a[0].Give? {
        GiveSends(o, a[0].job);
      } else {
        PullSends(o);
      }
      SenderIds(SendTurn(o, a[0]).0, a[1..], b);
    }
  }

  predicate Received(run: seq<Event>, packet: seq<byte>) {
    exists k :: 0 <= k < |run| && run[k].Recv? && run[k].packet == packet
  }

  lemma {:induction false} WholeComesOut(l: FragList, run: seq<Event>, data: seq<byte>)
    requires ListOk(l) && Received(run, WholePacket(data))
    ensures data in Outputs(l, run)
    decreases |run|
  {
    var k :| 0 <= k < |run| && run[k].Recv? && run[k].packet == WholePacket(data);
    if k == 0 {
      IncomingWhole(l, data, run[0].now);
      assert Outputs(l, run)[0] == data;
    } else {
      assert run[1..][k - 1] == run[k];
      WholeComesOut(Step(l, run[0]).0, run[1..], data);
      var j :| 0 <= j < |run[1..]| && Outputs(Step(l, run[0]).0, run[1..])[j] == data;
      assert Outputs(l, run)[j + 1] == data;
    }
  }

  /**
    End to end for every datagram that is neither empty nor refused.  The sender sends its packets;
    once they have all arrived, in any order and among any others, it has been handed up.  A cut
    datagram must fit the reassembly buffer, and its slot stay in the window and unexpired.
  */
  lemma EveryDatagramArrives(seqId: nat, before: seq<SenderTurn>, job: Job, n: nat, after: seq<SenderTurn>,
                             earlier: seq<Event>, run: seq<Event>, room: nat)
    requires seqId < N_SEQ_ID && Waiting(job) <= n && job.data != [] && !Refused(job)
    requires var turns := before + ([Give(job)] + Pulls(n)) + after;
             && Polite(FreshSender(seqId), turns) && IdsUsed(Jobs(turns)) <= N_SEQ_ID
             && forall e <- earlier + run :: e.Recv? ==> e.packet in Emits(FreshSender(seqId), turns)
    requires var id := SenderAfter(FreshSender(seqId), before).seqId;
             && (forall p <- SendOne(id, job).1 :: Received(run, p))
             && (Cut(job) ==> |job.data| <= room && StaysLive(After(Fresh(room), earlier), run, IdAfter(id, job)))
    ensures job.data in Outputs(After(Fresh(room), earlier), run)
    ensures forall p <- SendOne(SenderAfter(FreshSender(seqId), before).seqId, job).1 ::
              p in Emits(FreshSender(seqId), before + ([Give(job)] + Pulls(n)) + after)
  {
    var o, turns := FreshSender(seqId), before + ([Give(job)] + Pulls(n)) + after;
    var id := SenderAfter(o, before).seqId;
    forall p | p in SendOne(id, job).1 ensures p in Emits(o, turns) {
      JobIsEmitted(o, before, job, n, after, p);
    }
    if Cut(job) {
      CutArrives(seqId, before, job, n, after, earlier, run, room);
    } else {
      assert WholePacket(job.data) in SendOne(id, job).1;
      WholeComesOut(After(Fresh(room), earlier), run, job.data);
    }
  }

  lemma JobsAround(before: seq<SenderTurn>, job: Job, n: nat, after: seq<SenderTurn>)
    ensures Jobs(before + ([Give(job)] + Pulls(n)) + after) == Jobs(before) + [job] + Jobs(after)
  {
    JobsConcat(before + ([Give(job)] + Pulls(n)), after);
    JobsConcat(before, [Give(job)] + Pulls(n));
    JobsConcat([Give(job)], Pulls(n));
    JobsOfPulls(n);
    assert Jobs([Give(job)]) == [job] by {
      assert [Give(job)][1..] == [];
    }
  }

  lemma CutArrives(seqId: nat, before: seq<SenderTurn>, job: Job, n: nat, after: seq<SenderTurn>,
                   earlier: seq<Event>, run: seq<Event>, room: nat)
    requires seqId < N_SEQ_ID && Cut(job)
    requires var turns := before + ([Give(job)] + Pulls(n)) + after;
             && Polite(FreshSender(seqId), turns) && IdsUsed(Jobs(turns)) <= N_SEQ_ID
             && forall e <- earlier + run :: e.Recv? ==> e.packet in Emits(FreshSender(seqId), turns)
    requires var id := SenderAfter(FreshSender(seqId), before).seqId;
             && (forall p <- SendOne(id, job).1 :: Received(run, p))
             && |job.data| <= room && StaysLive(After(Fresh(room), earlier), run, IdAfter(id, job))
    ensures job.data in Outputs(After(Fresh(room), earlier), run)
  {
    hide Cut, SizeFor, Polite, Emits, StaysLive, Outputs, Pulls;
    var o, turns := FreshSender(seqId), before + ([Give(job)] + Pulls(n)) + after;
    assert turns == before + ([Give(job)] + Pulls(n) + after);
    SenderIds(o, before, [Give(job)] + Pulls(n) + after);
    JobsAround(before, job, n, after);
    FlightKept(seqId, Jobs(before), job, Jobs(after));
    var s := IdAfter(SenderAfter(o, before).seqId, job);
    var flights := FlightsOf(seqId, Jobs(turns));
    AllReceived(flights, SenderAfter(o, before).seqId, job, run);
    EndToEndDelivers(seqId, turns, earlier, run, s, room);
  }

  lemma AllReceived(flights: Flights, id: nat, job: Job, run: seq<Event>)
    requires id < N_SEQ_ID && Cut(job) && forall p <- SendOne(id, job).1 :: Received(run, p)
    requires var s := IdAfter(id, job); s in flights && flights[s] == Flight(job.data, SizeFor(job))
    ensures AllArrive(flights, IdAfter(id, job), run)
  {
    CutFits(job);
    var s := IdAfter(id, job);
    var f := flights[s];
    hide Cut, SizeFor, FragmentPacket;
    forall n: nat | n < Count(f) ensures Arrives(flights, s, n, run) {
      assert Fragments(f, s)[n] == FragmentPacket(f, s, n);
      assert Fragments(f, s)[n] in SendOne(id, job).1;
      var k :| 0 <= k < |run| && run[k].Recv? && run[k].packet == FragmentPacket(f, s, n);
      assert IsFragment(flights, s, n, run[k].packet);
    }
  }
}
