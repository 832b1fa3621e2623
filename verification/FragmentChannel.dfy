/**
  Sender, channel and receiver together: whatever is lost, duplicated, delayed or reordered,
  only sent datagrams come out, and a datagram all of whose fragments arrive in time does.
*/
module FragmentChannel {
  import opened IntegerOps
  import opened Buffers
  import opened FragmentModel
  import opened FragmentRing

  // ------------------------------------------------------------------ one slot

  /** Where piece m of a flight ends. */
  function PieceEnd(f: Flight, m: nat): nat
    requires 0 < f.size && m < Count(f)
  {
    if m + 1 < Count(f) then m * f.size + f.size else |f.data|
  }

  ghost predicate Has(f: Flight, frag: Fragment, m: nat)
    requires FlightOk(f) && m < Count(f) && FragmentOk(frag)
  {
    && PieceEnd(f, m) <= frag.len <= |f.data|
    && forall i | m * f.size <= i < PieceEnd(f, m) :: frag.room[i] == f.data[i]
  }

  /** The piece a received bit stands for: every bit from the last piece's on stands for it. */
  function PieceFor(f: Flight, n: nat): nat
    requires 0 < f.size
  {
    if n < Count(f) then n else Count(f) - 1
  }

  /** A defined slot holds a correct, incomplete part of the flight. */
  ghost predicate SlotHolds(f: Flight, frag: Fragment) {
    && FlightOk(f) && FragmentOk(frag)
    && frag.maxFragSize == f.size && frag.len <= |f.data| && !Full(frag.received)
    && forall n | 0 <= n < MAX_FRAGS && frag.received[n] :: Has(f, frag, PieceFor(f, n))
  }

  lemma {:induction false} PieceCovering(data: seq<byte>, size: nat, i: nat) returns (m: nat)
    requires 0 < size && i < |data|
    ensures m < |Pieces(data, size)| && m * size <= i < m * size + size
    decreases |data|
  {
    if i < size {
      m := 0;
    } else {
      var k := PieceCovering(data[size..], size, i - size);
      m := k + 1;
      MulSplit(k, 1, size);
    }
  }

  /** All bits set means the whole datagram is there. */
  lemma FullIsWhole(f: Flight, frag: Fragment)
    requires FlightOk(f) && FragmentOk(frag) && Full(frag.received) && frag.len <= |f.data|
    requires forall n | 0 <= n < MAX_FRAGS && frag.received[n] :: Has(f, frag, PieceFor(f, n))
    ensures frag.room[..frag.len] == f.data
  {
    assert Has(f, frag, PieceFor(f, MAX_FRAGS - 1));
    assert PieceFor(f, MAX_FRAGS - 1) == Count(f) - 1;
    forall i | 0 <= i < |f.data| ensures frag.room[i] == f.data[i] {
      var m := PieceCovering(f.data, f.size, i);
      assert Has(f, frag, PieceFor(f, m));
    }
  }

  /** Copying part of `data` to its own place cannot spoil what is right already. */
  lemma SpliceAgrees(data: seq<byte>, room: seq<byte>, at: nat, len: nat, lo: nat, hi: nat)
    requires at + len <= |data| && at + len <= |room| && hi <= |data| && hi <= |room|
    requires (lo == at && hi == at + len) || forall i | lo <= i < hi :: room[i] == data[i]
    ensures forall i | lo <= i < hi :: Spliced(room, at, data[at..at + len])[i] == data[i]
  {
  }

  /** Storing the bytes of data at their place keeps the range lo to hi right, or makes it right. */
  lemma StoreBytes(data: seq<byte>, frag: Fragment, n: nat, last: bool, at: nat, piece: seq<byte>, now: int, lo: nat, hi: nat)
    requires FragmentOk(frag) && frag.len <= |data| && at + |piece| <= |frag.room|
    requires at + |piece| <= |data| && piece == data[at..at + |piece|]
    requires (lo == at && hi == at + |piece|) || (hi <= frag.len && forall i | lo <= i < hi :: frag.room[i] == data[i])
    ensures var s := Stored(frag, n, last, at, piece, now);
            FragmentOk(s) && hi <= s.len <= |data| && forall i | lo <= i < hi :: s.room[i] == data[i]
  {
    SpliceAgrees(data, frag.room, at, |piece|, lo, hi);
  }

  lemma HasRange(f: Flight, frag: Fragment, m: nat, lo: nat, hi: nat)
    requires FlightOk(f) && m < Count(f) && FragmentOk(frag) && lo == m * f.size && hi == PieceEnd(f, m)
    ensures Has(f, frag, m) <==> hi <= frag.len <= |f.data| && forall i | lo <= i < hi :: frag.room[i] == f.data[i]
  {
  }

  /** Storing piece n keeps every piece already held and adds this one. */
  lemma StoreHas(f: Flight, frag: Fragment, n: nat, now: int, m: nat)
    requires FlightOk(f) && FragmentOk(frag) && frag.len <= |f.data|
    requires n < Count(f) && m < Count(f) && n * f.size + |Pieces(f.data, f.size)[n]| <= |frag.room|
    requires m == n || Has(f, frag, m)
    ensures var s := Stored(frag, n, n == Count(f) - 1, n * f.size, Pieces(f.data, f.size)[n], now);
            FragmentOk(s) && s.len <= |f.data| && Has(f, s, m)
  {
    hide Pieces, PieceEnd, Stored, Has, FragmentOk;
    PieceRange(f, n);
    var at, piece, lo, hi := n * f.size, Pieces(f.data, f.size)[n], m * f.size, PieceEnd(f, m);
    HasRange(f, frag, m, lo, hi);
    StoreBytes(f.data, frag, n, n == Count(f) - 1, at, piece, now, lo, hi);
    HasRange(f, Stored(frag, n, n == Count(f) - 1, at, piece, now), m, lo, hi);
  }

  lemma PieceRange(f: Flight, n: nat)
    requires FlightOk(f) && n < Count(f)
    ensures var at, piece := n * f.size, Pieces(f.data, f.size)[n];
            at + |piece| == PieceEnd(f, n) <= |f.data| && piece == f.data[at..at + |piece|]
  {
    PieceAt(f.data, f.size, n);
  }

  /** The slot after fragment n of its flight has been copied in. */
  function StoredFragment(f: Flight, frag: Fragment, n: nat, now: int): Fragment
    requires FlightOk(f) && n < Count(f) && n * f.size + |Pieces(f.data, f.size)[n]| <= |frag.room|
  {
    Stored(frag, n, n == Count(f) - 1, n * f.size, Pieces(f.data, f.size)[n], now)
  }

  lemma StoreKeepsAll(f: Flight, frag: Fragment, n: nat, now: int)
    requires SlotHolds(f, frag) && n < Count(f) && n * f.size + |Pieces(f.data, f.size)[n]| <= |frag.room|
    ensures var s := StoredFragment(f, frag, n, now);
            && FragmentOk(s) && s.len <= |f.data|
            && forall i | 0 <= i < MAX_FRAGS && s.received[i] :: Has(f, s, PieceFor(f, i))
  {
    var s := StoredFragment(f, frag, n, now);
    StoreHas(f, frag, n, now, n);
    forall i | 0 <= i < MAX_FRAGS && s.received[i] ensures Has(f, s, PieceFor(f, i)) {
      if frag.received[i] {
        StoreHas(f, frag, n, now, PieceFor(f, i));
      }
    }
  }

  /**
    One fragment of the flight arriving at its slot: either the datagram comes out whole, or
    nothing does and the slot still holds a correct part, with this fragment's bit added if it fits.
  */
  lemma AcceptFragment(f: Flight, frag: Fragment, n: nat, now: int)
    requires FlightOk(f) && FragmentOk(frag) && n < Count(f)
    requires frag.defined ==> SlotHolds(f, frag)
    ensures var (frag', out) := Accept(frag, n, n == Count(f) - 1, f.size, Pieces(f.data, f.size)[n], now);
            if frag'.defined then
              && out == [] && SlotHolds(f, frag')
              && (frag.defined ==> forall i | 0 <= i < MAX_FRAGS && frag.received[i] :: frag'.received[i])
              && (|f.data| <= |frag.room| ==>
                    frag'.received[n] && frag'.timestamp == now
                    && (n == Count(f) - 1 ==> forall i | n <= i < MAX_FRAGS :: frag'.received[i]))
            else out == f.data
  {
    PieceAt(f.data, f.size, n);
    var c := Claimed(frag, f.size);
    assert SlotHolds(f, c);
    if n * f.size + |Pieces(f.data, f.size)[n]| <= |c.room| {
      StoreKeepsAll(f, c, n, now);
      var s := StoredFragment(f, c, n, now);
      if Full(s.received) {
        FullIsWhole(f, s);
      }
    }
  }

  // ------------------------------------------------------------------ the whole receiver

  type Flights = map<nat, Flight>

  ghost predicate FlightsOk(flights: Flights) {
    forall s <- flights :: s < N_SEQ_ID && FlightOk(flights[s])
  }

  /** Every defined slot holds part of the flight whose sequence id it stands for. */
  ghost predicate RingHolds(l: FragList, flights: Flights) {
    && ListOk(l)
    && forall i | 0 <= i < N_FRAG_BUF && l.frags[i].defined ::
         OwnerAt(l, i) in flights && SlotHolds(flights[OwnerAt(l, i)], l.frags[i])
  }

  ghost predicate IsFragment(flights: Flights, s: nat, n: nat, packet: seq<byte>) {
    s in flights && FlightOk(flights[s]) && n < Count(flights[s]) && packet == FragmentPacket(flights[s], s, n)
  }

  function WholePacket(data: seq<byte>): seq<byte> {
    Packet(FRAG_WHOLE, 0, 0, 0, data)
  }

  /** What a packet of a flight looks like to the receiver. */
  lemma ReadsBack(flights: Flights, s: nat, n: nat, packet: seq<byte>)
    requires FlightsOk(flights) && IsFragment(flights, s, n, packet)
    ensures var f := flights[s];
            var flags := FromU32(packet[..4]);
            && 4 <= |packet| && packet[4..] == Pieces(f.data, f.size)[n]
            && SeqIdOf(flags) == s && FragIdOf(flags) == n
            && KindOf(flags) == (if n == Count(f) - 1 then FRAG_YES_LAST else FRAG_YES_NOTLAST)
            && (if n == Count(f) - 1 then SizeOf(flags) else |packet[4..]|) == f.size
  {
    var f := flights[s];
    var kind := if n == Count(f) - 1 then FRAG_YES_LAST else FRAG_YES_NOTLAST;
    var flags := Pack(kind, s, n, f.size);
    PackRoundTrip(kind, s, n, f.size);
    U32RoundTrip(flags);
    PieceAt(f.data, f.size, n);
    assert packet[..4] == U32(flags);
    assert packet[4..] == Pieces(f.data, f.size)[n];
  }

  /** A list that forgot some slots but kept the owners of the rest still holds. */
  lemma RingHoldsKept(l: FragList, l': FragList, flights: Flights)
    requires RingHolds(l, flights) && ListOk(l') && KeepsOwners(l, l')
    ensures RingHolds(l', flights)
  {
    forall i | 0 <= i < N_FRAG_BUF && l'.frags[i].defined
      ensures OwnerAt(l', i) in flights && SlotHolds(flights[OwnerAt(l', i)], l'.frags[i])
    {
      assert l'.frags[i] == l.frags[i];
    }
  }

  /** One arriving fragment: the ring still holds, and what comes out is its datagram or nothing. */
  lemma IncomingFragment(l: FragList, flights: Flights, s: nat, n: nat, packet: seq<byte>, now: int)
    requires RingHolds(l, flights) && FlightsOk(flights) && IsFragment(flights, s, n, packet)
    ensures var (l', out) := Incoming(l, packet, now);
            RingHolds(l', flights) && (out == [] || out == flights[s].data)
  {
    var f := flights[s];
    ReadsBack(flights, s, n, packet);
    GetBufOwner(l, s);
    var (l1, slot) := GetBuf(l, s);
    RingHoldsKept(l, l1, flights);
    AcceptFragment(f, l1.frags[slot], n, now);
    var (frag, out) := Accept(l1.frags[slot], n, n == Count(f) - 1, f.size, Pieces(f.data, f.size)[n], now);
    var l2 := FragList(l1.seqId, l1.index, l1.frags[slot := frag]);
    assert Incoming(l, packet, now) == (l2, out);
    forall i | 0 <= i < N_FRAG_BUF && l2.frags[i].defined
      ensures OwnerAt(l2, i) in flights && SlotHolds(flights[OwnerAt(l2, i)], l2.frags[i])
    {
      assert OwnerAt(l2, i) == OwnerAt(l1, i);
    }
  }

  // ------------------------------------------------------------------ runs

  /** A packet arrives, or the wakeup timer reaps. */
  datatype Event = Recv(packet: seq<byte>, now: int) | Reap(now: int)

  function Step(l: FragList, e: Event): (r: (FragList, seq<byte>))
    requires ListOk(l)
    ensures ListOk(r.0)
  {
    match e
    case Recv(packet, now) => Incoming(l, packet, now)
    case Reap(now) => (TtlReap(l, now), [])
  }

  /** What each event of a run hands to the caller; [] is nothing. */
  function Outputs(l: FragList, run: seq<Event>): (out: seq<seq<byte>>)
    requires ListOk(l)
    ensures |out| == |run|
    decreases |run|
  {
    if run == [] then [] else [Step(l, run[0]).1] + Outputs(Step(l, run[0]).0, run[1..])
  }

  function After(l: FragList, run: seq<Event>): (r: FragList)
    requires ListOk(l)
    ensures ListOk(r)
    decreases |run|
  {
    if run == [] then l else After(Step(l, run[0]).0, run[1..])
  }

  /** A cleared receiver whose slots have `room` bytes each. */
  function Fresh(room: nat): (l: FragList)
    ensures ListOk(l)
  {
    FragList(0, 0, seq(N_FRAG_BUF, _ => EmptyFragment(room)))
  }

  function EmptyFragment(room: nat): (frag: Fragment)
    ensures FragmentOk(frag) && !frag.defined
  {
    Fragment(false, 0, NoBits(), 0, seq(room, _ => 0), 0)
  }

  /** The packet is a fragment of a flight or a whole datagram: nothing else is ever sent. */
  ghost predicate Legit(flights: Flights, wholes: set<seq<byte>>, e: Event) {
    e.Recv? ==>
      || (exists s, n: nat :: IsFragment(flights, s, n, e.packet))
      || (exists data <- wholes :: e.packet == WholePacket(data))
  }

  lemma IncomingWhole(l: FragList, data: seq<byte>, now: int)
    requires ListOk(l)
    ensures Incoming(l, WholePacket(data), now) == (l, data)
  {
    var packet := WholePacket(data);
    PackRoundTrip(FRAG_WHOLE, 0, 0, 0);
    U32RoundTrip(Pack(FRAG_WHOLE, 0, 0, 0));
    assert packet[..4] == U32(Pack(FRAG_WHOLE, 0, 0, 0)) && packet[4..] == data;
  }

  lemma ReapHolds(l: FragList, flights: Flights, now: int)
    requires RingHolds(l, flights)
    ensures RingHolds(TtlReap(l, now), flights)
  {
    assert KeepsOwners(l, TtlReap(l, now));
    RingHoldsKept(l, TtlReap(l, now), flights);
  }

  /** What an output may be. */
  ghost predicate SentOne(flights: Flights, wholes: set<seq<byte>>, out: seq<byte>) {
    out == [] || out in wholes || exists s <- flights :: out == flights[s].data
  }

  lemma StepSafe(l: FragList, flights: Flights, wholes: set<seq<byte>>, e: Event)
    requires RingHolds(l, flights) && FlightsOk(flights) && Legit(flights, wholes, e)
    ensures RingHolds(Step(l, e).0, flights) && SentOne(flights, wholes, Step(l, e).1)
  {
    match e
    case Reap(now) => ReapHolds(l, flights, now);
    case Recv(packet, now) =>
      if s, n: nat :| IsFragment(flights, s, n, packet) {
        IncomingFragment(l, flights, s, n, packet, now);
      } else {
        var data :| data in wholes && packet == WholePacket(data);
        IncomingWhole(l, data, now);
      }
  }

  /** Over any run of legitimate packets and reaps, everything handed up was sent. */
  lemma {:induction false} RunSafe(l: FragList, flights: Flights, wholes: set<seq<byte>>, run: seq<Event>)
    requires RingHolds(l, flights) && FlightsOk(flights)
    requires forall e <- run :: Legit(flights, wholes, e)
    ensures RingHolds(After(l, run), flights)
    ensures forall k | 0 <= k < |run| :: SentOne(flights, wholes, Outputs(l, run)[k])
    decreases |run|
  {
    if run != [] {
      StepSafe(l, flights, wholes, run[0]);
      RunSafe(Step(l, run[0]).0, flights, wholes, run[1..]);
    }
  }

  // ------------------------------------------------------------------ a real sender at the other end

  /** A datagram given to fragment_outgoing, with the payload limit of that moment. */
  datatype Given = Given(data: seq<byte>, limit: nat)

  type Job = g: Given | 4 <= g.limit < FRAG_SIZE_LIMIT witness Given([], 4)

  function SizeFor(job: Job): nat {
    OptimalFragmentSize(|job.data|, job.limit)
  }

  /** The datagram is sent as fragments. */
  predicate Cut(job: Job) {
    job.limit < |job.data| <= SizeFor(job) * MAX_FRAGS
  }

  /** The datagram would need more than 32 fragments and is dropped. */
  predicate Refused(job: Job) {
    |job.data| > job.limit && |job.data| > SizeFor(job) * MAX_FRAGS
  }

  /** The packets one datagram makes, and the sequence id afterwards. */
  function SendOne(seqId: nat, job: Job): (nat, seq<seq<byte>>)
    requires seqId < N_SEQ_ID
  {
    if Cut(job) then
      CutFits(job);
      (IdAfter(seqId, job), Fragments(Flight(job.data, SizeFor(job)), IdAfter(seqId, job)))
    else (seqId, if job.data == [] || Refused(job) then [] else [WholePacket(job.data)])
  }

  /** The sequence id a datagram leaves the sender at. */
  function IdAfter(seqId: nat, job: Job): (id: nat)
    requires seqId < N_SEQ_ID
    ensures id < N_SEQ_ID
  {
    if Cut(job) then ModuloAdd(seqId, 1, N_SEQ_ID) else seqId
  }

  lemma CutFits(job: Job)
    requires Cut(job)
    ensures SizeFor(job) > 0 && FlightOk(Flight(job.data, SizeFor(job)))
  {
    FlightFits(job.data, job.limit);
  }

  /** Every packet the datagrams can make. */
  function SendAll(seqId: nat, jobs: seq<Job>): seq<seq<byte>>
    requires seqId < N_SEQ_ID
    decreases |jobs|
  {
    if jobs == [] then []
    else SendOne(seqId, jobs[0]).1 + SendAll(IdAfter(seqId, jobs[0]), jobs[1..])
  }

  /** The datagrams sent as fragments, by sequence id. */
  function FlightsOf(seqId: nat, jobs: seq<Job>): Flights
    requires seqId < N_SEQ_ID
    decreases |jobs|
  {
    if jobs == [] then map[]
    else
      var rest := FlightsOf(IdAfter(seqId, jobs[0]), jobs[1..]);
      if Cut(jobs[0]) then rest[IdAfter(seqId, jobs[0]) := Flight(jobs[0].data, SizeFor(jobs[0]))] else rest
  }

  /** How many sequence ids a run of the sender uses. */
  function IdsUsed(jobs: seq<Job>): nat {
    if jobs == [] then 0 else (if Cut(jobs[0]) then 1 else 0) + IdsUsed(jobs[1..])
  }

  /** `ahead` steps forward on the circle of sequence ids. */
  predicate IdAhead(seqId: nat, s: nat, ahead: nat) {
    s == seqId + ahead || s == seqId + ahead - N_SEQ_ID
  }

  predicate GivenOut(jobs: seq<Job>, data: seq<byte>) {
    exists j <- jobs :: j.data == data
  }

  lemma {:induction false} FlightsOfFacts(seqId: nat, jobs: seq<Job>)
    requires seqId < N_SEQ_ID && IdsUsed(jobs) <= N_SEQ_ID
    ensures FlightsOk(FlightsOf(seqId, jobs))
    ensures forall s <- FlightsOf(seqId, jobs) ::
              GivenOut(jobs, FlightsOf(seqId, jobs)[s].data)
              && exists ahead: nat :: 1 <= ahead <= IdsUsed(jobs) && IdAhead(seqId, s, ahead)
    decreases |jobs|
  {
    hide SizeFor;
    if jobs != [] {
      var flights := FlightsOf(seqId, jobs);
      var cut := Cut(jobs[0]);
      var next := IdAfter(seqId, jobs[0]);
      FlightsOfFacts(next, jobs[1..]);
      if cut {
        CutFits(jobs[0]);
      }
      forall s | s in flights
        ensures GivenOut(jobs, flights[s].data) && exists ahead: nat :: 1 <= ahead <= IdsUsed(jobs) && IdAhead(seqId, s, ahead)
      {
        if cut && s == next {
          assert jobs[0] in jobs && IdAhead(seqId, s, 1);
        } else {
          var j :| j in jobs[1..] && j.data == flights[s].data;
          assert j in jobs;
          var ahead: nat :| 1 <= ahead <= IdsUsed(jobs[1..]) && IdAhead(next, s, ahead);
          assert IdAhead(seqId, s, if cut then ahead + 1 else ahead);
        }
      }
    }
  }

  /** Within 256 fragmented datagrams no sequence id is reused. */
  lemma NextIdIsNew(seqId: nat, jobs: seq<Job>)
    requires seqId < N_SEQ_ID && IdsUsed(jobs) < N_SEQ_ID
    ensures seqId !in FlightsOf(seqId, jobs)
  {
    FlightsOfFacts(seqId, jobs);
  }

  ghost predicate Sendable(flights: Flights, jobs: seq<Job>, packet: seq<byte>) {
    || (exists s, n: nat :: IsFragment(flights, s, n, packet))
    || (exists j <- jobs :: packet == WholePacket(j.data))
  }

  lemma SendableMore(flights: Flights, flights': Flights, jobs: seq<Job>, packet: seq<byte>)
    requires jobs != [] && Sendable(flights', jobs[1..], packet)
    requires forall s <- flights' :: s in flights && flights[s] == flights'[s]
    ensures Sendable(flights, jobs, packet)
  {
    if s, n: nat :| IsFragment(flights', s, n, packet) {
      assert IsFragment(flights, s, n, packet);
    } else {
      var j :| j in jobs[1..] && packet == WholePacket(j.data);
      assert j in jobs;
    }
  }

  lemma {:induction false} SendAllLegit(seqId: nat, jobs: seq<Job>, packet: seq<byte>)
    requires seqId < N_SEQ_ID && IdsUsed(jobs) <= N_SEQ_ID
    requires packet in SendAll(seqId, jobs)
    ensures Sendable(FlightsOf(seqId, jobs), jobs, packet)
    decreases |jobs|
  {
    hide SizeFor, WholePacket, FragmentPacket, ModuloAdd;
    var next := IdAfter(seqId, jobs[0]);
    var flights, flights' := FlightsOf(seqId, jobs), FlightsOf(next, jobs[1..]);
    if packet !in SendOne(seqId, jobs[0]).1 {
      SendAllLegit(next, jobs[1..], packet);
      if Cut(jobs[0]) {
        NextIdIsNew(next, jobs[1..]);
      }
      SendableMore(flights, flights', jobs, packet);
    } else if Cut(jobs[0]) {
      CutFits(jobs[0]);
      var f := Flight(jobs[0].data, SizeFor(jobs[0]));
      var n: nat :| n < Count(f) && packet == Fragments(f, next)[n];
      assert packet == FragmentPacket(f, next, n);
      assert IsFragment(flights, next, n, packet);
    } else {
      assert jobs[0] in jobs;
    }
  }

  /** A sender between calls: what waits has a fragment size. */
  predicate OutOk(o: Out) {
    o.seqId < N_SEQ_ID && (o.data != [] ==> 0 < o.fragSize)
  }

  /** fragment_init: nothing waits, and the first sequence id is arbitrary. */
  function FreshSender(seqId: nat): (o: Out)
    requires seqId < N_SEQ_ID
    ensures OutOk(o) && Drain(o) == []
  {
    Out([], seqId, 0, 0)
  }

  /** What a sender does: a datagram is given to fragment_outgoing, or fragment_ready_to_send is asked. */
  datatype SenderTurn = Give(job: Job) | Pull

  /** One turn of the sender, and the packet it returns, [] for none. */
  function SendTurn(o: Out, turn: SenderTurn): (Out, seq<byte>)
    requires OutOk(o)
  {
    match turn
    case Give(job) => Outgoing(o, job.data, job.limit)
    case Pull => if o.data == [] then (o, []) else ReadyToSend(o)
  }

  /** The datagrams given, in order. */
  function Jobs(turns: seq<SenderTurn>): seq<Job> {
    if turns == [] then [] else (if turns[0].Give? then [turns[0].job] else []) + Jobs(turns[1..])
  }

  /** The packets returned, in order. */
  function Emits(o: Out, turns: seq<SenderTurn>): seq<seq<byte>>
    requires OutOk(o)
    decreases |turns|
  {
    if turns == [] then []
    else
      var (o', packet) := SendTurn(o, turns[0]);
      TurnSound(o, turns[0]);
      (if packet == [] then [] else [packet]) + Emits(o', turns[1..])
  }

  lemma TurnSound(o: Out, turn: SenderTurn)
    requires OutOk(o)
    ensures OutOk(SendTurn(o, turn).0)
  {
    if turn.Give? && |turn.job.data| > turn.job.limit {
      OptimalFragmentSizeKeepsCount(|turn.job.data|, turn.job.limit, 0);
    }
  }

  /**
    A datagram may be given while another is half sent; only one that is refused may not, as it
    changes the fragment size under the half-sent one.  The event loop reads no new datagram
    while a fragment waits, so it never does.
  */
  predicate Polite(o: Out, turns: seq<SenderTurn>)
    requires OutOk(o)
    decreases |turns|
  {
    turns == []
    || (TurnSound(o, turns[0]);
        (turns[0].Give? && Refused(turns[0].job) ==> o.data == [])
        && Polite(SendTurn(o, turns[0]).0, turns[1..]))
  }

  /** What giving one datagram returns and leaves to be pulled. */
  lemma GiveSends(o: Out, job: Job)
    requires OutOk(o) && (Refused(job) ==> o.data == [])
    ensures var (o', first) := SendTurn(o, Give(job));
            && o'.seqId == IdAfter(o.seqId, job) && OutOk(o')
            && (first != [] ==> first in SendOne(o.seqId, job).1)
            && (if Cut(job) then forall p <- Drain(o') :: p in SendOne(o.seqId, job).1 else Drain(o') == Drain(o))
  {
    TurnSound(o, Give(job));
    if Cut(job) {
      CutFits(job);
      OutgoingSendsFragments(o, job.data, job.limit);
      var (o', first) := SendTurn(o, Give(job));
      var all := Fragments(Flight(job.data, SizeFor(job)), IdAfter(o.seqId, job));
      assert [first] + Drain(o') == all;
      assert all[0] == first && first in all;
      assert forall p <- Drain(o') :: p in [first] + Drain(o');
    }
  }

  /** Every packet a sender returns is one its datagrams make, or was already waiting. */
  lemma {:induction false} EmittedIsSent(o: Out, turns: seq<SenderTurn>, packet: seq<byte>)
    requires OutOk(o) && Polite(o, turns) && packet in Emits(o, turns)
    ensures packet in Drain(o) || packet in SendAll(o.seqId, Jobs(turns))
    decreases |turns|
  {
    hide Cut, SizeFor, Refused, SendOne, SendTurn, Drain, IdAfter;
    var (o', first) := SendTurn(o, turns[0]);
    TurnSound(o, turns[0]);
    JobsSplit(turns);
    if packet in Emits(o', turns[1..]) {
      EmittedIsSent(o', turns[1..], packet);
    } else {
      assert packet == first && first != [];
    }
    if turns[0].Give? {
      GiveSends(o, turns[0].job);
    } else {
      PullSends(o);
    }
  }

  lemma JobsSplit(turns: seq<SenderTurn>)
    requires turns != []
    ensures if turns[0].Give? then Jobs(turns) == [turns[0].job] + Jobs(turns[1..]) && Jobs(turns)[1..] == Jobs(turns[1..])
            else Jobs(turns) == Jobs(turns[1..])
  {
  }

  lemma PullSends(o: Out)
    requires OutOk(o)
    ensures var (o', first) := SendTurn(o, Pull);
            o'.seqId == o.seqId && (first != [] ==> first in Drain(o)) && forall p <- Drain(o') :: p in Drain(o)
  {
    if o.data != [] {
      var (o', first) := SendTurn(o, Pull);
      assert Drain(o) == [first] + Drain(o');
    }
  }

  /**
    End to end: connect a sender to a fresh receiver by a channel that may lose, repeat, delay
    and reorder as it likes.  While no sequence id is used twice, every datagram handed up is
    byte for byte one that was given to the sender.
  */
  lemma EndToEndSafe(seqId: nat, turns: seq<SenderTurn>, run: seq<Event>, room: nat, k: nat)
    requires seqId < N_SEQ_ID && Polite(FreshSender(seqId), turns)
    requires IdsUsed(Jobs(turns)) <= N_SEQ_ID
    requires forall e <- run :: e.Recv? ==> e.packet in Emits(FreshSender(seqId), turns)
    requires k < |run|
    ensures Outputs(Fresh(room), run)[k] == [] || GivenOut(Jobs(turns), Outputs(Fresh(room), run)[k])
  {
    var jobs := Jobs(turns);
    var flights, wholes := FlightsOf(seqId, jobs), Wholes(jobs);
    FlightsOfFacts(seqId, jobs);
    forall e | e in run ensures Legit(flights, wholes, e) {
      if e.Recv? {
        EmittedIsSent(FreshSender(seqId), turns, e.packet);
        SendAllLegit(seqId, jobs, e.packet);
      }
    }
    RunSafe(Fresh(room), flights, wholes, run);
  }

  function Wholes(jobs: seq<Job>): (w: set<seq<byte>>)
    ensures forall data :: data in w <==> GivenOut(jobs, data)
  {
    set j | j in jobs :: j.data
  }

  // ------------------------------------------------------------------ delivery

  /** How far sequence id `s` is behind the newest one. */
  function Behind(l: FragList, s: nat): nat
    requires ListOk(l) && s < N_SEQ_ID
  {
    ModuloAdd(l.seqId, -(s as int), N_SEQ_ID)
  }

  predicate InWindow(l: FragList, s: nat)
    requires ListOk(l) && s < N_SEQ_ID
  {
    Behind(l, s) < N_FRAG_BUF
  }

  function SlotFor(l: FragList, s: nat): (slot: nat)
    requires ListOk(l) && s < N_SEQ_ID && InWindow(l, s)
    ensures slot < N_FRAG_BUF && OwnerAt(l, slot) == s
  {
    ModuloAdd(l.index, -(Behind(l, s) as int), N_FRAG_BUF)
  }

  lemma OwnerIsSlotFor(l: FragList, slot: nat)
    requires ListOk(l) && slot < N_FRAG_BUF
    ensures InWindow(l, OwnerAt(l, slot)) && SlotFor(l, OwnerAt(l, slot)) == slot
  {
  }

  lemma TurnKeepsSlot(l: FragList, s: nat)
    requires ListOk(l) && s < N_SEQ_ID && Behind(l, s) + 1 < N_FRAG_BUF
    ensures Behind(Turn(l), s) == Behind(l, s) + 1 && SlotFor(Turn(l), s) == SlotFor(l, s)
    ensures Turn(l).frags[SlotFor(l, s)] == l.frags[SlotFor(l, s)]
  {
  }

  lemma {:induction false} TurnsKeepSlot(l: FragList, n: nat, s: nat)
    requires ListOk(l) && s < N_SEQ_ID && Behind(l, s) + n < N_FRAG_BUF
    ensures InWindow(Turns(l, n), s) && SlotFor(Turns(l, n), s) == SlotFor(l, s)
    ensures Turns(l, n).frags[SlotFor(l, s)] == l.frags[SlotFor(l, s)]
    decreases n
  {
    hide Turn, Behind, SlotFor;
    if n > 0 {
      TurnKeepsSlot(l, s);
      TurnsKeepSlot(Turn(l), n - 1, s);
    }
  }

  /** A sequence id that is in the window before and after keeps its slot and everything in it. */
  lemma WindowKeepsSlot(l: FragList, t: nat, s: nat)
    requires ListOk(l) && s < N_SEQ_ID && t < N_SEQ_ID && InWindow(l, s) && InWindow(GetBuf(l, t).0, s)
    ensures SlotFor(GetBuf(l, t).0, s) == SlotFor(l, s)
    ensures GetBuf(l, t).0.frags[SlotFor(l, s)] == l.frags[SlotFor(l, s)]
  {
    var diff := ModuloSubtract(t, l.seqId, N_SEQ_ID);
    if 0 < diff < N_FRAG_BUF {
      TurnsKeepOwners(l, diff);
      TurnsKeepSlot(l, diff, s);
    }
  }

  ghost predicate AllRooms(l: FragList, room: nat)
    requires ListOk(l)
  {
    forall i | 0 <= i < N_FRAG_BUF :: |l.frags[i].room| == room
  }

  lemma StepKeepsRooms(l: FragList, e: Event, room: nat)
    requires ListOk(l) && AllRooms(l, room)
    ensures AllRooms(Step(l, e).0, room)
  {
    if e.Recv? && |e.packet| >= 4 {
      GetBufOwner(l, SeqIdOf(FromU32(e.packet[..4])));
    }
  }

  /** The fragments in `got` have arrived at the slot of `s` and their bits are set. */
  ghost predicate Progress(l: FragList, f: Flight, s: nat, got: set<nat>)
    requires ListOk(l) && s < N_SEQ_ID && FlightOk(f)
  {
    got == {} ||
    (InWindow(l, s) &&
     var frag := l.frags[SlotFor(l, s)];
     frag.defined && forall n <- got :: n < Count(f) && BitsFor(f, frag, n))
  }

  /** The bits the arrival of fragment n sets. */
  ghost predicate BitsFor(f: Flight, frag: Fragment, n: nat)
    requires FlightOk(f) && FragmentOk(frag)
  {
    n < MAX_FRAGS && frag.received[n] && (n == Count(f) - 1 ==> forall i | n <= i < MAX_FRAGS :: frag.received[i])
  }

  /** The same for one slot. */
  lemma SlotProgress(f: Flight, frag: Fragment, n: nat, now: int, got: set<nat>)
    requires FlightOk(f) && FragmentOk(frag) && n < Count(f) && |f.data| <= |frag.room|
    requires frag.defined ==> SlotHolds(f, frag)
    requires got != {} ==> frag.defined && forall m <- got :: m < Count(f) && BitsFor(f, frag, m)
    ensures var (frag', out) := Accept(frag, n, n == Count(f) - 1, f.size, Pieces(f.data, f.size)[n], now);
            out == f.data || (frag'.defined && forall m <- got + {n} :: m < Count(f) && BitsFor(f, frag', m))
  {
    hide Accept, Pieces, SlotHolds;
    AcceptFragment(f, frag, n, now);
  }

  lemma ArrivalProgress(l: FragList, flights: Flights, s: nat, n: nat, packet: seq<byte>, now: int, got: set<nat>, room: nat)
    requires RingHolds(l, flights) && FlightsOk(flights) && IsFragment(flights, s, n, packet)
    requires AllRooms(l, room) && |flights[s].data| <= room && Progress(l, flights[s], s, got)
    ensures var (l', out) := Incoming(l, packet, now);
            out == flights[s].data || Progress(l', flights[s], s, got + {n})
  {
    hide Accept, BitsFor, Pieces, Turns, SlotHolds;
    var f := flights[s];
    ReadsBack(flights, s, n, packet);
    GetBufOwner(l, s);
    var (l1, slot) := GetBuf(l, s);
    RingHoldsKept(l, l1, flights);
    OwnerIsSlotFor(l1, slot);
    if InWindow(l, s) {
      assert l1 == l && slot == SlotFor(l, s);
    }
    SlotProgress(f, l1.frags[slot], n, now, got);
    var (frag, out) := Accept(l1.frags[slot], n, n == Count(f) - 1, f.size, Pieces(f.data, f.size)[n], now);
    var l2 := FragList(l1.seqId, l1.index, l1.frags[slot := frag]);
    assert Incoming(l, packet, now) == (l2, out);
    assert InWindow(l2, s) && SlotFor(l2, s) == slot;
  }

  /** A fragment of another datagram leaves the slot of `s` alone while `s` stays in the window. */
  lemma OtherArrival(l: FragList, flights: Flights, t: nat, n: nat, packet: seq<byte>, now: int, s: nat)
    requires RingHolds(l, flights) && FlightsOk(flights) && IsFragment(flights, t, n, packet)
    requires s < N_SEQ_ID && s != t && InWindow(l, s) && InWindow(Incoming(l, packet, now).0, s)
    ensures SlotFor(Incoming(l, packet, now).0, s) == SlotFor(l, s)
    ensures Incoming(l, packet, now).0.frags[SlotFor(l, s)] == l.frags[SlotFor(l, s)]
  {
    ReadsBack(flights, t, n, packet);
    GetBufOwner(l, t);
    var (l1, slot) := GetBuf(l, t);
    var l2 := Incoming(l, packet, now).0;
    assert l2.seqId == l1.seqId && l2.index == l1.index;
    assert InWindow(l1, s);
    WindowKeepsSlot(l, t, s);
    assert SlotFor(l1, s) != slot;
  }

  /** An event that is not a fragment of `s`. */
  lemma OtherProgress(l: FragList, flights: Flights, wholes: set<seq<byte>>, e: Event, s: nat, got: set<nat>)
    requires RingHolds(l, flights) && FlightsOk(flights) && s in flights && Legit(flights, wholes, e)
    requires forall n: nat :: e.Recv? ==> !IsFragment(flights, s, n, e.packet)
    requires Progress(l, flights[s], s, got) && InWindow(Step(l, e).0, s)
    requires e.Reap? && InWindow(l, s) ==> !Expired(l.frags[SlotFor(l, s)], e.now)
    ensures Progress(Step(l, e).0, flights[s], s, got)
  {
    if got != {} && e.Recv? {
      if t, n: nat :| IsFragment(flights, t, n, e.packet) {
        OtherArrival(l, flights, t, n, e.packet, e.now, s);
      } else {
        var data :| data in wholes && e.packet == WholePacket(data);
        IncomingWhole(l, data, e.now);
      }
    }
  }

  lemma FragmentIdUnique(flights: Flights, s: nat, n: nat, m: nat, packet: seq<byte>)
    requires FlightsOk(flights) && IsFragment(flights, s, n, packet) && IsFragment(flights, s, m, packet)
    ensures n == m
  {
    ReadsBack(flights, s, n, packet);
    ReadsBack(flights, s, m, packet);
  }

  predicate Expired(frag: Fragment, now: int) {
    frag.defined && frag.timestamp + FRAG_TTL_SEC <= now
  }

  /** After every event `s` is in the window, and no reap finds its slot expired. */
  ghost predicate StaysLive(l: FragList, run: seq<Event>, s: nat)
    requires ListOk(l) && s < N_SEQ_ID
    decreases |run|
  {
    run == [] ||
    (var l' := Step(l, run[0]).0;
     && InWindow(l', s)
     && (run[0].Reap? && InWindow(l, s) ==> !Expired(l.frags[SlotFor(l, s)], run[0].now))
     && StaysLive(l', run[1..], s))
  }

  /** Fragment n of `s` arrives somewhere in the run. */
  ghost predicate Arrives(flights: Flights, s: nat, n: nat, run: seq<Event>) {
    exists k :: 0 <= k < |run| && run[k].Recv? && IsFragment(flights, s, n, run[k].packet)
  }

  /** Every fragment of `s` arrives somewhere in the run. */
  ghost predicate AllArrive(flights: Flights, s: nat, run: seq<Event>) {
    s in flights && 0 < flights[s].size && forall n: nat | n < Count(flights[s]) :: Arrives(flights, s, n, run)
  }

  /** A defined slot cannot have every bit: it would have been delivered. */
  lemma NotAllGot(l: FragList, flights: Flights, s: nat, got: set<nat>)
    requires RingHolds(l, flights) && FlightsOk(flights) && s in flights && Progress(l, flights[s], s, got)
    ensures exists n: nat :: n < Count(flights[s]) && n !in got
  {
    var f := flights[s];
    if forall n: nat | n < Count(f) :: n in got {
      assert 0 in got && Count(f) - 1 in got;
      var frag := l.frags[SlotFor(l, s)];
      assert SlotHolds(f, frag);
      forall i | 0 <= i < MAX_FRAGS ensures frag.received[i] {
        assert i < Count(f) - 1 ==> BitsFor(f, frag, i);
        assert BitsFor(f, frag, Count(f) - 1);
      }
    }
  }

  /** One live event: the datagram comes out, or what has arrived is still there together with this event's fragment. */
  lemma LiveStep(l: FragList, flights: Flights, wholes: set<seq<byte>>, e: Event, s: nat, got: set<nat>, room: nat)
    returns (got': set<nat>)
    requires RingHolds(l, flights) && FlightsOk(flights) && s in flights && Legit(flights, wholes, e)
    requires AllRooms(l, room) && |flights[s].data| <= room && Progress(l, flights[s], s, got)
    requires InWindow(Step(l, e).0, s)
    requires e.Reap? && InWindow(l, s) ==> !Expired(l.frags[SlotFor(l, s)], e.now)
    ensures got <= got' && forall n: nat :: e.Recv? && IsFragment(flights, s, n, e.packet) ==> n in got'
    ensures Step(l, e).1 == flights[s].data || Progress(Step(l, e).0, flights[s], s, got')
  {
    if n: nat :| e.Recv? && IsFragment(flights, s, n, e.packet) {
      ArrivalProgress(l, flights, s, n, e.packet, e.now, got, room);
      got' := got + {n};
      forall m: nat | IsFragment(flights, s, m, e.packet) ensures m in got' {
        FragmentIdUnique(flights, s, n, m, e.packet);
      }
    } else {
      OtherProgress(l, flights, wholes, e, s, got);
      got' := got;
    }
  }

  lemma ArrivesLater(flights: Flights, s: nat, n: nat, run: seq<Event>, got: set<nat>, got': set<nat>)
    requires run != [] && (n in got || Arrives(flights, s, n, run)) && got <= got'
    requires run[0].Recv? && IsFragment(flights, s, n, run[0].packet) ==> n in got'
    ensures n in got' || Arrives(flights, s, n, run[1..])
  {
    if n !in got' {
      var k :| 0 <= k < |run| && run[k].Recv? && IsFragment(flights, s, n, run[k].packet);
      assert run[1..][k - 1] == run[k];
    }
  }

  lemma {:induction false} DeliversFrom(l: FragList, flights: Flights, wholes: set<seq<byte>>, run: seq<Event>,
                                        s: nat, got: set<nat>, room: nat)
    requires RingHolds(l, flights) && FlightsOk(flights) && s in flights
    requires AllRooms(l, room) && |flights[s].data| <= room
    requires forall e <- run :: Legit(flights, wholes, e)
    requires Progress(l, flights[s], s, got) && StaysLive(l, run, s)
    requires forall n: nat | n < Count(flights[s]) :: n in got || Arrives(flights, s, n, run)
    ensures flights[s].data in Outputs(l, run)
    decreases |run|
  {
    if run == [] {
      NotAllGot(l, flights, s, got);
    } else {
      var e := run[0];
      var l' := Step(l, e).0;
      StepSafe(l, flights, wholes, e);
      StepKeepsRooms(l, e, room);
      var got' := LiveStep(l, flights, wholes, e, s, got, room);
      if Step(l, e).1 != flights[s].data {
        forall n: nat | n < Count(flights[s]) ensures n in got' || Arrives(flights, s, n, run[1..]) {
          ArrivesLater(flights, s, n, run, got, got');
        }
        DeliversFrom(l', flights, wholes, run[1..], s, got', room);
      }
    }
  }

  /**
    Delivery: from any reachable receiver state, if every fragment of a datagram that fits the
    reassembly buffer arrives while its slot stays in the window and unexpired, it is handed up.
  */
  lemma AllFragmentsDeliver(l: FragList, flights: Flights, wholes: set<seq<byte>>, run: seq<Event>, s: nat, room: nat)
    requires RingHolds(l, flights) && FlightsOk(flights) && s in flights
    requires AllRooms(l, room) && |flights[s].data| <= room
    requires forall e <- run :: Legit(flights, wholes, e)
    requires StaysLive(l, run, s)
    requires AllArrive(flights, s, run)
    ensures flights[s].data in Outputs(l, run)
  {
    DeliversFrom(l, flights, wholes, run, s, {}, room);
  }

  lemma {:induction false} AfterKeepsRooms(l: FragList, run: seq<Event>, room: nat)
    requires ListOk(l) && AllRooms(l, room)
    ensures AllRooms(After(l, run), room)
    decreases |run|
  {
    if run != [] {
      StepKeepsRooms(l, run[0], room);
      AfterKeepsRooms(Step(l, run[0]).0, run[1..], room);
    }
  }

  /** The same with the sender in place: whatever the channel did `before`, a cut datagram whose fragments now arrive comes out. */
  lemma EndToEndDelivers(seqId: nat, turns: seq<SenderTurn>, before: seq<Event>, run: seq<Event>, s: nat, room: nat)
    requires seqId < N_SEQ_ID && Polite(FreshSender(seqId), turns)
    requires IdsUsed(Jobs(turns)) <= N_SEQ_ID
    requires forall e <- before + run :: e.Recv? ==> e.packet in Emits(FreshSender(seqId), turns)
    requires s < N_SEQ_ID && s in FlightsOf(seqId, Jobs(turns))
    requires |FlightsOf(seqId, Jobs(turns))[s].data| <= room
    requires StaysLive(After(Fresh(room), before), run, s)
    requires AllArrive(FlightsOf(seqId, Jobs(turns)), s, run)
    ensures FlightsOf(seqId, Jobs(turns))[s].data in Outputs(After(Fresh(room), before), run)
  {
    var jobs := Jobs(turns);
    var flights, wholes := FlightsOf(seqId, jobs), Wholes(jobs);
    FlightsOfFacts(seqId, jobs);
    forall e | e in before + run ensures Legit(flights, wholes, e) {
      if e.Recv? {
        EmittedIsSent(FreshSender(seqId), turns, e.packet);
        SendAllLegit(seqId, jobs, e.packet);
      }
    }
    assert forall e <- before :: e in before + run;
    assert forall e <- run :: e in before + run;
    RunSafe(Fresh(room), flights, wholes, before);
    AfterKeepsRooms(Fresh(room), before, room);
    AllFragmentsDeliver(After(Fresh(room), before), flights, wholes, run, s, room);
  }

  /**
    The receiver's test for stray bits in a whole packet misses most of them: a whole packet
    with sequence and fragment ids in its header passes exactly when 64 divides the sequence id.
  */
  lemma StrayBitsPassIff(l: FragList, seqId: nat, fragId: nat, data: seq<byte>, now: int)
    requires ListOk(l) && seqId < N_SEQ_ID && fragId < MAX_FRAGS
    ensures Incoming(l, Packet(FRAG_WHOLE, seqId, fragId, 0, data), now)
         == (l, if seqId % 64 == 0 then data else [])
  {
    var packet := Packet(FRAG_WHOLE, seqId, fragId, 0, data);
    var flags := Pack(FRAG_WHOLE, seqId, fragId, 0);
    PackRoundTrip(FRAG_WHOLE, seqId, fragId, 0);
    U32RoundTrip(flags);
    assert packet[..4] == U32(flags) && packet[4..] == data;
    LowByte(seqId, fragId);
  }

  lemma LowByte(seqId: nat, fragId: nat)
    requires seqId < N_SEQ_ID && fragId < MAX_FRAGS
    ensures Pack(FRAG_WHOLE, seqId, fragId, 0) % 0x100 == seqId % 64 * 4
  {
    var high, low := seqId / 64, seqId % 64;
    assert seqId == high * 64 + low;
    assert Pack(FRAG_WHOLE, seqId, fragId, 0) == seqId * 4 + fragId * 0x400;
    assert seqId * 4 + fragId * 0x400 == (fragId * 4 + high) * 0x100 + low * 4;
    Below(fragId * 4 + high, low * 4, 0x100);
  }
}
