/**
  The reassembly side of fragment.c: a ring of 25 slots indexed by modular distance, and
  what it delivers under loss, duplication and reordering.
*/
module FragmentRing {
  import opened IntegerOps
  import opened Buffers
  import opened FragmentModel

  function NoBits(): (bits: seq<bool>)
    ensures |bits| == MAX_FRAGS && forall i | 0 <= i < MAX_FRAGS :: !bits[i]
  {
    seq(MAX_FRAGS, _ => false)
  }

  /** map |= ((last ? 0xFFFFFFFF : 1) << n), on the 32 bits one by one. */
  function Mark(bits: seq<bool>, n: nat, last: bool): (m: seq<bool>)
    ensures |m| == |bits|
    ensures forall i | 0 <= i < |bits| :: m[i] == (bits[i] || (if last then i >= n else i == n))
  {
    seq(|bits|, i requires 0 <= i < |bits| => bits[i] || (if last then i >= n else i == n))
  }

  predicate Full(bits: seq<bool>) {
    forall i | 0 <= i < |bits| :: bits[i]
  }

  /** Bit i of the shifted masks is as Mark has it, and the word is all ones when every bit is. */
  lemma MarkIsShiftAndOr(word: bv32, n: bv32, i: bv32)
    requires n < 32 && i < 32
    ensures (((word | (0xFFFF_FFFF << n)) >> i) & 1 == 1) <==> ((word >> i) & 1 == 1 || i >= n)
    ensures (((word | (1 << n)) >> i) & 1 == 1) <==> ((word >> i) & 1 == 1 || i == n)
  {
  }

  /**
    struct fragment.  `room` is the part of its buffer behind the headroom; bytes beyond
    `len`, and any gap below it, keep whatever was there before.
  */
  datatype Fragment = Fragment(defined: bool, maxFragSize: int, received: seq<bool>, timestamp: int,
                               room: seq<byte>, len: nat)

  /** A slot's bookkeeping is within its buffer. */
  predicate FragmentOk(frag: Fragment) {
    |frag.received| == MAX_FRAGS && frag.len <= |frag.room|
  }

  /** struct fragment_list. */
  datatype FragList = FragList(seqId: nat, index: nat, frags: seq<Fragment>)

  predicate ListOk(l: FragList) {
    l.seqId < N_SEQ_ID && l.index < N_FRAG_BUF && |l.frags| == N_FRAG_BUF
    && forall i | 0 <= i < N_FRAG_BUF :: FragmentOk(l.frags[i])
  }

  // ------------------------------------------------------------------ the ring

  /** One turn of the window: the next slot is emptied for the next sequence id. */
  function Turn(l: FragList): (r: FragList)
    requires ListOk(l)
    ensures ListOk(r)
  {
    var index := ModuloAdd(l.index, 1, N_FRAG_BUF);
    FragList(ModuloAdd(l.seqId, 1, N_SEQ_ID), index, l.frags[index := l.frags[index].(defined := false)])
  }

  function Turns(l: FragList, n: nat): (r: FragList)
    requires ListOk(l)
    ensures ListOk(r)
    decreases n
  {
    if n == 0 then l else Turns(Turn(l), n - 1)
  }

  function Undefined(frags: seq<Fragment>): seq<Fragment> {
    seq(|frags|, i requires 0 <= i < |frags| => frags[i].(defined := false))
  }

  /** fragment_list_get_buf: the updated list and the slot for `seqId`. */
  function GetBuf(l: FragList, seqId: nat): (r: (FragList, nat))
    requires ListOk(l) && seqId < N_SEQ_ID
    ensures ListOk(r.0) && r.1 < N_FRAG_BUF
  {
    var diff := ModuloSubtract(seqId, l.seqId, N_SEQ_ID);
    if Abs(diff) >= N_FRAG_BUF then (FragList(seqId, 0, Undefined(l.frags)), 0)
    else if diff > 0 then
      var l' := Turns(l, diff);
      (l', l'.index)
    else (l, ModuloAdd(l.index, diff, N_FRAG_BUF))
  }

  /** The sequence id a slot stands for: as far behind `seqId` as the slot is behind `index`. */
  function OwnerAt(l: FragList, slot: nat): (s: nat)
    requires ListOk(l) && slot < N_FRAG_BUF
    ensures s < N_SEQ_ID
  {
    ModuloAdd(l.seqId, -ModuloAdd(l.index, 0 - slot, N_FRAG_BUF), N_SEQ_ID)
  }

  /** The 25 slots always stand for 25 different sequence ids. */
  lemma OwnersDistinct(l: FragList, i: nat, j: nat)
    requires ListOk(l) && i < j < N_FRAG_BUF
    ensures OwnerAt(l, i) != OwnerAt(l, j)
  {
  }

  /** `l'` has forgotten some slots of `l` and kept the others, each under the sequence id it had. */
  ghost predicate KeepsOwners(l: FragList, l': FragList)
    requires ListOk(l) && ListOk(l')
  {
    forall i | 0 <= i < N_FRAG_BUF ::
      l'.frags[i] == l.frags[i].(defined := l'.frags[i].defined)
      && (l'.frags[i].defined ==> l.frags[i].defined && OwnerAt(l', i) == OwnerAt(l, i))
  }

  lemma TurnKeepsOwners(l: FragList)
    requires ListOk(l)
    ensures KeepsOwners(l, Turn(l))
  {
  }

  lemma KeepsOwnersTransitive(l: FragList, l1: FragList, l2: FragList)
    requires ListOk(l) && ListOk(l1) && ListOk(l2) && KeepsOwners(l, l1) && KeepsOwners(l1, l2)
    ensures KeepsOwners(l, l2)
  {
  }

  lemma {:induction false} TurnsKeepOwners(l: FragList, n: nat)
    requires ListOk(l)
    ensures KeepsOwners(l, Turns(l, n))
    ensures n < N_SEQ_ID ==> Turns(l, n).seqId == ModuloAdd(l.seqId, n, N_SEQ_ID)
    decreases n
  {
    if n > 0 {
      TurnKeepsOwners(l);
      TurnsKeepOwners(Turn(l), n - 1);
      KeepsOwnersTransitive(l, Turn(l), Turns(l, n));
    }
  }

  /**
    Whatever id is asked for, forwards, backwards or far away: the slot returned stands for
    that id, and no slot that is still defined has changed hands.
  */
  lemma GetBufOwner(l: FragList, seqId: nat)
    requires ListOk(l) && seqId < N_SEQ_ID
    ensures var (l', slot) := GetBuf(l, seqId);
            OwnerAt(l', slot) == seqId && KeepsOwners(l, l')
  {
    var diff := ModuloSubtract(seqId, l.seqId, N_SEQ_ID);
    if 0 < diff < N_FRAG_BUF {
      TurnsKeepOwners(l, diff);
    }
  }

  // ------------------------------------------------------------------ receiving

  /** The bytes buf_copy_range leaves behind. */
  function Spliced(room: seq<byte>, at: nat, src: seq<byte>): (r: seq<byte>)
    requires at + |src| <= |room|
    ensures |r| == |room|
    ensures forall i | 0 <= i < |room| :: r[i] == if at <= i < at + |src| then src[i - at] else room[i]
  {
    room[..at] + src + room[at + |src|..]
  }

  /** The slot once it belongs to a datagram cut into pieces of `size`. */
  function Claimed(frag: Fragment, size: int): Fragment {
    if !frag.defined || frag.maxFragSize != size then
      frag.(defined := true, maxFragSize := size, received := NoBits(), len := 0)
    else frag
  }

  /** Copy the payload in and note its arrival. */
  function Stored(frag: Fragment, n: nat, last: bool, at: nat, payload: seq<byte>, now: int): Fragment
    requires at + |payload| <= |frag.room|
  {
    Fragment(frag.defined, frag.maxFragSize, Mark(frag.received, n, last), now,
             Spliced(frag.room, at, payload),
             if at + |payload| > frag.len then at + |payload| else frag.len)
  }

  /** Hand the datagram over once every bit is set. */
  function Completed(frag: Fragment): (Fragment, seq<byte>)
    requires frag.len <= |frag.room|
  {
    if Full(frag.received) then (frag.(defined := false), frag.room[..frag.len]) else (frag, [])
  }

  /** The part of fragment_incoming that works on one slot: the new slot and the datagram, if complete. */
  function Accept(frag: Fragment, n: nat, last: bool, size: nat, payload: seq<byte>, now: int): (r: (Fragment, seq<byte>))
    requires FragmentOk(frag)
    ensures FragmentOk(r.0) && |r.0.room| == |frag.room|
  {
    var c := Claimed(frag, size);
    if n * size + |payload| > |c.room| then (c, [])
    else Completed(Stored(c, n, last, n * size, payload, now))
  }

  /**
    fragment_incoming: the list afterwards and what is left in the caller's buffer; nothing is
    left on an error or while the datagram is incomplete.  The test for stray bits in a whole
    packet applies the field masks without shifting them, so it looks at the low 8 bits only.
  */
  function Incoming(l: FragList, buf: seq<byte>, now: int): (r: (FragList, seq<byte>))
    requires ListOk(l)
    ensures ListOk(r.0)
  {
    if |buf| < 4 then (l, [])
    else
      var flags := FromU32(buf[..4]);
      var payload := buf[4..];
      var kind := KindOf(flags);
      if kind == FRAG_WHOLE then
        (l, if flags % 0x100 != 0 then [] else payload)
      else if kind == FRAG_YES_NOTLAST || kind == FRAG_YES_LAST then
        var last := kind == FRAG_YES_LAST;
        var size := if last then SizeOf(flags) else |payload|;
        var (l', slot) := GetBuf(l, SeqIdOf(flags));
        if size % 4 != 0 then (l', [])
        else
          var (frag, out) := Accept(l'.frags[slot], FragIdOf(flags), last, size, payload, now);
          (l'.(frags := l'.frags[slot := frag]), out)
      else (l, [])
  }

  function Aged(frag: Fragment, now: int): Fragment {
    if frag.defined && frag.timestamp + FRAG_TTL_SEC <= now then frag.(defined := false) else frag
  }

  /** fragment_ttl_reap. */
  function TtlReap(l: FragList, now: int): (r: FragList)
    requires ListOk(l)
    ensures ListOk(r)
  {
    FragList(l.seqId, l.index, seq(N_FRAG_BUF, i requires 0 <= i < |l.frags| => Aged(l.frags[i], now)))
  }

  // ------------------------------------------------------------------ what each step may change

  /**
    The window ends at the newest sequence id asked for: one at most 24 behind leaves everything as
    it is, any other becomes the newest, and one 25 or more away empties the whole ring.
  */
  lemma NewestAfter(l: FragList, seqId: nat)
    requires ListOk(l) && seqId < N_SEQ_ID
    ensures var l', ahead := GetBuf(l, seqId).0, (seqId + N_SEQ_ID - l.seqId) % N_SEQ_ID;
            && (ahead == 0 || ahead > N_SEQ_ID - N_FRAG_BUF ==> l' == l)
            && (0 < ahead <= N_SEQ_ID - N_FRAG_BUF ==> l'.seqId == seqId)
            && (N_FRAG_BUF <= ahead <= N_SEQ_ID - N_FRAG_BUF ==> forall i | 0 <= i < N_FRAG_BUF :: !l'.frags[i].defined)
  {
    hide ModuloSubtract, ModuloAdd, Turns, FragmentOk, KeepsOwners, OwnerAt;
    var diff := ModuloSubtract(seqId, l.seqId, N_SEQ_ID);
    AheadIs(seqId, l.seqId);
    if 0 < diff < N_FRAG_BUF {
      TurnsKeepOwners(l, diff);
    }
  }

  lemma AheadIs(seqId: nat, newest: nat)
    requires seqId < N_SEQ_ID && newest < N_SEQ_ID
    ensures var diff := ModuloSubtract(seqId, newest, N_SEQ_ID);
            && (seqId + N_SEQ_ID - newest) % N_SEQ_ID == (if diff < 0 then diff + N_SEQ_ID else diff) && Abs(diff) <= N_SEQ_ID / 2
            && ModuloAdd(newest, diff, N_SEQ_ID) == seqId
  {
  }

  /** A reap takes exactly the slots in use whose last fragment is ten seconds old, and touches nothing else. */
  lemma ReapsExpired(l: FragList, now: int, i: nat)
    requires ListOk(l) && i < N_FRAG_BUF
    ensures var was, l' := l.frags[i], TtlReap(l, now);
            && l'.seqId == l.seqId && l'.index == l.index
            && (l'.frags[i].defined <==> was.defined && now - was.timestamp < 10)
            && l'.frags[i] == was.(defined := l'.frags[i].defined)
  {
  }

  /** The bits a slot counts for a datagram cut to this size: none of another datagram's. */
  predicate Had(frag: Fragment, size: int, i: nat)
    requires FragmentOk(frag) && i < MAX_FRAGS
  {
    frag.defined && frag.maxFragSize == size && frag.received[i]
  }

  /**
    A slot in use for another size starts over.  A piece beyond the buffer adds nothing; any other
    adds its bit, the last piece those after it too, and all 32 bits hand the datagram up.
  */
  lemma AcceptCases(frag: Fragment, n: nat, last: bool, size: nat, payload: seq<byte>, now: int)
    requires FragmentOk(frag)
    ensures var (frag', out) := Accept(frag, n, last, size, payload, now);
            var end := n * size + |payload|;
            if end > |frag.room| then
              && out == [] && frag'.defined && frag'.maxFragSize == size
              && forall i: nat | i < MAX_FRAGS :: frag'.received[i] <==> Had(frag, size, i)
            else
              && frag'.maxFragSize == size && frag'.timestamp == now
              && frag'.room[n * size..end] == payload
              && (forall i: nat | i < MAX_FRAGS :: frag'.received[i] <==> Had(frag, size, i) || i == n || (last && i >= n))
              && (frag'.defined <==> exists i: nat :: i < MAX_FRAGS && !frag'.received[i])
              && out == if frag'.defined then [] else frag'.room[..frag'.len]
  {
    var end := n * size + |payload|;
    if end <= |frag.room| {
      var c := Claimed(frag, size);
      var s := Stored(c, n, last, n * size, payload, now);
      assert s.room[n * size..end] == payload;
    }
  }

  /**
    Nothing comes out of a packet that is too short for a header, of an unknown type, cut to an odd
    size, or beyond the slot's buffer; the first two leave the ring alone.
  */
  lemma BadPacketGivesNothing(l: FragList, buf: seq<byte>, now: int)
    requires ListOk(l)
    ensures |buf| < 4 || buf[3] % 4 == 3 ==> Incoming(l, buf, now) == (l, [])
    ensures |buf| >= 4 && buf[3] % 4 == 1 && |buf| % 4 != 0 ==>
              Incoming(l, buf, now) == (GetBuf(l, SeqIdOf(FromU32(buf[..4]))).0, [])
    ensures |buf| >= 4 && 1 <= buf[3] % 4 <= 2 ==>
              var flags := FromU32(buf[..4]);
              var (l', slot) := GetBuf(l, SeqIdOf(flags));
              var size := if buf[3] % 4 == 2 then SizeOf(flags) else |buf| - 4;
              FragIdOf(flags) * size + |buf| - 4 > |l'.frags[slot].room| ==> Incoming(l, buf, now).1 == []
  {
    hide FromU32, GetBuf, KindOf, SizeOf, SeqIdOf, FragIdOf, Completed, Stored;
    if |buf| >= 4 {
      KindIsLowBits(buf);
    }
  }

  lemma KindIsLowBits(buf: seq<byte>)
    requires |buf| >= 4
    ensures KindOf(FromU32(buf[..4])) == buf[3] as int % 4
  {
    assert buf[..4][3] == buf[3];
  }
}
