/**
  Datagram fragmentation (fragment.c): header, sender and reassembly ring as functions
  on values.  The classes in Fragment.dfy are proved against them.
*/
module FragmentModel {
  import opened IntegerOps
  import opened Buffers
  import opened Sequences

  const N_FRAG_BUF := 25
  const FRAG_TTL_SEC := 10
  const MAX_FRAGS := 32
  const N_SEQ_ID := 256
  const FRAG_WHOLE := 0
  const FRAG_YES_NOTLAST := 1
  const FRAG_YES_LAST := 2
  const FRAG_SIZE_LIMIT := 0x1_0000

  // ------------------------------------------------------------------ header word

  /**
    fragment_prepend_flags: 2 bits of type, 8 of sequence id, 5 of fragment id and, in the
    last fragment only, 14 bits of fragment size in units of 4.
  */
  function Pack(kind: nat, seqId: nat, fragId: nat, size: nat): (flags: nat)
    ensures flags < 0x1_0000_0000
  {
    kind % 4 + seqId % 256 * 4 + fragId % 32 * 0x400
    + if kind == FRAG_WHOLE || kind == FRAG_YES_NOTLAST then 0 else size / 4 % 0x4000 * 0x8000
  }

  function KindOf(flags: nat): nat { flags % 4 }
  function SeqIdOf(flags: nat): nat { flags / 4 % 256 }
  function FragIdOf(flags: nat): nat { flags / 0x400 % 32 }
  function SizeOf(flags: nat): nat { flags / 0x8000 % 0x4000 * 4 }

  lemma PackRoundTrip(kind: nat, seqId: nat, fragId: nat, size: nat)
    requires kind < 4 && seqId < 256 && fragId < 32
    ensures var flags := Pack(kind, seqId, fragId, size);
            && KindOf(flags) == kind && SeqIdOf(flags) == seqId && FragIdOf(flags) == fragId
            && (kind == FRAG_YES_LAST ==> (SizeOf(flags) == size <==> size % 4 == 0 && size < FRAG_SIZE_LIMIT))
  {
    var top := if kind == FRAG_WHOLE || kind == FRAG_YES_NOTLAST then 0 else size / 4 % 0x4000;
    assert kind % 4 == kind && seqId % 256 == seqId && fragId % 32 == fragId;
    assert Pack(kind, seqId, fragId, size) == Joint(kind, seqId, fragId, top);
    FieldsSeparate(kind, seqId, fragId, top);
    UnitsFit(size);
  }

  function Joint(kind: nat, seqId: nat, fragId: nat, top: nat): nat {
    kind + seqId * 4 + fragId * 0x400 + top * 0x8000
  }

  lemma FieldsSeparate(kind: nat, seqId: nat, fragId: nat, top: nat)
    requires kind < 4 && seqId < 256 && fragId < 32 && top < 0x4000
    ensures var flags := Joint(kind, seqId, fragId, top);
            KindOf(flags) == kind && SeqIdOf(flags) == seqId && FragIdOf(flags) == fragId && SizeOf(flags) == top * 4
  {
    var flags := Joint(kind, seqId, fragId, top);
    var a := top * 32 + fragId;
    var b := a * 256 + seqId;
    Below(b, kind, 4);
    Below(a, seqId, 256);
    assert flags / 4 == b by { assert flags == b * 4 + kind; }
    Below(a, seqId * 4 + kind, 0x400);
    Below(top, fragId, 32);
    assert flags / 0x400 == a by { assert flags == a * 0x400 + (seqId * 4 + kind); }
    Below(top, fragId * 0x400 + seqId * 4 + kind, 0x8000);
    Below(0, top, 0x4000);
  }

  lemma UnitsFit(size: nat)
    ensures size / 4 % 0x4000 * 4 == size <==> size % 4 == 0 && size < FRAG_SIZE_LIMIT
  {
  }

  /** Packing by addition is the source's packing by shift and or. */
  lemma PackIsShiftAndOr(kind: bv32, seqId: bv32, fragId: bv32, units: bv32)
    requires kind < 4 && seqId < 256 && fragId < 32 && units < 0x4000
    ensures ((kind & 3) << 0) | ((seqId & 0xff) << 2) | ((fragId & 0x1f) << 10) | ((units & 0x3fff) << 15)
         == kind + seqId * 4 + fragId * 0x400 + units * 0x8000
  {
  }

  /** Where each field of the header word stands; only the last fragment carries a size. */
  lemma PackLayout(kind: nat, seqId: nat, fragId: nat, size: nat)
    requires kind < 4 && seqId < 256 && fragId < 32 && size < FRAG_SIZE_LIMIT
    ensures Pack(kind, seqId, fragId, size)
            == kind + seqId * 4 + fragId * 0x400 + if kind == 2 || kind == 3 then size / 4 * 0x8000 else 0
  {
    assert size / 4 < 0x4000;
  }

  // ------------------------------------------------------------------ cutting a datagram

  /** max_frag_size & ~FRAG_SIZE_ROUND_MASK. */
  function Aligned(n: nat): nat {
    n / 4 * 4
  }

  lemma AlignedFacts(n: nat)
    ensures Aligned(n) % 4 == 0 && Aligned(n) <= n < Aligned(n) + 4
  {
  }

  /** What the source subtracts from the limit still leaves enough for n pieces. */
  lemma EvenedSizeIsEnough(limit: nat, m: nat, n: nat, mod: nat, q: nat)
    requires 0 < m <= limit && 2 <= n && mod < m && q * n <= limit - mod
    ensures (limit - q) * n >= (n - 1) * m + mod
    ensures q < limit
  {
    MulSplit(limit, q, n);
    MulSplit(n, 1, limit);
    MulMono(m, limit, n - 1);
    assert limit * n == (n - 1) * limit + limit;
    assert m * (n - 1) == (n - 1) * m && limit * (n - 1) == (n - 1) * limit;
    MulMono(2, n, q);
    assert q * n == n * q;
  }

  /** optimal_fragment_size. */
  function OptimalFragmentSize(len: nat, limit: nat): (r: nat)
    requires 4 <= limit
    ensures 0 < r
  {
    var m := Aligned(limit);
    var div, mod := len / m, len % m;
    if div > 0 && mod > 0 && mod < m * 3 / 4 then
      var q := (limit - mod) / (div + 1);
      DivMod(limit - mod, div + 1);
      EvenedSizeIsEnough(limit, m, div + 1, mod, q);
      MinInt(m, Aligned(limit - q + 3))
    else m
  }

  /** `count` pieces of at most `size` bytes hold `len` bytes, and one piece fewer would not. */
  predicate NeedsPieces(len: nat, size: nat, count: nat) {
    if len == 0 then count == 0 else 0 < count && (count - 1) * size < len <= count * size
  }

  /** Any size between that and the aligned limit needs exactly n pieces. */
  lemma EvenedSizeCount(len: nat, m: nat, n: nat, mod: nat, r: nat)
    requires 2 <= n && 0 < mod < m && 0 < r <= m && len == (n - 1) * m + mod && r * n >= len
    ensures NeedsPieces(len, r, n) && NeedsPieces(len, m, n)
  {
    MulMono(r, m, n - 1);
    assert (n - 1) * r == r * (n - 1) && (n - 1) * m == m * (n - 1);
    MulSplit(n, 1, m);
    assert n * r == r * n;
    assert 0 < len by { MulMono(0, n - 1, m); }
  }

  /**
    The evened-out fragment size is a positive multiple of 4 within the limit, and needs
    exactly as many fragments as the aligned limit itself.
  */
  lemma OptimalFragmentSizeKeepsCount(len: nat, limit: nat, count: nat)
    requires 4 <= limit
    ensures var r := OptimalFragmentSize(len, limit);
            0 < r <= Aligned(limit) <= limit && r % 4 == 0
            && (NeedsPieces(len, r, count) <==> NeedsPieces(len, Aligned(limit), count))
  {
    var m := Aligned(limit);
    AlignedFacts(limit);
    var div, mod := len / m, len % m;
    DivMod(len, m);
    if div > 0 && mod > 0 && mod < m * 3 / 4 {
      var n := div + 1;
      var q := (limit - mod) / n;
      DivMod(limit - mod, n);
      EvenedSizeIsEnough(limit, m, n, mod, q);
      AlignedFacts(limit - q + 3);
      var r := MinInt(m, Aligned(limit - q + 3));
      if r == m {
        MulSplit(n, 1, m);
        assert r * n == n * m;
      } else {
        MulMono(limit - q, r, n);
      }
      EvenedSizeCount(len, m, n, mod, r);
      PiecesUnique(len, r, n, count);
      PiecesUnique(len, m, n, count);
    }
  }

  /**
    Where the last piece at the full size would be under three quarters of it, the size is evened
    out: the last piece then falls short of the others by less than 7 bytes for each piece, or 4
    with an aligned limit.  Elsewhere the full size is kept.
  */
  lemma EvenedOut(len: nat, limit: nat, n: nat)
    requires 4 <= limit && 0 < len && NeedsPieces(len, Aligned(limit), n)
    ensures var m, r: int := Aligned(limit), OptimalFragmentSize(len, limit);
            if n >= 2 && len - (n - 1) * m < m * 3 / 4
            then (r - 7) * n < len && (limit % 4 == 0 ==> (r - 4) * n < len)
            else r == m
  {
    var m := Aligned(limit);
    var div, mod := len / m, len % m;
    DivMod(len, m);
    AlignedFacts(limit);
    if mod == 0 {
      MulSplit(div, 1, m);
      PiecesUnique(len, m, div, n);
    } else {
      MulSplit(div + 1, 1, m);
      PiecesUnique(len, m, div + 1, n);
      if div > 0 && mod < m * 3 / 4 {
        var q := (limit - mod) / n;
        DivMod(limit - mod, n);
        EvenedSizeIsEnough(limit, m, n, mod, q);
        AlignedFacts(limit - q + 3);
        EvenedShort(len, limit, m, n, mod, q, (limit - mod) % n, OptimalFragmentSize(len, limit));
      }
    }
  }

  lemma EvenedShort(len: nat, limit: nat, m: nat, n: nat, mod: nat, q: nat, rem: nat, r: nat)
    requires 2 <= n && m <= limit < m + 4 && len == (n - 1) * m + mod && limit - mod == q * n + rem && rem < n
    requires r <= limit - q + 3
    ensures (r - 7) * n < len
    ensures limit == m ==> (r - 4) * n < len
  {
    MulSplit(limit, q, n);
    MulSplit(n, 1, limit);
    MulSplit(limit - q, 4, n);
    MulSplit(limit - q, 1, n);
    MulMono(limit, m + 3, n - 1);
    MulSplit(m, 3, n - 1);
    assert n * limit == limit * n && limit * (n - 1) == (n - 1) * limit && m * (n - 1) == (n - 1) * m;
    MulMono(r - 7, limit - q - 4, n);
    MulMono(r - 4, limit - q - 1, n);
  }

  lemma PiecesUnique(len: nat, size: nat, count: nat, other: nat)
    requires 0 < len && 0 < size && NeedsPieces(len, size, count)
    ensures NeedsPieces(len, size, other) <==> other == count
  {
    if other < count {
      assert other * size <= (count - 1) * size;
    } else if other > count {
      assert (other - 1) * size >= count * size;
    }
  }

  /** The fragments of a datagram, as fragment_ready_to_send takes them off the front. */
  function Pieces(data: seq<byte>, size: nat): (p: seq<seq<byte>>)
    requires 0 < size
    ensures |p| > 0
    decreases |data|
  {
    if |data| <= size then [data] else [data[..size]] + Pieces(data[size..], size)
  }

  /** The pieces are the datagram: they concatenate back to it, and there are as many as needed. */
  lemma {:induction false} PiecesRejoin(data: seq<byte>, size: nat)
    requires 0 < size && 0 < |data|
    ensures Joined(Pieces(data, size)) == data
    ensures NeedsPieces(|data|, size, |Pieces(data, size)|)
    decreases |data|
  {
    if |data| > size {
      PiecesRejoin(data[size..], size);
      assert data == data[..size] + data[size..];
      assert Pieces(data, size)[1..] == Pieces(data[size..], size);
      var n := |Pieces(data[size..], size)|;
      MulSplit(n, 1, size);
    } else {
      assert Pieces(data, size)[1..] == [];
    }
  }

  /** Where piece k starts and ends. */
  lemma {:induction false} PieceAt(data: seq<byte>, size: nat, k: nat)
    requires 0 < size && 0 < |data| && k < |Pieces(data, size)|
    ensures k * size < |data|
    ensures if k + 1 < |Pieces(data, size)|
            then k * size + size < |data| && Pieces(data, size)[k] == data[k * size..k * size + size]
            else |data| <= k * size + size && Pieces(data, size)[k] == data[k * size..]
    decreases k
  {
    if k > 0 {
      MulSplit(k, 1, size);
      MulMono(0, k - 1, size);
      PieceAt(data[size..], size, k - 1);
      ShiftedPiece(data, size, (k - 1) * size, k * size);
    }
  }

  lemma ShiftedPiece(data: seq<byte>, size: nat, a: nat, b: nat)
    requires b == size + a < |data|
    ensures data[size..][a..] == data[b..]
    ensures b + size < |data| ==> data[size..][a..a + size] == data[b..b + size]
  {
  }

  // ------------------------------------------------------------------ the sender

  /** The outgoing half of struct fragment_master. */
  datatype Out = Out(data: seq<byte>, seqId: nat, fragId: nat, fragSize: nat)

  function Packet(kind: nat, seqId: nat, fragId: nat, size: nat, payload: seq<byte>): seq<byte> {
    U32(Pack(kind, seqId, fragId, size)) + payload
  }

  /** fragment_ready_to_send, when there is something to send. */
  function ReadyToSend(o: Out): (Out, seq<byte>)
    requires o.data != []
  {
    var last := |o.data| <= o.fragSize;
    var n := if last then |o.data| else o.fragSize;
    (o.(data := o.data[n..], fragId := o.fragId + 1),
     Packet(if last then FRAG_YES_LAST else FRAG_YES_NOTLAST, o.seqId, o.fragId, o.fragSize, o.data[..n]))
  }

  /** fragment_outgoing: the packet to send now, empty when there is none. */
  function Outgoing(o: Out, buf: seq<byte>, limit: nat): (Out, seq<byte>)
    requires 4 <= limit && o.seqId < N_SEQ_ID
  {
    if buf == [] then (o, [])
    else if |buf| > limit then
      var size := OptimalFragmentSize(|buf|, limit);
      if |buf| > size * MAX_FRAGS then (o.(fragSize := size), [])
      else ReadyToSend(Out(buf, ModuloAdd(o.seqId, 1, N_SEQ_ID), 0, size))
    else (o, Packet(FRAG_WHOLE, 0, 0, 0, buf))
  }

  /** A datagram sent as fragments of a given size. */
  datatype Flight = Flight(data: seq<byte>, size: nat)

  predicate FlightOk(f: Flight) {
    && f.data != [] && 0 < f.size < FRAG_SIZE_LIMIT && f.size % 4 == 0
    && |Pieces(f.data, f.size)| <= MAX_FRAGS
  }

  function Count(f: Flight): nat
    requires 0 < f.size
  {
    |Pieces(f.data, f.size)|
  }

  /** The n-th fragment of a datagram as a packet: ids run from 0 and only the final piece is marked last. */
  function FragmentPacket(f: Flight, seqId: nat, n: nat): seq<byte>
    requires 0 < f.size && n < Count(f)
  {
    Packet(if n == Count(f) - 1 then FRAG_YES_LAST else FRAG_YES_NOTLAST, seqId, n, f.size, Pieces(f.data, f.size)[n])
  }

  /** Everything fragment_ready_to_send still has to give. */
  function Drain(o: Out): seq<seq<byte>>
    requires o.data != [] ==> 0 < o.fragSize
    decreases |o.data|
  {
    if o.data == [] then [] else [ReadyToSend(o).1] + Drain(ReadyToSend(o).0)
  }

  lemma {:induction false} DrainIsPieces(o: Out, k: nat)
    requires 0 < o.fragSize && o.data != []
    ensures |Drain(o)| == |Pieces(o.data, o.fragSize)|
    ensures k < |Drain(o)| ==>
              Drain(o)[k] == Packet(if k == |Drain(o)| - 1 then FRAG_YES_LAST else FRAG_YES_NOTLAST,
                                    o.seqId, o.fragId + k, o.fragSize, Pieces(o.data, o.fragSize)[k])
    decreases |o.data|
  {
    if |o.data| <= o.fragSize {
      assert o.data[|o.data|..] == [] && o.data[..|o.data|] == o.data;
    } else {
      DrainIsPieces(ReadyToSend(o).0, if k == 0 then 0 else k - 1);
    }
  }

  lemma FlightFits(buf: seq<byte>, limit: nat)
    requires 4 <= limit < FRAG_SIZE_LIMIT && limit < |buf| <= OptimalFragmentSize(|buf|, limit) * MAX_FRAGS
    ensures FlightOk(Flight(buf, OptimalFragmentSize(|buf|, limit)))
  {
    var size := OptimalFragmentSize(|buf|, limit);
    OptimalFragmentSizeKeepsCount(|buf|, limit, 0);
    PiecesRejoin(buf, size);
    var n := |Pieces(buf, size)|;
    if n > MAX_FRAGS {
      MulMono(MAX_FRAGS, n - 1, size);
    }
  }

  /** All fragments of a datagram, in order. */
  function Fragments(f: Flight, seqId: nat): seq<seq<byte>>
    requires 0 < f.size
  {
    seq(Count(f), n requires 0 <= n < Count(f) => FragmentPacket(f, seqId, n))
  }

  lemma DrainIsFragments(f: Flight, seqId: nat)
    requires FlightOk(f)
    ensures Drain(Out(f.data, seqId, 0, f.size)) == Fragments(f, seqId)
  {
    var start := Out(f.data, seqId, 0, f.size);
    DrainIsPieces(start, 0);
    forall n | 0 <= n < Count(f) ensures Drain(start)[n] == FragmentPacket(f, seqId, n) {
      DrainIsPieces(start, n);
    }
  }

  /**
    Fragmenting a datagram: the packet the sender returns followed by everything it has left
    are exactly the datagram's fragments, under the next sequence id; a datagram that would
    need more than 32 is dropped and leaves the previous one untouched.
  */
  lemma OutgoingSendsFragments(o: Out, buf: seq<byte>, limit: nat)
    requires 4 <= limit < FRAG_SIZE_LIMIT && o.seqId < N_SEQ_ID && limit < |buf|
    ensures var f := Flight(buf, OptimalFragmentSize(|buf|, limit));
            var (o', first) := Outgoing(o, buf, limit);
            if |buf| > f.size * MAX_FRAGS then first == [] && o' == o.(fragSize := f.size)
            else
              && FlightOk(f)
              && o'.seqId == (if o.seqId == N_SEQ_ID - 1 then 0 else o.seqId + 1)
              && o'.fragSize == f.size
              && [first] + Drain(o') == Fragments(f, o'.seqId)
  {
    var f := Flight(buf, OptimalFragmentSize(|buf|, limit));
    if |buf| <= f.size * MAX_FRAGS {
      FlightFits(buf, limit);
      DrainIsFragments(f, ModuloAdd(o.seqId, 1, N_SEQ_ID));
    }
  }
}
