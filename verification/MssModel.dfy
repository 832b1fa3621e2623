/**
  Lowering the MSS option of TCP SYN segments (mss.c) on byte sequences, with the incremental
  checksum update of proto.h.  Words are read as the host reads them: `big` is its byte order.
*/
module MssModel {
  import opened Buffers
  import opened IntegerOps

  const IP_HEADER := 20
  const TCP_HEADER := 20
  const TCP_CHECK := 16
  const TCP_FLAGS := 13
  const TCP_DOFF := 12
  const EOL: byte := 0
  const NOP: byte := 1
  const MAXSEG: byte := 2
  const MAXSEG_LEN := 4
  const WORD := 0x1_0000
  const ONES := 0xffff

  // ------------------------------------------------------------------ words

  /** ntohs of the word at i. */
  function Be(s: seq<byte>, i: nat): nat
    requires i + 2 <= |s|
  {
    s[i] as nat * 256 + s[i + 1] as nat
  }

  /** The word of two bytes in host order. */
  function Word(b0: byte, b1: byte, big: bool): nat {
    if big then b0 as nat * 256 + b1 as nat else b1 as nat * 256 + b0 as nat
  }

  function Raw(s: seq<byte>, i: nat, big: bool): nat
    requires i + 2 <= |s|
  {
    Word(s[i], s[i + 1], big)
  }

  function Put(s: seq<byte>, i: nat, b0: byte, b1: byte): (r: seq<byte>)
    requires i + 2 <= |s|
    ensures |r| == |s|
  {
    s[i := b0][i + 1 := b1]
  }

  function Hi(v: nat): byte
    requires v < WORD
  {
    (v / 256) as byte
  }

  function Lo(v: nat): byte
    requires v < WORD
  {
    (v % 256) as byte
  }

  function PutRaw(s: seq<byte>, i: nat, v: nat, big: bool): (r: seq<byte>)
    requires i + 2 <= |s| && v < WORD
    ensures |r| == |s|
  {
    if big then Put(s, i, Hi(v), Lo(v)) else Put(s, i, Lo(v), Hi(v))
  }

  /** The 16-bit one's complement sum of the segment before folding, an odd last byte padded with zero. */
  function WordSum(s: seq<byte>, big: bool): nat {
    if s == [] then 0
    else if |s| == 1 then Word(s[0], 0, big)
    else Word(s[0], s[1], big) + WordSum(s[2..], big)
  }

  // ------------------------------------------------------------------ ADJUST_CHECKSUM

  /** (acc >> 16) + (acc & 0xffff), then the carry once more, for a non-negative acc. */
  function Fold(acc: nat): nat {
    var once := acc / WORD + acc % WORD;
    once + once / WORD
  }

  function Adjust(acc: int, cksum: nat): (c: nat)
    ensures c < WORD
  {
    var sum := acc + cksum;
    if sum < 0 then ONES - Fold(-sum) % WORD else Fold(sum) % WORD
  }

  lemma FoldOnce(n: nat)
    requires n < 2 * WORD - 1
    ensures Fold(n) % WORD == if n < WORD then n else n - ONES
  {
  }

  /** The macro computes cksum + acc in one's complement: modulo 0xffff (section 3 of RFC 1624). */
  lemma AdjustIsModular(acc: int, cksum: nat) returns (k: int)
    requires -WORD < acc < WORD && cksum < WORD
    ensures Adjust(acc, cksum) == cksum + acc + ONES * k
  {
    var sum := acc + cksum;
    var n := if sum < 0 then -sum else sum;
    FoldOnce(n);
    k := if sum < 0 then (if n < WORD then 1 else 2) else (if n < WORD then 0 else -1);
  }

  // ------------------------------------------------------------------ the option walk

  /** Put the limit where an MSS value is and adjust the checksum by the change. */
  function Rewrite(s: seq<byte>, i: nat, maxmss: nat, big: bool): (r: seq<byte>)
    requires TCP_HEADER <= i && i + 2 <= |s| && maxmss < WORD
    ensures |r| == |s|
  {
    var s' := Put(s, i, Hi(maxmss), Lo(maxmss));
    PutRaw(s', TCP_CHECK, Adjust(Raw(s, i, big) - Raw(s', i, big), Raw(s', TCP_CHECK, big)), big)
  }

  /** The byte after the option kind; `past` stands for what lies behind the segment. */
  function LengthAt(s: seq<byte>, pos: nat, past: byte): nat {
    (if pos + 1 < |s| then s[pos + 1] else past) as nat
  }

  /** The walk ends here: end of options, or a length of zero or beyond the option area. */
  predicate Stops(s: seq<byte>, pos: nat, end: nat, past: byte)
    requires pos < end <= |s|
  {
    s[pos] == EOL || (s[pos] != NOP && (LengthAt(s, pos, past) == 0 || LengthAt(s, pos, past) > end - pos))
  }

  function Step(s: seq<byte>, pos: nat, past: byte): nat
    requires pos < |s|
  {
    if s[pos] == NOP then 1 else LengthAt(s, pos, past)
  }

  /** A well-formed MSS option at pos. */
  predicate MssHere(s: seq<byte>, pos: nat, end: nat)
    requires pos < end <= |s|
  {
    s[pos] == MAXSEG && pos + MAXSEG_LEN <= end && s[pos + 1] as nat == MAXSEG_LEN
  }

  /** What the loop does to the segment when it is at pos. */
  function Visit(s: seq<byte>, pos: nat, end: nat, maxmss: nat, big: bool): (r: seq<byte>)
    requires TCP_HEADER <= pos < end <= |s| && maxmss < WORD
    ensures |r| == |s|
  {
    if MssHere(s, pos, end) && Be(s, pos + 2) > maxmss then Rewrite(s, pos + 2, maxmss, big) else s
  }

  /** The loop of mss_fixup_dowork from pos on. */
  function Walk(s: seq<byte>, pos: nat, end: nat, maxmss: nat, big: bool, past: byte): (r: seq<byte>)
    requires TCP_HEADER <= pos && end <= |s| && maxmss < WORD
    ensures |r| == |s|
    decreases end - pos
  {
    if pos >= end || Stops(s, pos, end, past) then s
    else Walk(Visit(s, pos, end, maxmss, big), pos + Step(s, pos, past), end, maxmss, big, past)
  }

  /** OPENVPN_TCPH_GET_DOFF. */
  function Doff(b: byte): nat {
    b as nat / 16 * 4
  }

  /** mss_fixup_dowork on a segment of at least a TCP header. */
  function Fixup(s: seq<byte>, maxmss: nat, big: bool, past: byte): (r: seq<byte>)
    requires TCP_HEADER <= |s| && maxmss < WORD
    ensures |r| == |s|
  {
    var hlen := Doff(s[TCP_DOFF]);
    if hlen <= TCP_HEADER || hlen > |s| then s else Walk(s, TCP_HEADER, hlen, maxmss, big, past)
  }

  /** The positions of the well-formed MSS options the walk reaches. */
  function MssAt(s: seq<byte>, pos: nat, end: nat, past: byte): seq<nat>
    requires end <= |s|
    decreases end - pos
  {
    if pos >= end || Stops(s, pos, end, past) then []
    else (if MssHere(s, pos, end) then [pos] else []) + MssAt(s, pos + Step(s, pos, past), end, past)
  }

  // ------------------------------------------------------------------ what the walk changes

  /** Going on means going forward within the option area, past an MSS option by its four bytes. */
  lemma StepForward(s: seq<byte>, pos: nat, end: nat, past: byte)
    requires pos < end <= |s| && !Stops(s, pos, end, past)
    ensures 0 < Step(s, pos, past) <= end - pos
    ensures MssHere(s, pos, end) ==> pos + MAXSEG_LEN <= end && Step(s, pos, past) == MAXSEG_LEN
  {
  }

  lemma SameAhead(s: seq<byte>, s': seq<byte>, pos: nat, end: nat, past: byte)
    requires pos < end <= |s| == |s'| && forall i | pos <= i < |s| :: s'[i] == s[i]
    ensures MssHere(s', pos, end) == MssHere(s, pos, end) && Stops(s', pos, end, past) == Stops(s, pos, end, past)
    ensures Step(s', pos, past) == Step(s, pos, past)
  {
  }

  /** Where the walk goes depends on the bytes ahead alone. */
  lemma {:induction false} MssAtSame(s: seq<byte>, s': seq<byte>, pos: nat, end: nat, past: byte)
    requires end <= |s| == |s'| && forall i | pos <= i < |s| :: s'[i] == s[i]
    ensures MssAt(s', pos, end, past) == MssAt(s, pos, end, past)
    decreases end - pos
  {
    hide Stops, Step, MssHere;
    if pos < end {
      SameAhead(s, s', pos, end, past);
      if !Stops(s, pos, end, past) {
        StepForward(s, pos, end, past);
        MssAtSame(s, s', pos + Step(s, pos, past), end, past);
      }
    }
  }

  lemma VisitBytes(s: seq<byte>, pos: nat, end: nat, maxmss: nat, big: bool)
    requires TCP_HEADER <= pos < end <= |s| && maxmss < WORD
    ensures var r := Visit(s, pos, end, maxmss, big);
            && (if MssHere(s, pos, end) then pos + MAXSEG_LEN <= end && Be(r, pos + 2) == MinInt(Be(s, pos + 2), maxmss) else r == s)
            && forall j | 0 <= j < |s| && j != pos + 2 && j != pos + 3 && j != TCP_CHECK && j != TCP_CHECK + 1 :: r[j] == s[j]
  {
  }

  /** After a visit the walk goes on where it would have gone. */
  lemma VisitAhead(s: seq<byte>, pos: nat, end: nat, maxmss: nat, big: bool, past: byte)
    requires TCP_HEADER <= pos < end <= |s| && maxmss < WORD && !Stops(s, pos, end, past)
    ensures var next := pos + Step(s, pos, past);
            MssAt(Visit(s, pos, end, maxmss, big), next, end, past) == MssAt(s, next, end, past)
  {
    StepForward(s, pos, end, past);
    VisitBytes(s, pos, end, maxmss, big);
    hide Stops, Step, MssHere, Visit;
    MssAtSame(s, Visit(s, pos, end, maxmss, big), pos + Step(s, pos, past), end, past);
  }

  lemma {:induction false} MssAtAhead(s: seq<byte>, pos: nat, end: nat, past: byte, p: nat)
    requires end <= |s| && p in MssAt(s, pos, end, past)
    ensures pos <= p && p + MAXSEG_LEN <= end && p + MAXSEG_LEN <= |s|
    decreases end - pos
  {
    hide Stops, Step, MssHere;
    StepForward(s, pos, end, past);
    if !(MssHere(s, pos, end) && p == pos) {
      MssAtAhead(s, pos + Step(s, pos, past), end, past, p);
    }
  }

  lemma MssAtSplit(s: seq<byte>, pos: nat, end: nat, past: byte)
    requires pos < end <= |s| && !Stops(s, pos, end, past)
    ensures MssHere(s, pos, end) ==> pos in MssAt(s, pos, end, past)
    ensures var rest := MssAt(s, pos + Step(s, pos, past), end, past); forall p <- rest :: p in MssAt(s, pos, end, past)
  {
    hide Stops, Step, MssHere;
    StepForward(s, pos, end, past);
    var rest := MssAt(s, pos + Step(s, pos, past), end, past);
    assert MssAt(s, pos, end, past) == (if MssHere(s, pos, end) then [pos] else []) + rest;
  }

  /** Every byte but the checksum and the MSS values is as it was. */
  lemma {:induction false} WalkKeeps(s: seq<byte>, pos: nat, end: nat, maxmss: nat, big: bool, past: byte, i: nat)
    requires TCP_HEADER <= pos && end <= |s| && maxmss < WORD
    requires i < |s| && i != TCP_CHECK && i != TCP_CHECK + 1
    requires forall p <- MssAt(s, pos, end, past) :: i != p + 2 && i != p + 3
    ensures Walk(s, pos, end, maxmss, big, past)[i] == s[i]
    decreases end - pos
  {
    hide Stops, Step, MssHere, Visit;
    if pos < end && !Stops(s, pos, end, past) {
      StepForward(s, pos, end, past);
      VisitBytes(s, pos, end, maxmss, big);
      VisitAhead(s, pos, end, maxmss, big, past);
      MssAtSplit(s, pos, end, past);
      var rest := MssAt(s, pos + Step(s, pos, past), end, past);
      forall p | p in rest ensures i != p + 2 && i != p + 3 {
        assert p in MssAt(s, pos, end, past);
      }
      WalkKeeps(Visit(s, pos, end, maxmss, big), pos + Step(s, pos, past), end, maxmss, big, past, i);
    }
  }

  lemma WalkBehind(s: seq<byte>, pos: nat, end: nat, maxmss: nat, big: bool, past: byte, i: nat)
    requires TCP_HEADER <= i < pos + 2 && pos >= TCP_HEADER && i < |s| && end <= |s| && maxmss < WORD
    ensures Walk(s, pos, end, maxmss, big, past)[i] == s[i]
  {
    hide Walk, MssAt;
    forall p | p in MssAt(s, pos, end, past) ensures i != p + 2 && i != p + 3 {
      MssAtAhead(s, pos, end, past, p);
    }
    WalkKeeps(s, pos, end, maxmss, big, past, i);
  }

  /** Every MSS option the walk reaches ends up as the smaller of its value and the limit. */
  lemma {:induction false} WalkClamps(s: seq<byte>, pos: nat, end: nat, maxmss: nat, big: bool, past: byte, p: nat)
    requires TCP_HEADER <= pos && end <= |s| && maxmss < WORD && p in MssAt(s, pos, end, past)
    ensures p + MAXSEG_LEN <= |s| && Be(Walk(s, pos, end, maxmss, big, past), p + 2) == MinInt(Be(s, p + 2), maxmss)
    decreases end - pos
  {
    hide Stops, Step, MssHere, Visit;
    var next := pos + Step(s, pos, past);
    var s' := Visit(s, pos, end, maxmss, big);
    MssAtAhead(s, pos, end, past, p);
    StepForward(s, pos, end, past);
    VisitBytes(s, pos, end, maxmss, big);
    if MssHere(s, pos, end) && p == pos {
      WalkBehind(s', next, end, maxmss, big, past, p + 2);
      WalkBehind(s', next, end, maxmss, big, past, p + 3);
    } else {
      MssAtAhead(s, next, end, past, p);
      VisitAhead(s, pos, end, maxmss, big, past);
      WalkClamps(s', next, end, maxmss, big, past, p);
    }
  }

  /** The byte read behind the last option never matters. */
  lemma {:induction false} PastIsIgnored(s: seq<byte>, pos: nat, end: nat, maxmss: nat, big: bool, past: byte, past': byte)
    requires TCP_HEADER <= pos && end <= |s| && maxmss < WORD
    ensures Walk(s, pos, end, maxmss, big, past) == Walk(s, pos, end, maxmss, big, past')
    decreases end - pos
  {
    hide Visit;
    if pos + 1 < end && !Stops(s, pos, end, past) {
      PastIsIgnored(Visit(s, pos, end, maxmss, big), pos + Step(s, pos, past), end, maxmss, big, past, past');
    } else if pos + 1 == end {
      LastIsIdle(s, pos, maxmss, big);
    }
  }

  lemma LastIsIdle(s: seq<byte>, pos: nat, maxmss: nat, big: bool)
    requires TCP_HEADER <= pos < |s| && maxmss < WORD
    ensures Visit(s, pos, pos + 1, maxmss, big) == s
  {
  }

  /** With every value within the limit there is nothing to do. */
  lemma {:induction false} WalkIdle(s: seq<byte>, pos: nat, end: nat, maxmss: nat, big: bool, past: byte)
    requires TCP_HEADER <= pos && end <= |s| && maxmss < WORD
    requires forall p <- MssAt(s, pos, end, past) :: p + MAXSEG_LEN <= |s| && Be(s, p + 2) <= maxmss
    ensures Walk(s, pos, end, maxmss, big, past) == s
    decreases end - pos
  {
    hide Stops, Step, MssHere, Be, Rewrite;
    if pos < end && !Stops(s, pos, end, past) {
      StepForward(s, pos, end, past);
      MssAtSplit(s, pos, end, past);
      var rest := MssAt(s, pos + Step(s, pos, past), end, past);
      forall p | p in rest ensures p + MAXSEG_LEN <= |s| && Be(s, p + 2) <= maxmss {
        assert p in MssAt(s, pos, end, past);
      }
      WalkIdle(s, pos + Step(s, pos, past), end, maxmss, big, past);
    }
  }

  // ------------------------------------------------------------------ the checksum

  /** What a byte at i weighs in the word sum. */
  function Weight(i: nat, big: bool): nat {
    if (i % 2 == 0) == big then 256 else 1
  }

  lemma Weights(i: nat, big: bool)
    ensures Weight(i, big) == (if (i % 2 == 0) == big then 256 else 1) && Weight(i + 1, big) == (if (i % 2 == 0) == big then 1 else 256)
  {
  }

  lemma {:induction false} SumUpdate(s: seq<byte>, i: nat, v: byte, big: bool)
    requires i < |s|
    ensures WordSum(s[i := v], big) == WordSum(s, big) + (v as int - s[i] as int) * Weight(i, big)
  {
    if i >= 2 {
      assert s[i := v][2..] == s[2..][i - 2 := v];
      SumUpdate(s[2..], i - 2, v, big);
    } else if |s| >= 2 {
      assert s[i := v][2..] == s[2..];
    }
  }

  /** Writing a word at an even place changes the sum by the change of the word. */
  lemma PutEven(s: seq<byte>, i: nat, b0: byte, b1: byte, big: bool)
    requires i + 2 <= |s| && i % 2 == 0
    ensures WordSum(Put(s, i, b0, b1), big) == WordSum(s, big) + Word(b0, b1, big) - Raw(s, i, big)
  {
    hide WordSum, Weight;
    SumUpdate(s, i, b0, big);
    SumUpdate(s[i := b0], i + 1, b1, big);
    Weights(i, big);
  }

  /** At an odd place the bytes count the other way round. */
  lemma PutOdd(s: seq<byte>, i: nat, b0: byte, b1: byte, big: bool)
    requires i + 2 <= |s| && i % 2 == 1
    ensures WordSum(Put(s, i, b0, b1), big) == WordSum(s, big) + Word(b0, b1, !big) - Raw(s, i, !big)
  {
    hide WordSum, Weight;
    SumUpdate(s, i, b0, big);
    SumUpdate(s[i := b0], i + 1, b1, big);
    Weights(i, big);
  }

  /** Swapping the bytes of a word is multiplying by 256, modulo 0xffff. */
  lemma SwapIsShift(b0: byte, b1: byte, big: bool) returns (k: int)
    ensures Word(b0, b1, !big) == 256 * Word(b0, b1, big) + ONES * k
  {
    k := -((if big then b0 else b1) as int);
  }

  lemma PutRawEven(s: seq<byte>, i: nat, v: nat, big: bool)
    requires i + 2 <= |s| && i % 2 == 0 && v < WORD
    ensures WordSum(PutRaw(s, i, v, big), big) == WordSum(s, big) + v - Raw(s, i, big)
  {
    assert v / 256 * 256 + v % 256 == v;
    if big { PutEven(s, i, Hi(v), Lo(v), big); } else { PutEven(s, i, Lo(v), Hi(v), big); }
  }

  /** By how much rewriting the value at i changes the word the host reads there. */
  function Change(s: seq<byte>, i: nat, maxmss: nat, big: bool): int
    requires i + 2 <= |s| && maxmss < WORD
  {
    Word(Hi(maxmss), Lo(maxmss), big) - Raw(s, i, big)
  }

  /** A rewrite at an even place keeps the sum modulo 0xffff; at an odd place it is off by 255 times the change. */
  lemma RewriteSum(s: seq<byte>, i: nat, maxmss: nat, big: bool) returns (k: int)
    requires TCP_HEADER <= i && i + 2 <= |s| && maxmss < WORD
    ensures WordSum(Rewrite(s, i, maxmss, big), big)
            == WordSum(s, big) + (if i % 2 == 0 then 0 else 255 * Change(s, i, maxmss, big)) + ONES * k
  {
    hide WordSum, Adjust;
    var b0, b1 := Hi(maxmss), Lo(maxmss);
    var s' := Put(s, i, b0, b1);
    var acc := Raw(s, i, big) - Raw(s', i, big);
    var was := Raw(s', TCP_CHECK, big);
    k := AdjustIsModular(acc, was);
    PutRawEven(s', TCP_CHECK, Adjust(acc, was), big);
    if i % 2 == 0 {
      PutEven(s, i, b0, b1, big);
    } else {
      PutOdd(s, i, b0, b1, big);
      var k0 := SwapIsShift(b0, b1, big);
      var k1 := SwapIsShift(s[i], s[i + 1], big);
      k := k + k0 - k1;
    }
  }

  /** The summed change of the values the walk rewrites at odd places. */
  function OddChange(s: seq<byte>, pos: nat, end: nat, maxmss: nat, big: bool, past: byte): int
    requires TCP_HEADER <= pos && end <= |s| && maxmss < WORD
    decreases end - pos
  {
    if pos >= end || Stops(s, pos, end, past) then 0
    else
      (if MssHere(s, pos, end) && Be(s, pos + 2) > maxmss && pos % 2 == 1 then Change(s, pos + 2, maxmss, big) else 0)
      + OddChange(Visit(s, pos, end, maxmss, big), pos + Step(s, pos, past), end, maxmss, big, past)
  }

  lemma VisitSum(s: seq<byte>, pos: nat, end: nat, maxmss: nat, big: bool) returns (k: int)
    requires TCP_HEADER <= pos < end <= |s| && maxmss < WORD
    ensures WordSum(Visit(s, pos, end, maxmss, big), big)
            == WordSum(s, big) + ONES * k
               + 255 * (if MssHere(s, pos, end) && Be(s, pos + 2) > maxmss && pos % 2 == 1 then Change(s, pos + 2, maxmss, big) else 0)
  {
    hide WordSum, Change, Rewrite, Be;
    k := 0;
    if MssHere(s, pos, end) && Be(s, pos + 2) > maxmss {
      k := RewriteSum(s, pos + 2, maxmss, big);
    }
  }

  lemma {:induction false} WalkSum(s: seq<byte>, pos: nat, end: nat, maxmss: nat, big: bool, past: byte) returns (k: int)
    requires TCP_HEADER <= pos && end <= |s| && maxmss < WORD
    ensures WordSum(Walk(s, pos, end, maxmss, big, past), big)
            == WordSum(s, big) + 255 * OddChange(s, pos, end, maxmss, big, past) + ONES * k
    decreases end - pos
  {
    hide Stops, Step, Visit, WordSum, Change;
    k := 0;
    if pos < end && !Stops(s, pos, end, past) {
      StepForward(s, pos, end, past);
      var k0 := VisitSum(s, pos, end, maxmss, big);
      var k1 := WalkSum(Visit(s, pos, end, maxmss, big), pos + Step(s, pos, past), end, maxmss, big, past);
      k := k0 + k1;
    }
  }

  predicate AllEven(ps: seq<nat>) {
    forall p <- ps :: p % 2 == 0
  }

  lemma EvenParts(p: nat, ps: seq<nat>)
    ensures AllEven([p] + ps) ==> p % 2 == 0 && AllEven(ps)
  {
    if AllEven([p] + ps) {
      assert p in [p] + ps;
      forall q | q in ps ensures q % 2 == 0 {
        assert q in [p] + ps;
      }
    }
  }

  lemma {:induction false} EvenHasNoChange(s: seq<byte>, pos: nat, end: nat, maxmss: nat, big: bool, past: byte)
    requires TCP_HEADER <= pos && end <= |s| && maxmss < WORD && AllEven(MssAt(s, pos, end, past))
    ensures OddChange(s, pos, end, maxmss, big, past) == 0
    decreases end - pos
  {
    hide Stops, Step, Visit, MssHere, Be, Change, AllEven;
    if pos < end && !Stops(s, pos, end, past) {
      StepForward(s, pos, end, past);
      VisitAhead(s, pos, end, maxmss, big, past);
      var rest := MssAt(s, pos + Step(s, pos, past), end, past);
      assert MssAt(s, pos, end, past) == if MssHere(s, pos, end) then [pos] + rest else rest;
      EvenParts(pos, rest);
      EvenHasNoChange(Visit(s, pos, end, maxmss, big), pos + Step(s, pos, past), end, maxmss, big, past);
    }
  }

  // ------------------------------------------------------------------ the whole segment

  /** The MSS options of a segment that Fixup looks at. */
  function Options(s: seq<byte>, past: byte): seq<nat>
    requires TCP_HEADER <= |s|
  {
    var hlen := Doff(s[TCP_DOFF]);
    if hlen <= TCP_HEADER || hlen > |s| then [] else MssAt(s, TCP_HEADER, hlen, past)
  }

  /** Fixup leaves every MSS option it reaches at most maxmss and touches nothing but MSS values and the checksum. */
  lemma FixupClamps(s: seq<byte>, maxmss: nat, big: bool, past: byte)
    requires TCP_HEADER <= |s| && maxmss < WORD
    ensures var r := Fixup(s, maxmss, big, past);
            && (forall p <- Options(s, past) :: p + MAXSEG_LEN <= |s| && Be(r, p + 2) == MinInt(Be(s, p + 2), maxmss))
            && (forall i | 0 <= i < |s| && i != TCP_CHECK && i != TCP_CHECK + 1 ::
                  (forall p <- Options(s, past) :: i != p + 2 && i != p + 3) ==> r[i] == s[i])
  {
    var hlen := Doff(s[TCP_DOFF]);
    if TCP_HEADER < hlen <= |s| {
      forall p | p in Options(s, past)
        ensures p + MAXSEG_LEN <= |s| && Be(Fixup(s, maxmss, big, past), p + 2) == MinInt(Be(s, p + 2), maxmss) {
        WalkClamps(s, TCP_HEADER, hlen, maxmss, big, past, p);
      }
      forall i | 0 <= i < |s| && i != TCP_CHECK && i != TCP_CHECK + 1 && forall p <- Options(s, past) :: i != p + 2 && i != p + 3
        ensures Fixup(s, maxmss, big, past)[i] == s[i] {
        WalkKeeps(s, TCP_HEADER, hlen, maxmss, big, past, i);
      }
    }
  }

  /** With every MSS value at an even offset the word sum is the same modulo 0xffff: a right checksum stays right. */
  lemma FixupKeepsSum(s: seq<byte>, maxmss: nat, big: bool, past: byte)
    requires TCP_HEADER <= |s| && maxmss < WORD && AllEven(Options(s, past))
    ensures (WordSum(Fixup(s, maxmss, big, past), big) - WordSum(s, big)) % ONES == 0
  {
    var hlen := Doff(s[TCP_DOFF]);
    if TCP_HEADER < hlen <= |s| {
      var k := WalkSum(s, TCP_HEADER, hlen, maxmss, big, past);
      EvenHasNoChange(s, TCP_HEADER, hlen, maxmss, big, past);
      OffBy255(0, k);
    }
  }

  lemma WalkKeepsSumIff(s: seq<byte>, pos: nat, end: nat, maxmss: nat, big: bool, past: byte)
    requires TCP_HEADER <= pos && end <= |s| && maxmss < WORD
    ensures (WordSum(Walk(s, pos, end, maxmss, big, past), big) - WordSum(s, big)) % ONES == 0
            <==> OddChange(s, pos, end, maxmss, big, past) % 257 == 0
  {
    var k := WalkSum(s, pos, end, maxmss, big, past);
    OffBy255(OddChange(s, pos, end, maxmss, big, past), k);
  }

  lemma ModShift(q: int, r: nat)
    requires r < ONES
    ensures (r + ONES * q) % ONES == r
  {
  }

  lemma OffBy255(d: int, k: int)
    ensures (255 * d + ONES * k) % ONES == 0 <==> d % 257 == 0
  {
    var q, r := d / 257, d % 257;
    assert d == 257 * q + r && 0 <= r < 257;
    assert 255 * d + ONES * k == 255 * r + ONES * (q + k);
    ModShift(q + k, 255 * r);
  }

  predicate Inside(s: seq<byte>, ps: seq<nat>, from: nat) {
    forall p <- ps :: from <= p && p + MAXSEG_LEN <= |s|
  }

  lemma InsideParts(s: seq<byte>, p: nat, ps: seq<nat>, from: nat)
    ensures Inside(s, [p] + ps, from) ==> Inside(s, ps, from)
    ensures from <= p && p + MAXSEG_LEN <= |s| && Inside(s, ps, from) ==> Inside(s, [p] + ps, from)
  {
    if Inside(s, [p] + ps, from) {
      forall q | q in ps ensures from <= q && q + MAXSEG_LEN <= |s| {
        assert q in [p] + ps;
      }
    }
  }

  /** The summed change of the values above the limit among the options at odd places, read off the segment. */
  function OddSum(s: seq<byte>, ps: seq<nat>, maxmss: nat, big: bool): int
    requires Inside(s, ps, 0) && maxmss < WORD
  {
    if ps == [] then 0
    else
      assert ps == [ps[0]] + ps[1..] && ps[0] in ps;
      InsideParts(s, ps[0], ps[1..], 0);
      (if Be(s, ps[0] + 2) > maxmss && ps[0] % 2 == 1 then Change(s, ps[0] + 2, maxmss, big) else 0) + OddSum(s, ps[1..], maxmss, big)
  }

  lemma {:induction false} OddSumSame(s: seq<byte>, s': seq<byte>, ps: seq<nat>, from: nat, maxmss: nat, big: bool)
    requires |s| == |s'| && Inside(s, ps, from) && Inside(s, ps, 0) && Inside(s', ps, 0) && maxmss < WORD
    requires forall i | from <= i < |s| :: s'[i] == s[i]
    ensures OddSum(s', ps, maxmss, big) == OddSum(s, ps, maxmss, big)
  {
    hide Change;
    if ps != [] {
      assert ps == [ps[0]] + ps[1..] && ps[0] in ps;
      InsideParts(s, ps[0], ps[1..], from);
      InsideParts(s, ps[0], ps[1..], 0);
      InsideParts(s', ps[0], ps[1..], 0);
      ChangeSame(s, s', ps[0] + 2, maxmss, big);
      OddSumSame(s, s', ps[1..], from, maxmss, big);
    }
  }

  lemma ChangeSame(s: seq<byte>, s': seq<byte>, i: nat, maxmss: nat, big: bool)
    requires i + 2 <= |s| == |s'| && s'[i] == s[i] && s'[i + 1] == s[i + 1] && maxmss < WORD
    ensures Change(s', i, maxmss, big) == Change(s, i, maxmss, big) && Be(s', i) == Be(s, i)
  {
  }

  lemma OptionsInside(s: seq<byte>, pos: nat, end: nat, past: byte)
    requires end <= |s|
    ensures Inside(s, MssAt(s, pos, end, past), pos) && Inside(s, MssAt(s, pos, end, past), 0)
  {
    forall p | p in MssAt(s, pos, end, past) ensures pos <= p && p + MAXSEG_LEN <= |s| {
      MssAtAhead(s, pos, end, past, p);
    }
  }

  lemma {:induction false} OddChangeIsSum(s: seq<byte>, pos: nat, end: nat, maxmss: nat, big: bool, past: byte)
    requires TCP_HEADER <= pos && end <= |s| && maxmss < WORD
    ensures Inside(s, MssAt(s, pos, end, past), 0)
    ensures OddChange(s, pos, end, maxmss, big, past) == OddSum(s, MssAt(s, pos, end, past), maxmss, big)
    decreases end - pos
  {
    hide Stops, Step, Visit, MssHere, Be, Change, Inside;
    OptionsInside(s, pos, end, past);
    if pos < end && !Stops(s, pos, end, past) {
      var next, s' := pos + Step(s, pos, past), Visit(s, pos, end, maxmss, big);
      var rest := MssAt(s, next, end, past);
      StepForward(s, pos, end, past);
      VisitAhead(s, pos, end, maxmss, big, past);
      VisitBytes(s, pos, end, maxmss, big);
      OptionsInside(s, next, end, past);
      OptionsInside(s', next, end, past);
      OddChangeIsSum(s', next, end, maxmss, big, past);
      OddSumSame(s, s', rest, next, maxmss, big);
      assert MssAt(s, pos, end, past) == if MssHere(s, pos, end) then [pos] + rest else rest;
      assert ([pos] + rest)[1..] == rest;
    }
  }

  /**
    In general the sum is kept exactly when 257 divides the summed change of the values at odd
    offsets; so a single lowered MSS value at an odd offset generally spoils the checksum.
  */
  lemma FixupKeepsSumIff(s: seq<byte>, maxmss: nat, big: bool, past: byte)
    requires TCP_HEADER <= |s| && maxmss < WORD
    ensures Inside(s, Options(s, past), 0)
    ensures (WordSum(Fixup(s, maxmss, big, past), big) - WordSum(s, big)) % ONES == 0
            <==> OddSum(s, Options(s, past), maxmss, big) % 257 == 0
  {
    hide WordSum, OddChange, Walk, MssAt, Be, Change;
    var hlen := Doff(s[TCP_DOFF]);
    if TCP_HEADER < hlen <= |s| {
      WalkKeepsSumIff(s, TCP_HEADER, hlen, maxmss, big, past);
      OddChangeIsSum(s, TCP_HEADER, hlen, maxmss, big, past);
    } else {
      assert OddSum(s, [], maxmss, big) == 0;
    }
  }

  /** A segment with one MSS option of 1460, at an odd offset behind a NOP. */
  function OddSegment(): seq<byte> {
    seq(12, _ => 0 as byte) + [0x70, 2, 0, 0, 0, 0, 0, 0] + [1, 2, 4, 5, 180, 0, 0, 0]
  }

  lemma OddSegmentTurns(s: seq<byte>)
    requires s == OddSegment()
    ensures |s| == 28 && Doff(s[TCP_DOFF]) == 28
    ensures !Stops(s, 20, 28, 0) && !MssHere(s, 20, 28) && Step(s, 20, 0) == 1
    ensures !Stops(s, 21, 28, 0) && MssHere(s, 21, 28) && Step(s, 21, 0) == 4 && Be(s, 23) == 1460
    ensures Stops(s, 25, 28, 0) && Stops(Visit(s, 21, 28, 1400, true), 25, 28, 0) && Visit(s, 20, 28, 1400, true) == s
  {
    assert s[20] == 1 && s[21] == 2 && s[22] == 4 && s[23] == 5 && s[24] == 180 && s[25] == 0;
    VisitBytes(s, 21, 28, 1400, true);
  }

  lemma OddSegmentChange(s: seq<byte>)
    requires s == OddSegment()
    ensures |s| == 28 && Options(s, 0) == [21] && OddChange(s, 20, 28, 1400, true, 0) == -60
  {
    hide Stops, MssHere, Step, Visit;
    OddSegmentTurns(s);
    var s' := Visit(s, 21, 28, 1400, true);
    assert OddChange(s', 25, 28, 1400, true, 0) == 0;
    assert OddChange(s, 21, 28, 1400, true, 0) == 1400 - 1460;
    assert MssAt(s, 25, 28, 0) == [];
    assert MssAt(s, 21, 28, 0) == [21];
  }

  /** Lowering it to 1400 breaks the sum. */
  lemma OddOffsetBreaks()
    ensures var s := OddSegment();
            Options(s, 0) == [21] && (WordSum(Fixup(s, 1400, true, 0), true) - WordSum(s, true)) % ONES != 0
  {
    hide Stops, MssHere, Step, Visit, Walk, WordSum, OddChange, MssAt;
    var s := OddSegment();
    OddSegmentTurns(s);
    OddSegmentChange(s);
    WalkKeepsSumIff(s, 20, 28, 1400, true, 0);
  }

  /** Doing it twice is doing it once. */
  lemma FixupTwice(s: seq<byte>, maxmss: nat, big: bool, past: byte)
    requires TCP_HEADER <= |s| && maxmss < WORD
    ensures Fixup(Fixup(s, maxmss, big, past), maxmss, big, past) == Fixup(s, maxmss, big, past)
  {
    var hlen := Doff(s[TCP_DOFF]);
    if TCP_HEADER < hlen <= |s| {
      var r := Walk(s, TCP_HEADER, hlen, maxmss, big, past);
      forall p | p in MssAt(s, TCP_HEADER, hlen, past) ensures TCP_DOFF != p + 2 && TCP_DOFF != p + 3 {
        MssAtAhead(s, TCP_HEADER, hlen, past, p);
      }
      WalkKeeps(s, TCP_HEADER, hlen, maxmss, big, past, TCP_DOFF);
      WalkSameOptions(s, TCP_HEADER, hlen, maxmss, big, past);
      forall p | p in MssAt(r, TCP_HEADER, hlen, past) ensures p + MAXSEG_LEN <= |r| && Be(r, p + 2) <= maxmss {
        WalkClamps(s, TCP_HEADER, hlen, maxmss, big, past, p);
      }
      WalkIdle(r, TCP_HEADER, hlen, maxmss, big, past);
    }
  }

  /** The rewritten segment has its MSS options where the original had them. */
  lemma {:induction false} WalkSameOptions(s: seq<byte>, pos: nat, end: nat, maxmss: nat, big: bool, past: byte)
    requires TCP_HEADER <= pos && end <= |s| && maxmss < WORD
    ensures MssAt(Walk(s, pos, end, maxmss, big, past), pos, end, past) == MssAt(s, pos, end, past)
    decreases end - pos
  {
    hide Stops, Step, MssHere, Visit;
    if pos < end && !Stops(s, pos, end, past) {
      SameHere(s, pos, end, maxmss, big, past);
      StepForward(s, pos, end, past);
      VisitAhead(s, pos, end, maxmss, big, past);
      WalkSameOptions(Visit(s, pos, end, maxmss, big), pos + Step(s, pos, past), end, maxmss, big, past);
    }
  }

  lemma SameHere(s: seq<byte>, pos: nat, end: nat, maxmss: nat, big: bool, past: byte)
    requires TCP_HEADER <= pos < end <= |s| && maxmss < WORD && !Stops(s, pos, end, past)
    ensures var r := Walk(s, pos, end, maxmss, big, past);
            && MssHere(r, pos, end) == MssHere(s, pos, end) && !Stops(r, pos, end, past)
            && Step(r, pos, past) == Step(s, pos, past)
  {
    StepForward(s, pos, end, past);
    VisitBytes(s, pos, end, maxmss, big);
    var s', next := Visit(s, pos, end, maxmss, big), pos + Step(s, pos, past);
    var r := Walk(s, pos, end, maxmss, big, past);
    hide Visit, Be;
    WalkBehind(s', next, end, maxmss, big, past, pos);
    assert r[pos] == s[pos];
    if pos + 1 < |s| {
      WalkBehind(s', next, end, maxmss, big, past, pos + 1);
      assert r[pos + 1] == s[pos + 1];
    }
  }

  // ------------------------------------------------------------------ which packets are looked at

  /** OPENVPN_IPH_GET_LEN. */
  function IpHlen(b: byte): nat {
    b as nat % 16 * 4
  }

  const IP_PROTOCOL := 9
  const PROTO_TCP: byte := 6
  const SYN: nat := 2

  /** A whole, unfragmented TCP packet with SYN set, as far as mss_fixup checks. */
  predicate IsSyn(pkt: seq<byte>) {
    && IP_HEADER <= |pkt|
    && pkt[IP_PROTOCOL] == PROTO_TCP
    && Be(pkt, 2) == |pkt|
    && Be(pkt, 6) % 0x2000 == 0
    && IpHlen(pkt[0]) + TCP_HEADER <= |pkt|
    && pkt[IpHlen(pkt[0]) + TCP_FLAGS] as nat / SYN % 2 == 1
  }

  /** mss_fixup; the limit is cut to 16 bits. */
  function FixPacket(pkt: seq<byte>, maxmss: int, big: bool, past: byte): (r: seq<byte>)
    ensures |r| == |pkt|
  {
    if !IsSyn(pkt) then pkt
    else
      var hlen := IpHlen(pkt[0]);
      pkt[..hlen] + Fixup(pkt[hlen..], maxmss % WORD, big, past)
  }

  /** The masks and shifts of the header macros on real bytes. */
  lemma MasksAreDivisions(b: bv8, w: bv16)
    ensures ((b & 0xF0) >> 2) == (b / 16) * 4 && ((b & 0x0F) << 2) == (b % 16) * 4
    ensures (b & 2 != 0) == (b / 2 % 2 == 1) && (w & 0x1fff == 0) == (w % 0x2000 == 0)
  {
  }
}
