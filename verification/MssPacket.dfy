/**
  Lowering the MSS of whole packets (mss.c): which packets are touched, told by their bytes, and what
  becomes of a list of TCP options.
*/
module MssPacket {
  import opened Buffers
  import opened IntegerOps
  import opened MssModel

  // ------------------------------------------------------------------ which packets

  /**
    A whole TCP packet, not a later fragment, that is as long as its header says, holds a TCP
    header and has SYN, bit 1 of the flags.
  */
  predicate SynPacket(pkt: seq<byte>) {
    && |pkt| >= 20 && pkt[9] == 6
    && pkt[2] as nat * 256 + pkt[3] as nat == |pkt|
    && pkt[6] % 32 == 0 && pkt[7] == 0
    && var h := pkt[0] as nat % 16 * 4;
       h + 20 <= |pkt| && pkt[h + 13] % 4 >= 2
  }

  lemma SynPacketIsSyn(pkt: seq<byte>)
    ensures SynPacket(pkt) <==> IsSyn(pkt)
  {
    if |pkt| >= 20 {
      var high, low := pkt[6] as nat, pkt[7] as nat;
      assert (high * 256 + low) % 0x2000 == high % 32 * 256 + low by {
        Below(high / 32, high % 32 * 256 + low, 0x2000);
      }
    }
  }

  /** Byte j is one of the two of an MSS value. */
  predicate InValue(places: seq<nat>, j: int) {
    exists p <- places :: j == p + 2 || j == p + 3
  }

  lemma SameWord(s: seq<byte>, tail: seq<byte>, h: nat, i: nat)
    requires h <= |s| && tail == s[h..] && i + 2 <= |tail|
    ensures Be(s, h + i) == Be(tail, i)
  {
  }

  /** What a rewrite of the bytes from h on leaves of a claim about them. */
  lemma Behind(pkt: seq<byte>, h: nat, f: seq<byte>, places: seq<nat>, limit: nat)
    requires h <= |pkt| && |f| == |pkt| - h
    requires forall p <- places :: p + 4 <= |f| && Be(f, p + 2) == MinInt(Be(pkt[h..], p + 2), limit)
    requires forall j | 0 <= j < |f| && j != 16 && j != 17 && !InValue(places, j) :: f[j] == pkt[h..][j]
    ensures var r := pkt[..h] + f;
            && (forall p <- places :: h + p + 4 <= |pkt| && Be(r, h + p + 2) == MinInt(Be(pkt, h + p + 2), limit))
            && (forall i | h <= i < |pkt| && i != h + 16 && i != h + 17 && !InValue(places, i - h) :: r[i] == pkt[i])
  {
    hide Be, InValue;
    var r, tail := pkt[..h] + f, pkt[h..];
    assert r[h..] == f;
    forall p | p in places ensures h + p + 4 <= |pkt| && Be(r, h + p + 2) == MinInt(Be(pkt, h + p + 2), limit) {
      SameWord(r, f, h, p + 2);
      SameWord(pkt, tail, h, p + 2);
    }
    forall i | h <= i < |pkt| && i != h + 16 && i != h + 17 && !InValue(places, i - h) ensures r[i] == pkt[i] {
      assert r[i] == f[i - h] && pkt[i] == tail[i - h];
    }
  }

  lemma OutsideValues(s: seq<byte>, maxmss: nat, big: bool, past: byte, j: nat)
    requires |s| >= 20 && maxmss < 0x1_0000 && j < |s| && j != 16 && j != 17 && !InValue(Options(s, past), j)
    ensures Fixup(s, maxmss, big, past)[j] == s[j]
  {
    hide Fixup, Options, Be;
    FixupClamps(s, maxmss, big, past);
  }

  /** Only a SYN packet changes, in its MSS values and its TCP checksum, and every MSS value ends within the limit. */
  lemma PacketClamps(pkt: seq<byte>, maxmss: int, big: bool, past: byte)
    ensures var r, limit := FixPacket(pkt, maxmss, big, past), maxmss % 0x1_0000;
            && |r| == |pkt|
            && (!SynPacket(pkt) ==> r == pkt)
            && (SynPacket(pkt) ==>
                  var h := pkt[0] as nat % 16 * 4;
                  && r[..h] == pkt[..h]
                  && (forall p <- Options(pkt[h..], past) ::
                        h + p + 4 <= |pkt| && Be(r, h + p + 2) == MinInt(Be(pkt, h + p + 2), limit))
                  && (forall i | h <= i < |pkt| && i != h + 16 && i != h + 17 && !InValue(Options(pkt[h..], past), i - h) ::
                        r[i] == pkt[i]))
  {
    hide Fixup, Options, Be, IsSyn, InValue;
    SynPacketIsSyn(pkt);
    if SynPacket(pkt) {
      var h, limit := pkt[0] as nat % 16 * 4, maxmss % 0x1_0000;
      var s := pkt[h..];
      FixupClamps(s, limit, big, past);
      forall j | 0 <= j < |s| && j != 16 && j != 17 && !InValue(Options(s, past), j)
        ensures Fixup(s, limit, big, past)[j] == s[j]
      {
        OutsideValues(s, limit, big, past, j);
      }
      Behind(pkt, h, Fixup(s, limit, big, past), Options(s, past), limit);
    }
  }

  /** With its MSS values at even offsets a SYN packet keeps the word sum of its TCP segment, so its checksum stays right. */
  lemma PacketKeepsSum(pkt: seq<byte>, maxmss: int, big: bool, past: byte)
    requires SynPacket(pkt) && AllEven(Options(pkt[pkt[0] as nat % 16 * 4..], past))
    ensures var h := pkt[0] as nat % 16 * 4;
            (WordSum(FixPacket(pkt, maxmss, big, past)[h..], big) - WordSum(pkt[h..], big)) % ONES == 0
  {
    hide Fixup, WordSum, Options;
    SynPacketIsSyn(pkt);
    var h := pkt[0] as nat % 16 * 4;
    FixupKeepsSum(pkt[h..], maxmss % 0x1_0000, big, past);
    assert FixPacket(pkt, maxmss, big, past)[h..] == Fixup(pkt[h..], maxmss % 0x1_0000, big, past);
  }

  // ------------------------------------------------------------------ lists of options

  /** TCP options as a sender writes them; Other is any kind but 0 and 1, with a length byte of its own. */
  datatype TcpOption = Nop | Mss(value: nat) | Other(kind: byte, body: seq<byte>)

  /** An option of kind 2 and length 4 is an MSS. */
  predicate OptionOk(o: TcpOption) {
    match o
    case Nop => true
    case Mss(value) => value < 0x1_0000
    case Other(kind, body) => kind > 1 && |body| + 2 < 256 && (kind == 2 ==> |body| != 2)
  }

  function OptionBytes(o: TcpOption): (b: seq<byte>)
    requires OptionOk(o)
    ensures 1 <= |b| && (o.Mss? ==> |b| == 4)
  {
    match o
    case Nop => [1]
    case Mss(value) => [2, 4, (value / 256) as byte, (value % 256) as byte]
    case Other(kind, body) => [kind, (|body| + 2) as byte] + body
  }

  predicate AllOk(os: seq<TcpOption>) {
    forall i | 0 <= i < |os| :: OptionOk(os[i])
  }

  function Written(os: seq<TcpOption>): seq<byte>
    requires AllOk(os)
  {
    if os == [] then [] else OptionBytes(os[0]) + Written(os[1..])
  }

  /** Where the MSS options of a list start. */
  function Places(os: seq<TcpOption>, pos: nat): seq<nat>
    requires AllOk(os)
    decreases |os|
  {
    if os == [] then []
    else (if os[0].Mss? then [pos] else []) + Places(os[1..], pos + |OptionBytes(os[0])|)
  }

  function Clamped(os: seq<TcpOption>, limit: nat): (r: seq<TcpOption>)
    requires AllOk(os)
    ensures AllOk(r)
  {
    if os == [] then []
    else [if os[0].Mss? && os[0].value > limit then Mss(limit) else os[0]] + Clamped(os[1..], limit)
  }

  /** Nothing follows the options, or the end mark, or an option whose length is zero or leads out of the header. */
  predicate Ends(s: seq<byte>, pos: nat, end: nat)
    requires pos <= end <= |s|
  {
    || pos == end || s[pos] == 0
    || (s[pos] != 1 && pos + 1 < end && (s[pos + 1] == 0 || pos + s[pos + 1] as nat > end))
  }

  lemma OneOption(s: seq<byte>, pos: nat, end: nat, o: TcpOption, past: byte)
    requires OptionOk(o) && pos + |OptionBytes(o)| <= end <= |s|
    requires s[pos..pos + |OptionBytes(o)|] == OptionBytes(o)
    ensures !Stops(s, pos, end, past) && Step(s, pos, past) == |OptionBytes(o)|
    ensures MssHere(s, pos, end) <==> o.Mss?
    ensures o.Mss? ==> Be(s, pos + 2) == o.value
  {
    var b := OptionBytes(o);
    assert forall i | pos <= i < pos + |b| :: s[i] == b[i - pos];
    assert s[pos] == b[0];
    if !o.Nop? {
      assert s[pos + 1] == b[1];
    }
    if o.Mss? {
      assert s[pos + 2] == b[2] && s[pos + 3] == b[3];
    }
  }

  lemma TwoParts(s: seq<byte>, pos: nat, b: seq<byte>, w: seq<byte>)
    requires pos + |b| + |w| <= |s| && s[pos..pos + |b| + |w|] == b + w
    ensures s[pos..pos + |b|] == b && s[pos + |b|..pos + |b| + |w|] == w
  {
    var all := s[pos..pos + |b| + |w|];
    assert s[pos..pos + |b|] == all[..|b|] && s[pos + |b|..pos + |b| + |w|] == all[|b|..];
  }

  lemma FirstWritten(s: seq<byte>, pos: nat, os: seq<TcpOption>)
    requires AllOk(os) && os != [] && pos + |Written(os)| <= |s| && s[pos..pos + |Written(os)|] == Written(os)
    ensures var n, m := |OptionBytes(os[0])|, |Written(os[1..])|;
            && |Written(os)| == n + m
            && s[pos..pos + n] == OptionBytes(os[0])
            && s[pos + n..pos + n + m] == Written(os[1..])
  {
    hide OptionBytes;
    TwoParts(s, pos, OptionBytes(os[0]), Written(os[1..]));
  }

  lemma EndStops(s: seq<byte>, pos: nat, end: nat, past: byte)
    requires pos <= end <= |s| && Ends(s, pos, end)
    ensures pos == end || Stops(s, pos, end, past)
  {
  }

  /** The walk finds the MSS options of a written list where they are, and no others. */
  lemma {:induction false} WalkReadsOptions(s: seq<byte>, pos: nat, end: nat, os: seq<TcpOption>, past: byte)
    requires AllOk(os) && pos + |Written(os)| <= end <= |s|
    requires s[pos..pos + |Written(os)|] == Written(os) && Ends(s, pos + |Written(os)|, end)
    ensures MssAt(s, pos, end, past) == Places(os, pos)
    decreases |os|
  {
    hide Stops, Step, MssHere, OptionBytes, Ends;
    if os == [] {
      EndStops(s, pos, end, past);
    } else {
      FirstWritten(s, pos, os);
      OneOption(s, pos, end, os[0], past);
      WalkReadsOptions(s, pos + |OptionBytes(os[0])|, end, os[1..], past);
    }
  }

  /** A place is that of one of the list's MSS options, and lies within the bytes written. */
  lemma {:induction false} PlacesInside(os: seq<TcpOption>, pos: nat, p: nat)
    requires AllOk(os) && p in Places(os, pos)
    ensures pos <= p && p + 4 <= pos + |Written(os)|
    decreases |os|
  {
    if !(os[0].Mss? && p == pos) {
      PlacesInside(os[1..], pos + |OptionBytes(os[0])|, p);
    }
  }

  /** Apart from the values at these places nothing between two bounds differs, and those are lowered. */
  ghost predicate Lowered(s: seq<byte>, r: seq<byte>, lo: nat, hi: nat, places: seq<nat>, limit: nat) {
    && |r| == |s| && hi <= |s|
    && (forall p <- places :: p + 4 <= |s| && Be(r, p + 2) == MinInt(Be(s, p + 2), limit))
    && (forall i | lo <= i < hi :: (forall p <- places :: i != p + 2 && i != p + 3) ==> r[i] == s[i])
  }

  lemma LoweredSplit(s: seq<byte>, r: seq<byte>, pos: nat, os: seq<TcpOption>, limit: nat)
    requires AllOk(os) && os != [] && Lowered(s, r, pos, pos + |Written(os)|, Places(os, pos), limit)
    ensures var n := |OptionBytes(os[0])|;
            && Lowered(s, r, pos, pos + n, if os[0].Mss? then [pos] else [], limit)
            && Lowered(s, r, pos + n, pos + |Written(os)|, Places(os[1..], pos + n), limit)
  {
    hide OptionBytes, Be;
    var n, rest := |OptionBytes(os[0])|, os[1..];
    var first, places := if os[0].Mss? then [pos] else [], Places(rest, pos + n);
    assert Places(os, pos) == first + places;
    assert forall p <- first :: p in Places(os, pos);
    forall p | p in places ensures p in Places(os, pos) && pos + n <= p {
      PlacesInside(rest, pos + n, p);
    }
  }

  lemma ClampedCons(os: seq<TcpOption>, limit: nat)
    requires AllOk(os) && os != [] && limit < 0x1_0000
    ensures var first := if os[0].Mss? && os[0].value > limit then Mss(limit) else os[0];
            OptionOk(first) && Written(Clamped(os, limit)) == OptionBytes(first) + Written(Clamped(os[1..], limit))
  {
    hide OptionBytes;
    assert Clamped(os, limit)[1..] == Clamped(os[1..], limit);
  }

  /** Lowering the values at their places and nothing else writes the clamped list. */
  lemma {:induction false} ClampedBytes(s: seq<byte>, r: seq<byte>, pos: nat, os: seq<TcpOption>, limit: nat)
    requires AllOk(os) && limit < 0x1_0000 && pos + |Written(os)| <= |s|
    requires s[pos..pos + |Written(os)|] == Written(os)
    requires Lowered(s, r, pos, pos + |Written(os)|, Places(os, pos), limit)
    ensures |r| == |s| && r[pos..pos + |Written(os)|] == Written(Clamped(os, limit))
    decreases |os|
  {
    hide OptionBytes, Lowered, Places, Be, OptionOk, Written, Clamped;
    LoweredSize(s, r, pos, pos + |Written(os)|, Places(os, pos), limit);
    if os == [] {
      NothingWritten(limit);
    } else {
      var n, m := |OptionBytes(os[0])|, |Written(os[1..])|;
      FirstWritten(s, pos, os);
      LoweredSplit(s, r, pos, os, limit);
      ClampedBytes(s, r, pos + n, os[1..], limit);
      ClampedFirst(s, r, pos, os[0], limit);
      ClampedCons(os, limit);
      assert r[pos..pos + n + m] == r[pos..pos + n] + r[pos + n..pos + n + m];
    }
  }

  lemma NothingWritten(limit: nat)
    ensures Written([]) == [] && Written(Clamped([], limit)) == []
  {
  }

  lemma LoweredSize(s: seq<byte>, r: seq<byte>, lo: nat, hi: nat, places: seq<nat>, limit: nat)
    requires Lowered(s, r, lo, hi, places, limit)
    ensures |r| == |s|
  {
  }

  lemma ClampedFirst(s: seq<byte>, r: seq<byte>, pos: nat, o: TcpOption, limit: nat)
    requires OptionOk(o) && limit < 0x1_0000 && pos + |OptionBytes(o)| <= |s|
    requires s[pos..pos + |OptionBytes(o)|] == OptionBytes(o)
    requires Lowered(s, r, pos, pos + |OptionBytes(o)|, if o.Mss? then [pos] else [], limit)
    ensures |r| == |s|
    ensures r[pos..pos + |OptionBytes(o)|] == OptionBytes(if o.Mss? && o.value > limit then Mss(limit) else o)
  {
    if o.Mss? {
      OneOption(s, pos, |s|, o, 0);
      OnlyValueLowered(s, r, pos, limit);
      MssBytes(s, r, pos, o.value, limit);
    } else {
      var n := |OptionBytes(o)|;
      assert r[pos..pos + n] == s[pos..pos + n] by {
        hide OptionBytes;
      }
    }
  }

  lemma OnlyValueLowered(s: seq<byte>, r: seq<byte>, pos: nat, limit: nat)
    requires Lowered(s, r, pos, pos + 4, [pos], limit)
    ensures r[pos] == s[pos] && r[pos + 1] == s[pos + 1] && Be(r, pos + 2) == MinInt(Be(s, pos + 2), limit)
  {
    hide Be;
    assert pos in [pos];
  }

  lemma MssBytes(s: seq<byte>, r: seq<byte>, pos: nat, value: nat, limit: nat)
    requires value < 0x1_0000 && limit < 0x1_0000 && pos + 4 <= |s| && |r| == |s|
    requires s[pos..pos + 4] == OptionBytes(Mss(value)) && r[pos] == s[pos] && r[pos + 1] == s[pos + 1]
    requires Be(r, pos + 2) == MinInt(value, limit)
    ensures r[pos..pos + 4] == OptionBytes(Mss(MinInt(value, limit)))
  {
    assert s[pos..pos + 4][0] == 2 && s[pos..pos + 4][1] == 4;
  }

  /** A segment whose option area is a written list comes out with the clamped list in its place and the rest of the area as it was. */
  lemma SegmentClamps(s: seq<byte>, os: seq<TcpOption>, limit: nat, big: bool, past: byte)
    requires AllOk(os) && limit < 0x1_0000 && |s| >= 20
    requires var end, n := s[12] as nat / 16 * 4, 20 + |Written(os)|;
             20 < end <= |s| && n <= end && s[20..n] == Written(os) && Ends(s, n, end)
    ensures var end, n := s[12] as nat / 16 * 4, 20 + |Written(os)|;
            var r := Fixup(s, limit, big, past);
            r[20..n] == Written(Clamped(os, limit)) && r[n..] == s[n..]
  {
    hide Fixup, MssAt, Written, Places, Clamped, Be;
    var end, n := s[12] as nat / 16 * 4, 20 + |Written(os)|;
    var r := Fixup(s, limit, big, past);
    WalkReadsOptions(s, 20, end, os, past);
    assert Options(s, past) == Places(os, 20);
    FixupClamps(s, limit, big, past);
    assert Lowered(s, r, 20, n, Places(os, 20), limit);
    ClampedBytes(s, r, 20, os, limit);
    forall i | n <= i < |s| ensures r[i] == s[i] {
      forall p | p in Options(s, past) ensures i != p + 2 && i != p + 3 {
        PlacesInside(os, 20, p);
      }
    }
    assert r[n..] == s[n..];
  }

  /** A 44-byte SYN that offers an MSS of 1460. */
  function SynExample(): seq<byte> {
    [0x45, 0, 0, 44, 0, 0, 0, 0, 64, 6] + seq(10, _ => 0 as byte)
    + seq(12, _ => 0 as byte) + [0x60, 2, 0, 0, 0, 0, 0, 0] + [2, 4, 5, 180]
  }

  lemma SynExampleBytes(pkt: seq<byte>)
    requires pkt == SynExample()
    ensures |pkt| == 44 && pkt[0] == 0x45 && pkt[32] == 0x60 && SynPacket(pkt) && pkt[40..] == [2, 4, 5, 180]
  {
    assert pkt[33] == 2;
  }

  /** It leaves offering 1400. */
  lemma LoweredSyn(big: bool, past: byte)
    ensures var r := FixPacket(SynExample(), 1400, big, past); |r| == 44 && r[40..] == [2, 4, 5, 120]
  {
    hide SynExample, SynPacket, IsSyn, Fixup, Ends, Written, OptionBytes, AllOk, Clamped;
    var pkt := SynExample();
    SynExampleBytes(pkt);
    SynPacketIsSyn(pkt);
    var s, os := pkt[20..], [Mss(1460)];
    OneMss(1460);
    OneMss(1400);
    assert s[20..24] == pkt[40..];
    AtEnd(s, 24);
    SegmentClamps(s, os, 1400, big, past);
    assert FixPacket(pkt, 1400, big, past) == pkt[..20] + Fixup(s, 1400, big, past);
  }

  lemma AtEnd(s: seq<byte>, end: nat)
    requires end <= |s|
    ensures Ends(s, end, end)
  {
  }

  lemma OneMss(value: nat)
    requires value < 0x1_0000
    ensures AllOk([Mss(value)]) && Written([Mss(value)]) == [2, 4, (value / 256) as byte, (value % 256) as byte]
    ensures Clamped([Mss(value)], 1400) == [if value > 1400 then Mss(1400) else Mss(value)]
  {
    assert [Mss(value)][1..] == [];
  }
}
