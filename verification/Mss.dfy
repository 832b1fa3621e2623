/** mss.c in place: the option loop over a packet's bytes in the buffer that holds it. */
module Mss {
  import opened Buffers
  import opened MssModel

  /** The bytes a[at..at + n]. */
  ghost function Part(a: array<byte>, at: nat, n: nat): (s: seq<byte>)
    requires at + n <= a.Length
    reads a
    ensures |s| == n
  {
    a[at..at + n]
  }

  /** Only a[at..at + n] differs from what it was. */
  twostate predicate OnlyPart(a: array<byte>, at: nat, n: nat)
    requires at + n <= a.Length
    reads a
  {
    a[..at] == old(a[..at]) && a[at + n..] == old(a[at + n..])
  }

  /** *p = htons (v) or a raw store: two neighbouring bytes of the part. */
  method Store(a: array<byte>, at: nat, n: nat, i: nat, b0: byte, b1: byte)
    requires at + n <= a.Length && i + 2 <= n
    modifies a
    ensures Part(a, at, n) == Put(old(Part(a, at, n)), i, b0, b1) && OnlyPart(a, at, n)
  {
    a[at + i] := b0;
    a[at + i + 1] := b1;
  }

  method StoreRaw(a: array<byte>, at: nat, n: nat, i: nat, v: nat, big: bool)
    requires at + n <= a.Length && i + 2 <= n && v < WORD
    modifies a
    ensures Part(a, at, n) == PutRaw(old(Part(a, at, n)), i, v, big) && OnlyPart(a, at, n)
  {
    if big {
      Store(a, at, n, i, Hi(v), Lo(v));
    } else {
      Store(a, at, n, i, Lo(v), Hi(v));
    }
  }

  /** ADJUST_CHECKSUM. */
  method AdjustChecksum(change: int, cksum: nat) returns (c: nat)
    requires -WORD < change < WORD && cksum < WORD
    ensures c == Adjust(change, cksum)
  {
    var acc := change + cksum;
    if acc < 0 {
      acc := -acc;
      acc := acc / WORD + acc % WORD;
      acc := acc + acc / WORD;
      c := ONES - acc % WORD;
    } else {
      acc := acc / WORD + acc % WORD;
      acc := acc + acc / WORD;
      c := acc % WORD;
    }
  }

  /** The innermost block of the loop: the limit goes in, the checksum follows. */
  method Lower(a: array<byte>, at: nat, n: nat, i: nat, maxmss: nat, big: bool)
    requires at + n <= a.Length && TCP_HEADER <= i && i + 2 <= n && maxmss < WORD
    modifies a
    ensures Part(a, at, n) == Rewrite(old(Part(a, at, n)), i, maxmss, big) && OnlyPart(a, at, n)
  {
    hide Adjust;
    var accumulate := Word(a[at + i], a[at + i + 1], big) as int;
    Store(a, at, n, i, Hi(maxmss), Lo(maxmss));
    accumulate := accumulate - Word(a[at + i], a[at + i + 1], big);
    var check := AdjustChecksum(accumulate, Word(a[at + TCP_CHECK], a[at + TCP_CHECK + 1], big));
    StoreRaw(a, at, n, TCP_CHECK, check, big);
  }

  /** The body of the loop: at opt, with the option area ending at hlen. */
  method Turn(a: array<byte>, at: nat, n: nat, opt: nat, hlen: nat, maxmss: nat, big: bool, past: byte)
    returns (stop: bool, optlen: nat)
    requires at + n <= a.Length && TCP_HEADER <= opt < hlen <= n && maxmss < WORD
    modifies a
    ensures OnlyPart(a, at, n) && stop == Stops(old(Part(a, at, n)), opt, hlen, past)
    ensures Part(a, at, n) == if stop then old(Part(a, at, n)) else Visit(old(Part(a, at, n)), opt, hlen, maxmss, big)
    ensures !stop ==> optlen == Step(old(Part(a, at, n)), opt, past)
  {
    hide Rewrite;
    ghost var s := Part(a, at, n);
    assert s[opt] == a[at + opt] && (opt + 1 < n ==> s[opt + 1] == a[at + opt + 1]);
    stop, optlen := false, 1;
    if a[at + opt] == EOL {
      stop := true;
    } else if a[at + opt] != NOP {
      optlen := (if opt + 1 < n then a[at + opt + 1] else past) as nat;
      if optlen == 0 || optlen > hlen - opt {
        stop := true;
      } else if a[at + opt] == MAXSEG && optlen == MAXSEG_LEN {
        assert s[opt + 2] == a[at + opt + 2] && s[opt + 3] == a[at + opt + 3];
        if a[at + opt + 2] as nat * 256 + a[at + opt + 3] as nat > maxmss {
          Lower(a, at, n, opt + 2, maxmss, big);
        }
      }
    }
  }

  /** mss_fixup_dowork on the n bytes at a[at]; `past` is what a read one byte behind the array finds. */
  method MssFixupDowork(a: array<byte>, at: nat, n: nat, maxmss: nat, big: bool, past: byte)
    requires at + n <= a.Length && TCP_HEADER <= n && maxmss < WORD
    modifies a
    ensures Part(a, at, n) == Fixup(old(Part(a, at, n)), maxmss, big, past) && OnlyPart(a, at, n)
  {
    hide Walk, Stops, Step, Visit;
    var hlen := Doff(a[at + TCP_DOFF]);
    if hlen <= TCP_HEADER || hlen > n {
      return;
    }
    ghost var end := Fixup(Part(a, at, n), maxmss, big, past);
    var opt := TCP_HEADER;
    while opt < hlen
      invariant TCP_HEADER <= opt <= hlen
      invariant Walk(Part(a, at, n), opt, hlen, maxmss, big, past) == end && OnlyPart(a, at, n)
    {
      WalkTurn(Part(a, at, n), opt, hlen, maxmss, big, past);
      var stop, optlen := Turn(a, at, n, opt, hlen, maxmss, big, past);
      if stop {
        return;
      }
      opt := opt + optlen;
    }
    WalkDone(Part(a, at, n), hlen, maxmss, big, past);
  }

  lemma WalkDone(s: seq<byte>, end: nat, maxmss: nat, big: bool, past: byte)
    requires TCP_HEADER <= end <= |s| && maxmss < WORD
    ensures Walk(s, end, end, maxmss, big, past) == s
  {
  }

  lemma WalkTurn(s: seq<byte>, pos: nat, end: nat, maxmss: nat, big: bool, past: byte)
    requires TCP_HEADER <= pos < end <= |s| && maxmss < WORD
    ensures Walk(s, pos, end, maxmss, big, past)
            == if Stops(s, pos, end, past) then s
               else Walk(Visit(s, pos, end, maxmss, big), pos + Step(s, pos, past), end, maxmss, big, past)
    ensures !Stops(s, pos, end, past) ==> 0 < Step(s, pos, past) <= end - pos
  {
  }

  /** Changing only the tail of a part changes only the part, and keeps its head. */
  lemma TailOfPart(s: seq<byte>, s': seq<byte>, at: nat, hlen: nat, n: nat)
    requires hlen <= n && at + n <= |s| == |s'|
    requires s'[..at + hlen] == s[..at + hlen] && s'[at + n..] == s[at + n..]
    ensures s'[at..at + n] == s[at..at + n][..hlen] + s'[at + hlen..at + n]
    ensures s'[..at] == s[..at]
  {
    forall i | 0 <= i < at + hlen ensures s'[i] == s[i] {
      assert s'[i] == s'[..at + hlen][i];
    }
  }

  /** newbuf: the same bytes without the IP header. */
  method FixInner(a: array<byte>, at: nat, n: nat, hlen: nat, maxmss: nat, big: bool, past: byte)
    requires at + n <= a.Length && hlen + TCP_HEADER <= n && maxmss < WORD
    modifies a
    ensures Part(a, at, n) == var pkt := old(Part(a, at, n)); pkt[..hlen] + Fixup(pkt[hlen..], maxmss, big, past)
    ensures OnlyPart(a, at, n)
  {
    hide Fixup;
    ghost var was := a[..];
    assert Part(a, at, n)[hlen..] == Part(a, at + hlen, n - hlen);
    MssFixupDowork(a, at + hlen, n - hlen, maxmss, big, past);
    TailOfPart(was, a[..], at, hlen, n);
    assert a[..][at..at + n] == Part(a, at, n) && a[..][at + hlen..at + n] == Part(a, at + hlen, n - hlen);
    assert was[at..at + n] == old(Part(a, at, n));
  }

  /** The header checks of mss_fixup and the SYN test. */
  method IsSynPacket(a: array<byte>, at: nat, n: nat) returns (ok: bool)
    requires at + n <= a.Length
    ensures ok == IsSyn(Part(a, at, n))
  {
    if n < IP_HEADER {
      return false;
    }
    ghost var pkt := Part(a, at, n);
    assert forall i | 0 <= i < n :: pkt[i] == a[at + i];
    var hlen := IpHlen(a[at]);
    var totLen := a[at + 2] as nat * 256 + a[at + 3] as nat;
    var fragOff := a[at + 6] as nat * 256 + a[at + 7] as nat;
    assert totLen == Be(pkt, 2) && fragOff == Be(pkt, 6);
    if a[at + IP_PROTOCOL] == PROTO_TCP && totLen == n && fragOff % 0x2000 == 0 && hlen <= n && n - hlen >= TCP_HEADER {
      return a[at + hlen + TCP_FLAGS] as nat / SYN % 2 == 1;
    }
    return false;
  }

  /** mss_fixup on the packet of n bytes at a[at]. */
  method MssFixup(a: array<byte>, at: nat, n: nat, maxmss: int, big: bool, past: byte)
    requires at + n <= a.Length
    modifies a
    ensures Part(a, at, n) == FixPacket(old(Part(a, at, n)), maxmss, big, past) && OnlyPart(a, at, n)
  {
    hide Fixup, IpHlen, Be;
    var ok := IsSynPacket(a, at, n);
    if ok {
      FixInner(a, at, n, IpHlen(a[at]), maxmss % WORD, big, past);
    }
  }
}
