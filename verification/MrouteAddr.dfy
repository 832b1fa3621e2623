/** struct mroute_addr as bytes: the comparison and the hash key, and the addresses of the model they carry. */
module MrouteAddrs {
  import opened Buffers
  import opened RouteModel

  const MR_MAX_ADDR_LEN := 20
  const MR_ADDR_ETHER: byte := 1
  const MR_ADDR_IPV4: byte := 2
  const MR_WITH_NETBITS: byte := 8

  datatype MrouteAddr = MrouteAddr(len: byte, kind: byte, netbits: byte, addr: seq<byte>)

  predicate Valid(a: MrouteAddr) {
    a.len as int <= MR_MAX_ADDR_LEN == |a.addr|
  }

  /** mroute_addr_equal. */
  predicate Equal(a: MrouteAddr, b: MrouteAddr)
    requires Valid(a) && Valid(b)
  {
    if a.kind != b.kind then false
    else if a.netbits != b.netbits then false
    else if a.len != b.len then false
    else a.addr[..a.len as int] == b.addr[..a.len as int]
  }

  /** The len + 2 bytes at &a->type that are hashed; len itself is not among them. */
  function HashKey(a: MrouteAddr): seq<byte>
    requires Valid(a)
  {
    [a.kind, a.netbits] + a.addr[..a.len as int]
  }

  /** Addresses are equal exactly when their hash keys are, so equal addresses hash alike. */
  lemma EqualIffSameKey(a: MrouteAddr, b: MrouteAddr)
    requires Valid(a) && Valid(b)
    ensures Equal(a, b) <==> HashKey(a) == HashKey(b)
  {
    if HashKey(a) == HashKey(b) {
      assert HashKey(a)[0] == a.kind && HashKey(a)[1] == a.netbits && |HashKey(a)| == 2 + a.len as int;
      assert HashKey(a)[2..] == a.addr[..a.len as int] && HashKey(b)[2..] == b.addr[..b.len as int];
    }
  }

  /** Six bytes of a MAC address. */
  function U48(n: nat): (s: seq<byte>)
    requires n < MAC_LIMIT
    ensures |s| == 6
  {
    [(n / 0x1_0000_0000 / 0x100) as byte, (n / 0x1_0000_0000 % 0x100) as byte] + U32(n % 0x1_0000_0000)
  }

  /** The bytes of an address, with anything after its length. */
  predicate Carries(a: MrouteAddr, addr: Addr)
    requires AddrOk(addr)
  {
    && Valid(a)
    && match addr
       case Ip(n) => a.kind == MR_ADDR_IPV4 && a.netbits == 0 && a.len == 4 && a.addr[..4] == U32(n)
       case Ether(n) => a.kind == MR_ADDR_ETHER && a.netbits == 0 && a.len == 6 && a.addr[..6] == U48(n)
       case Net(n, bits) =>
         a.kind == MR_ADDR_IPV4 + MR_WITH_NETBITS && a.netbits as int == bits && a.len == 4 && a.addr[..4] == U32(n)
  }

  lemma U48Injective(n: nat, m: nat)
    requires n < MAC_LIMIT && m < MAC_LIMIT && U48(n) == U48(m)
    ensures n == m
  {
    assert U48(n)[2..] == U32(n % 0x1_0000_0000) && U48(m)[2..] == U32(m % 0x1_0000_0000);
    assert U48(n)[0] == U48(m)[0] && U48(n)[1] == U48(m)[1];
    U32RoundTrip(n % 0x1_0000_0000);
    U32RoundTrip(m % 0x1_0000_0000);
  }

  /** Two addresses are one exactly when their bytes compare equal, whatever lies after the length. */
  lemma EqualIffSameAddr(a: MrouteAddr, b: MrouteAddr, x: Addr, y: Addr)
    requires AddrOk(x) && AddrOk(y) && Carries(a, x) && Carries(b, y)
    ensures Equal(a, b) <==> x == y
  {
    if Equal(a, b) {
      match x
      case Ip(n) => U32RoundTrip(n); U32RoundTrip(y.a);
      case Ether(n) => U48Injective(n, y.mac);
      case Net(n, bits) => U32RoundTrip(n); U32RoundTrip(y.a);
    }
  }

  lemma U32Ends(n: nat)
    requires n < ADDR_LIMIT
    ensures (forall i | 0 <= i < 4 :: U32(n)[i] == 0) <==> n == 0
    ensures (forall i | 0 <= i < 4 :: U32(n)[i] == 0xff) <==> n == ADDR_LIMIT - 1
  {
    U32RoundTrip(n);
    var s := U32(n);
    assert FromU32(s) == n;
    assert s[0] == s[1] == s[2] == s[3] == 0 ==> n == 0;
    assert s[0] == s[1] == s[2] == s[3] == 0xff ==> n == ADDR_LIMIT - 1;
  }

  lemma U48Ends(n: nat)
    requires n < MAC_LIMIT
    ensures (forall i | 0 <= i < 6 :: U48(n)[i] == 0) <==> n == 0
    ensures (forall i | 0 <= i < 6 :: U48(n)[i] == 0xff) <==> n == MAC_LIMIT - 1
    ensures U48(n)[0] as int == n / 0x100_0000_0000
  {
    var high, low := n / 0x1_0000_0000, n % 0x1_0000_0000;
    U32Ends(low);
    var s := U48(n);
    assert s[0] as int == high / 0x100 && s[1] as int == high % 0x100 && s[2..] == U32(low);
    assert forall i | 0 <= i < 4 :: s[i + 2] == U32(low)[i];
    assert (s[2] == s[3] == s[4] == s[5] == 0) == (low == 0);
    assert (s[2] == s[3] == s[4] == s[5] == 0xff) == (low == ADDR_LIMIT - 1);
  }

  /** mroute_learnable_address. */
  method LearnableAddress(a: MrouteAddr, ghost addr: Addr) returns (ok: bool)
    requires AddrOk(addr) && Carries(a, addr)
    ensures ok == Learnable(addr)
  {
    var notAllZeros, notAllOnes := false, false;
    for i := 0 to a.len as int
      invariant notAllZeros <==> exists k :: 0 <= k < i && a.addr[k] != 0x00
      invariant notAllOnes <==> exists k :: 0 <= k < i && a.addr[k] != 0xff
    {
      var b := a.addr[i];
      if b != 0x00 {
        notAllZeros := true;
      }
      if b != 0xff {
        notAllOnes := true;
      }
    }
    ghost var bytes := a.addr[..a.len as int];
    assert forall k | 0 <= k < |bytes| :: bytes[k] == a.addr[k];
    match addr {
      case Ip(n) => U32Ends(n);
      case Ether(n) => U48Ends(n);
      case Net(n, bits) => U32Ends(n);
    }
    ok := notAllZeros && notAllOnes && !(a.kind % 4 == MR_ADDR_ETHER && a.addr[0] % 2 == 1);
  }
}
