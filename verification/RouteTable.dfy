/**
  What a lookup means: longest-prefix match over the permanent routes of live clients.
  Cached host routes, stale routes and the list of lengths in use do not appear here.
*/
module RouteTable {
  import opened IntegerOps
  import opened Options
  import opened RouteModel

  /** Permanent routes only: who owns each virtual address or network. */
  type Table = map<Addr, nat>

  predicate Permanent(s: Server, k: Addr) {
    k in s.vhash && !s.vhash[k].cached && Live(s, s.vhash[k].owner)
  }

  function TableOf(s: Server): Table {
    map k | k in s.vhash && Permanent(s, k) :: s.vhash[k].owner
  }

  function Get(t: Table, k: Addr): Option<nat> {
    if k in t then Some(t[k]) else None
  }

  /** The longest network of fewer than n bits that the table routes for address a. */
  function Lpm(t: Table, a: nat, n: nat): Option<nat>
    requires n <= MR_HELPER_NET_LEN
  {
    if n == 0 then None
    else if Net(Mask(a, n - 1), n - 1) in t then Some(t[Net(Mask(a, n - 1), n - 1)])
    else Lpm(t, a, n - 1)
  }

  /** The host route if there is one, else the longest matching network. */
  function Answer(t: Table, addr: Addr): Option<nat> {
    if addr in t then Some(t[addr])
    else if addr.Ip? then Lpm(t, addr.a, MR_HELPER_NET_LEN)
    else None
  }

  // ------------------------------------------------------------------ longest match, by addresses

  /** The network p/bits contains address a. */
  predicate Covers(p: nat, bits: nat, a: nat)
    requires bits <= 32
  {
    p <= a < p + Pow2(32 - bits)
  }

  lemma MaskCovers(p: nat, bits: nat, a: nat)
    requires bits < MR_HELPER_NET_LEN && p == Mask(p, bits)
    ensures Covers(p, bits, a) <==> p == Mask(a, bits)
  {
    var d := Pow2(32 - bits);
    DivMod(a, d);
    DivMod(p, d);
    if Covers(p, bits, a) {
      Below(p / d, a - p, d);
    }
  }

  /** A network route of t that contains a. */
  predicate Matches(t: Table, k: Addr, a: nat) {
    k in t && k.Net? && k.bits < MR_HELPER_NET_LEN && Covers(k.a, k.bits, a)
  }

  predicate Longest(t: Table, k: Addr, a: nat) {
    Matches(t, k, a) && forall j <- t :: Matches(t, j, a) ==> j.bits <= k.bits
  }

  predicate WellKeyed(t: Table) {
    forall k <- t :: AddrOk(k)
  }

  lemma MatchIsMasked(t: Table, k: Addr, a: nat)
    requires WellKeyed(t) && k.Net?
    ensures Matches(t, k, a) <==> k in t && k.bits < MR_HELPER_NET_LEN && k.a == Mask(a, k.bits)
  {
    if k in t {
      assert AddrOk(k);
      MaskCovers(k.a, k.bits, a);
    }
  }

  lemma {:induction false} LpmBelow(t: Table, a: nat, n: nat)
    requires WellKeyed(t) && n <= MR_HELPER_NET_LEN
    ensures match Lpm(t, a, n)
            case None => forall k <- t :: Matches(t, k, a) ==> n <= k.bits
            case Some(o) => exists k :: Matches(t, k, a) && k.bits < n && t[k] == o
                                        && forall j <- t :: Matches(t, j, a) && j.bits < n ==> j.bits <= k.bits
  {
    if n > 0 {
      var here := Net(Mask(a, n - 1), n - 1);
      MatchIsMasked(t, here, a);
      if here in t {
        assert Matches(t, here, a);
      } else {
        LpmBelow(t, a, n - 1);
        forall k | k in t && Matches(t, k, a) ensures k.bits != n - 1 {
          MatchIsMasked(t, k, a);
        }
      }
    }
  }

  /** The rule of section 5.1 of RFC 4632: the answer is the owner of the longest network containing a. */
  lemma LpmIsLongest(t: Table, a: nat, o: nat)
    requires WellKeyed(t)
    ensures Lpm(t, a, MR_HELPER_NET_LEN) == Some(o) <==> exists k :: Longest(t, k, a) && t[k] == o
    ensures Lpm(t, a, MR_HELPER_NET_LEN) == None <==> !exists k :: Matches(t, k, a)
  {
    LpmBelow(t, a, MR_HELPER_NET_LEN);
    if k :| Longest(t, k, a) && t[k] == o {
      MatchIsMasked(t, k, a);
      var o' := Lpm(t, a, MR_HELPER_NET_LEN).value;
      var k' :| Longest(t, k', a) && t[k'] == o';
      MatchIsMasked(t, k', a);
    }
  }

  /** A host route added to the table changes no longest match. */
  lemma {:induction false} LpmIgnoresHosts(t: Table, k: Addr, o: nat, a: nat, n: nat)
    requires n <= MR_HELPER_NET_LEN && !k.Net?
    ensures Lpm(t[k := o], a, n) == Lpm(t, a, n)
  {
    if n > 0 {
      LpmIgnoresHosts(t, k, o, a, n - 1);
    }
  }

  /** Taking away one owner's routes leaves the longest matches that were another's. */
  lemma {:induction false} LpmWithout(t: Table, t': Table, gone: nat, a: nat, n: nat)
    requires n <= MR_HELPER_NET_LEN
    requires forall k :: k in t' <==> k in t && t[k] != gone
    requires forall k <- t' :: t'[k] == t[k]
    ensures Lpm(t, a, n) != Some(gone) ==> Lpm(t', a, n) == Lpm(t, a, n)
  {
    if n > 0 {
      LpmWithout(t, t', gone, a, n - 1);
    }
  }

  // ------------------------------------------------------------------ the lengths in use

  /** The list is exactly the lengths in use, in descending order. */
  lemma {:induction false} InUseExact(lenCount: seq<int>, n: nat)
    requires n <= |lenCount|
    ensures forall b :: b in InUse(lenCount, n) <==> 0 <= b < n && lenCount[b] > 0
    ensures forall i, j | 0 <= i < j < |InUse(lenCount, n)| :: InUse(lenCount, n)[i] > InUse(lenCount, n)[j]
  {
    if n > 0 {
      InUseExact(lenCount, n - 1);
    }
  }

  lemma {:induction false} InUseSame(lenCount: seq<int>, lenCount': seq<int>, n: nat)
    requires n <= |lenCount| == |lenCount'|
    requires forall b | 0 <= b < n :: lenCount[b] > 0 <==> lenCount'[b] > 0
    ensures InUse(lenCount', n) == InUse(lenCount, n)
  {
    if n > 0 {
      InUseSame(lenCount, lenCount', n - 1);
    }
  }

  // ------------------------------------------------------------------ the invariant

  /** How many of the iroutes are networks of n bits. */
  function Uses(irs: seq<Iroute>, n: nat): nat {
    if irs == [] then 0 else (if irs[0].netbits == n then 1 else 0) + Uses(irs[1..], n)
  }

  function Weight(insts: Insts, id: nat, n: nat): nat {
    if id in insts && insts[id].didIroutes then Uses(insts[id].iroutes, n) else 0
  }

  /** The iroutes of n bits registered by the first `ids` instances. */
  function Total(insts: Insts, n: nat, ids: nat): nat {
    if ids == 0 then 0 else Total(insts, n, ids - 1) + Weight(insts, ids - 1, n)
  }

  /** net_len_refcount counts registered iroutes: `add` are not yet counted, `del` are still counted. */
  ghost predicate LensOk(h: Helper, insts: Insts, nextId: nat, add: seq<Iroute>, del: seq<Iroute>) {
    && LensInRange(h)
    && h.netLens == InUse(h.lenCount, MR_HELPER_NET_LEN)
    && forall n: nat | n < MR_HELPER_NET_LEN ::
         h.lenCount[n] >= 0 && h.lenCount[n] + Uses(add, n) == Total(insts, n, nextId) + Uses(del, n)
  }

  predicate InstOk(i: Inst) {
    (i.halt ==> !i.didIroutes) && IroutesOk(i.iroutes)
  }

  predicate InstsOk(insts: Insts) {
    forall id <- insts :: InstOk(insts[id])
  }

  /** A cached route is a host's; a live network route is one of its owner's registered iroutes. */
  predicate RouteOk(s: Server, k: Addr)
    requires k in s.vhash
  {
    var r := s.vhash[k];
    && AddrOk(k)
    && (r.cached ==> k.Ip? && r.gen <= s.helper.gen && (Live(s, r.owner) ==> s.insts[r.owner].didIroutes))
    && (k.Net? && Live(s, r.owner) ==> s.insts[r.owner].didIroutes && Uses(s.insts[r.owner].iroutes, k.bits) > 0)
  }

  predicate RoutesOk(s: Server) {
    forall k <- s.vhash :: RouteOk(s, k)
  }

  /** A cached route of the current generation, whatever its age, agrees with the table. */
  predicate CacheOk(s: Server, k: Addr)
    requires k in s.vhash
  {
    var r := s.vhash[k];
    r.cached && k.Ip? && r.gen == s.helper.gen && Live(s, r.owner) ==> Lpm(TableOf(s), k.a, MR_HELPER_NET_LEN) == Some(r.owner)
  }

  predicate CachesOk(s: Server) {
    forall k <- s.vhash :: CacheOk(s, k)
  }

  /** The invariant; `add` are the iroutes a connecting client has not registered yet. */
  ghost predicate Consistent(s: Server, add: seq<Iroute>) {
    && Counted(s) && InstsOk(s.insts) && RoutesOk(s) && CachesOk(s)
    && LensOk(s.helper, s.insts, s.nextId, add, [])
  }

  ghost predicate Inv(s: Server) {
    Consistent(s, [])
  }

  // ------------------------------------------------------------------ lookups answer from the table

  lemma TableKeyed(s: Server)
    requires RoutesOk(s)
    ensures WellKeyed(TableOf(s))
  {
    forall k | k in TableOf(s) ensures AddrOk(k) {
      assert RouteOk(s, k);
    }
  }

  lemma NetOwner(s: Server, k: Addr, now: int)
    requires RoutesOk(s) && k.Net?
    ensures OwnerOf(s, k, now) == Get(TableOf(s), k)
  {
    if k in s.vhash {
      assert RouteOk(s, k);
    }
  }

  lemma {:induction false} UsesTotal(insts: Insts, id: nat, n: nat, ids: nat)
    requires id < ids
    ensures Weight(insts, id, n) <= Total(insts, n, ids)
  {
    if id < ids - 1 {
      UsesTotal(insts, id, n, ids - 1);
    }
  }

  /** Every network route a lookup could use has its length in the list. */
  lemma LengthListed(s: Server, k: Addr)
    requires Inv(s) && k in TableOf(s) && k.Net?
    ensures k.bits < MR_HELPER_NET_LEN && s.helper.lenCount[k.bits] > 0
  {
    assert RouteOk(s, k);
    UsesTotal(s.insts, s.vhash[k].owner, k.bits, s.nextId);
  }

  lemma FirstHitStep(s: Server, a: nat, n: nat, now: int)
    requires 0 < n <= MR_HELPER_NET_LEN == |s.helper.lenCount|
    requires var k := Net(Mask(a, n - 1), n - 1);
             OwnerOf(s, k, now) == Get(TableOf(s), k) && (k in TableOf(s) ==> s.helper.lenCount[n - 1] > 0)
    requires FirstHit(s, a, InUse(s.helper.lenCount, n - 1), now) == Lpm(TableOf(s), a, n - 1)
    ensures FirstHit(s, a, InUse(s.helper.lenCount, n), now) == Lpm(TableOf(s), a, n)
  {
    hide OwnerOf, TableOf, Mask;
    var lens := InUse(s.helper.lenCount, n);
    if s.helper.lenCount[n - 1] > 0 {
      assert lens[0] == n - 1 && lens[1..] == InUse(s.helper.lenCount, n - 1);
    } else {
      assert lens == InUse(s.helper.lenCount, n - 1);
    }
  }

  /** Trying only the lengths in use finds what trying every length would. */
  lemma {:induction false} FirstHitIsLpm(s: Server, a: nat, n: nat, now: int)
    requires Inv(s) && n <= MR_HELPER_NET_LEN
    ensures FirstHit(s, a, InUse(s.helper.lenCount, n), now) == Lpm(TableOf(s), a, n)
  {
    if n > 0 {
      var k := Net(Mask(a, n - 1), n - 1);
      NetOwner(s, k, now);
      if k in TableOf(s) {
        LengthListed(s, k);
      }
      FirstHitIsLpm(s, a, n - 1, now);
      hide TableOf, FirstHit, Lpm, OwnerOf, Mask;
      FirstHitStep(s, a, n, now);
    }
  }
}
