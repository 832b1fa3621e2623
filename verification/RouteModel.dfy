/**
  The server's routing table (multi.c, multi.h, mroute.c) as functions on values: virtual
  addresses, client instances, cached host routes and the CIDR lengths in use.
*/
module RouteModel {
  import opened Options
  import opened IntegerOps

  const MR_HELPER_NET_LEN := 32
  const ADDR_LIMIT := 0x1_0000_0000
  const MAC_LIMIT := 0x1_0000_0000_0000

  function Pow2(n: nat): (p: nat)
    ensures 0 < p
  {
    if n == 0 then 1 else 2 * Pow2(n - 1)
  }

  /** mroute_addr_mask_host_bits: the first `bits` bits of an IPv4 address. */
  function Mask(a: nat, bits: nat): (m: nat)
    requires bits <= 32
    ensures m <= a
  {
    DivMod(a, Pow2(32 - bits));
    a / Pow2(32 - bits) * Pow2(32 - bits)
  }

  /** struct mroute_addr, for the address types the table uses; Net carries MR_WITH_NETBITS. */
  datatype Addr = Ip(a: nat) | Ether(mac: nat) | Net(a: nat, bits: nat)

  /** Addresses as they are read from packets, options and iroutes with their host bits zero. */
  predicate AddrOk(addr: Addr) {
    match addr
    case Ip(a) => a < ADDR_LIMIT
    case Ether(mac) => mac < MAC_LIMIT
    case Net(a, bits) => a < ADDR_LIMIT && bits < MR_HELPER_NET_LEN && a == Mask(a, bits)
  }

  /** mroute_learnable_address: not all zeros, not all ones, and no multicast MAC. */
  predicate Learnable(addr: Addr) {
    match addr
    case Ip(a) => a != 0 && a != ADDR_LIMIT - 1
    case Ether(mac) => mac != 0 && mac != MAC_LIMIT - 1 && mac / 0x100_0000_0000 % 2 == 0
    case Net(a, bits) => a != 0 && a != ADDR_LIMIT - 1
  }

  /** struct multi_route; `cached` is MULTI_ROUTE_CACHE with MULTI_ROUTE_AGEABLE. */
  datatype Route = Route(owner: nat, cached: bool, gen: nat, lastRef: int)

  /** struct iroute; netbits -1 is a host route. */
  datatype Iroute = Iroute(network: nat, netbits: int)

  /** What the option parser lets through: netmask_to_netbits refuses host bits and turns /32 into -1. */
  predicate IrouteOk(ir: Iroute) {
    -1 <= ir.netbits < MR_HELPER_NET_LEN && AddrOk(IrouteAddr(ir))
  }

  function IrouteAddr(ir: Iroute): Addr {
    if ir.netbits >= 0 then Net(ir.network, ir.netbits) else Ip(ir.network)
  }

  /** struct multi_instance. */
  datatype Inst = Inst(refcount: int, routeCount: int, halt: bool, didIroutes: bool, iroutes: seq<Iroute>, maxRoutes: nat)

  type Insts = map<nat, Inst>
  type Routes = map<Addr, Route>

  /** struct mroute_helper: net_len[..n_net_len] and net_len_refcount. */
  datatype Helper = Helper(gen: nat, ttl: int, netLens: seq<nat>, lenCount: seq<int>)

  /** struct multi_context; instances are named by the order of their creation. */
  datatype Server = Server(vhash: Routes, insts: Insts, nextId: nat, helper: Helper, local: Addr)

  predicate Live(s: Server, id: nat) {
    id in s.insts && !s.insts[id].halt
  }

  /** multi_route_defined. */
  predicate Defined(s: Server, r: Route, now: int) {
    Live(s, r.owner) && (r.cached ==> r.gen == s.helper.gen) && (r.cached ==> !(r.lastRef + s.helper.ttl < now))
  }

  // ------------------------------------------------------------------ reference counts

  /** multi_instance_dec_refcount: the last reference frees. */
  function DecRef(insts: Insts, id: nat): Insts
    requires id in insts
  {
    var i := insts[id].(refcount := insts[id].refcount - 1);
    if i.refcount <= 0 then insts - {id} else insts[id := i]
  }

  /** multi_route_del. */
  function RouteDel(insts: Insts, id: nat): Insts
    requires id in insts
  {
    DecRef(insts[id := insts[id].(routeCount := insts[id].routeCount - 1)], id)
  }

  /** multi_instance_inc_refcount and route_quota_inc. */
  function Claim(insts: Insts, id: nat): Insts
    requires id in insts
  {
    insts[id := insts[id].(refcount := insts[id].refcount + 1, routeCount := insts[id].routeCount + 1)]
  }

  /** route_quota_test. */
  predicate UnderQuota(i: Inst) {
    i.routeCount < i.maxRoutes
  }

  // ------------------------------------------------------------------ operations

  /** Every route's owner is allocated. */
  predicate OwnersExist(s: Server) {
    forall k <- s.vhash :: s.vhash[k].owner in s.insts
  }

  /** The owner a lookup of exactly this address finds now. */
  function OwnerOf(s: Server, addr: Addr, now: int): Option<nat> {
    if addr in s.vhash && Defined(s, s.vhash[addr], now) then Some(s.vhash[addr].owner) else None
  }

  /** Does multi_learn_addr get as far as storing the route? */
  predicate Learns(s: Server, mi: nat, addr: Addr, now: int, verdict: bool)
    requires mi in s.insts
  {
    OwnerOf(s, addr, now) != Some(mi) && Learnable(addr) && addr != s.local && UnderQuota(s.insts[mi]) && verdict
  }

  /** multi_learn_addr; `verdict` is what the learn-address script or plugin would answer. */
  function Learn(s: Server, mi: nat, addr: Addr, cached: bool, now: int, verdict: bool): (Server, Option<nat>)
    requires mi in s.insts && OwnersExist(s)
  {
    if Learns(s, mi, addr, now, verdict) then
      var route := Route(mi, cached, if cached then s.helper.gen else 0, now);
      var claimed := Claim(s.insts, mi);
      var insts := if addr in s.vhash then RouteDel(claimed, s.vhash[addr].owner) else claimed;
      (s.(vhash := s.vhash[addr := route], insts := insts), Some(mi))
    else (s, OwnerOf(s, addr, now))
  }

  /** The first CIDR length of a list under which the address has a live network route. */
  function FirstHit(s: Server, a: nat, lens: seq<nat>, now: int): Option<nat>
    requires forall i | 0 <= i < |lens| :: lens[i] < MR_HELPER_NET_LEN
  {
    if lens == [] then None
    else if OwnerOf(s, Net(Mask(a, lens[0]), lens[0]), now).Some? then OwnerOf(s, Net(Mask(a, lens[0]), lens[0]), now)
    else FirstHit(s, a, lens[1..], now)
  }

  predicate LensInRange(h: Helper) {
    |h.lenCount| == MR_HELPER_NET_LEN && forall i | 0 <= i < |h.netLens| :: h.netLens[i] < MR_HELPER_NET_LEN
  }

  /** multi_get_instance_by_virtual_addr. */
  function Lookup(s: Server, addr: Addr, cidr: bool, now: int, verdict: bool): (Server, Option<nat>)
    requires OwnersExist(s) && LensInRange(s.helper) && (cidr ==> addr.Ip?)
  {
    if addr == s.local then (s, None)
    else if OwnerOf(s, addr, now).Some? then
      (s.(vhash := s.vhash[addr := s.vhash[addr].(lastRef := now)]), OwnerOf(s, addr, now))
    else if cidr && FirstHit(s, addr.a, s.helper.netLens, now).Some? then
      var mi := FirstHit(s, addr.a, s.helper.netLens, now);
      (if mi.value in s.insts then Learn(s, mi.value, addr, true, now, verdict).0 else s, mi)
    else (s, None)
  }

  /** mroute_helper_regenerate: the lengths in use below n, longest first. */
  function InUse(lenCount: seq<int>, n: nat): (lens: seq<nat>)
    requires n <= |lenCount|
    ensures forall i | 0 <= i < |lens| :: lens[i] < n
  {
    if n == 0 then []
    else (if lenCount[n - 1] > 0 then [n - 1] else []) + InUse(lenCount, n - 1)
  }

  /** mroute_helper_add_iroute and mroute_helper_del_iroute, with `step` +1 and -1. */
  function CountIroute(h: Helper, ir: Iroute, step: int): (h': Helper)
    requires LensInRange(h) && ir.netbits < MR_HELPER_NET_LEN
    ensures LensInRange(h')
  {
    if ir.netbits < 0 then h
    else
      var count := h.lenCount[ir.netbits] + step;
      var lenCount := h.lenCount[ir.netbits := count];
      h.(gen := h.gen + 1, lenCount := lenCount,
         netLens := if count == (if step > 0 then 1 else 0) then InUse(lenCount, MR_HELPER_NET_LEN) else h.netLens)
  }

  predicate IroutesOk(irs: seq<Iroute>) {
    forall i | 0 <= i < |irs| :: IrouteOk(irs[i])
  }

  /** multi_del_iroutes. */
  function DelIroutes(h: Helper, irs: seq<Iroute>): (h': Helper)
    requires LensInRange(h) && IroutesOk(irs)
    ensures LensInRange(h')
    decreases |irs|
  {
    if irs == [] then h else DelIroutes(CountIroute(h, irs[0], -1), irs[1..])
  }

  /** One turn of the loop in multi_add_iroutes. */
  function AddIroute(s: Server, mi: nat, ir: Iroute, now: int, verdict: bool): Server
    requires LensInRange(s.helper) && ir.netbits < MR_HELPER_NET_LEN && mi in s.insts && OwnersExist(s)
  {
    Learn(s.(helper := CountIroute(s.helper, ir, 1)), mi, IrouteAddr(ir), false, now, verdict).0
  }

  /** multi_close_instance outside shutdown, up to the reference it gives back. */
  function Halted(s: Server, mi: nat): Server
    requires mi in s.insts && LensInRange(s.helper) && IroutesOk(s.insts[mi].iroutes)
  {
    var i := s.insts[mi];
    s.(insts := s.insts[mi := i.(halt := true, didIroutes := false)],
       helper := if i.didIroutes then DelIroutes(s.helper, i.iroutes) else s.helper)
  }

  function Close(s: Server, mi: nat): Server
    requires mi in s.insts && LensInRange(s.helper) && IroutesOk(s.insts[mi].iroutes)
  {
    Halted(s, mi).(insts := DecRef(Halted(s, mi).insts, mi))
  }

  /** One element of multi_reap_range: an undefined route goes. */
  function ReapOne(s: Server, addr: Addr, now: int): Server
    requires OwnersExist(s)
  {
    if addr in s.vhash && !Defined(s, s.vhash[addr], now)
    then s.(insts := RouteDel(s.insts, s.vhash[addr].owner), vhash := s.vhash - {addr})
    else s
  }

  /** multi_create_instance. */
  function Create(s: Server, maxRoutes: nat): Server {
    s.(insts := s.insts[s.nextId := Inst(1, 0, false, false, [], maxRoutes)], nextId := s.nextId + 1)
  }

  // ------------------------------------------------------------------ counting routes

  function RoutesOf(vhash: Routes, id: nat): set<Addr> {
    set k | k in vhash && vhash[k].owner == id
  }

  function Num(vhash: Routes, id: nat): nat {
    |RoutesOf(vhash, id)|
  }

  lemma NumUpdate(vhash: Routes, addr: Addr, r: Route, id: nat)
    ensures Num(vhash[addr := r], id) == Num(vhash, id)
                                         - (if addr in vhash && vhash[addr].owner == id then 1 else 0)
                                         + (if r.owner == id then 1 else 0)
  {
    var rest := RoutesOf(vhash, id) - {addr};
    assert RoutesOf(vhash[addr := r], id) == if r.owner == id then rest + {addr} else rest;
    assert RoutesOf(vhash, id) == if addr in vhash && vhash[addr].owner == id then rest + {addr} else rest;
  }

  lemma NumRemove(vhash: Routes, addr: Addr, id: nat)
    ensures Num(vhash - {addr}, id) == Num(vhash, id) - (if addr in vhash && vhash[addr].owner == id then 1 else 0)
  {
    var rest := RoutesOf(vhash, id) - {addr};
    assert RoutesOf(vhash - {addr}, id) == rest;
    assert RoutesOf(vhash, id) == if addr in vhash && vhash[addr].owner == id then rest + {addr} else rest;
  }

  /**
    An instance's refcount is one until it is closed plus the number of routes naming it;
    route_count is that number, within the quota; nothing unreferenced stays allocated.
  */
  ghost predicate CountsOk(insts: Insts, vhash: Routes, id: nat)
    requires id in insts
  {
    var i := insts[id];
    && i.routeCount == Num(vhash, id) <= i.maxRoutes
    && i.refcount == Num(vhash, id) + (if i.halt then 0 else 1)
    && 0 < i.refcount
  }

  ghost predicate Counted(s: Server) {
    && OwnersExist(s)
    && forall id <- s.insts :: id < s.nextId && CountsOk(s.insts, s.vhash, id)
  }

  /** Nothing a lookup or learn does to the instances touches a live one beyond its two counters. */
  ghost predicate SameLive(insts: Insts, insts': Insts) {
    && (forall id <- insts :: !insts[id].halt ==> id in insts')
    && (forall id <- insts' :: id in insts && insts'[id] == insts[id].(refcount := insts'[id].refcount, routeCount := insts'[id].routeCount))
  }

  lemma HasRoute(vhash: Routes, addr: Addr, id: nat)
    requires addr in vhash && vhash[addr].owner == id
    ensures Num(vhash, id) > 0
  {
    assert addr in RoutesOf(vhash, id);
  }

  /** A change of the instances that keeps id's counters in step with its routes. */
  lemma LearnCountsOk(s: Server, mi: nat, addr: Addr, cached: bool, now: int, id: nat)
    requires Counted(s) && Live(s, mi) && Learns(s, mi, addr, now, true)
    ensures var s' := Learn(s, mi, addr, cached, now, true).0;
            if id in s'.insts then id in s.insts && CountsOk(s'.insts, s'.vhash, id) else Num(s'.vhash, id) == 0
  {
    var s' := Learn(s, mi, addr, cached, now, true).0;
    NumUpdate(s.vhash, addr, s'.vhash[addr], id);
    if id in s.insts {
      assert CountsOk(s.insts, s.vhash, id);
    } else {
      FreedIffUnreferenced(s, id);
    }
  }

  lemma LearnOwnerExists(s: Server, mi: nat, addr: Addr, cached: bool, now: int, k: Addr)
    requires Counted(s) && Live(s, mi) && Learns(s, mi, addr, now, true)
    requires k in s.vhash || k == addr
    ensures var s' := Learn(s, mi, addr, cached, now, true).0;
            k in s'.vhash && s'.vhash[k].owner in s'.insts
  {
    var s' := Learn(s, mi, addr, cached, now, true).0;
    LearnCountsOk(s, mi, addr, cached, now, s'.vhash[k].owner);
    HasRoute(s'.vhash, k, s'.vhash[k].owner);
  }

  lemma DelSameLive(insts: Insts, id: nat)
    requires id in insts && (insts[id].halt || insts[id].refcount > 1)
    ensures SameLive(insts, RouteDel(insts, id))
  {
  }

  lemma SameLiveTrans(a: Insts, b: Insts, c: Insts)
    requires SameLive(a, b) && SameLive(b, c)
    ensures SameLive(a, c)
  {
  }

  lemma LearnSameLive(s: Server, mi: nat, addr: Addr, cached: bool, now: int, verdict: bool)
    requires Counted(s) && Live(s, mi)
    ensures SameLive(s.insts, Learn(s, mi, addr, cached, now, verdict).0.insts)
  {
    if Learns(s, mi, addr, now, verdict) && addr in s.vhash {
      var owner := s.vhash[addr].owner;
      assert s.insts[owner].halt || s.insts[owner].refcount > 1 by {
        HasRoute(s.vhash, addr, owner);
        assert CountsOk(s.insts, s.vhash, owner);
      }
      var claimed := Claim(s.insts, mi);
      DelSameLive(claimed, owner);
      SameLiveTrans(s.insts, claimed, RouteDel(claimed, owner));
    }
  }

  lemma LearnCounted(s: Server, mi: nat, addr: Addr, cached: bool, now: int, verdict: bool)
    requires Counted(s) && Live(s, mi)
    ensures Counted(Learn(s, mi, addr, cached, now, verdict).0)
  {
    var s' := Learn(s, mi, addr, cached, now, verdict).0;
    if Learns(s, mi, addr, now, verdict) {
      hide CountsOk;
      forall id | id in s'.insts ensures id < s'.nextId && CountsOk(s'.insts, s'.vhash, id) {
        LearnCountsOk(s, mi, addr, cached, now, id);
      }
      forall k | k in s'.vhash ensures s'.vhash[k].owner in s'.insts {
        LearnOwnerExists(s, mi, addr, cached, now, k);
      }
    }
  }

  lemma ReapCountsOk(s: Server, addr: Addr, now: int, id: nat)
    requires Counted(s) && addr in s.vhash && !Defined(s, s.vhash[addr], now)
    ensures var s' := ReapOne(s, addr, now);
            if id in s'.insts then id in s.insts && CountsOk(s'.insts, s'.vhash, id) else Num(s'.vhash, id) == 0
  {
    var s' := ReapOne(s, addr, now);
    NumRemove(s.vhash, addr, id);
    HasRoute(s.vhash, addr, s.vhash[addr].owner);
    if id in s.insts {
      assert CountsOk(s.insts, s.vhash, id);
    } else {
      FreedIffUnreferenced(s, id);
    }
  }

  lemma ReapSameLive(s: Server, addr: Addr, now: int)
    requires Counted(s)
    ensures SameLive(s.insts, ReapOne(s, addr, now).insts)
  {
    if addr in s.vhash {
      HasRoute(s.vhash, addr, s.vhash[addr].owner);
      assert CountsOk(s.insts, s.vhash, s.vhash[addr].owner);
      DelSameLive(s.insts, s.vhash[addr].owner);
    }
  }

  lemma ReapCounted(s: Server, addr: Addr, now: int)
    requires Counted(s)
    ensures Counted(ReapOne(s, addr, now))
  {
    var s' := ReapOne(s, addr, now);
    if addr in s.vhash && !Defined(s, s.vhash[addr], now) {
      hide CountsOk;
      forall id | id in s'.insts ensures id < s'.nextId && CountsOk(s'.insts, s'.vhash, id) {
        ReapCountsOk(s, addr, now, id);
      }
      forall k | k in s'.vhash ensures s'.vhash[k].owner in s'.insts {
        ReapCountsOk(s, addr, now, s'.vhash[k].owner);
        HasRoute(s'.vhash, k, s'.vhash[k].owner);
      }
    }
  }

  /** Freed means unreferenced: an instance leaves memory exactly when it is closed and has no route. */
  lemma FreedIffUnreferenced(s: Server, id: nat)
    requires Counted(s)
    ensures id !in s.insts ==> Num(s.vhash, id) == 0
    ensures id in s.insts && s.insts[id].halt ==> Num(s.vhash, id) > 0
  {
    if id !in s.insts {
      assert RoutesOf(s.vhash, id) == {};
    } else {
      assert CountsOk(s.insts, s.vhash, id);
    }
  }

  /** Closing gives back the one reference that is not a route's, freeing the instance if no route is left. */
  lemma CloseCounted(s: Server, mi: nat)
    requires Counted(s) && Live(s, mi) && LensInRange(s.helper) && IroutesOk(s.insts[mi].iroutes)
    ensures Counted(Close(s, mi))
  {
    var s' := Close(s, mi);
    assert CountsOk(s.insts, s.vhash, mi);
    forall id | id in s'.insts ensures id < s'.nextId && CountsOk(s'.insts, s'.vhash, id) {
      assert CountsOk(s.insts, s.vhash, id);
    }
    forall k | k in s'.vhash ensures s'.vhash[k].owner in s'.insts {
      HasRoute(s.vhash, k, s.vhash[k].owner);
    }
  }

  lemma CreateCounted(s: Server, maxRoutes: nat)
    requires Counted(s)
    ensures Counted(Create(s, maxRoutes))
  {
    var s' := Create(s, maxRoutes);
    FreedIffUnreferenced(s, s.nextId);
    forall id | id in s'.insts ensures id < s'.nextId && CountsOk(s'.insts, s'.vhash, id) {
      if id in s.insts {
        assert CountsOk(s.insts, s.vhash, id);
      }
    }
  }
}
