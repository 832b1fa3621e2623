/** What learning, looking up and connecting leave behind (multi.c:775-999), said of the tables alone. */
module RouteLearning {
  import opened Options
  import opened RouteModel
  import opened RouteTable
  import opened RouteRuns

  /** The address leads to c: the route is permanent, or of this generation and not aged, and c is open. */
  predicate Routed(s: Server, addr: Addr, c: nat, now: int) {
    && addr in s.vhash && s.vhash[addr].owner == c
    && c in s.insts && !s.insts[c].halt
    && (s.vhash[addr].cached ==> s.vhash[addr].gen == s.helper.gen && now <= s.vhash[addr].lastRef + s.helper.ttl)
  }

  /** Client c may be given a route to the address. */
  predicate Allowed(s: Server, c: nat, addr: Addr, verdict: bool) {
    c in s.insts && verdict && Learnable(addr) && addr != s.local && Num(s.vhash, c) < s.insts[c].maxRoutes
  }

  lemma OwnerIsRouted(s: Server, addr: Addr, now: int, c: nat)
    ensures OwnerOf(s, addr, now) == Some(c) <==> Routed(s, addr, c, now)
  {
  }

  /** Learning reports c exactly when the address leads to c afterwards, and nobody when it leads nowhere. */
  lemma LearnReportsRoute(s: Server, mi: nat, addr: Addr, cached: bool, now: int, verdict: bool, c: nat)
    requires Counted(s) && Live(s, mi) && 0 <= s.helper.ttl
    ensures var (s', o) := Learn(s, mi, addr, cached, now, verdict);
            && (o == Some(c) <==> Routed(s', addr, c, now))
            && (o == None <==> forall any: nat :: !Routed(s', addr, any, now))
  {
    hide CountsOk, Learn, SameLive, Learnable;
    var (s', o) := Learn(s, mi, addr, cached, now, verdict);
    LearnAnswer(s, mi, addr, cached, now, verdict);
    LearnEffect(s, mi, addr, cached, now, verdict);
    LiveSame(s, s', mi);
    forall any: nat ensures o == Some(any) <==> Routed(s', addr, any, now) {
      OwnerIsRouted(s, addr, now, any);
      LiveSame(s, s', any);
    }
    if o.Some? {
      assert Routed(s', addr, o.value, now);
    }
  }

  lemma LearnAnswer(s: Server, mi: nat, addr: Addr, cached: bool, now: int, verdict: bool)
    requires Counted(s) && Live(s, mi)
    ensures Learn(s, mi, addr, cached, now, verdict).1
            == if Learns(s, mi, addr, now, verdict) then Some(mi) else OwnerOf(s, addr, now)
  {
  }

  /**
    A client becomes the owner exactly when it is that already or may be given the route.  A refusal,
    by the script, the quota or the address itself, changes nothing and reports the owner there was.
  */
  lemma LearnsIff(s: Server, mi: nat, addr: Addr, cached: bool, now: int, verdict: bool, c: nat)
    requires Counted(s) && Live(s, mi)
    ensures var (s', o) := Learn(s, mi, addr, cached, now, verdict);
            && (o == Some(mi) <==> Routed(s, addr, mi, now) || Allowed(s, mi, addr, verdict))
            && (!Allowed(s, mi, addr, verdict) || Routed(s, addr, mi, now) ==>
                  s' == s && (o == Some(c) <==> Routed(s, addr, c, now)))
            && (Allowed(s, mi, addr, verdict) && !Routed(s, addr, mi, now) ==>
                  s'.vhash == s.vhash[addr := Route(mi, cached, if cached then s.helper.gen else 0, now)])
  {
    LearnAnswer(s, mi, addr, cached, now, verdict);
    OwnerIsRouted(s, addr, now, mi);
    OwnerIsRouted(s, addr, now, c);
    assert CountsOk(s.insts, s.vhash, mi);
    hide Learnable, Claim, RouteDel;
  }

  /**
    A lookup leaves the address leading to the client it found, freshly referenced, wherever the
    client has a route to it already or may be given one; else it leaves everything as it was.
  */
  lemma LookupLeavesRoute(s: Server, addr: Addr, now: int, verdict: bool, c: nat)
    requires Inv(s) && !addr.Net? && addr != s.local && 0 <= s.helper.ttl
    requires Lookup(s, addr, addr.Ip?, now, verdict).1 == Some(c)
    ensures var s' := Lookup(s, addr, addr.Ip?, now, verdict).0;
            if Routed(s, addr, c, now) then
              s' == s.(vhash := s.vhash[addr := s.vhash[addr].(lastRef := now)])
            else if Allowed(s, c, addr, verdict) then
              Routed(s', addr, c, now) && s'.vhash == s.vhash[addr := Route(c, true, s.helper.gen, now)]
            else s' == s
  {
    hide Learn, CountsOk, RoutesOk, CachesOk, InstsOk, TableOf, Lpm, FirstHit, Learnable;
    OwnerIsRouted(s, addr, now, c);
    if OwnerOf(s, addr, now).None? {
      FirstHitIsLpm(s, addr.a, MR_HELPER_NET_LEN, now);
      LpmLive(s, addr.a, MR_HELPER_NET_LEN);
      LearnReportsRoute(s, c, addr, true, now, verdict, c);
      LearnsIff(s, c, addr, true, now, verdict, c);
    }
  }

  /** Nothing found, nothing changed. */
  lemma LookupOfNobody(s: Server, addr: Addr, now: int, verdict: bool)
    requires OwnersExist(s) && LensInRange(s.helper)
    requires !addr.Net? && Lookup(s, addr, addr.Ip?, now, verdict).1 == None
    ensures Lookup(s, addr, addr.Ip?, now, verdict).0 == s
  {
  }

  /** The server's own address leads to no client, whatever the table holds. */
  lemma OwnAddressIsNobody(s: Server, cidr: bool, now: int, verdict: bool)
    requires OwnersExist(s) && LensInRange(s.helper) && (cidr ==> s.local.Ip?)
    ensures Lookup(s, s.local, cidr, now, verdict) == (s, None)
  {
  }

  // ------------------------------------------------------------------ clients coming and going

  /** A new client is open, with the quota it was given and no route; nothing else changes. */
  lemma NewClient(s: Server, maxRoutes: nat)
    requires Counted(s)
    ensures var s', id := Create(s, maxRoutes), s.nextId;
            && Live(s', id) && s'.insts[id].maxRoutes == maxRoutes && Num(s'.vhash, id) == 0 && !s'.insts[id].didIroutes
            && id !in s.insts && s'.insts - {id} == s.insts && s'.vhash == s.vhash && s'.helper == s.helper
  {
    FreedIffUnreferenced(s, s.nextId);
  }

  /** A closed client is not open any more, whatever the time no address leads to it, and no other client is closed. */
  lemma ClosedClient(s: Server, mi: nat, addr: Addr, now: int)
    requires Inv(s) && Live(s, mi)
    ensures IroutesOk(s.insts[mi].iroutes)
    ensures var s' := Close(s, mi);
            !Live(s', mi) && !Routed(s', addr, mi, now) && forall id | id != mi :: Live(s', id) <==> Live(s, id)
  {
    CloseKeeps(s, mi);
  }

  // ------------------------------------------------------------------ connecting, on the plain table

  function Owned(t: Table, mi: nat): set<Addr> {
    set k | k in t && t[k] == mi
  }

  /** The client asks for the address; it needs a willing script, a fit address and room in its quota. */
  function Offered(t: Table, local: Addr, mi: nat, max: nat, addr: Addr, ok: bool): Table {
    if Get(t, addr) != Some(mi) && ok && Learnable(addr) && addr != local && |Owned(t, mi)| < max then t[addr := mi] else t
  }

  function OfferedAll(t: Table, local: Addr, mi: nat, max: nat, irs: seq<Iroute>, done: nat, oks: seq<bool>): Table
    requires done <= |irs| == |oks|
    decreases |irs| - done
  {
    if done == |irs| then t
    else OfferedAll(Offered(t, local, mi, max, IrouteAddr(irs[done]), oks[done]), local, mi, max, irs, done + 1, oks)
  }

  /** An iroute leads its client the addresses it covers: the host itself, or all that share its leading bits. */
  lemma IrouteReaches(ir: Iroute, a: nat)
    requires IrouteOk(ir)
    ensures var k := IrouteAddr(ir);
            (k == Ip(a) || (k.Net? && Net(Mask(a, k.bits), k.bits) == k))
            <==> if ir.netbits < 0 then a == ir.network else Covers(ir.network, ir.netbits, a)
  {
    if ir.netbits >= 0 {
      MaskCovers(ir.network, ir.netbits, a);
    }
  }

  /** A client with room for all its iroutes, all of them fit and allowed, is given every one. */
  lemma {:induction false} AllGiven(t: Table, local: Addr, mi: nat, max: nat, irs: seq<Iroute>, done: nat, oks: seq<bool>, i: nat)
    requires done <= |irs| == |oks| && i < |irs| && |Owned(t, mi)| + |irs| - done <= max
    requires i >= done || Get(t, IrouteAddr(irs[i])) == Some(mi)
    requires forall j | 0 <= j < |irs| :: oks[j] && Learnable(IrouteAddr(irs[j])) && IrouteAddr(irs[j]) != local
    ensures Get(OfferedAll(t, local, mi, max, irs, done, oks), IrouteAddr(irs[i])) == Some(mi)
    decreases |irs| - done
  {
    hide Learnable, IrouteAddr;
    if done < |irs| {
      var t' := Offered(t, local, mi, max, IrouteAddr(irs[done]), oks[done]);
      assert Owned(t', mi) == Owned(t, mi) + {IrouteAddr(irs[done])};
      AllGiven(t', local, mi, max, irs, done + 1, oks, i);
    }
  }

  /** Without cached routes a client's quota counts exactly what the table gives it. */
  lemma QuotaIsOwned(s: Server, mi: nat)
    requires Counted(s) && Live(s, mi) && OwnsNoCache(s, mi)
    ensures UnderQuota(s.insts[mi]) <==> |Owned(TableOf(s), mi)| < s.insts[mi].maxRoutes
  {
    assert CountsOk(s.insts, s.vhash, mi);
    assert RoutesOf(s.vhash, mi) == Owned(TableOf(s), mi);
  }

  lemma OfferedIsRecorded(s: Server, mi: nat, addr: Addr, ok: bool)
    requires Counted(s) && Live(s, mi) && OwnsNoCache(s, mi)
    ensures Offered(TableOf(s), s.local, mi, s.insts[mi].maxRoutes, addr, ok)
            == if MayRecord(s, mi, addr, ok) then TableOf(s)[addr := mi] else TableOf(s)
  {
    QuotaIsOwned(s, mi);
    OwnOrCached(s, mi, addr, 0);
    hide TableOf, Learnable, Owned;
    if Get(TableOf(s), addr) == Some(mi) {
      assert TableOf(s)[addr := mi] == TableOf(s);
    }
  }

  lemma {:induction false} AddIroutesOffer(s: Server, mi: nat, irs: seq<Iroute>, done: nat, now: int, oks: seq<bool>)
    requires Registering(s, mi, irs, done) && |oks| == |irs|
    ensures TableOf(AddIroutes(s, mi, irs, done, now, oks))
            == OfferedAll(TableOf(s), s.local, mi, s.insts[mi].maxRoutes, irs, done, oks)
    decreases |irs| - done
  {
    hide TableOf, MayRecord, Offered, AddIroute, Counted, LensOk, RoutesOk, CachesOk, InstsOk;
    if done < |irs| {
      RegisteringTurn(s, mi, irs, done, now, oks);
      AddIrouteKeeps(s, mi, irs, done, now, oks[done]);
      OfferedIsRecorded(s, mi, IrouteAddr(irs[done]), oks[done]);
      KeepsQuota(s, mi, irs[done], now, oks[done]);
      AddIroutesOffer(AddIroute(s, mi, irs[done], now, oks[done]), mi, irs, done + 1, now, oks);
    }
  }

  lemma KeepsQuota(s: Server, mi: nat, ir: Iroute, now: int, ok: bool)
    requires Counted(s) && Live(s, mi) && LensInRange(s.helper) && IrouteOk(ir)
    ensures var s' := AddIroute(s, mi, ir, now, ok);
            s'.local == s.local && mi in s'.insts && s'.insts[mi].maxRoutes == s.insts[mi].maxRoutes
  {
    hide CountIroute, Learn;
    LearnEffect(s.(helper := CountIroute(s.helper, ir, 1)), mi, IrouteAddr(ir), false, now, ok);
  }

  /** Connecting does to the table what offering the client its own address, then each iroute in turn, does. */
  lemma ConnectOffers(s: Server, mi: nat, host: Option<nat>, hostOk: bool, irs: seq<Iroute>, oks: seq<bool>, now: int)
    requires Inv(s) && Connectable(s, mi, host, irs, oks)
    ensures var max := s.insts[mi].maxRoutes;
            var t := if host.Some? then Offered(TableOf(s), s.local, mi, max, Ip(host.value), hostOk) else TableOf(s);
            TableOf(Connect(s, mi, host, hostOk, irs, oks, now)) == OfferedAll(t, s.local, mi, max, irs, 0, oks)
  {
    hide TableOf, Learn, Offered, AddIroutes, Connect, WithIroutes, MayRecord, OfferedAll, LensOk, RoutesOk, CachesOk, InstsOk, Learnable, Counted, Registering;
    ConnectFirst(s, mi, host, hostOk, irs, oks, now);
    FreshOwnsNoCache(s, mi);
    var s1 := if host.Some? then Learn(s, mi, Ip(host.value), false, now, hostOk).0 else s;
    if host.Some? {
      OfferedIsRecorded(s, mi, Ip(host.value), hostOk);
      OwnOrCached(s, mi, Ip(host.value), now);
      LearnHost(s, mi, Ip(host.value), now, hostOk);
    }
    MarkedTable(s1, mi, irs);
    AddIroutesOffer(WithIroutes(s1, mi, irs), mi, irs, 0, now, oks);
  }

  lemma LearnHost(s: Server, mi: nat, addr: Addr, now: int, ok: bool)
    requires Counted(s) && Live(s, mi) && OwnsNoCache(s, mi)
    ensures var s' := Learn(s, mi, addr, false, now, ok).0;
            && TableOf(s') == (if MayRecord(s, mi, addr, ok) then TableOf(s)[addr := mi] else TableOf(s))
            && s'.local == s.local && mi in s'.insts && s'.insts[mi].maxRoutes == s.insts[mi].maxRoutes
  {
    hide Learn, TableOf, Learnable;
    OwnOrCached(s, mi, addr, now);
    LearnTable(s, mi, addr, false, now, ok);
    LearnEffect(s, mi, addr, false, now, ok);
  }

  lemma MarkedTable(s: Server, mi: nat, irs: seq<Iroute>)
    requires mi in s.insts
    ensures var s' := WithIroutes(s, mi, irs);
            TableOf(s') == TableOf(s) && s'.local == s.local && mi in s'.insts && s'.insts[mi].maxRoutes == s.insts[mi].maxRoutes
  {
  }
}
