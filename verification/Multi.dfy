/**
  struct multi_context over the heap: client instances with their counters, the virtual address
  hash table of hash.h nodes, and the route helper.  Every method is proved equal to the function
  on values that the theorems of RouteRuns and RouteServer are about.
*/
module Multi {
  import opened Options
  import opened HashBuckets
  import opened HashTables
  import opened HashIterators
  import opened RouteModel
  import opened RouteTable
  import opened RouteRuns
  import opened RouteServer
  import opened Mroute

  /** struct multi_instance. */
  class MultiInstance {
    const id: nat
    const maxRoutesPerClient: nat
    var refcount: int
    var routeCount: int
    var halt: bool
    var didIroutes: bool
    var iroutes: seq<Iroute>

    /** ALLOC_OBJ_CLEAR and the first reference, at the head of multi_create_instance. */
    constructor (id: nat, maxRoutes: nat)
      ensures this.id == id && View() == Inst(1, 0, false, false, [], maxRoutes)
    {
      this.id, maxRoutesPerClient := id, maxRoutes;
      refcount, routeCount, halt, didIroutes, iroutes := 1, 0, false, false, [];
    }

    function View(): Inst
      reads this
    {
      Inst(refcount, routeCount, halt, didIroutes, iroutes, maxRoutesPerClient)
    }
  }

  function ViewAll(insts: map<nat, MultiInstance>): (v: Insts)
    reads insts.Values
    ensures v.Keys == insts.Keys
  {
    map id | id in insts :: insts[id].View()
  }

  class MultiContext {
    const vhash: Hash<Addr, Route>
    const routeHelper: MrouteHelper
    const local: Addr

    /** The allocated instances by their number; an instance that is freed leaves the map. */
    var insts: map<nat, MultiInstance>
    var nextId: nat

    ghost predicate Valid()
      reads this, insts.Values, vhash, vhash.repr, routeHelper, routeHelper.netLen, routeHelper.netLenRefcount
    {
      vhash.Valid() && vhash.Settled() && Sound()
    }

    ghost predicate Named()
      reads this, vhash
    {
      forall id <- insts :: insts[id].id == id && insts[id] !in vhash.repr
    }

    /** What stays true while a hash iterator is at work. */
    ghost predicate Sound()
      reads this, vhash, routeHelper, routeHelper.netLen, routeHelper.netLenRefcount
    {
      && routeHelper.Valid() && routeHelper.Repr() !! vhash.repr && this !in vhash.repr
      && Named()
    }

    ghost function View(): Server
      reads this, insts.Values, vhash, routeHelper, routeHelper.netLen, routeHelper.netLenRefcount
    {
      Server(vhash.contents, ViewAll(insts), nextId, routeHelper.View(), local)
    }

    /** multi_init: an empty table of nBuckets buckets under an arbitrary hash function. */
    constructor (nBuckets: nat, hashFunction: Addr -> nat, ttl: int, local: Addr)
      requires 0 < nBuckets
      ensures Valid() && View() == Start(ttl, local)
    {
      vhash := new Hash<Addr, Route>(nBuckets, hashFunction);
      routeHelper := new MrouteHelper(ttl);
      this.local, insts, nextId := local, map[], 0;
    }

    /** No instance appears, and none changes its identity. */
    twostate predicate SameObjects()
      reads this
    {
      nextId == old(nextId) && forall id <- insts :: id in old(insts) && insts[id] == old(insts)[id]
    }

    /** ... and what the hash table took in is new. */
    twostate predicate Grown()
      reads this, vhash
    {
      SameObjects() && fresh(vhash.repr - old(vhash.repr))
    }

    /** Writing to one instance changes one entry of the view. */
    twostate lemma OneWritten(mi: nat)
      requires insts == old(insts) && mi in insts
      requires forall id <- insts :: insts[id].id == id
      requires forall id <- insts :: id != mi ==> unchanged(insts[id])
      ensures ViewAll(insts) == old(ViewAll(insts))[mi := insts[mi].View()]
    {
    }

    lemma ViewAt(mi: nat)
      requires mi in insts
      ensures ViewAll(insts)[mi] == insts[mi].View()
    {
    }

    lemma OneFreed(mi: nat)
      ensures ViewAll(insts - {mi}) == ViewAll(insts) - {mi}
    {
    }

    /** Writing to instances alone keeps the rest. */
    twostate lemma InstancesWritten()
      requires old(Valid()) && SameObjects()
      requires forall o: object | o in old(vhash.repr) || o in routeHelper.Repr() :: unchanged(o)
      ensures Valid() && View() == old(View()).(insts := ViewAll(insts))
    {
      hide Hash.Valid, Hash.Settled, MrouteHelper.Valid, ViewAll;
      assert unchanged(vhash);
    }

    lemma NamedFacts()
      requires Valid()
      ensures forall id <- insts :: insts[id].id == id && insts[id] !in vhash.repr && insts[id] !in routeHelper.Repr()
      ensures this !in vhash.repr
    {
    }

    lemma HelperValid()
      requires Valid()
      ensures routeHelper.Valid() && this !in vhash.repr && routeHelper.Repr() !! vhash.repr
    {
    }

    /** Writing to the route helper alone keeps the rest. */
    twostate lemma HelperWritten()
      requires old(Valid()) && unchanged(this) && routeHelper.Valid()
      requires forall o: object | o in old(vhash.repr) || o in insts.Values :: unchanged(o)
      ensures Valid() && View() == old(View()).(helper := routeHelper.View())
    {
      hide Hash.Valid, Hash.Settled, MrouteHelper.Valid;
      assert unchanged(vhash);
    }

    static lemma DecRefAs(all: Insts, id: nat)
      requires id in all
      ensures var all' := all[id := all[id].(refcount := all[id].refcount - 1)];
              DecRef(all, id) == if all'[id].refcount <= 0 then all' - {id} else all'
    {
      assert all[id := all[id].(refcount := all[id].refcount - 1)] - {id} == all - {id};
    }

    /** multi_instance_dec_refcount. */
    method DecRefcount(mi: nat)
      requires mi in insts && forall id <- insts :: insts[id].id == id
      modifies `insts, insts[mi]
      ensures ViewAll(insts) == DecRef(old(ViewAll(insts)), mi)
      ensures SameObjects()
    {
      hide DecRef, ViewAll;
      DecRefAs(ViewAll(insts), mi);
      ViewAt(mi);
      insts[mi].refcount := insts[mi].refcount - 1;
      OneWritten(mi);
      OneFreed(mi);
      ghost var without := ViewAll(insts - {mi});
      if insts[mi].refcount <= 0 {
        insts := insts - {mi};
        assert ViewAll(insts) == without;
      }
    }

    /** multi_route_del. */
    method RouteDelete(mi: nat)
      requires mi in insts && forall id <- insts :: insts[id].id == id
      modifies `insts, insts[mi]
      ensures ViewAll(insts) == RouteDel(old(ViewAll(insts)), mi)
      ensures SameObjects()
    {
      hide DecRef, ViewAll;
      ViewAt(mi);
      insts[mi].routeCount := insts[mi].routeCount - 1;
      OneWritten(mi);
      DecRefcount(mi);
    }

    /** multi_route_defined. */
    function RouteDefined(r: Route, now: int): (b: bool)
      requires r.owner in insts
      reads this, insts.Values, routeHelper, vhash, routeHelper.netLen, routeHelper.netLenRefcount
      ensures b == Defined(View(), r, now)
    {
      if insts[r.owner].halt then false
      else if r.cached && r.gen != routeHelper.cacheGeneration then false
      else if r.cached && r.lastRef + routeHelper.ageableTtlSecs < now then false
      else true
    }

    /** The counters of a learned route: one more for its client, one less for the owner it replaces. */
    method Charge(mi: nat, replaced: Option<nat>)
      requires mi in insts && forall id <- insts :: insts[id].id == id
      requires replaced.Some? ==> replaced.value in insts
      modifies `insts, insts.Values
      ensures ViewAll(insts) == var claimed := Claim(old(ViewAll(insts)), mi);
                                if replaced.Some? then RouteDel(claimed, replaced.value) else claimed
      ensures SameObjects()
    {
      hide RouteDel, ViewAll;
      ViewAt(mi);
      insts[mi].refcount := insts[mi].refcount + 1;
      insts[mi].routeCount := insts[mi].routeCount + 1;
      OneWritten(mi);
      if replaced.Some? {
        RouteDelete(replaced.value);
      }
    }

    /** hash_add_fast, or he->value = newroute where the lookup found an element. */
    method Store(he: Element?<Addr, Route>, addr: Addr, r: Route)
      requires vhash.Valid() && vhash.Settled() && vhash.Found(he, addr)
      modifies vhash.repr
      ensures vhash.Valid() && vhash.Settled() && fresh(vhash.repr - old(vhash.repr))
      ensures vhash.contents == old(vhash.contents)[addr := r]
    {
      hide Hash.Valid;
      if he != null {
        vhash.WriteElement(vhash.HomeOf(addr), 0, he, addr, Some(addr), r);
      } else {
        vhash.AddNew(addr, r);
      }
    }

    /** The two branches of multi_learn_addr that succeed. */
    method Record(he: Element?<Addr, Route>, mi: nat, addr: Addr, r: Route)
      requires Valid() && vhash.Found(he, addr) && OwnersExist(View()) && mi in insts
      modifies `insts, vhash.repr, insts.Values
      ensures Valid() && Grown()
      ensures View() == var s := old(View());
                        var claimed := Claim(s.insts, mi);
                        s.(vhash := s.vhash[addr := r],
                           insts := if addr in s.vhash then RouteDel(claimed, s.vhash[addr].owner) else claimed)
    {
      hide Hash.Valid, Claim, RouteDel, Hash.Settled, MrouteHelper.Valid, ViewAll;
      Charge(mi, if he != null then Some(he.value.owner) else None);
      Store(he, addr, r);
    }

    /** hash_lookup, for the element; it changes the order of a chain and nothing else. */
    method LookupRoute(addr: Addr) returns (he: Element?<Addr, Route>)
      requires Valid()
      modifies vhash.repr
      ensures Valid() && vhash.repr == old(vhash.repr) && View() == old(View())
      ensures vhash.Valid() && vhash.Found(he, addr)
      ensures if he == null then addr !in View().vhash else addr in View().vhash && he.value == View().vhash[addr]
    {
      hide Hash.Valid;
      he := vhash.LookupElement(addr);
    }

    /** multi_learn_addr; `verdict` is the answer of the learn-address script or plugin. */
    method LearnAddr(mi: nat, addr: Addr, cached: bool, now: int, verdict: bool) returns (owner: Option<nat>)
      requires Valid() && OwnersExist(View()) && mi in insts
      modifies `insts, vhash.repr, insts.Values
      ensures Valid() && Grown()
      ensures (View(), owner) == Learn(old(View()), mi, addr, cached, now, verdict)
    {
      hide MultiContext.Valid, Hash.Valid, Hash.Found, ViewAll, Claim, RouteDel, Defined, Learnable;
      NamedFacts();
      var he := LookupRoute(addr);
      owner := None;
      if he != null && RouteDefined(he.value, now) {
        owner := Some(he.value.owner);
      }
      if owner != Some(mi) && Learnable(addr) && addr != local {
        var newroute := Route(mi, cached, if cached then routeHelper.cacheGeneration else 0, now);
        ViewAt(mi);
        if insts[mi].routeCount < insts[mi].maxRoutesPerClient && verdict {
          owner := Some(mi);
          Record(he, mi, addr, newroute);
        }
      }
    }

    /** route->last_reference = now. */
    method Touch(he: Element<Addr, Route>, addr: Addr, now: int)
      requires Valid() && vhash.Found(he, addr)
      modifies vhash.repr
      ensures Valid() && vhash.repr == old(vhash.repr)
      ensures View() == var s := old(View()); s.(vhash := s.vhash[addr := s.vhash[addr].(lastRef := now)])
    {
      hide Hash.Valid;
      vhash.WriteElement(vhash.HomeOf(addr), 0, he, addr, Some(addr), he.value.(lastRef := now));
    }

    /** The loop over CIDR lengths in multi_get_instance_by_virtual_addr. */
    method FirstNetwork(a: nat, now: int) returns (ret: Option<nat>)
      requires Valid() && OwnersExist(View())
      modifies vhash.repr
      ensures Valid() && vhash.repr == old(vhash.repr) && View() == old(View())
      ensures ret == FirstHit(View(), a, View().helper.netLens, now)
      ensures ret.Some? ==> ret.value in insts
    {
      hide Valid, Hash.Valid, Hash.Found, Mask, FirstHit, Defined, ViewAll;
      ghost var s := View();
      ghost var lens := s.helper.netLens;
      HelperLens();
      ret := None;
      var i := 0;
      while i < routeHelper.nNetLen
        invariant Valid() && vhash.repr == old(vhash.repr) && View() == s && 0 <= i <= routeHelper.nNetLen
        invariant |lens| == routeHelper.nNetLen && forall j | 0 <= j < |lens| :: lens[j] < MR_HELPER_NET_LEN
        invariant FirstHit(s, a, lens, now) == FirstHit(s, a, lens[i..], now)
      {
        HelperLens();
        HitStep(s, a, lens, i, now);
        var tryaddr := Net(Mask(a, routeHelper.netLen[i]), routeHelper.netLen[i]);
        var he := LookupRoute(tryaddr);
        if he != null && RouteDefined(he.value, now) {
          return Some(he.value.owner);
        }
        i := i + 1;
      }
      HitNone(s, a, lens, i, now);
    }

    /** The helper's array is the list of lengths in the view. */
    lemma HelperLens()
      requires Valid()
      ensures |View().helper.netLens| == routeHelper.nNetLen <= routeHelper.netLen.Length
      ensures forall i | 0 <= i < routeHelper.nNetLen :: View().helper.netLens[i] == routeHelper.netLen[i] < MR_HELPER_NET_LEN
    {
    }

    static lemma HitStep(s: Server, a: nat, lens: seq<nat>, i: nat, now: int)
      requires i < |lens| && forall j | 0 <= j < |lens| :: lens[j] < MR_HELPER_NET_LEN
      ensures var found := OwnerOf(s, Net(Mask(a, lens[i]), lens[i]), now);
              FirstHit(s, a, lens[i..], now) == if found.Some? then found else FirstHit(s, a, lens[i + 1..], now)
    {
      assert lens[i..][1..] == lens[i + 1..];
    }

    static lemma HitNone(s: Server, a: nat, lens: seq<nat>, i: nat, now: int)
      requires i == |lens| && forall j | 0 <= j < |lens| :: lens[j] < MR_HELPER_NET_LEN
      ensures FirstHit(s, a, lens[i..], now) == None
    {
    }

    /** multi_get_instance_by_virtual_addr. */
    method GetInstanceByVirtualAddr(addr: Addr, cidrRouting: bool, now: int, verdict: bool) returns (ret: Option<nat>)
      requires Valid() && OwnersExist(View()) && (cidrRouting ==> addr.Ip?)
      modifies `insts, vhash.repr, insts.Values
      ensures Valid() && Grown()
      ensures (View(), ret) == Lookup(old(View()), addr, cidrRouting, now, verdict)
    {
      hide MultiContext.Valid, Hash.Valid, Hash.Found, ViewAll, Defined, Learn, FirstHit;
      NamedFacts();
      ret := None;
      if addr == local {
        return;
      }
      var he := LookupRoute(addr);
      if he != null && RouteDefined(he.value, now) {
        ret := Some(he.value.owner);
        Touch(he, addr, now);
      } else if cidrRouting {
        ret := FirstNetwork(addr.a, now);
        if ret.Some? {
          var owner := LearnAddr(ret.value, addr, true, now, verdict);
        }
      }
    }

    /** multi_create_instance, where the client limit and the real address table let it through. */
    method CreateInstance(maxRoutes: nat) returns (mi: nat)
      requires Valid() && forall id <- insts :: id < nextId
      modifies `insts, `nextId
      ensures Valid() && View() == Create(old(View()), maxRoutes)
      ensures mi == old(nextId) && mi in insts && fresh(insts[mi])
    {
      hide Hash.Valid, Hash.Settled;
      mi := nextId;
      var instance := new MultiInstance(mi, maxRoutes);
      insts := insts[mi := instance];
      nextId := nextId + 1;
      assert ViewAll(insts) == old(ViewAll(insts))[mi := instance.View()];
    }

    /** One turn of the loop in multi_add_iroutes, with multi_learn_in_addr_t. */
    method AddOneIroute(mi: nat, ir: Iroute, now: int, verdict: bool)
      requires Valid() && OwnersExist(View()) && mi in insts && ir.netbits < MR_HELPER_NET_LEN
      modifies `insts, vhash.repr, insts.Values, routeHelper.Repr()
      ensures Valid() && Grown()
      ensures View() == AddIroute(old(View()), mi, ir, now, verdict)
    {
      hide Hash.Valid, Hash.Settled, Learn, ViewAll, CountIroute, MrouteHelper.Valid;
      ghost var s := View();
      routeHelper.AddIroute(ir);
      assert View() == s.(helper := CountIroute(s.helper, ir, 1));
      var owner := LearnAddr(mi, IrouteAddr(ir), false, now, verdict);
    }

    /** The first statement of multi_add_iroutes on a tun device. */
    method MarkIroutes(mi: nat, irs: seq<Iroute>)
      requires Valid() && mi in insts
      modifies insts[mi]
      ensures Valid() && View() == WithIroutes(old(View()), mi, irs)
    {
      hide Hash.Valid, Hash.Settled, MrouteHelper.Valid;
      insts[mi].didIroutes := true;
      insts[mi].iroutes := irs;
      OneWritten(mi);
    }

    /** The loop of multi_add_iroutes. */
    method AddAllIroutes(mi: nat, irs: seq<Iroute>, now: int, oks: seq<bool>)
      requires Valid() && Registering(View(), mi, irs, 0) && |oks| == |irs|
      modifies `insts, vhash.repr, insts.Values, routeHelper.Repr()
      ensures Valid() && Grown()
      ensures View() == AddIroutes(old(View()), mi, irs, 0, now, oks)
    {
      hide Hash.Valid, Hash.Settled, Registering, AddIroute, AddIroutes, MrouteHelper.Valid, ViewAll, OwnersExist;
      ghost var s := View();
      ghost var end := AddIroutes(s, mi, irs, 0, now, oks);
      var i := 0;
      while i < |irs|
        invariant 0 <= i <= |irs| && Valid() && Grown()
        invariant Registering(View(), mi, irs, i)
        invariant AddIroutes(View(), mi, irs, i, now, oks) == end
      {
        RegisteringTurn(View(), mi, irs, i, now, oks);
        AddOneIroute(mi, irs[i], now, oks[i]);
        i := i + 1;
      }
      AddIroutesDone(View(), mi, irs, now, oks);
    }

    /** multi_add_iroutes on a tun device. */
    method AddIroutesOf(mi: nat, irs: seq<Iroute>, now: int, oks: seq<bool>)
      requires Valid() && mi in insts && |oks| == |irs| && Registering(WithIroutes(View(), mi, irs), mi, irs, 0)
      modifies `insts, vhash.repr, insts.Values, routeHelper.Repr()
      ensures Valid() && Grown()
      ensures View() == AddIroutes(WithIroutes(old(View()), mi, irs), mi, irs, 0, now, oks)
    {
      hide MultiContext.Valid, ViewAll, AddIroutes, Registering, WithIroutes;
      MarkIroutes(mi, irs);
      AddAllIroutes(mi, irs, now, oks);
    }

    /** The routing part of multi_connection_established, on a tun device. */
    method ConnectionEstablished(mi: nat, host: Option<nat>, hostOk: bool, irs: seq<Iroute>, now: int, oks: seq<bool>)
      requires Valid() && Inv(View()) && Connectable(View(), mi, host, irs, oks)
      modifies `insts, vhash.repr, insts.Values, routeHelper.Repr()
      ensures Valid() && Grown()
      ensures View() == Connect(old(View()), mi, host, hostOk, irs, oks, now)
    {
      hide MultiContext.Valid, ViewAll, Connect, AddIroutes, Registering, Inv, Learn, WithIroutes, OwnersExist;
      ConnectFirst(View(), mi, host, hostOk, irs, oks, now);
      if host.Some? {
        var owner := LearnAddr(mi, Ip(host.value), false, now, hostOk);
      }
      AddIroutesOf(mi, irs, now, oks);
    }

    /** multi_del_iroutes: none of mroute_helper_del_iroute's assertions can fail. */
    method DelAllIroutes(irs: seq<Iroute>, ghost insts': Insts)
      requires Valid() && IroutesOk(irs) && LensOk(routeHelper.View(), insts', nextId, [], irs)
      modifies routeHelper.Repr()
      ensures Valid() && View() == old(View()).(helper := DelIroutes(old(routeHelper.View()), irs))
    {
      hide MrouteHelper.Valid, CountIroute, LensOk, MultiContext.Valid;
      HelperValid();
      NamedFacts();
      ghost var h := routeHelper.View();
      var i := 0;
      while i < |irs|
        invariant 0 <= i <= |irs| && routeHelper.Valid() && LensOk(routeHelper.View(), insts', nextId, [], irs[i..])
        invariant DelIroutes(routeHelper.View(), irs[i..]) == DelIroutes(h, irs)
      {
        assert irs[i..][0] == irs[i] && irs[i..][1..] == irs[i + 1..] && IrouteOk(irs[i]);
        CountDownLens(routeHelper.View(), insts', nextId, irs[i..]);
        if irs[i].netbits >= 0 {
          CountedAtLeastOnce(routeHelper.View(), insts', nextId, irs[i..]);
        }
        routeHelper.DelIroute(irs[i]);
        i := i + 1;
      }
      HelperWritten();
    }

    method SetFlags(mi: nat, halt: bool, didIroutes: bool)
      requires Valid() && mi in insts
      modifies insts[mi]
      ensures Valid() && insts == old(insts)
      ensures View() == var s := old(View()); s.(insts := s.insts[mi := s.insts[mi].(halt := halt, didIroutes := didIroutes)])
      ensures insts[mi].iroutes == old(insts[mi].iroutes) && insts[mi].didIroutes == didIroutes
    {
      hide ViewAll, MultiContext.Valid;
      NamedFacts();
      ViewAt(mi);
      insts[mi].halt := halt;
      insts[mi].didIroutes := didIroutes;
      OneWritten(mi);
      InstancesWritten();
    }

    /** The instance stops being live and its CIDR lengths go. */
    method Halt(mi: nat, ghost after: Insts)
      requires Valid() && mi in insts && IroutesOk(insts[mi].iroutes)
      requires insts[mi].didIroutes ==> LensOk(routeHelper.View(), after, nextId, [], insts[mi].iroutes)
      modifies insts[mi], routeHelper.Repr()
      ensures Valid() && insts == old(insts) && View() == Halted(old(View()), mi)
    {
      hide MultiContext.Valid, DelIroutes, LensOk, ViewAll;
      ViewAt(mi);
      SetFlags(mi, true, insts[mi].didIroutes);
      if insts[mi].didIroutes {
        DelAllIroutes(insts[mi].iroutes, after);
        SetFlags(mi, true, false);
      }
    }

    method Release(mi: nat)
      requires Valid() && mi in insts
      modifies `insts, insts[mi]
      ensures Valid() && SameObjects()
      ensures View() == old(View()).(insts := DecRef(old(View()).insts, mi))
    {
      hide ViewAll, DecRef, MultiContext.Valid;
      NamedFacts();
      DecRefcount(mi);
      InstancesWritten();
    }

    /** multi_close_instance outside shutdown, as far as routing goes. */
    method CloseInstance(mi: nat)
      requires Valid() && Inv(View()) && Live(View(), mi)
      modifies `insts, insts[mi], routeHelper.Repr()
      ensures Valid() && SameObjects()
      ensures IroutesOk(old(View()).insts[mi].iroutes) && View() == Close(old(View()), mi)
    {
      hide MultiContext.Valid, Inv, DelIroutes, LensOk, DecRef;
      CloseKeeps(View(), mi);
      DelLens(View(), mi);
      Halt(mi, Halted(View(), mi).insts);
      Release(mi);
    }

    /** The body of multi_reap_range's loop for one visited route. */
    method ReapVisited(hi: HashIterator<Addr, Route>, addr: Addr, r: Route, now: int)
      requires hi.Valid() && hi.hash == vhash && Sound() && hi.last != null && hi.last.key == Some(addr)
      requires OwnersExist(View()) && addr in vhash.contents && vhash.contents[addr] == r
      modifies `insts, insts.Values, hi, vhash.repr
      ensures hi.Valid() && Sound() && SameObjects() && vhash.repr == old(vhash.repr) && hi.rest == old(hi.rest)
      ensures View() == ReapOne(old(View()), addr, now)
    {
      hide HashIterator.Valid, Hash.Valid, RouteDel, ViewAll, Defined;
      if !RouteDefined(r, now) {
        RouteDelete(r.owner);
        hi.DeleteElement();
      }
    }

    /** One turn of multi_reap_range's loop. */
    method ReapNext(hi: HashIterator<Addr, Route>, now: int) returns (found: bool, ghost addr: Addr)
      requires hi.Valid() && hi.hash == vhash && Sound() && OwnersExist(View())
      modifies `insts, insts.Values, hi, vhash.repr
      ensures hi.Valid() && Sound() && SameObjects() && vhash.repr == old(vhash.repr)
      ensures found == (old(hi.rest) != [])
      ensures if found then old(hi.rest)[0].key == Some(addr) && hi.rest == old(hi.rest)[1..] && View() == ReapOne(old(View()), addr, now)
              else hi.rest == [] && View() == old(View())
    {
      hide HashIterator.Valid, Hash.Valid, ViewAll, ReapOne, MrouteHelper.Valid;
      var he := hi.Next();
      found, addr := he != null, local;
      if he != null {
        addr := he.key.value;
        hi.LastStands();
        ReapVisited(hi, he.key.value, he.value, now);
      }
    }

    /** hash_iterator_free after multi_reap_range's loop. */
    method FinishReap(hi: HashIterator<Addr, Route>)
      requires hi.Valid() && hi.hash == vhash && Sound()
      modifies hi, vhash.repr
      ensures Valid() && insts == old(insts) && nextId == old(nextId) && vhash.repr == old(vhash.repr) && View() == old(View())
    {
      hide HashIterator.Valid, Hash.Valid, Hash.Settled, MrouteHelper.Valid;
      hi.Unlock();
    }

    /** The loop of multi_reap_range. */
    method ReapLoop(hi: HashIterator<Addr, Route>, now: int) returns (ghost keys: seq<Addr>)
      requires hi.Valid() && hi.hash == vhash && Sound() && Inv(View())
      modifies `insts, insts.Values, hi, vhash.repr
      ensures hi.Valid() && Sound() && SameObjects() && vhash.repr == old(vhash.repr)
      ensures View() == Reap(old(View()), keys, now) && KeysOf(old(hi.rest), keys)
    {
      hide HashIterator.Valid, Hash.Valid, Hash.Settled, Reap, ReapOne, OwnersExist, ViewAll, Inv, Sound, KeysOf;
      ghost var s := View();
      ghost var order := hi.rest;
      ghost var visited: seq<Entry<Addr, Route>> := [];
      keys := [];
      NoKeys();
      ReapNone(s, now);
      var more := true;
      while more
        invariant hi.Valid() && hi.hash == vhash && Sound() && SameObjects() && vhash.repr == old(vhash.repr)
        invariant View() == Reap(s, keys, now) && order == visited + hi.rest && KeysOf(visited, keys)
        invariant !more ==> hi.rest == []
        decreases |hi.rest| + if more then 1 else 0
      {
        ghost var rest, addr := hi.rest, local;
        ReapSnoc(s, keys, if rest == [] || rest[0].key.None? then local else rest[0].key.value, now);
        more, addr := ReapNext(hi, now);
        if more {
          Regroup(visited, rest);
          KeysMore(visited, keys, rest[0], addr);
          visited, keys := visited + [rest[0]], keys + [addr];
        }
      }
      assert visited + hi.rest == visited;
    }

    /** multi_reap_range over buckets start to end; keys are the addresses it visits. */
    method ReapRange(start: nat, end: nat, now: int) returns (ghost keys: seq<Addr>)
      requires Valid() && Inv(View()) && start <= Cut(end, vhash.nBuckets)
      modifies `insts, insts.Values, vhash.repr
      ensures Valid() && SameObjects() && vhash.repr == old(vhash.repr)
      ensures View() == Reap(old(View()), keys, now)
      ensures forall k <- old(vhash.contents) :: start <= vhash.HomeOf(k) < Cut(end, vhash.nBuckets) ==> k in keys
    {
      hide HashIterator.Valid, Hash.Valid, Hash.Settled, Ahead, Reap, ReapOne, OwnersExist, ViewAll, Inv, Sound, KeysOf;
      NamedFacts();
      vhash.Core();
      ghost var m, t := vhash.contents, vhash.table;
      var hi := new HashIterator(vhash, start, end);
      keys := ReapLoop(hi, now);
      FinishReap(hi);
      Visits(t, vhash.hashFunction, m, start, Cut(end, vhash.nBuckets), keys);
    }
  }

  ghost predicate KeysOf(visited: seq<Entry<Addr, Route>>, keys: seq<Addr>) {
    |keys| == |visited| && forall i | 0 <= i < |keys| :: visited[i].key == Some(keys[i])
  }

  lemma NoKeys()
    ensures KeysOf([], [])
  {
  }

  lemma KeysMore(visited: seq<Entry<Addr, Route>>, keys: seq<Addr>, e: Entry<Addr, Route>, k: Addr)
    requires KeysOf(visited, keys) && e.key == Some(k)
    ensures KeysOf(visited + [e], keys + [k])
  {
  }

  lemma ReapNone(s: Server, now: int)
    requires Inv(s)
    ensures Reap(s, [], now) == s
  {
  }

  /** A pass over a range of buckets visits every key that lives there. */
  lemma Visits(t: HashTables.Table<Addr, Route>, f: Addr -> nat, m: map<Addr, Route>, from: nat, end: nat, keys: seq<Addr>)
    requires Represents(t, f, m) && from <= end <= |t| && KeysOf(Ahead(t, from, end), keys)
    ensures forall k <- m :: from <= Home(f(k), |t|) < end ==> k in keys
  {
    var any := (k: Addr, r: Route) => true;
    forall k | k in m && from <= Home(f(k), |t|) < end ensures k in keys {
      DoomedInRange(t, f, m, from, end, any, k);
      var i :| 0 <= i < |Ahead(t, from, end)| && Ahead(t, from, end)[i].key == Some(k) && any(k, Ahead(t, from, end)[i].value);
      assert keys[i] == k;
    }
  }
}
