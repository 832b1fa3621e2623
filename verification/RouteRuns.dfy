/**
  Every step of the server keeps the routing invariant, so over every run lookups answer from the
  table of permanent routes and cached routes are invisible.
*/
module RouteRuns {
  import opened Options
  import opened RouteModel
  import opened RouteTable

  // ------------------------------------------------------------------ lookups

  /** Whatever is cached, a lookup of a non-local address answers from the permanent routes alone. */
  lemma LookupAnswers(s: Server, addr: Addr, now: int, verdict: bool)
    requires Inv(s) && addr != s.local && !addr.Net?
    ensures Lookup(s, addr, addr.Ip?, now, verdict).1 == Answer(TableOf(s), addr)
  {
    if OwnerOf(s, addr, now).Some? {
      assert RouteOk(s, addr) && CacheOk(s, addr);
    } else if addr.Ip? {
      FirstHitIsLpm(s, addr.a, MR_HELPER_NET_LEN, now);
    }
  }

  // ------------------------------------------------------------------ what a step does to the table

  lemma LiveSame(s: Server, s': Server, id: nat)
    requires SameLive(s.insts, s'.insts)
    ensures Live(s', id) <==> Live(s, id)
  {
  }

  /** The shape of what learning does, apart from the counters. */
  lemma LearnEffect(s: Server, mi: nat, addr: Addr, cached: bool, now: int, verdict: bool)
    requires Counted(s) && Live(s, mi)
    ensures var s' := Learn(s, mi, addr, cached, now, verdict).0;
            && SameLive(s.insts, s'.insts)
            && s'.vhash == (if Learns(s, mi, addr, now, verdict)
                            then s.vhash[addr := Route(mi, cached, if cached then s.helper.gen else 0, now)] else s.vhash)
            && s'.helper == s.helper && s'.local == s.local && s'.nextId == s.nextId
  {
    hide SameLive, Claim, RouteDel, Counted;
    LearnSameLive(s, mi, addr, cached, now, verdict);
  }

  lemma PutTable(s: Server, s': Server, addr: Addr, r: Route)
    requires SameLive(s.insts, s'.insts) && s'.vhash == s.vhash[addr := r] && Live(s, r.owner)
    requires r.cached ==> !Permanent(s, addr)
    ensures TableOf(s') == if r.cached then TableOf(s) else TableOf(s)[addr := r.owner]
  {
    forall id ensures Live(s', id) <==> Live(s, id) {
      LiveSame(s, s', id);
    }
  }

  lemma SameTable(s: Server, s': Server)
    requires SameLive(s.insts, s'.insts) && s'.vhash == s.vhash
    ensures TableOf(s') == TableOf(s)
  {
    forall id ensures Live(s', id) <==> Live(s, id) {
      LiveSame(s, s', id);
    }
  }

  /** A permanent route enters the table; a cached one leaves it as it was. */
  lemma LearnTable(s: Server, mi: nat, addr: Addr, cached: bool, now: int, verdict: bool)
    requires Counted(s) && Live(s, mi) && (cached ==> OwnerOf(s, addr, now) == None)
    ensures var s' := Learn(s, mi, addr, cached, now, verdict).0;
            TableOf(s') == if Learns(s, mi, addr, now, verdict) && !cached then TableOf(s)[addr := mi] else TableOf(s)
  {
    LearnEffect(s, mi, addr, cached, now, verdict);
    hide SameLive, Learn, Counted, TableOf, UnderQuota, Learnable;
    var s' := Learn(s, mi, addr, cached, now, verdict).0;
    if Learns(s, mi, addr, now, verdict) {
      PutTable(s, s', addr, s'.vhash[addr]);
    } else {
      SameTable(s, s');
    }
  }

  lemma ReapTable(s: Server, addr: Addr, now: int)
    requires Counted(s)
    ensures TableOf(ReapOne(s, addr, now)) == TableOf(s)
  {
    var s' := ReapOne(s, addr, now);
    ReapSameLive(s, addr, now);
    forall id ensures Live(s', id) <==> Live(s, id) {
      LiveSame(s, s', id);
    }
  }

  /** Closing an instance takes exactly its own routes out of the table. */
  lemma CloseTable(s: Server, mi: nat, k: Addr)
    requires Counted(s) && Live(s, mi) && LensInRange(s.helper) && IroutesOk(s.insts[mi].iroutes)
    ensures Get(TableOf(Close(s, mi)), k) == if Get(TableOf(s), k) == Some(mi) then None else Get(TableOf(s), k)
  {
  }

  // ------------------------------------------------------------------ what a step keeps

  lemma {:induction false} TotalSame(insts: Insts, insts': Insts, n: nat, ids: nat)
    requires SameLive(insts, insts') && InstsOk(insts)
    ensures Total(insts', n, ids) == Total(insts, n, ids)
  {
    if ids > 0 {
      TotalSame(insts, insts', n, ids - 1);
    }
  }

  lemma SameLiveInsts(insts: Insts, insts': Insts)
    requires SameLive(insts, insts') && InstsOk(insts)
    ensures InstsOk(insts')
  {
    forall id | id in insts' ensures InstOk(insts'[id]) {
      assert InstOk(insts[id]);
    }
  }

  lemma SameLiveLens(h: Helper, insts: Insts, insts': Insts, nextId: nat, add: seq<Iroute>, del: seq<Iroute>)
    requires SameLive(insts, insts') && InstsOk(insts) && LensOk(h, insts, nextId, add, del)
    ensures LensOk(h, insts', nextId, add, del)
  {
    forall n: nat | n < MR_HELPER_NET_LEN ensures Total(insts', n, nextId) == Total(insts, n, nextId) {
      TotalSame(insts, insts', n, nextId);
    }
  }

  lemma RouteKept(s: Server, s': Server, k: Addr)
    requires k in s.vhash && k in s'.vhash && s'.vhash[k].(lastRef := 0) == s.vhash[k].(lastRef := 0)
    requires RouteOk(s, k) && SameLive(s.insts, s'.insts) && s.helper.gen <= s'.helper.gen
    ensures RouteOk(s', k)
  {
  }

  lemma CacheKept(s: Server, s': Server, k: Addr)
    requires k in s.vhash && k in s'.vhash && s'.vhash[k].(lastRef := 0) == s.vhash[k].(lastRef := 0)
    requires RouteOk(s, k) && CacheOk(s, k) && SameLive(s.insts, s'.insts) && s.helper.gen <= s'.helper.gen
    requires k.Ip? && s'.helper.gen == s.helper.gen ==> Lpm(TableOf(s'), k.a, MR_HELPER_NET_LEN) == Lpm(TableOf(s), k.a, MR_HELPER_NET_LEN)
    ensures CacheOk(s', k)
  {
    hide TableOf, Lpm;
  }

  // ------------------------------------------------------------------ learning

  /** What the callers of multi_learn_addr have established about the address. */
  ghost predicate LearnCase(s: Server, mi: nat, addr: Addr, cached: bool, now: int) {
    && Live(s, mi) && AddrOk(addr)
    && (cached ==> addr.Ip? && s.insts[mi].didIroutes && OwnerOf(s, addr, now) == None && Lpm(TableOf(s), addr.a, MR_HELPER_NET_LEN) == Some(mi))
    && (addr.Net? ==> NoCurrentCache(s) && s.insts[mi].didIroutes && Uses(s.insts[mi].iroutes, addr.bits) > 0)
  }

  predicate NoCurrentCache(s: Server) {
    forall k <- s.vhash :: s.vhash[k].cached ==> s.vhash[k].gen < s.helper.gen
  }

  lemma LearnRoutesOk(s: Server, mi: nat, addr: Addr, cached: bool, now: int, verdict: bool)
    requires Counted(s) && RoutesOk(s) && LearnCase(s, mi, addr, cached, now)
    ensures RoutesOk(Learn(s, mi, addr, cached, now, verdict).0)
  {
    var s' := Learn(s, mi, addr, cached, now, verdict).0;
    LearnEffect(s, mi, addr, cached, now, verdict);
    hide Learn, Counted, Learns, OwnerOf, Lpm, TableOf;
    forall k | k in s'.vhash ensures RouteOk(s', k) {
      if !Learns(s, mi, addr, now, verdict) || k != addr {
        RouteKept(s, s', k);
      }
    }
  }

  lemma LearnCachesOk(s: Server, mi: nat, addr: Addr, cached: bool, now: int, verdict: bool)
    requires Counted(s) && RoutesOk(s) && CachesOk(s) && LearnCase(s, mi, addr, cached, now)
    ensures CachesOk(Learn(s, mi, addr, cached, now, verdict).0)
  {
    var s' := Learn(s, mi, addr, cached, now, verdict).0;
    LearnEffect(s, mi, addr, cached, now, verdict);
    LearnTable(s, mi, addr, cached, now, verdict);
    hide Learn, Counted, Learns, OwnerOf, Lpm, TableOf, SameLive;
    forall k | k in s'.vhash ensures CacheOk(s', k) {
      if !Learns(s, mi, addr, now, verdict) || k != addr {
        if !cached && k.Ip? && !addr.Net? {
          LpmIgnoresHosts(TableOf(s), addr, mi, k.a, MR_HELPER_NET_LEN);
        }
        assert RouteOk(s, k) && CacheOk(s, k);
        if addr.Net? {
          assert s.vhash[k].cached ==> s.vhash[k].gen < s.helper.gen;
        } else {
          CacheKept(s, s', k);
        }
      }
    }
  }

  lemma LearnConsistent(s: Server, mi: nat, addr: Addr, cached: bool, now: int, verdict: bool, add: seq<Iroute>)
    requires Consistent(s, add) && LearnCase(s, mi, addr, cached, now)
    ensures var s' := Learn(s, mi, addr, cached, now, verdict).0;
            Consistent(s', add) && Live(s', mi) && s'.insts[mi].iroutes == s.insts[mi].iroutes
            && s'.insts[mi].didIroutes == s.insts[mi].didIroutes
  {
    var s' := Learn(s, mi, addr, cached, now, verdict).0;
    LearnCounted(s, mi, addr, cached, now, verdict);
    LearnEffect(s, mi, addr, cached, now, verdict);
    LearnRoutesOk(s, mi, addr, cached, now, verdict);
    LearnCachesOk(s, mi, addr, cached, now, verdict);
    hide Learn, Counted, RoutesOk, CachesOk, LensOk, InstsOk;
    SameLiveInsts(s.insts, s'.insts);
    SameLiveLens(s.helper, s.insts, s'.insts, s.nextId, add, []);
  }

  // ------------------------------------------------------------------ lookups and reaping

  lemma TouchCounted(s: Server, addr: Addr, now: int)
    requires Counted(s) && addr in s.vhash
    ensures Counted(s.(vhash := s.vhash[addr := s.vhash[addr].(lastRef := now)]))
  {
    var s' := s.(vhash := s.vhash[addr := s.vhash[addr].(lastRef := now)]);
    forall id | id in s'.insts ensures CountsOk(s'.insts, s'.vhash, id) {
      assert CountsOk(s.insts, s.vhash, id);
      assert RoutesOf(s'.vhash, id) == RoutesOf(s.vhash, id);
    }
  }

  lemma TouchTable(s: Server, addr: Addr, now: int)
    requires addr in s.vhash
    ensures TableOf(s.(vhash := s.vhash[addr := s.vhash[addr].(lastRef := now)])) == TableOf(s)
  {
  }

  lemma SameLiveSelf(insts: Insts)
    ensures SameLive(insts, insts)
  {
  }

  lemma TouchConsistent(s: Server, addr: Addr, now: int)
    requires Inv(s) && addr in s.vhash
    ensures var s' := s.(vhash := s.vhash[addr := s.vhash[addr].(lastRef := now)]);
            Inv(s') && TableOf(s') == TableOf(s)
  {
    hide Counted, TableOf, LensOk, InstsOk, RouteOk, CacheOk, SameLive, Lpm;
    var s' := s.(vhash := s.vhash[addr := s.vhash[addr].(lastRef := now)]);
    TouchTable(s, addr, now);
    TouchCounted(s, addr, now);
    SameLiveSelf(s.insts);
    forall k | k in s'.vhash ensures RouteOk(s', k) && CacheOk(s', k) {
      assert RouteOk(s, k) && CacheOk(s, k);
      RouteKept(s, s', k);
      CacheKept(s, s', k);
    }
  }

  /** A lookup keeps the invariant and changes no answer, then or later. */
  lemma LookupKeeps(s: Server, addr: Addr, now: int, verdict: bool)
    requires Inv(s) && AddrOk(addr) && !addr.Net?
    ensures var s' := Lookup(s, addr, addr.Ip?, now, verdict).0;
            Inv(s') && TableOf(s') == TableOf(s)
  {
    if addr != s.local {
      if OwnerOf(s, addr, now).Some? {
        TouchConsistent(s, addr, now);
      } else if addr.Ip? {
        FirstHitIsLpm(s, addr.a, MR_HELPER_NET_LEN, now);
        var mi := Lpm(TableOf(s), addr.a, MR_HELPER_NET_LEN);
        if mi.Some? {
          LpmLive(s, addr.a, MR_HELPER_NET_LEN);
          LearnTable(s, mi.value, addr, true, now, verdict);
          LearnConsistent(s, mi.value, addr, true, now, verdict, []);
        }
      }
    }
  }

  lemma {:induction false} LpmLive(s: Server, a: nat, n: nat)
    requires n <= MR_HELPER_NET_LEN
    ensures Lpm(TableOf(s), a, n).Some? ==> Live(s, Lpm(TableOf(s), a, n).value)
    ensures Lpm(TableOf(s), a, n).Some? && RoutesOk(s) ==> s.insts[Lpm(TableOf(s), a, n).value].didIroutes
  {
    if n > 0 {
      if Net(Mask(a, n - 1), n - 1) in TableOf(s) && RoutesOk(s) {
        assert RouteOk(s, Net(Mask(a, n - 1), n - 1));
      }
      LpmLive(s, a, n - 1);
    }
  }

  /** Reaping keeps the invariant and changes no answer. */
  lemma ReapKeeps(s: Server, addr: Addr, now: int)
    requires Inv(s)
    ensures Inv(ReapOne(s, addr, now)) && TableOf(ReapOne(s, addr, now)) == TableOf(s)
  {
    var s' := ReapOne(s, addr, now);
    ReapTable(s, addr, now);
    ReapCounted(s, addr, now);
    ReapSameLive(s, addr, now);
    SameLiveInsts(s.insts, s'.insts);
    SameLiveLens(s.helper, s.insts, s'.insts, s.nextId, [], []);
    hide CountsOk, TableOf, LensOk, InstsOk, SameLive, Defined, RouteDel;
    forall k | k in s'.vhash ensures RouteOk(s', k) && CacheOk(s', k) {
      assert RouteOk(s, k) && CacheOk(s, k);
      RouteKept(s, s', k);
      CacheKept(s, s', k);
    }
  }

  // ------------------------------------------------------------------ connecting

  lemma {:induction false} TotalUpdate(insts: Insts, mi: nat, i: Inst, n: nat, ids: nat)
    ensures Total(insts[mi := i], n, ids)
            == Total(insts, n, ids) + (if mi < ids then Weight(insts[mi := i], mi, n) - Weight(insts, mi, n) else 0)
  {
    if ids > 0 {
      TotalUpdate(insts, mi, i, n, ids - 1);
    }
  }

  /** multi_add_iroutes marks the instance before it registers anything. */
  function WithIroutes(s: Server, mi: nat, irs: seq<Iroute>): Server
    requires mi in s.insts
  {
    s.(insts := s.insts[mi := s.insts[mi].(didIroutes := true, iroutes := irs)])
  }

  lemma MarkConsistent(s: Server, mi: nat, irs: seq<Iroute>)
    requires Inv(s) && Live(s, mi) && !s.insts[mi].didIroutes && IroutesOk(irs)
    ensures Consistent(WithIroutes(s, mi, irs), irs) && TableOf(WithIroutes(s, mi, irs)) == TableOf(s)
  {
    var s' := WithIroutes(s, mi, irs);
    assert TableOf(s') == TableOf(s);
    forall id | id in s'.insts ensures CountsOk(s'.insts, s'.vhash, id) && InstOk(s'.insts[id]) {
      assert CountsOk(s.insts, s.vhash, id) && InstOk(s.insts[id]);
    }
    forall n: nat | n < MR_HELPER_NET_LEN
      ensures s.helper.lenCount[n] + Uses(irs, n) == Total(s'.insts, n, s.nextId) {
      TotalUpdate(s.insts, mi, s'.insts[mi], n, s.nextId);
    }
    hide CountsOk, TableOf, Total;
    forall k | k in s'.vhash ensures RouteOk(s', k) && CacheOk(s', k) {
      assert RouteOk(s, k) && CacheOk(s, k);
    }
  }

  lemma {:induction false} UsesMember(irs: seq<Iroute>, i: nat)
    requires i < |irs| && irs[i].netbits >= 0
    ensures Uses(irs, irs[i].netbits) > 0
  {
    if i > 0 {
      UsesMember(irs[1..], i - 1);
    }
  }

  /** Registering a network keeps the list of lengths exact, and no cached route stays current. */
  lemma CountUpLens(h: Helper, insts: Insts, nextId: nat, add: seq<Iroute>)
    requires add != [] && IrouteOk(add[0]) && LensOk(h, insts, nextId, add, [])
    ensures LensOk(CountIroute(h, add[0], 1), insts, nextId, add[1..], [])
  {
    var h' := CountIroute(h, add[0], 1);
    if add[0].netbits >= 0 && h'.lenCount[add[0].netbits] != 1 {
      InUseSame(h.lenCount, h'.lenCount, MR_HELPER_NET_LEN);
    }
  }

  /** So mroute_helper_del_iroute's assertion that the count stays non-negative holds. */
  lemma CountedAtLeastOnce(h: Helper, insts: Insts, nextId: nat, del: seq<Iroute>)
    requires del != [] && IrouteOk(del[0]) && LensOk(h, insts, nextId, [], del) && del[0].netbits >= 0
    ensures h.lenCount[del[0].netbits] > 0
  {
    assert h.lenCount[del[0].netbits] + Uses([], del[0].netbits) == Total(insts, del[0].netbits, nextId) + Uses(del, del[0].netbits);
  }

  lemma CountDownLens(h: Helper, insts: Insts, nextId: nat, del: seq<Iroute>)
    requires del != [] && IrouteOk(del[0]) && LensOk(h, insts, nextId, [], del)
    ensures LensOk(CountIroute(h, del[0], -1), insts, nextId, [], del[1..])
  {
    var h' := CountIroute(h, del[0], -1);
    if del[0].netbits >= 0 && h'.lenCount[del[0].netbits] != 0 {
      InUseSame(h.lenCount, h'.lenCount, MR_HELPER_NET_LEN);
    }
  }

  lemma CountUpConsistent(s: Server, add: seq<Iroute>)
    requires add != [] && IrouteOk(add[0]) && Consistent(s, add)
    ensures var s' := s.(helper := CountIroute(s.helper, add[0], 1));
            Consistent(s', add[1..]) && TableOf(s') == TableOf(s) && (add[0].netbits >= 0 ==> NoCurrentCache(s'))
  {
    var s' := s.(helper := CountIroute(s.helper, add[0], 1));
    CountUpLens(s.helper, s.insts, s.nextId, add);
    assert TableOf(s') == TableOf(s);
    hide TableOf, LensOk, InstsOk, CountsOk;
    forall k | k in s'.vhash ensures RouteOk(s', k) && CacheOk(s', k) {
      assert RouteOk(s, k) && CacheOk(s, k);
    }
  }

  ghost predicate Registering(s: Server, mi: nat, irs: seq<Iroute>, done: nat) {
    && done <= |irs| && IroutesOk(irs) && Consistent(s, irs[done..])
    && Live(s, mi) && s.insts[mi].didIroutes && s.insts[mi].iroutes == irs
    && OwnsNoCache(s, mi)
  }

  predicate OwnsNoCache(s: Server, mi: nat) {
    forall k <- s.vhash :: s.vhash[k].cached ==> s.vhash[k].owner != mi
  }

  /** Until its iroutes are in, a client owns no cached route. */
  lemma FreshOwnsNoCache(s: Server, mi: nat)
    requires Inv(s) && Live(s, mi) && !s.insts[mi].didIroutes
    ensures OwnsNoCache(s, mi)
  {
    forall k | k in s.vhash ensures s.vhash[k].cached ==> s.vhash[k].owner != mi {
      assert RouteOk(s, k);
    }
  }

  /** Learnable, not ours, quota left, script willing. */
  predicate MayRecord(s: Server, mi: nat, addr: Addr, verdict: bool)
    requires mi in s.insts
  {
    Learnable(addr) && addr != s.local && UnderQuota(s.insts[mi]) && verdict
  }

  lemma RegisteringFacts(s: Server, mi: nat, irs: seq<Iroute>, done: nat)
    requires Registering(s, mi, irs, done) && done < |irs|
    ensures OwnersExist(s) && LensInRange(s.helper) && Live(s, mi) && IrouteOk(irs[done])
  {
  }

  lemma OwnOrCached(s: Server, mi: nat, addr: Addr, now: int)
    requires Live(s, mi) && OwnsNoCache(s, mi)
    ensures OwnerOf(s, addr, now) == Some(mi) <==> Get(TableOf(s), addr) == Some(mi)
    ensures OwnerOf(s, addr, now) == Some(mi) ==> TableOf(s)[addr := mi] == TableOf(s)
  {
  }

  /** One turn of multi_add_iroutes: the length is counted, and the route enters the table if it may. */
  lemma AddIrouteKeeps(s: Server, mi: nat, irs: seq<Iroute>, done: nat, now: int, verdict: bool)
    requires Registering(s, mi, irs, done) && done < |irs|
    ensures var s' := AddIroute(s, mi, irs[done], now, verdict);
            var addr := IrouteAddr(irs[done]);
            && Registering(s', mi, irs, done + 1)
            && TableOf(s') == if MayRecord(s, mi, addr, verdict) then TableOf(s)[addr := mi] else TableOf(s)
  {
    hide TableOf, LensOk, InstsOk, Counted, RoutesOk, CachesOk, Learn, OwnerOf, CountIroute, NoCurrentCache, Uses;
    RegisteringFacts(s, mi, irs, done);
    var s1 := s.(helper := CountIroute(s.helper, irs[done], 1));
    assert irs[done..][0] == irs[done] && irs[done..][1..] == irs[done + 1..];
    CountUpConsistent(s, irs[done..]);
    if irs[done].netbits >= 0 {
      UsesMember(irs, done);
    }
    assert IrouteOk(irs[done]);
    LearnEffect(s1, mi, IrouteAddr(irs[done]), false, now, verdict);
    OwnOrCached(s1, mi, IrouteAddr(irs[done]), now);
    LearnTable(s1, mi, IrouteAddr(irs[done]), false, now, verdict);
    LearnConsistent(s1, mi, IrouteAddr(irs[done]), false, now, verdict, irs[done + 1..]);
  }

  /** The same clients are connected, and no freed instance is back. */
  ghost predicate SameClients(s: Server, s': Server) {
    && s'.nextId == s.nextId
    && (forall id :: Live(s', id) <==> Live(s, id))
    && (forall id <- s'.insts :: id in s.insts)
  }

  lemma LearnClients(s: Server, mi: nat, addr: Addr, now: int, verdict: bool)
    requires Counted(s) && Live(s, mi)
    ensures SameClients(s, Learn(s, mi, addr, false, now, verdict).0)
  {
    LearnEffect(s, mi, addr, false, now, verdict);
  }

  /** multi_add_iroutes from its done-th iroute on; oks are the learn-address verdicts in order. */
  ghost function AddIroutes(s: Server, mi: nat, irs: seq<Iroute>, done: nat, now: int, oks: seq<bool>): (s': Server)
    requires Registering(s, mi, irs, done) && |oks| == |irs|
    ensures Registering(s', mi, irs, |irs|) && SameClients(s, s')
    decreases |irs| - done
  {
    if done == |irs| then s
    else
      LearnClients(s.(helper := CountIroute(s.helper, irs[done], 1)), mi, IrouteAddr(irs[done]), now, oks[done]);
      AddIrouteKeeps(s, mi, irs, done, now, oks[done]);
      AddIroutes(AddIroute(s, mi, irs[done], now, oks[done]), mi, irs, done + 1, now, oks)
  }

  lemma Marked(s: Server, mi: nat, irs: seq<Iroute>)
    requires Inv(s) && Live(s, mi) && !s.insts[mi].didIroutes && IroutesOk(irs)
    ensures Registering(WithIroutes(s, mi, irs), mi, irs, 0)
  {
    assert irs[0..] == irs;
    FreshOwnsNoCache(s, mi);
    MarkConsistent(s, mi, irs);
  }

  /** What a turn of the loop may rely on, and what is left after it. */
  lemma RegisteringTurn(s: Server, mi: nat, irs: seq<Iroute>, done: nat, now: int, oks: seq<bool>)
    requires Registering(s, mi, irs, done) && done < |irs| == |oks|
    ensures OwnersExist(s) && LensInRange(s.helper) && Live(s, mi) && IrouteOk(irs[done])
    ensures var s' := AddIroute(s, mi, irs[done], now, oks[done]);
            && Registering(s', mi, irs, done + 1)
            && AddIroutes(s, mi, irs, done, now, oks) == AddIroutes(s', mi, irs, done + 1, now, oks)
  {
    AddIrouteKeeps(s, mi, irs, done, now, oks[done]);
  }

  lemma AddIroutesDone(s: Server, mi: nat, irs: seq<Iroute>, now: int, oks: seq<bool>)
    requires Registering(s, mi, irs, |irs|) && |oks| == |irs|
    ensures AddIroutes(s, mi, irs, |irs|, now, oks) == s
  {
  }

  /** What multi_connection_established is given for a tun client whose connect script succeeded. */
  predicate Connectable(s: Server, mi: nat, host: Option<nat>, irs: seq<Iroute>, oks: seq<bool>) {
    && Live(s, mi) && !s.insts[mi].didIroutes && IroutesOk(irs) && |oks| == |irs|
    && (host.Some? ==> host.value < ADDR_LIMIT)
  }

  /** The client's own address, where it has one, is learned first. */
  ghost function WithHost(s: Server, mi: nat, host: Option<nat>, hostOk: bool, now: int): (s': Server)
    requires Inv(s) && Live(s, mi) && !s.insts[mi].didIroutes && (host.Some? ==> host.value < ADDR_LIMIT)
    ensures Inv(s') && SameClients(s, s') && Live(s', mi) && !s'.insts[mi].didIroutes
  {
    if host.Some? then
      LearnConsistent(s, mi, Ip(host.value), false, now, hostOk, []);
      LearnClients(s, mi, Ip(host.value), now, hostOk);
      Learn(s, mi, Ip(host.value), false, now, hostOk).0
    else s
  }

  /** The routing part of multi_connection_established. */
  ghost function Connect(s: Server, mi: nat, host: Option<nat>, hostOk: bool, irs: seq<Iroute>, oks: seq<bool>, now: int): (s': Server)
    requires Inv(s) && Connectable(s, mi, host, irs, oks)
    ensures Inv(s') && SameClients(s, s')
  {
    assert irs[|irs|..] == [];
    var s1 := WithHost(s, mi, host, hostOk, now);
    Marked(s1, mi, irs);
    AddIroutes(WithIroutes(s1, mi, irs), mi, irs, 0, now, oks)
  }

  /** Connect, one call at a time. */
  lemma ConnectFirst(s: Server, mi: nat, host: Option<nat>, hostOk: bool, irs: seq<Iroute>, oks: seq<bool>, now: int)
    requires Inv(s) && Connectable(s, mi, host, irs, oks)
    ensures OwnersExist(s) && mi in s.insts
    ensures var s1 := if host.Some? then Learn(s, mi, Ip(host.value), false, now, hostOk).0 else s;
            && mi in s1.insts && Registering(WithIroutes(s1, mi, irs), mi, irs, 0)
            && AddIroutes(WithIroutes(s1, mi, irs), mi, irs, 0, now, oks) == Connect(s, mi, host, hostOk, irs, oks, now)
  {
    Marked(WithHost(s, mi, host, hostOk, now), mi, irs);
  }

  // ------------------------------------------------------------------ closing

  lemma {:induction false} DelIroutesLens(h: Helper, insts: Insts, nextId: nat, del: seq<Iroute>)
    requires IroutesOk(del) && LensOk(h, insts, nextId, [], del)
    ensures LensOk(DelIroutes(h, del), insts, nextId, [], [])
    decreases |del|
  {
    if del != [] {
      assert IrouteOk(del[0]);
      CountDownLens(h, insts, nextId, del);
      hide LensOk, CountIroute;
      DelIroutesLens(CountIroute(h, del[0], -1), insts, nextId, del[1..]);
    }
  }

  /** The generation moves on exactly when a network was registered. */
  lemma {:induction false} DelIroutesGen(h: Helper, irs: seq<Iroute>)
    requires LensInRange(h) && IroutesOk(irs)
    ensures h.gen <= DelIroutes(h, irs).gen
    ensures DelIroutes(h, irs).ttl == h.ttl
    decreases |irs|
  {
    if irs != [] {
      DelIroutesGen(CountIroute(h, irs[0], -1), irs[1..]);
    }
  }

  /** With the instance closed, the lengths it registered are still to be counted down. */
  lemma DelLens(s: Server, mi: nat)
    requires Inv(s) && Live(s, mi) && IroutesOk(s.insts[mi].iroutes)
    ensures var del := if s.insts[mi].didIroutes then s.insts[mi].iroutes else [];
            LensOk(s.helper, Halted(s, mi).insts, s.nextId, [], del)
  {
    var s' := Halted(s, mi);
    var del := if s.insts[mi].didIroutes then s.insts[mi].iroutes else [];
    assert CountsOk(s.insts, s.vhash, mi);
    forall n: nat | n < MR_HELPER_NET_LEN
      ensures s.helper.lenCount[n] == Total(s'.insts, n, s.nextId) + Uses(del, n) {
      TotalUpdate(s.insts, mi, s'.insts[mi], n, s.nextId);
    }
  }

  lemma HaltedLens(s: Server, mi: nat)
    requires Inv(s) && Live(s, mi) && IroutesOk(s.insts[mi].iroutes)
    ensures var s' := Halted(s, mi); LensOk(s'.helper, s'.insts, s'.nextId, [], [])
  {
    DelLens(s, mi);
    DelIroutesLens(s.helper, Halted(s, mi).insts, s.nextId, if s.insts[mi].didIroutes then s.insts[mi].iroutes else []);
  }

  lemma CloseRoutesOk(s: Server, mi: nat, k: Addr)
    requires Inv(s) && Live(s, mi) && IroutesOk(s.insts[mi].iroutes) && k in s.vhash
    ensures RouteOk(Close(s, mi), k) && CacheOk(Close(s, mi), k)
  {
    var s' := Close(s, mi);
    assert RouteOk(s, k) && CacheOk(s, k);
    if s.insts[mi].didIroutes {
      DelIroutesGen(s.helper, s.insts[mi].iroutes);
    }
    assert Live(s', s.vhash[k].owner) ==> Live(s, s.vhash[k].owner) && s.vhash[k].owner != mi;
    if k.Ip? {
      CloseLpm(s, mi, k.a);
    }
  }

  lemma CloseLpm(s: Server, mi: nat, a: nat)
    requires Counted(s) && Live(s, mi) && LensInRange(s.helper) && IroutesOk(s.insts[mi].iroutes)
    ensures var found := Lpm(TableOf(s), a, MR_HELPER_NET_LEN);
            found != Some(mi) ==> Lpm(TableOf(Close(s, mi)), a, MR_HELPER_NET_LEN) == found
  {
    var t, t' := TableOf(s), TableOf(Close(s, mi));
    hide TableOf, Close, Counted, Lpm;
    forall k ensures (k in t' <==> k in t && t[k] != mi) && (k in t' ==> t'[k] == t[k]) {
      CloseTable(s, mi, k);
    }
    LpmWithout(t, t', mi, a, MR_HELPER_NET_LEN);
  }

  lemma CloseKeeps(s: Server, mi: nat)
    requires Inv(s) && Live(s, mi)
    ensures IroutesOk(s.insts[mi].iroutes) && Inv(Close(s, mi))
  {
    assert InstOk(s.insts[mi]);
    var s' := Close(s, mi);
    var h := Halted(s, mi);
    HaltedLens(s, mi);
    CloseCounted(s, mi);
    assert InstsOk(h.insts) && SameLive(h.insts, s'.insts);
    SameLiveInsts(h.insts, s'.insts);
    SameLiveLens(h.helper, h.insts, s'.insts, s.nextId, [], []);
    forall k | k in s'.vhash ensures RouteOk(s', k) && CacheOk(s', k) {
      CloseRoutesOk(s, mi, k);
    }
  }

  // ------------------------------------------------------------------ creating

  lemma CreateKeeps(s: Server, maxRoutes: nat)
    requires Inv(s)
    ensures Inv(Create(s, maxRoutes)) && TableOf(Create(s, maxRoutes)) == TableOf(s)
  {
    var s' := Create(s, maxRoutes);
    CreateCounted(s, maxRoutes);
    assert s.nextId !in s.insts;
    assert TableOf(s') == TableOf(s);
    forall n: nat | n < MR_HELPER_NET_LEN ensures Total(s'.insts, n, s'.nextId) == Total(s.insts, n, s.nextId) {
      TotalUpdate(s.insts, s.nextId, s'.insts[s.nextId], n, s.nextId);
    }
    hide CountsOk, TableOf, Total;
    forall id | id in s'.insts ensures InstOk(s'.insts[id]) {
      assert id in s.insts ==> InstOk(s.insts[id]);
    }
    forall k | k in s'.vhash ensures RouteOk(s', k) && CacheOk(s', k) {
      assert RouteOk(s, k) && CacheOk(s, k) && s.vhash[k].owner in s.insts;
    }
  }
}
