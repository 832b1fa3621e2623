/**
  Whole runs of the server, from an empty table through any sequence of connects, iroutes, lookups,
  ageing, closes and reaps.
*/
module RouteServer {
  import opened Options
  import opened RouteModel
  import opened RouteTable
  import opened RouteRuns

  /** What can happen between two packets; `now` is the clock then, and ok what scripts answer. */
  datatype Event =
    | Created(maxRoutes: nat)
    | Connected(mi: nat, host: Option<nat>, hostOk: bool, irs: seq<Iroute>, oks: seq<bool>, now: int)
    | Learned(mi: nat, mac: nat, now: int, ok: bool)
    | LookedUp(addr: Addr, now: int, ok: bool)
    | Closed(mi: nat)
    | Reaped(keys: seq<Addr>, now: int)

  /** multi_reap_range over the addresses of its buckets, in the order the iterator visits them. */
  ghost function Reap(s: Server, keys: seq<Addr>, now: int): (s': Server)
    requires Inv(s)
    ensures Inv(s') && TableOf(s') == TableOf(s) && SameLive(s.insts, s'.insts) && s'.nextId == s.nextId
    decreases |keys|
  {
    if keys == [] then s
    else
      var last := |keys| - 1;
      var before := Reap(s, keys[..last], now);
      ReapKeeps(before, keys[last], now);
      ReapSameLive(before, keys[last], now);
      SameLiveTrans(s.insts, before.insts, ReapOne(before, keys[last], now).insts);
      ReapOne(before, keys[last], now)
  }

  lemma ReapSnoc(s: Server, keys: seq<Addr>, k: Addr, now: int)
    requires Inv(s)
    ensures OwnersExist(Reap(s, keys, now))
    ensures Reap(s, keys + [k], now) == ReapOne(Reap(s, keys, now), k, now)
  {
    assert (keys + [k])[..|keys|] == keys;
  }

  /** Reaping removes exactly the undefined routes among the keys it passes; the rest stay as they are. */
  lemma {:induction false} ReapExactly(s: Server, keys: seq<Addr>, now: int, k: Addr)
    requires Inv(s)
    ensures var s' := Reap(s, keys, now);
            && s'.helper == s.helper
            && (k in s'.vhash <==> k in s.vhash && !(k in keys && !Defined(s, s.vhash[k], now)))
            && (k in s'.vhash ==> s'.vhash[k] == s.vhash[k])
    decreases |keys|
  {
    if keys != [] {
      var last := |keys| - 1;
      ReapExactly(s, keys[..last], now, k);
      ReapExactly(s, keys[..last], now, keys[last]);
      var before := Reap(s, keys[..last], now);
      assert k in keys <==> k in keys[..last] || k == keys[last];
      hide Inv, TableOf, SameLive, RouteDel;
      if k in s.vhash {
        assert before.helper == s.helper;
        DefinedSame(s, before, s.vhash[k], now);
      }
    }
  }

  lemma DefinedSame(s: Server, s': Server, r: Route, now: int)
    requires SameLive(s.insts, s'.insts) && s'.helper == s.helper
    ensures Defined(s', r, now) <==> Defined(s, r, now)
  {
    LiveSame(s, s', r.owner);
  }

  /** A pass over the whole table frees every closed instance. */
  lemma FullReapFrees(s: Server, keys: seq<Addr>, now: int, id: nat)
    requires Inv(s) && forall k <- s.vhash :: k in keys
    ensures id in Reap(s, keys, now).insts ==> !Reap(s, keys, now).insts[id].halt
  {
    var s' := Reap(s, keys, now);
    if id in s'.insts && s'.insts[id].halt {
      FreedIffUnreferenced(s', id);
      var k :| k in RoutesOf(s'.vhash, id);
      ReapExactly(s, keys, now, k);
      StaleIsReaped(s, keys, now, k);
    }
  }

  /** A route left by a pass over its key is defined. */
  lemma StaleIsReaped(s: Server, keys: seq<Addr>, now: int, k: Addr)
    requires Inv(s) && k in keys
    ensures var s' := Reap(s, keys, now); k in s'.vhash ==> Defined(s', s'.vhash[k], now)
  {
    var s' := Reap(s, keys, now);
    ReapExactly(s, keys, now, k);
    if k in s'.vhash {
      DefinedSame(s, s', s.vhash[k], now);
    }
  }

  predicate Enabled(s: Server, e: Event) {
    match e
    case Created(maxRoutes) => true
    case Connected(mi, host, hostOk, irs, oks, now) => Connectable(s, mi, host, irs, oks)
    case Learned(mi, mac, now, ok) => Live(s, mi) && AddrOk(Ether(mac))
    case LookedUp(addr, now, ok) => AddrOk(addr) && !addr.Net?
    case Closed(mi) => Live(s, mi)
    case Reaped(keys, now) => true
  }

  ghost function Step(s: Server, e: Event): (s': Server)
    requires Inv(s) && Enabled(s, e)
    ensures Inv(s')
  {
    match e
    case Created(maxRoutes) => CreateKeeps(s, maxRoutes); Create(s, maxRoutes)
    case Connected(mi, host, hostOk, irs, oks, now) => Connect(s, mi, host, hostOk, irs, oks, now)
    case Learned(mi, mac, now, ok) => LearnConsistent(s, mi, Ether(mac), false, now, ok, []); Learn(s, mi, Ether(mac), false, now, ok).0
    case LookedUp(addr, now, ok) => LookupKeeps(s, addr, now, ok); Lookup(s, addr, addr.Ip?, now, ok).0
    case Closed(mi) => CloseKeeps(s, mi); Close(s, mi)
    case Reaped(keys, now) => Reap(s, keys, now)
  }

  lemma {:induction false} NoneInUse(counts: seq<int>, n: nat)
    requires n <= |counts| && forall i | 0 <= i < n :: counts[i] == 0
    ensures InUse(counts, n) == []
  {
    if n > 0 {
      NoneInUse(counts, n - 1);
    }
  }

  /** multi_init and mroute_helper_init. */
  function Start(ttl: int, local: Addr): (s: Server)
    ensures Inv(s)
  {
    var counts := seq(MR_HELPER_NET_LEN, _ => 0);
    NoneInUse(counts, MR_HELPER_NET_LEN);
    Server(map[], map[], 0, Helper(0, ttl, [], counts), local)
  }

  /** s' is where a run of events leads from s. */
  ghost predicate Reaches(s: Server, es: seq<Event>, s': Server)
    requires Inv(s)
    decreases |es|
  {
    if es == [] then s' == s else Enabled(s, es[0]) && Reaches(Step(s, es[0]), es[1..], s')
  }

  lemma {:induction false} ReachesInv(s: Server, es: seq<Event>, s': Server)
    requires Inv(s) && Reaches(s, es, s')
    ensures Inv(s')
    decreases |es|
  {
    if es != [] {
      ReachesInv(Step(s, es[0]), es[1..], s');
    }
  }

  ghost predicate Reachable(s: Server, ttl: int, local: Addr) {
    exists es :: Reaches(Start(ttl, local), es, s)
  }

  // ------------------------------------------------------------------ theorems over every run

  /**
    In every reachable state, looking up a non-local IPv4 address returns the live owner of its host
    route, else the live owner of the longest network route containing it, else nothing.
  */
  lemma LookupIsLongestMatch(s: Server, ttl: int, local: Addr, a: nat, now: int, ok: bool)
    requires Reachable(s, ttl, local) && a < ADDR_LIMIT && Ip(a) != s.local
    ensures Inv(s)
    ensures var found := Lookup(s, Ip(a), true, now, ok).1;
            var t := TableOf(s);
            if Ip(a) in t then found == Some(t[Ip(a)])
            else match found
                 case Some(o) => exists k :: Longest(t, k, a) && t[k] == o
                 case None => !exists k :: Matches(t, k, a)
  {
    var es :| Reaches(Start(ttl, local), es, s);
    ReachesInv(Start(ttl, local), es, s);
    LookupAnswers(s, Ip(a), now, ok);
    TableKeyed(s);
    var found := Lpm(TableOf(s), a, MR_HELPER_NET_LEN);
    LpmIsLongest(TableOf(s), a, if found.Some? then found.value else 0);
  }

  /** The same state with every cached route taken out. */
  function Uncached(s: Server): Server {
    s.(vhash := map k | k in s.vhash && !s.vhash[k].cached :: s.vhash[k])
  }

  lemma UncachedAnswers(s: Server, addr: Addr, now: int)
    requires Inv(s) && !addr.Net?
    ensures OwnersExist(Uncached(s)) && LensInRange(s.helper)
    ensures OwnerOf(Uncached(s), addr, now) == Get(TableOf(s), addr)
  {
  }

  /** Cached routes never change an answer: the lookup finds what it would find with none of them. */
  lemma CacheIsInvisible(s: Server, addr: Addr, now: int, ok: bool, now': int, ok': bool)
    requires Inv(s) && !addr.Net?
    ensures OwnersExist(Uncached(s))
    ensures Lookup(s, addr, addr.Ip?, now, ok).1 == Lookup(Uncached(s), addr, addr.Ip?, now', ok').1
  {
    UncachedAnswers(s, addr, now');
    if addr != s.local {
      LookupAnswers(s, addr, now, ok);
      if addr.Ip? {
        UncachedHits(s, addr.a, MR_HELPER_NET_LEN, now');
      }
    }
  }

  lemma UncachedNet(s: Server, k: Addr, now: int)
    ensures TableOf(Uncached(s)) == TableOf(s)
    ensures OwnerOf(Uncached(s), k, now) == Get(TableOf(s), k)
  {
  }

  lemma {:induction false} UncachedHits(s: Server, a: nat, n: nat, now: int)
    requires Inv(s) && n <= MR_HELPER_NET_LEN
    ensures FirstHit(Uncached(s), a, InUse(s.helper.lenCount, n), now) == Lpm(TableOf(s), a, n)
  {
    if n > 0 {
      hide TableOf, FirstHit, Lpm, OwnerOf, Mask, Counted, RoutesOk, CachesOk, InstsOk;
      var k := Net(Mask(a, n - 1), n - 1);
      UncachedNet(s, k, now);
      if k in TableOf(s) {
        LengthListed(s, k);
      }
      UncachedHits(s, a, n - 1, now);
      FirstHitStep(Uncached(s), a, n, now);
    }
  }

  /** A lookup or a reap changes no later answer. */
  lemma QuietSteps(s: Server, e: Event)
    requires Inv(s) && Enabled(s, e) && (e.LookedUp? || e.Reaped? || e.Created?)
    ensures TableOf(Step(s, e)) == TableOf(s)
  {
    match e
    case Created(maxRoutes) => CreateKeeps(s, maxRoutes);
    case LookedUp(addr, now, ok) => LookupKeeps(s, addr, now, ok);
    case Reaped(keys, now) =>
  }

  /** The netlength list holds exactly the lengths registered by live clients, longest first. */
  lemma NetLengthsExact(s: Server, n: nat)
    requires Inv(s) && n < MR_HELPER_NET_LEN
    ensures n in s.helper.netLens <==> Total(s.insts, n, s.nextId) > 0
    ensures s.helper.lenCount[n] == Total(s.insts, n, s.nextId)
    ensures forall i, j | 0 <= i < j < |s.helper.netLens| :: s.helper.netLens[i] > s.helper.netLens[j]
  {
    InUseExact(s.helper.lenCount, MR_HELPER_NET_LEN);
    assert s.helper.lenCount[n] + Uses([], n) == Total(s.insts, n, s.nextId) + Uses([], n);
  }

  // ------------------------------------------------------------------ an instance is freed exactly once

  /** Only closing it stops an instance that is not closed. */
  lemma StepLive(s: Server, e: Event, id: nat)
    requires Inv(s) && Enabled(s, e)
    ensures Live(s, id) && e != Closed(id) ==> Live(Step(s, e), id)
    ensures id in Step(s, e).insts ==> id in s.insts || (e.Created? && id == s.nextId)
    ensures s.nextId <= Step(s, e).nextId
  {
    match e
    case Learned(mi, mac, now, ok) => LearnClients(s, mi, Ether(mac), now, ok);
    case LookedUp(addr, now, ok) =>
      if addr != s.local && OwnerOf(s, addr, now).None? && addr.Ip? {
        FirstHitIsLpm(s, addr.a, MR_HELPER_NET_LEN, now);
        var mi := Lpm(TableOf(s), addr.a, MR_HELPER_NET_LEN);
        if mi.Some? {
          LpmLive(s, addr.a, MR_HELPER_NET_LEN);
          LearnEffect(s, mi.value, addr, true, now, ok);
        }
      }
    case Created(maxRoutes) => CreateKeeps(s, maxRoutes);
    case Connected(mi, host, hostOk, irs, oks, now) =>
    case Closed(mi) => CloseKeeps(s, mi);
    case Reaped(keys, now) =>
  }

  /** A step frees an instance only if it is closed by then and no route names it any more. */
  lemma StepFrees(s: Server, e: Event, id: nat)
    requires Inv(s) && Enabled(s, e) && id in s.insts && id !in Step(s, e).insts
    ensures s.insts[id].halt || e == Closed(id)
    ensures Num(Step(s, e).vhash, id) == 0
  {
    FreedIffUnreferenced(Step(s, e), id);
    StepLive(s, e, id);
  }

  /** A freed instance never comes back, so it is never freed again, and no route ever names it. */
  lemma {:induction false} FreedForever(s: Server, es: seq<Event>, s': Server, id: nat)
    requires Inv(s) && Reaches(s, es, s') && id < s.nextId && id !in s.insts
    ensures Inv(s') && id < s'.nextId && id !in s'.insts && Num(s'.vhash, id) == 0
    decreases |es|
  {
    if es == [] {
      FreedIffUnreferenced(s, id);
    } else {
      StepLive(s, es[0], id);
      FreedForever(Step(s, es[0]), es[1..], s', id);
    }
  }

  /** In every reachable state the counters are what they should be, and nothing unreferenced is kept. */
  lemma CountersExact(s: Server, ttl: int, local: Addr, id: nat)
    requires Reachable(s, ttl, local)
    ensures id in s.insts ==>
              && s.insts[id].refcount == Num(s.vhash, id) + (if s.insts[id].halt then 0 else 1) > 0
              && s.insts[id].routeCount == Num(s.vhash, id) <= s.insts[id].maxRoutes
    ensures id !in s.insts ==> Num(s.vhash, id) == 0
  {
    var es :| Reaches(Start(ttl, local), es, s);
    ReachesInv(Start(ttl, local), es, s);
    FreedIffUnreferenced(s, id);
    if id in s.insts {
      assert CountsOk(s.insts, s.vhash, id);
    }
  }

  // ------------------------------------------------------------------ where learning falls short

  /**
    A permanent route that could be learned (learnable, not ours, quota left, script willing) is
    recorded exactly when the lookup cache holds no live entry that already names the same client.
  */
  lemma PermanentIsRecordedIff(s: Server, mi: nat, addr: Addr, now: int)
    requires Inv(s) && Live(s, mi) && Learnable(addr) && addr != s.local && UnderQuota(s.insts[mi])
    ensures Get(TableOf(Learn(s, mi, addr, false, now, true).0), addr) == Some(mi)
            <==> !(addr in s.vhash && s.vhash[addr].cached && OwnerOf(s, addr, now) == Some(mi))
    ensures Learn(s, mi, addr, false, now, true).1 == Some(mi)
  {
    LearnTable(s, mi, addr, false, now, true);
  }

  /** In no run does that happen to a connecting client: it owns no cached route before its iroutes are in. */
  lemma ConnectRecordsHost(s: Server, mi: nat, host: nat, now: int, ok: bool)
    requires Inv(s) && Live(s, mi) && !s.insts[mi].didIroutes && host < ADDR_LIMIT
    ensures TableOf(Learn(s, mi, Ip(host), false, now, ok).0)
            == if MayRecord(s, mi, Ip(host), ok) then TableOf(s)[Ip(host) := mi] else TableOf(s)
  {
    FreshOwnsNoCache(s, mi);
    OwnOrCached(s, mi, Ip(host), now);
    LearnTable(s, mi, Ip(host), false, now, ok);
  }
}
