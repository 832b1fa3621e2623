/**
  The --ifconfig-pool allocator (pool.c:43-268) on values: which entry a client gets, and what
  the addresses of distinct entries have to do with each other.
*/
module PoolModel {
  import opened Options

  const IFCONFIG_POOL_MAX := 65536
  const ADDRESSES := 0x1_0000_0000

  /** IFCONFIG_POOL_30NET hands out a /30 per client, IFCONFIG_POOL_INDIV one address. */
  datatype Kind = Net30 | Indiv

  /** struct ifconfig_pool_entry. */
  datatype Lease = Lease(inUse: bool, name: Option<string>, lastRelease: int, fixed: bool)

  const FREE := Lease(false, None, 0, false)

  type Leases = seq<Lease>

  // ------------------------------------------------------------------ addresses

  /** pool->base: start & ~3 for a pool of /30 nets. */
  function Base(kind: Kind, start: nat): nat {
    if kind == Net30 then start - start % 4 else start
  }

  /** end | 3 for a pool of /30 nets. */
  function Last(kind: Kind, end: nat): nat {
    if kind == Net30 then end - end % 4 + 3 else end
  }

  function Width(kind: Kind): nat {
    if kind == Net30 then 4 else 1
  }

  /** pool->size in the source's 32-bit arithmetic. */
  function Size(kind: Kind, start: nat, end: nat): nat {
    ((Last(kind, end) + 1) % ADDRESSES - Base(kind, start)) % ADDRESSES / Width(kind)
  }

  /** ifconfig_pool_handle_to_ip_base. */
  function HandleToBase(kind: Kind, base: nat, size: nat, hand: int): nat {
    if 0 <= hand < size then (base + hand * Width(kind)) % ADDRESSES else 0
  }

  /** ifconfig_pool_ip_base_to_handle: the difference is unsigned, the handle a signed int. */
  function BaseToHandle(kind: Kind, base: nat, size: nat, addr: nat): int {
    var diff := (addr - base) % ADDRESSES / Width(kind);
    var hand := if diff < 0x8000_0000 then diff else diff - ADDRESSES;
    if hand < 0 || hand >= size then -1 else hand
  }

  /** The addresses that belong to a handle. */
  predicate InBlock(kind: Kind, base: nat, hand: nat, addr: int) {
    base + hand * Width(kind) <= addr < base + (hand + 1) * Width(kind)
  }

  /** What ifconfig_pool_init asserts of its range. */
  predicate RangeOk(start: nat, end: nat) {
    start <= end < ADDRESSES && end - start < IFCONFIG_POOL_MAX
  }

  lemma Mod32(x: int)
    requires -ADDRESSES <= x < 2 * ADDRESSES
    ensures x % ADDRESSES == if x < 0 then x + ADDRESSES else if x < ADDRESSES then x else x - ADDRESSES
  {
  }

  lemma Quarters(x: nat)
    ensures x - x % 4 == 4 * (x / 4) && x - x % 4 + 3 == 4 * (x / 4) + 3
  {
  }

  lemma Blocks(q: int, r: nat)
    requires r < 4
    ensures (4 * q + r) / 4 == q
  {
  }

  /** The pool is its range rounded out to whole blocks, and no block wraps. */
  lemma SizeCovers(kind: Kind, start: nat, end: nat)
    requires RangeOk(start, end)
    ensures 0 < Size(kind, start, end) <= IFCONFIG_POOL_MAX
    ensures Base(kind, start) + Size(kind, start, end) * Width(kind) == Last(kind, end) + 1 <= ADDRESSES
  {
    var base, past := Base(kind, start), Last(kind, end) + 1;
    Quarters(start);
    Quarters(end);
    Mod32(past);
    Mod32(past % ADDRESSES - base);
    if kind == Net30 {
      Blocks(end / 4 + 1 - start / 4, 0);
    }
  }

  /** The addresses handed out with a handle, b + 1 and b + 2 or b itself, do not wrap. */
  lemma HandleFits(kind: Kind, start: nat, end: nat, hand: nat)
    requires RangeOk(start, end) && hand < Size(kind, start, end)
    ensures Base(kind, start) + (hand + 1) * Width(kind) <= Last(kind, end) + 1 <= ADDRESSES
    ensures (Base(kind, start) + hand * Width(kind)) % ADDRESSES == Base(kind, start) + hand * Width(kind)
  {
    SizeCovers(kind, start, end);
    Mod32(Base(kind, start) + hand * Width(kind));
  }

  /** Every address of the range has exactly one handle, and no handle reaches outside the rounded range. */
  lemma BlocksTile(kind: Kind, start: nat, end: nat, addr: nat)
    requires RangeOk(start, end) && addr < ADDRESSES
    ensures var base, size := Base(kind, start), Size(kind, start, end);
            var hand := BaseToHandle(kind, base, size, addr);
            && (hand >= 0 <==> base <= addr <= Last(kind, end))
            && (hand >= 0 ==> hand < size && InBlock(kind, base, hand, addr))
  {
    hide Size, Base, Last;
    SizeCovers(kind, start, end);
    var base, size := Base(kind, start), Size(kind, start, end);
    Mod32(addr - base);
  }

  /** Address to handle inverts handle to address. */
  lemma HandleRoundTrip(kind: Kind, start: nat, end: nat, hand: nat)
    requires RangeOk(start, end) && hand < Size(kind, start, end)
    ensures var base, size := Base(kind, start), Size(kind, start, end);
            && HandleToBase(kind, base, size, hand) == base + hand * Width(kind)
            && BaseToHandle(kind, base, size, HandleToBase(kind, base, size, hand)) == hand
  {
    hide Size, Base, Last;
    SizeCovers(kind, start, end);
    var base, size := Base(kind, start), Size(kind, start, end);
    Mod32(base + hand * Width(kind));
    Mod32(hand * Width(kind));
    Blocks(hand, 0);
    BlocksTile(kind, start, end, base + hand * Width(kind));
  }

  /** Distinct handles have no address in common. */
  lemma BlocksDisjoint(kind: Kind, base: nat, h: nat, k: nat, addr: int)
    requires h != k && InBlock(kind, base, h, addr)
    ensures !InBlock(kind, base, k, addr)
  {
  }

  /**
    The documentation promises addresses between start and end.  A pool of /30 nets keeps that
    exactly when start begins and end finishes a /30; otherwise its first or last block sticks out.
  */
  lemma StaysInRangeIff(kind: Kind, start: nat, end: nat)
    requires RangeOk(start, end)
    ensures (forall hand: nat, addr: nat :: hand < Size(kind, start, end) && InBlock(kind, Base(kind, start), hand, addr) ==> start <= addr <= end)
            <==> kind == Indiv || (start % 4 == 0 && end % 4 == 3)
  {
    SizeCovers(kind, start, end);
    var base, size := Base(kind, start), Size(kind, start, end);
    assert InBlock(kind, base, 0, base);
    assert InBlock(kind, base, size - 1, Last(kind, end));
    if kind == Indiv || (start % 4 == 0 && end % 4 == 3) {
      forall hand: nat, addr: nat | hand < size && InBlock(kind, base, hand, addr) ensures start <= addr <= end {
      }
    }
  }

  // ------------------------------------------------------------------ choosing an entry

  /** The caller's own: a free entry that remembers the name. */
  predicate Remembers(e: Lease, name: Option<string>) {
    !e.inUse && name.Some? && e.name == name
  }

  /** Free and not reserved by a fixed assignment. */
  predicate Open(e: Lease) {
    !e.inUse && !e.fixed
  }

  /** i is the open entry released earliest, the first of equals. */
  predicate Oldest(list: Leases, i: nat) {
    && i < |list| && Open(list[i])
    && forall j | 0 <= j < |list| && Open(list[j]) ::
         list[i].lastRelease < list[j].lastRelease || (list[i].lastRelease == list[j].lastRelease && i <= j)
  }

  predicate First(list: Leases, i: nat, name: Option<string>) {
    && i < |list| && Remembers(list[i], name)
    && forall j | 0 <= j < i :: !Remembers(list[j], name)
  }

  predicate FirstFree(list: Leases, i: nat) {
    i < |list| && !list[i].inUse && forall j | 0 <= j < i :: list[j].inUse
  }

  /** What ifconfig_pool_find promises. */
  ghost predicate Found(list: Leases, dup: bool, name: Option<string>, i: int) {
    if dup then
      if i >= 0 then FirstFree(list, i) else i == -1 && forall j | 0 <= j < |list| :: list[j].inUse
    else if exists j :: First(list, j, name) then i >= 0 && First(list, i, name)
    else if i >= 0 then Oldest(list, i)
    else i == -1 && forall j | 0 <= j < |list| :: !Open(list[j])
  }

  /** That determines the entry. */
  lemma FoundUnique(list: Leases, dup: bool, name: Option<string>, i: int, k: int)
    requires Found(list, dup, name, i) && Found(list, dup, name, k)
    ensures i == k
  {
    if i >= 0 && k >= 0 {
      if dup {
        assert list[i].inUse || list[k].inUse || i == k;
      }
    }
  }

  /** ifconfig_pool_acquire and ifconfig_pool_release on the table. */
  function Taken(list: Leases, i: nat, name: Option<string>): Leases
    requires i < |list|
  {
    list[i := Lease(true, name, 0, list[i].fixed)]
  }

  function Released(list: Leases, hand: int, hard: bool, now: int): Leases {
    if 0 <= hand < |list| then
      list[hand := if hard then Lease(false, None, 0, list[hand].fixed) else list[hand].(inUse := false, lastRelease := now)]
    else list
  }

  // ------------------------------------------------------------------ whole runs

  /** An acquire with what it returned, or a release. */
  datatype Event = Acquire(name: Option<string>, got: int) | Release(hand: int, hard: bool, now: int)

  function After(list: Leases, e: Event): (r: Leases)
    ensures |r| == |list|
  {
    match e
    case Acquire(name, got) => if 0 <= got < |list| then Taken(list, got, name) else list
    case Release(hand, hard, now) => Released(list, hand, hard, now)
  }

  /** Every acquire of the run returned what ifconfig_pool_find finds. */
  ghost predicate IsRun(list: Leases, dup: bool, es: seq<Event>)
    decreases |es|
  {
    es == [] || ((es[0].Acquire? ==> Found(list, dup, es[0].name, es[0].got)) && IsRun(After(list, es[0]), dup, es[1..]))
  }

  function AfterAll(list: Leases, es: seq<Event>): (r: Leases)
    ensures |r| == |list|
    decreases |es|
  {
    if es == [] then list else AfterAll(After(list, es[0]), es[1..])
  }

  /** A handle in use is not handed out until it is released. */
  lemma {:induction false} NotHandedOut(list: Leases, dup: bool, es: seq<Event>, h: nat, j: nat)
    requires IsRun(list, dup, es) && h < |list| && list[h].inUse && j < |es| && es[j].Acquire? && es[j].got == h
    ensures exists k | 0 <= k < j :: es[k].Release? && es[k].hand == h
    decreases j
  {
    if j == 0 {
      FoundInRange(list, dup, es[0].name, h);
    } else if es[0].Release? && es[0].hand == h {
    } else {
      NotHandedOut(After(list, es[0]), dup, es[1..], h, j - 1);
      var k :| 0 <= k < j - 1 && es[1..][k].Release? && es[1..][k].hand == h;
      assert es[k + 1] == es[1..][k];
    }
  }

  /** Two acquires of a run that return the same handle have a release of it between them. */
  lemma {:induction false} NeverTwoHolders(list: Leases, dup: bool, es: seq<Event>, i: nat, j: nat)
    requires IsRun(list, dup, es) && i < j < |es| && es[i].Acquire? && es[j].Acquire? && 0 <= es[i].got == es[j].got
    ensures exists k | i < k < j :: es[k].Release? && es[k].hand == es[i].got
    decreases i
  {
    var h := es[i].got;
    var rest := es[1..];
    var k: nat;
    if i == 0 {
      FoundInRange(list, dup, es[0].name, h);
      NotHandedOut(After(list, es[0]), dup, rest, h, j - 1);
      k :| 0 <= k < j - 1 && rest[k].Release? && rest[k].hand == h;
    } else {
      NeverTwoHolders(After(list, es[0]), dup, rest, i - 1, j - 1);
      k :| i - 1 < k < j - 1 && rest[k].Release? && rest[k].hand == h;
    }
    assert es[k + 1] == rest[k];
  }

  lemma FoundInRange(list: Leases, dup: bool, name: Option<string>, i: int)
    requires Found(list, dup, name, i) && i >= 0
    ensures i < |list| && !list[i].inUse
  {
    if !dup && exists j :: First(list, j, name) {
      assert First(list, i, name);
    }
  }

  /** Nothing but h carries the name, and h is free. */
  predicate OnlyHere(list: Leases, name: string, h: nat) {
    && h < |list| && !list[h].inUse && list[h].name == Some(name)
    && forall j | 0 <= j < |list| && j != h :: list[j].name != Some(name)
  }

  /** The event leaves h and the name alone. */
  predicate Elsewhere(e: Event, name: string, h: nat) {
    match e
    case Acquire(n, got) => n != Some(name) && got != h
    case Release(hand, hard, now) => hand != h
  }

  /** A client that comes back gets its old address, if nobody was given it in the meantime. */
  lemma {:induction false} ComesBack(list: Leases, es: seq<Event>, name: string, h: nat, got: int)
    requires OnlyHere(list, name, h) && forall e <- es :: Elsewhere(e, name, h)
    requires Found(AfterAll(list, es), false, Some(name), got)
    ensures got == h
    decreases |es|
  {
    if es == [] {
      assert First(list, h, Some(name));
      assert First(list, got, Some(name));
    } else {
      assert Elsewhere(es[0], name, h);
      ComesBack(After(list, es[0]), es[1..], name, h, got);
    }
  }
}
