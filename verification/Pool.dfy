/** struct ifconfig_pool: the table in place, found by a scan and written entry by entry. */
module Pool {
  import opened Options
  import opened PoolModel

  class IfconfigPool {
    const base: nat
    const size: nat
    const kind: Kind
    const duplicateCn: bool
    const list: array<Lease>

    /** The range the pool was made from. */
    ghost const start: nat
    ghost const end: nat

    ghost predicate Valid() {
      && RangeOk(start, end)
      && base == Base(kind, start)
      && size == Size(kind, start, end) == list.Length
    }

    /** ifconfig_pool_init; the assertion on the range is the precondition. */
    constructor (kind: Kind, start: nat, end: nat, duplicateCn: bool)
      requires RangeOk(start, end)
      ensures Valid() && fresh(list) && this.kind == kind && this.start == start && this.end == end
      ensures this.duplicateCn == duplicateCn
      ensures forall i | 0 <= i < list.Length :: list[i] == FREE
    {
      base, size, this.kind, this.duplicateCn := Base(kind, start), Size(kind, start, end), kind, duplicateCn;
      this.start, this.end := start, end;
      list := new Lease[Size(kind, start, end)](_ => FREE);
    }

    /** ifconfig_pool_find. */
    method Find(name: Option<string>) returns (i: int)
      requires Valid()
      ensures Found(list[..], duplicateCn, name, i) && i < list.Length
    {
      hide Size, Base;
      ghost var all := list[..];
      var earliestRelease, previousUsage, newUsage := 0, -1, -1;
      for k := 0 to size
        invariant -1 <= newUsage < k && -1 <= previousUsage < k
        invariant duplicateCn ==> newUsage == -1 && previousUsage == -1 && forall j | 0 <= j < k :: all[j].inUse
        invariant !duplicateCn && newUsage >= 0 ==> Oldest(all[..k], newUsage) && earliestRelease == all[newUsage].lastRelease
        invariant !duplicateCn && newUsage < 0 ==> forall j | 0 <= j < k :: !Open(all[j])
        invariant previousUsage >= 0 ==> First(all, previousUsage, name)
        invariant !duplicateCn && previousUsage < 0 ==> forall j | 0 <= j < k :: !Remembers(all[j], name)
      {
        var ipe := list[k];
        assert ipe == all[k];
        if !ipe.inUse {
          if duplicateCn {
            return k;
          }
          if (newUsage == -1 || ipe.lastRelease < earliestRelease) && !ipe.fixed {
            earliestRelease := ipe.lastRelease;
            newUsage := k;
          }
          if previousUsage < 0 && name.Some? && ipe.name.Some? && name.value == ipe.name.value {
            previousUsage := k;
          }
        }
      }
      assert all[..size] == all;
      i := if previousUsage >= 0 then previousUsage else newUsage;
      if previousUsage < 0 && !duplicateCn {
        assert forall j: nat | j < |all| :: !Remembers(all[j], name);
      }
    }

    /** ifconfig_pool_acquire: the entry the scan finds, and its addresses. */
    method Acquire(name: Option<string>) returns (i: int, local: nat, remote: nat)
      requires Valid()
      modifies list
      ensures Valid() && Found(old(list[..]), duplicateCn, name, i)
      ensures list[..] == if i >= 0 then Taken(old(list[..]), i, name) else old(list[..])
      ensures i >= 0 ==> !old(list[i]).inUse
      ensures i >= 0 && kind == Net30 ==> local == base + 4 * i + 1 && remote == base + 4 * i + 2
      ensures i >= 0 && kind == Indiv ==> local == 0 && remote == base + i
      ensures i >= 0 ==> InBlock(kind, base, i, remote) && Base(kind, start) <= remote <= Last(kind, end)
    {
      hide Size, Base, Last, Found;
      i := Find(name);
      local, remote := 0, 0;
      if i >= 0 {
        FoundInRange(list[..], duplicateCn, name, i);
        HandleFits(kind, start, end, i);
        list[i] := Lease(true, name, 0, list[i].fixed);
        if kind == Net30 {
          var b := (base + i * 4) % ADDRESSES;
          local := b + 1;
          remote := b + 2;
        } else {
          remote := (base + i) % ADDRESSES;
        }
      }
    }

    /** ifconfig_pool_release. */
    method ReleaseHandle(hand: int, hard: bool, now: int) returns (ok: bool)
      requires Valid()
      modifies list
      ensures ok == (0 <= hand < size) && list[..] == Released(old(list[..]), hand, hard, now)
    {
      ok := false;
      if hand >= 0 && hand < size {
        list[hand] := if hard then Lease(false, None, 0, list[hand].fixed)
                      else list[hand].(inUse := false, lastRelease := now);
        ok := true;
      }
    }
  }
}
