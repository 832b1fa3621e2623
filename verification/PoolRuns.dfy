/** The address pool over runs (pool.c:58-213): who holds a handle, who gets it next, and who gets it back. */
module PoolRuns {
  import opened Options
  import opened PoolModel

  // ------------------------------------------------------------------ releasing

  /** A release frees its handle and no other; a soft one remembers name and time, a hard one neither. */
  lemma ReleaseFrees(list: Leases, hand: int, hard: bool, now: int, i: nat)
    requires i < |list|
    ensures var r := Released(list, hand, hard, now);
            && |r| == |list|
            && (i != hand ==> r[i] == list[i])
            && (i == hand ==> !r[i].inUse && r[i].fixed == list[i].fixed)
            && (i == hand && !hard ==> r[i].name == list[i].name && r[i].lastRelease == now)
            && (i == hand && hard ==> r[i].name == None && r[i].lastRelease == 0)
  {
  }

  /** An acquire makes its entry the caller's, by name if it has one, and leaves the others. */
  lemma AcquireTakes(list: Leases, h: nat, name: Option<string>, i: nat)
    requires h < |list| && i < |list|
    ensures var r := After(list, Acquire(name, h));
            && |r| == |list|
            && (i != h ==> r[i] == list[i])
            && (i == h ==> r[i].inUse && r[i].name == name && r[i].fixed == list[i].fixed)
  {
  }

  predicate Acquires(e: Event, h: nat) {
    e.Acquire? && e.got == h
  }

  predicate Releases(e: Event, h: nat) {
    e.Release? && e.hand == h
  }

  /** The last event about h hands it out. */
  predicate HandedOut(es: seq<Event>, h: nat) {
    exists i :: 0 <= i < |es| && Acquires(es[i], h) && forall j | i < j < |es| :: !Releases(es[j], h)
  }

  predicate NeverReleased(es: seq<Event>, h: nat) {
    forall j | 0 <= j < |es| :: !Releases(es[j], h)
  }

  /** A handle is in use exactly when the last event about it handed it out, or it was and nothing released it. */
  lemma {:induction false} InUseIff(list: Leases, es: seq<Event>, h: nat)
    requires h < |list|
    ensures AfterAll(list, es)[h].inUse <==> HandedOut(es, h) || (list[h].inUse && NeverReleased(es, h))
    decreases |es|
  {
    if es != [] {
      InUseIff(After(list, es[0]), es[1..], h);
      FirstEvent(es, h);
    }
  }

  lemma FirstEvent(es: seq<Event>, h: nat)
    requires es != []
    ensures HandedOut(es, h) <==> HandedOut(es[1..], h) || (Acquires(es[0], h) && NeverReleased(es[1..], h))
    ensures NeverReleased(es, h) <==> !Releases(es[0], h) && NeverReleased(es[1..], h)
  {
    assert forall j | 0 < j < |es| :: es[j] == es[1..][j - 1];
    if HandedOut(es, h) {
      var i :| 0 <= i < |es| && Acquires(es[i], h) && forall j | i < j < |es| :: !Releases(es[j], h);
      if i > 0 {
        assert Acquires(es[1..][i - 1], h);
      }
    }
    if HandedOut(es[1..], h) {
      var i :| 0 <= i < |es[1..]| && Acquires(es[1..][i], h) && forall j | i < j < |es[1..]| :: !Releases(es[1..][j], h);
      assert Acquires(es[i + 1], h);
    }
    if Acquires(es[0], h) && NeverReleased(es[1..], h) {
      assert forall j | 0 < j < |es| :: !Releases(es[j], h);
    }
  }

  function FreeList(size: nat): Leases {
    seq(size, _ => FREE)
  }

  /** In a pool that began empty. */
  lemma HolderIsLastEvent(size: nat, es: seq<Event>, h: nat)
    requires h < size
    ensures AfterAll(FreeList(size), es)[h].inUse <==> HandedOut(es, h)
  {
    InUseIff(FreeList(size), es, h);
  }

  lemma {:induction false} FixedStays(list: Leases, es: seq<Event>, h: nat)
    requires h < |list|
    ensures AfterAll(list, es)[h].fixed == list[h].fixed
    decreases |es|
  {
    if es != [] {
      FixedStays(After(list, es[0]), es[1..], h);
    }
  }

  // ------------------------------------------------------------------ who is handed what

  /** Acquiring fails exactly when every entry is taken, or kept by a fixed assignment from a stranger. */
  lemma NothingLeftIff(list: Leases, dup: bool, name: Option<string>)
    ensures Found(list, dup, name, -1)
            <==> forall j | 0 <= j < |list| :: list[j].inUse || (!dup && list[j].fixed && !Remembers(list[j], name))
  {
    if !dup {
      FirstExists(list, name);
      if j: nat :| First(list, j, name) {
        assert Remembers(list[j], name);
      }
    }
  }

  lemma {:induction false} FirstExists(list: Leases, name: Option<string>)
    ensures (exists j :: First(list, j, name)) <==> exists j: nat :: j < |list| && Remembers(list[j], name)
  {
    if j: nat :| j < |list| && Remembers(list[j], name) {
      var i := 0;
      while !Remembers(list[i], name)
        invariant i <= j && forall k | 0 <= k < i :: !Remembers(list[k], name)
        decreases j - i
      {
        i := i + 1;
      }
      assert First(list, i, name);
    }
  }

  /** The entry handed out is the first of those it could be. */
  lemma FirstIsFound(list: Leases, dup: bool, name: Option<string>, got: int, j: nat)
    requires Found(list, dup, name, got) && j < |list| && !list[j].inUse
    ensures dup ==> 0 <= got <= j
    ensures !dup && Remembers(list[j], name) ==> 0 <= got <= j && Remembers(list[got], name)
    ensures !dup && !list[j].fixed && got >= 0 && !Remembers(list[got], name) ==>
              list[got].lastRelease < list[j].lastRelease || (list[got].lastRelease == list[j].lastRelease && got <= j)
  {
    FirstExists(list, name);
  }

  /** The one entry that is free is handed out, unless a fixed assignment keeps it from a stranger. */
  lemma OnlyFreeIsFound(list: Leases, dup: bool, name: Option<string>, h: nat, got: int)
    requires h < |list| && !list[h].inUse && forall j | 0 <= j < |list| && j != h :: list[j].inUse
    requires Found(list, dup, name, got)
    ensures got == if !dup && list[h].fixed && !Remembers(list[h], name) then -1 else h
  {
    NothingLeftIff(list, dup, name);
    FoundIsFree(list, dup, name, got);
  }

  lemma FoundIsFree(list: Leases, dup: bool, name: Option<string>, got: int)
    requires Found(list, dup, name, got)
    ensures got == -1 || (0 <= got < |list| && !list[got].inUse)
  {
    if got >= 0 {
      FoundInRange(list, dup, name, got);
    }
  }

  /** A handle in range that has been released, and not handed out since, goes to the next who finds nothing else. */
  lemma ReleasedIsHandedOut(list: Leases, dup: bool, before: seq<Event>, h: nat, hard: bool, now: int, after: seq<Event>,
                            name: Option<string>, got: int)
    requires h < |list| && !list[h].fixed && forall e <- after :: !Acquires(e, h)
    requires var l := AfterAll(list, before + [Release(h, hard, now)] + after);
             && (forall j | 0 <= j < |list| && j != h :: l[j].inUse)
             && Found(l, dup, name, got)
    ensures got == h
  {
    var es := before + [Release(h, hard, now)] + after;
    InUseIff(list, es, h);
    FixedStays(list, es, h);
    assert es[|before|] == Release(h, hard, now) && Releases(es[|before|], h);
    forall i | |before| < i < |es| ensures !Acquires(es[i], h) {
      assert es[i] in after;
    }
    OnlyFreeIsFound(AfterAll(list, es), dup, name, h, got);
  }

  /** No event is about h. */
  predicate Untouched(es: seq<Event>, h: nat) {
    forall e <- es :: !Acquires(e, h) && !Releases(e, h)
  }

  lemma {:induction false} UntouchedStays(list: Leases, es: seq<Event>, h: nat)
    requires h < |list| && Untouched(es, h)
    ensures AfterAll(list, es)[h] == list[h]
    decreases |es|
  {
    if es != [] {
      assert !Acquires(es[0], h) && !Releases(es[0], h);
      UntouchedStays(After(list, es[0]), es[1..], h);
    }
  }

  lemma {:induction false} AfterConcat(list: Leases, a: seq<Event>, b: seq<Event>)
    ensures AfterAll(list, a + b) == AfterAll(AfterAll(list, a), b)
    decreases |a|
  {
    if a == [] {
      assert a + b == b;
    } else {
      assert (a + b)[1..] == a[1..] + b;
      AfterConcat(After(list, a[0]), a[1..], b);
    }
  }

  lemma AfterRelease(list: Leases, before: seq<Event>, h: nat, now: int, after: seq<Event>)
    requires h < |list| && Untouched(after, h)
    ensures var e := AfterAll(list, before + [Release(h, false, now)] + after)[h];
            !e.inUse && e.lastRelease == now && e.fixed == list[h].fixed
  {
    AfterConcat(list, before + [Release(h, false, now)], after);
    AfterConcat(list, before, [Release(h, false, now)]);
    assert [Release(h, false, now)][1..] == [];
    FixedStays(list, before, h);
    UntouchedStays(AfterAll(list, before + [Release(h, false, now)]), after, h);
  }

  /** Of two handles given back and not touched since, a newcomer is never handed the later one. */
  lemma EarlierGoesFirst(list: Leases, a: nat, ta: int, mid: seq<Event>, b: nat, tb: int, after: seq<Event>,
                         name: Option<string>, got: int)
    requires a < |list| && b < |list| && a != b && ta < tb && !list[a].fixed
    requires Untouched(mid, a) && Untouched(after, a) && Untouched(after, b)
    requires var l := AfterAll(list, [Release(a, false, ta)] + mid + [Release(b, false, tb)] + after);
             && (forall j | 0 <= j < |l| :: !Remembers(l[j], name))
             && Found(l, false, name, got)
    ensures got >= 0 && got != b
  {
    var es := [Release(a, false, ta)] + mid + [Release(b, false, tb)] + after;
    var l := AfterAll(list, es);
    AfterRelease(list, [Release(a, false, ta)] + mid, b, tb, after);
    assert es == [] + [Release(a, false, ta)] + (mid + [Release(b, false, tb)] + after);
    AfterRelease(list, [], a, ta, mid + [Release(b, false, tb)] + after);
    FirstExists(list, name);
    assert !exists j :: First(l, j, name) by {
      FirstExists(l, name);
    }
    assert Open(l[a]);
  }

  // ------------------------------------------------------------------ coming back

  /** At most one entry carries the name. */
  predicate Sole(list: Leases, name: string) {
    forall i, j | 0 <= i < j < |list| :: !(list[i].name == Some(name) && list[j].name == Some(name))
  }

  /** The name holds nothing now. */
  predicate Away(list: Leases, name: string) {
    forall i | 0 <= i < |list| :: list[i].name == Some(name) ==> !list[i].inUse
  }

  /** Exactly entry h carries the name. */
  predicate Carries(list: Leases, name: string, h: nat) {
    && h < |list| && list[h].name == Some(name)
    && forall j | 0 <= j < |list| && j != h :: list[j].name != Some(name)
  }

  lemma AcquiredIsSole(list: Leases, name: string, h: nat)
    requires Sole(list, name) && Away(list, name) && Found(list, false, Some(name), h)
    ensures h < |list| && Carries(After(list, Acquire(Some(name), h)), name, h)
  {
    FoundInRange(list, false, Some(name), h);
    FirstExists(list, Some(name));
    forall j | 0 <= j < |list| && list[j].name == Some(name) ensures j == h {
      assert Remembers(list[j], Some(name));
      assert First(list, h, Some(name));
    }
  }

  lemma {:induction false} CarriesStays(list: Leases, es: seq<Event>, name: string, h: nat)
    requires Carries(list, name, h) && forall e <- es :: Elsewhere(e, name, h)
    ensures Carries(AfterAll(list, es), name, h) && AfterAll(list, es)[h] == list[h]
    decreases |es|
  {
    if es != [] {
      assert Elsewhere(es[0], name, h);
      CarriesStays(After(list, es[0]), es[1..], name, h);
    }
  }

  /** A client that is given h and gives it back gets h again, if nobody was given it and no other session used its name. */
  lemma ReturnsHome(list: Leases, name: string, h: nat, mid: seq<Event>, now: int, later: seq<Event>, got: int)
    requires Sole(list, name) && Away(list, name) && Found(list, false, Some(name), h)
    requires (forall e <- mid :: Elsewhere(e, name, h)) && forall e <- later :: Elsewhere(e, name, h)
    requires Found(AfterAll(list, [Acquire(Some(name), h)] + mid + [Release(h, false, now)] + later), false, Some(name), got)
    ensures got == h
  {
    AcquiredIsSole(list, name, h);
    var l1 := After(list, Acquire(Some(name), h));
    CarriesStays(l1, mid, name, h);
    var l2 := AfterAll(l1, mid);
    var l3 := After(l2, Release(h, false, now));
    var es := [Acquire(Some(name), h)] + mid;
    AfterConcat(list, es + [Release(h, false, now)], later);
    AfterConcat(list, es, [Release(h, false, now)]);
    assert es[1..] == mid && [Release(h, false, now)][1..] == [];
    ComesBack(l3, later, name, h, got);
  }

  /** A name that never asks while it holds something is carried by at most one entry, in every run from an empty pool. */
  ghost predicate OneSession(list: Leases, es: seq<Event>, name: string)
    decreases |es|
  {
    es == [] || ((es[0].Acquire? && es[0].name == Some(name) ==> Away(list, name)) && OneSession(After(list, es[0]), es[1..], name))
  }

  lemma {:induction false} SoleAlways(list: Leases, es: seq<Event>, name: string)
    requires Sole(list, name) && IsRun(list, false, es) && OneSession(list, es, name)
    ensures Sole(AfterAll(list, es), name)
    decreases |es|
  {
    if es != [] {
      if es[0].Acquire? && es[0].name == Some(name) && es[0].got >= 0 {
        AcquiredIsSole(list, name, es[0].got);
      }
      SoleAlways(After(list, es[0]), es[1..], name);
    }
  }

  /** So over a whole run from an empty pool. */
  lemma ReturnsHomeInRuns(size: nat, es: seq<Event>, name: string, h: nat, mid: seq<Event>, now: int, later: seq<Event>, got: int)
    requires IsRun(FreeList(size), false, es) && OneSession(FreeList(size), es, name)
    requires var list := AfterAll(FreeList(size), es);
             && Away(list, name) && Found(list, false, Some(name), h)
             && Found(AfterAll(list, [Acquire(Some(name), h)] + mid + [Release(h, false, now)] + later), false, Some(name), got)
    requires (forall e <- mid :: Elsewhere(e, name, h)) && forall e <- later :: Elsewhere(e, name, h)
    ensures got == h
  {
    SoleAlways(FreeList(size), es, name);
    ReturnsHome(AfterAll(FreeList(size), es), name, h, mid, now, later, got);
  }

  /** After a hard release the entry remembers nobody. */
  lemma HardForgets(list: Leases, h: nat, now: int, name: Option<string>)
    requires h < |list|
    ensures !Remembers(Released(list, h, true, now)[h], name)
  {
  }
}
