/**
  struct mroute_helper (mroute.c:298-354): the CIDR lengths in use, kept in an array that is
  rebuilt in place when a length comes into use or goes out of use.
*/
module Mroute {
  import opened RouteModel

  lemma InUseStep(counts: seq<int>, i: nat, done: seq<nat>)
    requires i <= |counts|
    ensures i < |counts| ==> done + InUse(counts, i + 1) == if counts[i] > 0 then done + [i] + InUse(counts, i) else done + InUse(counts, i)
    ensures i == 0 ==> done + InUse(counts, i) == done
  {
    if i < |counts| && counts[i] > 0 {
      assert done + ([i] + InUse(counts, i)) == done + [i] + InUse(counts, i);
    }
  }

  class MrouteHelper {
    var cacheGeneration: nat
    const ageableTtlSecs: int
    var nNetLen: nat
    const netLen: array<nat>
    const netLenRefcount: array<int>

    ghost predicate Valid()
      reads this, netLen, netLenRefcount
      ensures Valid() ==> LensInRange(View())
    {
      && netLen.Length == netLenRefcount.Length == MR_HELPER_NET_LEN
      && (netLen as object) != netLenRefcount
      && nNetLen <= MR_HELPER_NET_LEN
      && forall i | 0 <= i < nNetLen :: netLen[i] < MR_HELPER_NET_LEN
    }

    ghost function View(): Helper
      reads this, netLen, netLenRefcount
    {
      Helper(cacheGeneration, ageableTtlSecs, if nNetLen <= netLen.Length then netLen[..nNetLen] else [], netLenRefcount[..])
    }

    ghost function Repr(): set<object> {
      {this, netLen, netLenRefcount}
    }

    constructor (ttl: int)
      ensures Valid() && fresh(Repr())
      ensures View() == Helper(0, ttl, [], seq(MR_HELPER_NET_LEN, _ => 0))
    {
      cacheGeneration, ageableTtlSecs, nNetLen := 0, ttl, 0;
      netLen := new nat[MR_HELPER_NET_LEN](_ => 0);
      netLenRefcount := new int[MR_HELPER_NET_LEN](_ => 0);
    }

    /** mroute_helper_regenerate. */
    method Regenerate()
      requires Valid()
      modifies `nNetLen, netLen
      ensures Valid() && netLen[..nNetLen] == InUse(netLenRefcount[..], MR_HELPER_NET_LEN)
    {
      hide InUse;
      ghost var counts := netLenRefcount[..];
      var j := 0;
      var i := netLenRefcount.Length;
      ghost var done: seq<nat> := [];
      while i > 0
        invariant 0 <= i <= |counts| && j <= |counts| - i
        invariant netLen[..j] == done && done + InUse(counts, i) == InUse(counts, |counts|)
        invariant forall k | 0 <= k < j :: netLen[k] < |counts|
        invariant netLenRefcount[..] == counts
      {
        i := i - 1;
        InUseStep(counts, i, done);
        if netLenRefcount[i] > 0 {
          netLen[j] := i;
          j := j + 1;
          done := done + [i];
        }
      }
      InUseStep(counts, 0, done);
      nNetLen := j;
    }

    /** mroute_helper_add_iroute; the ASSERT on netbits is the precondition. */
    method AddIroute(ir: Iroute)
      requires Valid() && ir.netbits < MR_HELPER_NET_LEN
      modifies this, netLen, netLenRefcount
      ensures Valid() && View() == CountIroute(old(View()), ir, 1)
    {
      if ir.netbits >= 0 {
        cacheGeneration := cacheGeneration + 1;
        netLenRefcount[ir.netbits] := netLenRefcount[ir.netbits] + 1;
        assert netLenRefcount[..] == old(netLenRefcount[..])[ir.netbits := old(netLenRefcount[ir.netbits]) + 1];
        if netLenRefcount[ir.netbits] == 1 {
          Regenerate();
        }
      }
    }

    /** mroute_helper_del_iroute; its ASSERT needs the length to have been counted. */
    method DelIroute(ir: Iroute)
      requires Valid() && ir.netbits < MR_HELPER_NET_LEN
      requires ir.netbits >= 0 ==> View().lenCount[ir.netbits] > 0
      modifies this, netLen, netLenRefcount
      ensures Valid() && View() == CountIroute(old(View()), ir, -1)
    {
      if ir.netbits >= 0 {
        cacheGeneration := cacheGeneration + 1;
        netLenRefcount[ir.netbits] := netLenRefcount[ir.netbits] - 1;
        assert netLenRefcount[ir.netbits] >= 0;
        assert netLenRefcount[..] == old(netLenRefcount[..])[ir.netbits := old(netLenRefcount[ir.netbits]) - 1];
        if netLenRefcount[ir.netbits] == 0 {
          Regenerate();
        }
      }
    }
  }
}
