/** The ClusterCIDR object of package multicidrset. */
module ClusterCidrs {
  import opened Cidrs
  import opened Blocks
  import opened MultiCidrSets
  import SetSpec
  import Spec = AllocatorSpec

  class ClusterCIDR {
    const name: string
    /** The selector key it is mapped under. */
    ghost const selector: string
    const ipv4CIDRSet: MultiCIDRSet?
    const ipv6CIDRSet: MultiCIDRSet?
    /** The keys of AssociatedNodes: their value is always true. */
    var associatedNodes: set<string>
    var terminating: bool

    /** The set belongs to this ClusterCIDR and no other. */
    ghost predicate Owns(s: MultiCIDRSet, fam: Family)
      reads s
    {
      s.Valid() && s.cfg.Fam() == fam && s.clusterCIDRName == name && s.selector == selector
    }

    ghost predicate Valid()
      reads this, ipv4CIDRSet, ipv6CIDRSet
    {
      && (ipv4CIDRSet != null || ipv6CIDRSet != null)
      && (ipv4CIDRSet != null ==> Owns(ipv4CIDRSet, V4))
      && (ipv6CIDRSet != null ==> Owns(ipv6CIDRSet, V6))
    }

    ghost function View(): (cc: Spec.CC)
      reads this, ipv4CIDRSet, ipv6CIDRSet
      ensures Valid() ==> cc.Valid()
    {
      Spec.CC(name,
              if ipv4CIDRSet == null then None else Some(ipv4CIDRSet.View()),
              if ipv6CIDRSet == null then None else Some(ipv6CIDRSet.View()),
              associatedNodes, terminating)
    }

    /** associatedCIDRSet: null for a family that is not configured. */
    function CIDRSetFor(fam: Family): MultiCIDRSet? {
      if fam.V4? then ipv4CIDRSet else ipv6CIDRSet
    }

    constructor (name: string, ghost key: string, ipv4: MultiCIDRSet?, ipv6: MultiCIDRSet?, terminating: bool)
      ensures this.name == name && selector == key && ipv4CIDRSet == ipv4 && ipv6CIDRSet == ipv6
      ensures associatedNodes == {} && this.terminating == terminating
    {
      this.name := name;
      this.selector := key;
      this.ipv4CIDRSet := ipv4;
      this.ipv6CIDRSet := ipv6;
      this.associatedNodes := {};
      this.terminating := terminating;
    }

    /** Occupy in the set of the CIDR's family. */
    method Occupy(cidr: Cidr) returns (ok: bool)
      requires Valid() && cidr.Valid() && CIDRSetFor(cidr.fam) != null
      modifies CIDRSetFor(cidr.fam)
      ensures Valid()
      ensures var s := SetSpec.Occupy(old(View()).SetFor(cidr.fam).value, cidr);
              (ok <==> s.Some?) && View() == if ok then old(View()).With(cidr.fam, s.value) else old(View())
    {
      ok := CIDRSetFor(cidr.fam).Occupy(cidr);
    }

    /** Release in the set of the CIDR's family. */
    method Release(cidr: Cidr) returns (ok: bool)
      requires Valid() && cidr.Valid() && CIDRSetFor(cidr.fam) != null
      modifies CIDRSetFor(cidr.fam)
      ensures Valid()
      ensures var s := SetSpec.Release(old(View()).SetFor(cidr.fam).value, cidr);
              (ok <==> s.Some?) && View() == if ok then old(View()).With(cidr.fam, s.value) else old(View())
    {
      ok := CIDRSetFor(cidr.fam).Release(cidr);
    }

    method NextCandidate(fam: Family) returns (candidate: Option<Cidr>, evaluated: int)
      requires Valid() && CIDRSetFor(fam) != null
      modifies CIDRSetFor(fam)
      ensures Valid()
      ensures var s := old(View()).SetFor(fam).value;
              var r := SetSpec.NextCandidate(s);
              if r.None? then candidate == None && View() == old(View())
              else candidate == Some(s.cfg.Block(r.value.index)) && evaluated == r.value.skipped
                   && View() == old(View()).With(fam, r.value.set')
    {
      candidate, evaluated := CIDRSetFor(fam).NextCandidate();
    }
  }
}
