/** The multiCIDRRangeAllocator object.

`View` is the abstract value of the whole object graph; each method is proved to
change it as the function of the same name in `AllocatorSpec` or `Lifecycle`
says. A ghost `Ref` beside a ClusterCIDR is its place in the map.
 */
module RangeAllocators {
  import opened Cidrs
  import opened Blocks
  import opened MultiCidrSets
  import opened ClusterCidrs
  import opened PriorityQueues
  import opened Priority
  import opened Ordering
  import opened AllocatorSpec
  import SetSpec
  import Lifecycle
  import Assign

  class RangeAllocator {
    var cidrMap: map<string, seq<ClusterCIDR>>
    ghost var Repr: set<object>

    ghost predicate Has(r: Ref)
      reads this
    {
      r.key in cidrMap && r.idx < |cidrMap[r.key]|
    }

    ghost function Get(r: Ref): ClusterCIDR
      requires Has(r)
      reads this
    {
      cidrMap[r.key][r.idx]
    }

    ghost predicate Entry(cc: ClusterCIDR, key: string)
      reads this, Repr
    {
      && cc in Repr
      && (cc.ipv4CIDRSet != null ==> cc.ipv4CIDRSet in Repr)
      && (cc.ipv6CIDRSet != null ==> cc.ipv6CIDRSet in Repr)
      && cc.Valid() && cc.selector == key
    }

    ghost predicate Valid()
      reads this, Repr
    {
      && this !in Repr
      && (forall k :: k in cidrMap ==> cidrMap[k] != [])
      && (forall r :: Has(r) ==> Entry(Get(r), r.key))
      && (forall r, q :: Has(r) && Has(q) && r.key == q.key && Get(r).name == Get(q).name ==> r == q)
    }

    ghost function Views(list: seq<ClusterCIDR>, key: string): (views: seq<CC>)
      requires forall i :: 0 <= i < |list| ==> Entry(list[i], key)
      reads this, Repr
      ensures |views| == |list| && forall i :: 0 <= i < |list| ==> views[i] == list[i].View()
    {
      if list == [] then [] else
      assert Entry(list[0], key);
      [list[0].View()] + Views(list[1..], key)
    }

    ghost function View(): (m: CidrMap)
      requires Valid()
      reads this, Repr
    {
      assert forall k, i :: k in cidrMap && 0 <= i < |cidrMap[k]| ==> Has(Ref(k, i)) && Get(Ref(k, i)) == cidrMap[k][i];
      map k | k in cidrMap :: Views(cidrMap[k], k)
    }

    lemma ViewAt()
      requires Valid()
      ensures forall r :: InMap(View(), r) <==> Has(r)
      ensures forall r :: Has(r) ==> At(View(), r) == Get(r).View() && At(View(), r).name == Get(r).name
      ensures View().Keys == cidrMap.Keys && forall k :: k in cidrMap ==> |View()[k]| == |cidrMap[k]|
      ensures ValidMap(View())
    {
      forall k | k in View()
        ensures View()[k] != []
      {
      }
    }

    /** The view is determined by the entries. */
    lemma ViewIs(m: CidrMap)
      requires Valid() && m.Keys == cidrMap.Keys && forall k :: k in m ==> |m[k]| == |cidrMap[k]|
      requires forall q :: Has(q) ==> Get(q).View() == At(m, q)
      ensures View() == m
    {
      hide CC.Valid, ClusterCIDR.Valid, ClusterCIDR.View;
      ViewAt();
      forall k | k in m
        ensures View()[k] == m[k]
      {
        forall i | 0 <= i < |m[k]|
          ensures View()[k][i] == m[k][i]
        {
          assert At(View(), Ref(k, i)) == At(m, Ref(k, i));
        }
      }
    }

    /** If the entries other than r look as in m, the view differs from m only at r. */
    lemma ViewIsPut(m: CidrMap, r: Ref)
      requires Valid() && Has(r) && m.Keys == cidrMap.Keys && forall k :: k in m ==> |m[k]| == |cidrMap[k]|
      requires forall q :: Has(q) && q != r ==> Get(q).View() == At(m, q)
      ensures InMap(m, r) && View() == Put(m, r, Get(r).View())
    {
      hide CC.Valid, ClusterCIDR.Valid, ClusterCIDR.View, RangeAllocator.Valid, View;
      var m' := Put(m, r, Get(r).View());
      assert forall q :: InMap(m', q) <==> Has(q);
      ViewIs(m');
    }

    ghost predicate IsAt(cc: ClusterCIDR, r: Ref)
      reads this
    {
      Has(r) && Get(r) == cc
    }

    /** Occupy a CIDR in one ClusterCIDR. */
    method Occupy(cc: ClusterCIDR, cidr: Cidr, ghost r: Ref) returns (ok: bool)
      requires Valid() && IsAt(cc, r) && cidr.Valid() && cc.CIDRSetFor(cidr.fam) != null
      modifies Repr
      ensures cidrMap == old(cidrMap) && Repr == old(Repr)
      ensures Valid() && ValidMap(old(View())) && HasSet(old(View()), r, cidr.fam)
      ensures ok <==> OccupyAt(old(View()), r, cidr).Some?
      ensures View() == if ok then OccupyAt(old(View()), r, cidr).value else old(View())
    {
      hide MultiCIDRSet.Valid, ValidMap, Cidr.Valid, MultiCIDRSet.View, SetSpec.Occupy, SetSpec.Release, View,
        SetSpec.MeetingBlocks;
      ViewAt();
      assert Entry(cc, r.key);
      ghost var m := View();
      ok := cc.Occupy(cidr);
      forall q | Has(q)
        ensures Entry(Get(q), q.key) && (q != r ==> Get(q).View() == At(m, q))
      {
        assert old(Entry(Get(q), q.key));
      }
      ViewIsPut(m, r);
      PutSame(m, r);
    }

    /** Release a CIDR in one ClusterCIDR. */
    method Release(cc: ClusterCIDR, cidr: Cidr, ghost r: Ref) returns (ok: bool)
      requires Valid() && IsAt(cc, r) && cidr.Valid() && cc.CIDRSetFor(cidr.fam) != null
      modifies Repr
      ensures cidrMap == old(cidrMap) && Repr == old(Repr)
      ensures Valid() && ValidMap(old(View())) && HasSet(old(View()), r, cidr.fam)
      ensures ok <==> ReleaseAt(old(View()), r, cidr).Some?
      ensures View() == if ok then ReleaseAt(old(View()), r, cidr).value else old(View())
    {
      hide MultiCIDRSet.Valid, ValidMap, Cidr.Valid, MultiCIDRSet.View, SetSpec.Occupy, SetSpec.Release, View,
        SetSpec.MeetingBlocks;
      ViewAt();
      assert Entry(cc, r.key);
      ghost var m := View();
      ok := cc.Release(cidr);
      forall q | Has(q)
        ensures Entry(Get(q), q.key) && (q != r ==> Get(q).View() == At(m, q))
      {
        assert old(Entry(Get(q), q.key));
      }
      ViewIsPut(m, r);
      PutSame(m, r);
    }

    /** The next candidate of one set. */
    method NextCandidate(cc: ClusterCIDR, fam: Family, ghost r: Ref) returns (candidate: Option<Cidr>, evaluated: int)
      requires Valid() && IsAt(cc, r) && cc.CIDRSetFor(fam) != null
      modifies Repr
      ensures cidrMap == old(cidrMap) && Repr == old(Repr)
      ensures Valid() && ValidMap(old(View())) && HasSet(old(View()), r, fam)
      ensures var s := SetAt(old(View()), r, fam);
              var next := SetSpec.NextCandidate(s);
              if next.None? then candidate == None && View() == old(View())
              else candidate == Some(s.cfg.Block(next.value.index)) && evaluated == next.value.skipped
                   && View() == PutSet(old(View()), r, fam, next.value.set')
    {
      hide MultiCIDRSet.Valid, ValidMap, Cidr.Valid, MultiCIDRSet.View, SetSpec.NextCandidate, View, Bits.Pow2;
      ViewAt();
      assert Entry(cc, r.key);
      ghost var m := View();
      candidate, evaluated := cc.NextCandidate(fam);
      forall q | Has(q)
        ensures Entry(Get(q), q.key) && (q != r ==> Get(q).View() == At(m, q))
      {
        assert old(Entry(Get(q), q.key));
      }
      ViewIsPut(m, r);
      PutSame(m, r);
    }

    /** Record the node as a user of the ClusterCIDR. */
    method Associate(cc: ClusterCIDR, node: string, ghost r: Ref)
      requires Valid() && IsAt(cc, r)
      modifies Repr
      ensures cidrMap == old(cidrMap) && Repr == old(Repr)
      ensures Valid() && ValidMap(old(View())) && InMap(old(View()), r)
      ensures View() == AllocatorSpec.Associate(old(View()), r, node)
    {
      hide MultiCIDRSet.Valid, ValidMap, MultiCIDRSet.View, View;
      ViewAt();
      assert Entry(cc, r.key);
      ghost var m := View();
      cc.associatedNodes := cc.associatedNodes + {node};
      forall q | Has(q)
        ensures Entry(Get(q), q.key) && (q != r ==> Get(q).View() == At(m, q))
      {
        assert old(Entry(Get(q), q.key));
      }
      ViewIsPut(m, r);
      PutSame(m, r);
    }

    /** Remove the node from the users of the ClusterCIDR. */
    method Dissociate(cc: ClusterCIDR, node: string, ghost r: Ref)
      requires Valid() && IsAt(cc, r)
      modifies Repr
      ensures cidrMap == old(cidrMap) && Repr == old(Repr)
      ensures Valid() && ValidMap(old(View())) && InMap(old(View()), r)
      ensures View() == AllocatorSpec.Dissociate(old(View()), r, node)
    {
      hide MultiCIDRSet.Valid, ValidMap, MultiCIDRSet.View, View;
      ViewAt();
      assert Entry(cc, r.key);
      ghost var m := View();
      cc.associatedNodes := cc.associatedNodes - {node};
      forall q | Has(q)
        ensures Entry(Get(q), q.key) && (q != r ==> Get(q).View() == At(m, q))
      {
        assert old(Entry(Get(q), q.key));
      }
      ViewIsPut(m, r);
      PutSame(m, r);
    }

    // ---------- allocateCIDR ----------

    method MarksAt(cc: ClusterCIDR, cidr: Cidr, ghost r: Ref) returns (hit: bool)
      requires Valid() && IsAt(cc, r)
      ensures ValidMap(View()) && (hit <==> Marks(View(), r, cidr))
    {
      hide MultiCIDRSet.Valid, ValidMap, SetSpec.IsMarked, View;
      ViewAt();
      assert Entry(cc, r.key);
      var s := cc.CIDRSetFor(cidr.fam);
      if s == null {
        return false;
      }
      hit := s.CIDRAllocated(cidr);
    }

    /** cidrInAllocatedList. */
    method CidrInAllocatedList(cidr: Cidr) returns (found: bool)
      requires Valid()
      ensures ValidMap(View()) && (found <==> InAllocatedList(View(), cidr))
    {
      hide ValidMap, Marks, View, RangeAllocator.Valid, Cidr.Valid;
      ViewAt();
      MarksList(View(), cidr);
      var keys := cidrMap.Keys;
      while keys != {}
        invariant keys <= cidrMap.Keys
        invariant forall r :: Has(r) && r.key !in keys ==> !Marks(View(), r, cidr)
        decreases |keys|
      {
        var key :| key in keys;
        var i := 0;
        while i < |cidrMap[key]|
          invariant i <= |cidrMap[key]|
          invariant forall r :: Has(r) && r.key == key && r.idx < i ==> !Marks(View(), r, cidr)
        {
          var hit := MarksAt(cidrMap[key][i], cidr, Ref(key, i));
          if hit {
            return true;
          }
          i := i + 1;
        }
        keys := keys - {key};
      }
      return false;
    }

    method OverlappedAt(cc: ClusterCIDR, cidr: Cidr, ghost r: Ref) returns (hit: bool)
      requires Valid() && IsAt(cc, r) && cidr.Valid()
      ensures ValidMap(View()) && (hit <==> Overlapped(View(), r, cidr))
    {
      hide MultiCIDRSet.Valid, ValidMap, SetSpec.MeetsMarked, View;
      ViewAt();
      assert Entry(cc, r.key);
      var s := cc.CIDRSetFor(cidr.fam);
      if s == null {
        return false;
      }
      hit := s.CIDROverlaps(cidr);
    }

    /** cidrOverlapWithAllocatedList. */
    method CidrOverlapWithAllocatedList(cidr: Cidr) returns (found: bool)
      requires Valid() && cidr.Valid()
      ensures ValidMap(View()) && (found <==> OverlapsAllocatedList(View(), cidr))
    {
      hide ValidMap, Overlapped, View, RangeAllocator.Valid, Cidr.Valid;
      ViewAt();
      OverlappedList(View(), cidr);
      var keys := cidrMap.Keys;
      while keys != {}
        invariant keys <= cidrMap.Keys
        invariant forall r :: Has(r) && r.key !in keys ==> !Overlapped(View(), r, cidr)
        decreases |keys|
      {
        var key :| key in keys;
        var i := 0;
        while i < |cidrMap[key]|
          invariant i <= |cidrMap[key]|
          invariant forall r :: Has(r) && r.key == key && r.idx < i ==> !Overlapped(View(), r, cidr)
        {
          var hit := OverlappedAt(cidrMap[key][i], cidr, Ref(key, i));
          if hit {
            return true;
          }
          i := i + 1;
        }
        keys := keys - {key};
      }
      return false;
    }

    /** allocateCIDR: the loop over the candidates of one set. */
    method AllocateCIDR(cc: ClusterCIDR, fam: Family, ghost r: Ref) returns (block: Option<Cidr>)
      requires Valid() && IsAt(cc, r) && cc.CIDRSetFor(fam) != null
      modifies Repr
      ensures cidrMap == old(cidrMap) && Repr == old(Repr)
      ensures Valid() && ValidMap(old(View())) && HasSet(old(View()), r, fam)
      ensures AllocatorSpec.AllocateCIDR(old(View()), r, fam) == Allocation(View(), block)
    {
      hide MultiCIDRSet.Valid, ValidMap, Cidr.Valid, View, Bits.Pow2, SameShape, OccupyAt, PutSet,
        SetSpec.NextCandidate, InAllocatedList, OverlapsAllocatedList, AllocateFrom;
      ViewAt();
      var max := cc.CIDRSetFor(fam).maxCIDRs;
      assert Entry(cc, r.key);
      MaxOf(cc, fam, r);
      var evaluated: nat := 0;
      while evaluated < max
        invariant Valid() && ValidMap(View()) && HasSet(View(), r, fam) && max == SetAt(View(), r, fam).cfg.Max()
        invariant AllocateFrom(old(View()), r, fam, 0) == AllocateFrom(View(), r, fam, evaluated)
        decreases max - evaluated
      {
        ghost var m := View();
        var candidate, last := NextCandidate(cc, fam, r);
        AllocateUnfold(m, r, fam, evaluated);
        if candidate.None? {
          return None;
        }
        ViewAt();
        evaluated := evaluated + last;
        var taken := CidrInAllocatedList(candidate.value);
        if !taken {
          // Deep check.
          taken := CidrOverlapWithAllocatedList(candidate.value);
        }
        if taken {
          MaxOf(cc, fam, r);
          evaluated := evaluated + 1;
          continue;
        }
        var ok := Occupy(cc, candidate.value, r);
        if !ok {
          return None;
        }
        return candidate;
      }
      AllocateEnd(View(), r, fam, evaluated);
      return None;
    }

    lemma MaxOf(cc: ClusterCIDR, fam: Family, r: Ref)
      requires Valid() && IsAt(cc, r) && cc.CIDRSetFor(fam) != null
      ensures ValidMap(View()) && HasSet(View(), r, fam)
      ensures cc.CIDRSetFor(fam).maxCIDRs == SetAt(View(), r, fam).cfg.Max()
    {
      hide ValidMap, View, Bits.Pow2;
      ViewAt();
      assert Entry(cc, r.key);
    }

    // ---------- prioritizedCIDRs ----------

    /** One round: a block for each configured family. */
    method TryFamilies(cc: ClusterCIDR, ghost r: Ref) returns (ok: bool, cidrs: seq<Cidr>)
      requires Valid() && IsAt(cc, r)
      modifies Repr
      ensures cidrMap == old(cidrMap) && Repr == old(Repr)
      ensures Valid() && ValidMap(old(View())) && InMap(old(View()), r)
      ensures AllocatorSpec.TryFamilies(old(View()), r) == Reservation(View(), if ok then Some(cidrs) else None)
    {
      hide MultiCIDRSet.Valid, ValidMap, Cidr.Valid, View, RangeAllocator.Valid, SameShape,
        AllocatorSpec.AllocateCIDR;
      ViewAt();
      cidrs := [];
      if cc.ipv4CIDRSet != null {
        var block := AllocateCIDR(cc, V4, r);
        if block.None? {
          return false, [];
        }
        cidrs := [block.value];
      }
      ViewAt();
      if cc.ipv6CIDRSet != null {
        var block := AllocateCIDR(cc, V6, r);
        if block.None? {
          return false, [];
        }
        cidrs := cidrs + [block.value];
      }
      return true, cidrs;
    }

    /** The list and the places of its entries. */
    ghost predicate Lists(list: seq<ClusterCIDR>, refs: seq<Ref>)
      reads this
    {
      |list| == |refs| && forall j :: 0 <= j < |list| ==> IsAt(list[j], refs[j])
    }

    lemma ListInMap(list: seq<ClusterCIDR>, refs: seq<Ref>)
      requires Valid() && Lists(list, refs)
      ensures ValidMap(View()) && InMapAll(View(), refs)
    {
      hide ValidMap, View, RangeAllocator.Valid;
      ViewAt();
    }

    method PrioritizedCIDRs(list: seq<ClusterCIDR>, ghost refs: seq<Ref>)
      returns (chosen: ClusterCIDR?, cidrs: seq<Cidr>, ghost home: Option<Ref>)
      requires Valid() && Lists(list, refs)
      modifies Repr
      ensures cidrMap == old(cidrMap) && Repr == old(Repr)
      ensures Valid() && ValidMap(old(View())) && InMapAll(old(View()), refs)
      ensures AllocatorSpec.PrioritizedCIDRs(old(View()), refs) == Prioritized(View(), home, cidrs)
      ensures home.Some? <==> chosen != null
      ensures home.Some? ==> IsAt(chosen, home.value)
    {
      hide ValidMap, View, RangeAllocator.Valid, AllocatorSpec.TryFamilies;
      ListInMap(list, refs);
      var n := 0;
      while n < |list|
        invariant cidrMap == old(cidrMap) && Repr == old(Repr)
        invariant n <= |list| && Valid() && ValidMap(View()) && InMapAll(View(), refs[n..])
        invariant AllocatorSpec.PrioritizedCIDRs(old(View()), refs) == AllocatorSpec.PrioritizedCIDRs(View(), refs[n..])
      {
        assert refs[n..][0] == refs[n] && refs[n..][1..] == refs[n + 1..];
        var ok, found := TryFamilies(list[n], refs[n]);
        if ok {
          return list[n], found, Some(refs[n]);
        }
        n := n + 1;
      }
      return null, [], None;
    }

    // ---------- occupyCIDRs and ReleaseCIDR ----------

    lemma SetPresent(cc: ClusterCIDR, r: Ref, fam: Family)
      requires Valid() && IsAt(cc, r)
      ensures ValidMap(View()) && (HasSet(View(), r, fam) <==> cc.CIDRSetFor(fam) != null)
    {
      hide ValidMap, View, RangeAllocator.Valid;
      ViewAt();
    }

    method OccupyAll(cc: ClusterCIDR, cidrs: seq<Cidr>, ghost r: Ref) returns (ok: bool)
      requires Valid() && IsAt(cc, r) && ValidMap(View()) && NoNil(View(), r, cidrs)
      modifies Repr
      ensures cidrMap == old(cidrMap) && Repr == old(Repr)
      ensures Valid() && ValidMap(old(View())) && NoNil(old(View()), r, cidrs)
      ensures AllocatorSpec.OccupyAll(old(View()), r, cidrs) == Change(View(), ok)
    {
      hide ValidMap, View, RangeAllocator.Valid, Cidr.Valid, OccupyAt, SameShape;
      var n := 0;
      while n < |cidrs|
        invariant cidrMap == old(cidrMap) && Repr == old(Repr)
        invariant n <= |cidrs| && Valid() && ValidMap(View()) && NoNil(View(), r, cidrs[n..])
        invariant AllocatorSpec.OccupyAll(old(View()), r, cidrs) == AllocatorSpec.OccupyAll(View(), r, cidrs[n..])
      {
        assert cidrs[n..][0] == cidrs[n] && cidrs[n..][1..] == cidrs[n + 1..];
        SetPresent(cc, r, cidrs[n].fam);
        NoNilNext(View(), r, cidrs[n..]);
        var done := Occupy(cc, cidrs[n], r);
        if !done {
          return false;
        }
        n := n + 1;
      }
      return true;
    }

    method ReleaseAll(cc: ClusterCIDR, cidrs: seq<Cidr>, ghost r: Ref) returns (ok: bool)
      requires Valid() && IsAt(cc, r) && ValidMap(View()) && NoNil(View(), r, cidrs)
      modifies Repr
      ensures cidrMap == old(cidrMap) && Repr == old(Repr)
      ensures Valid() && ValidMap(old(View())) && NoNil(old(View()), r, cidrs)
      ensures AllocatorSpec.ReleaseAll(old(View()), r, cidrs) == Change(View(), ok)
    {
      hide ValidMap, View, RangeAllocator.Valid, Cidr.Valid, ReleaseAt, SameShape;
      var n := 0;
      while n < |cidrs|
        invariant cidrMap == old(cidrMap) && Repr == old(Repr)
        invariant n <= |cidrs| && Valid() && ValidMap(View()) && NoNil(View(), r, cidrs[n..])
        invariant AllocatorSpec.ReleaseAll(old(View()), r, cidrs) == AllocatorSpec.ReleaseAll(View(), r, cidrs[n..])
      {
        assert cidrs[n..][0] == cidrs[n] && cidrs[n..][1..] == cidrs[n + 1..];
        SetPresent(cc, r, cidrs[n].fam);
        NoNilNext(View(), r, cidrs[n..]);
        var done := Release(cc, cidrs[n], r);
        if !done {
          return false;
        }
        n := n + 1;
      }
      return true;
    }

    method OccupyCIDRs(node: string, cidrs: seq<Cidr>, list: seq<ClusterCIDR>, ghost refs: seq<Ref>)
      returns (ok: bool, ghost home: Option<Ref>)
      requires Valid() && Lists(list, refs) && ValidMap(View()) && NoNilList(View(), refs, cidrs)
      modifies Repr
      ensures cidrMap == old(cidrMap) && Repr == old(Repr)
      ensures Valid() && ValidMap(old(View())) && NoNilList(old(View()), refs, cidrs)
      ensures AllocatorSpec.OccupyCIDRs(old(View()), refs, node, cidrs) == Occupied(View(), home)
      ensures ok <==> home.Some?
    {
      hide ValidMap, View, RangeAllocator.Valid, AllocatorSpec.OccupyAll, NoNil, InRanges, SameShape,
        AllocatorSpec.Associate;
      var n := 0;
      while n < |list|
        invariant cidrMap == old(cidrMap) && Repr == old(Repr)
        invariant n <= |list| && Valid() && ValidMap(View()) && NoNilList(View(), refs[n..], cidrs)
        invariant AllocatorSpec.OccupyCIDRs(old(View()), refs, node, cidrs) ==
          AllocatorSpec.OccupyCIDRs(View(), refs[n..], node, cidrs)
      {
        assert refs[n..][0] == refs[n] && refs[n..][1..] == refs[n + 1..];
        ghost var m := View();
        var done := OccupyAll(list[n], cidrs, refs[n]);
        // The node is recorded only if the ClusterCIDR could occupy all its CIDRs.
        if done {
          Associate(list[n], node, refs[n]);
          return true, Some(refs[n]);
        }
        NoNilListKept(m, View(), refs[n + 1..], cidrs);
        n := n + 1;
      }
      return false, None;
    }

    /** allocatedClusterCIDR. */
    method AllocatedClusterCIDR(node: string, list: seq<ClusterCIDR>, ghost refs: seq<Ref>)
      returns (found: ClusterCIDR?, ghost home: Option<Ref>)
      requires Valid() && Lists(list, refs)
      ensures ValidMap(View()) && InMapAll(View(), refs)
      ensures home == AllocatorSpec.AllocatedClusterCIDR(View(), refs, node)
      ensures home.Some? <==> found != null
      ensures home.Some? ==> found in list && IsAt(found, home.value)
      ensures found == null ==> forall j :: 0 <= j < |list| ==> node !in list[j].associatedNodes
      ensures found != null ==> exists n :: 0 <= n < |list| && list[n] == found && node in list[n].associatedNodes
                                  && forall j :: 0 <= j < n ==> node !in list[j].associatedNodes
    {
      hide ValidMap, View, RangeAllocator.Valid, ClusterCIDR.Valid;
      ListInMap(list, refs);
      ViewAt();
      var n := 0;
      while n < |list|
        invariant n <= |list| && forall j :: 0 <= j < n ==> node !in list[j].associatedNodes
        invariant AllocatorSpec.AllocatedClusterCIDR(View(), refs, node) ==
          AllocatorSpec.AllocatedClusterCIDR(View(), refs[n..], node)
      {
        assert refs[n..][0] == refs[n] && refs[n..][1..] == refs[n + 1..];
        assert IsAt(list[n], refs[n]);
        if node in list[n].associatedNodes {
          return list[n], Some(refs[n]);
        }
        n := n + 1;
      }
      return null, None;
    }

    /** ReleaseCIDR over the ClusterCIDRs that match the node. */
    method ReleaseNode(node: string, cidrs: seq<Cidr>, list: seq<ClusterCIDR>, ghost refs: seq<Ref>) returns (ok: bool)
      requires Valid() && Lists(list, refs) && ValidMap(View()) && NoNilRelease(View(), refs, node, cidrs)
      modifies Repr
      ensures cidrMap == old(cidrMap) && Repr == old(Repr)
      ensures Valid() && ValidMap(old(View())) && NoNilRelease(old(View()), refs, node, cidrs)
      ensures AllocatorSpec.ReleaseCIDR(old(View()), refs, node, cidrs) == Change(View(), ok)
    {
      hide ValidMap, View, RangeAllocator.Valid, AllocatorSpec.ReleaseAll, NoNil, SameShape, AllocatorSpec.Dissociate;
      if |cidrs| == 0 {
        return true;
      }
      var cc, home := AllocatedClusterCIDR(node, list, refs);
      if cc == null {
        return false;
      }
      ok := ReleaseAll(cc, cidrs, home.value);
      if ok {
        Dissociate(cc, node, home.value);
      }
    }

    /** updateCIDRsAllocation, with what the lister and the patch attempts answer. */
    method UpdateCIDRsAllocation(cc: ClusterCIDR, node: string, cidrs: seq<Cidr>, lister: Lister,
                                 patches: seq<Patch>, ghost r: Ref)
      returns (outcome: Outcome)
      requires Valid() && IsAt(cc, r) && ValidMap(View()) && NoNil(View(), r, cidrs) && patches != []
      modifies Repr
      ensures cidrMap == old(cidrMap) && Repr == old(Repr)
      ensures Valid() && ValidMap(old(View())) && NoNil(old(View()), r, cidrs)
      ensures outcome == UpdateOutcome(cidrs, lister, patches)
      ensures View() == if Assign.Abandoned(cidrs, lister, patches)
                        then AllocatorSpec.ReleaseAll(old(View()), r, cidrs).m
                        else if cidrs != [] && lister == Listed([]) && PatchOk in patches
                        then AllocatorSpec.Associate(old(View()), r, node)
                        else old(View())
    {
      hide ValidMap, View, RangeAllocator.Valid, AllocatorSpec.ReleaseAll, NoNil, AllocatorSpec.Associate,
        Assign.Abandoned;
      Assign.UpdateDecides(cidrs, lister, patches);
      if lister.ListerError? {
        return ListerFailed;
      }
      if lister.podCIDRs == cidrs {
        return AlreadySame;
      }
      if |lister.podCIDRs| != 0 {
        var released := ReleaseAll(cc, cidrs, r);
        return HasOther;
      }
      var i := 0;
      while i < |patches|
        invariant i <= |patches|
        invariant i < |patches| ==> PatchResult(patches) == PatchResult(patches[i..])
        invariant i == |patches| ==> PatchResult(patches) == patches[i - 1] && !patches[i - 1].PatchOk?
      {
        assert i + 1 < |patches| ==> patches[i..][1..] == patches[i + 1..];
        if patches[i].PatchOk? {
          Associate(cc, node, r);
          return Assigned;
        }
        i := i + 1;
      }
      // The error of the last attempt decides whether the blocks go back to the pool.
      if patches[i - 1].PatchTimeout? {
        return TimedOut;
      }
      var released := ReleaseAll(cc, cidrs, r);
      return PatchRefused;
    }

    // ---------- orderedMatchingClusterCIDRs ----------

    /** The queue and its items are not part of the allocator, and the items point into its map. */
    ghost predicate Detached(pq: PriorityQueue)
      reads this, pq
    {
      pq !in Repr && forall i :: 0 <= i < |pq.items| ==>
        pq.items[i] !in Repr && IsAt(pq.items[i].clusterCIDR, pq.items[i].ref)
    }

    /** Push one ClusterCIDR. */
    method QueueOne(pq: PriorityQueue, cc: ClusterCIDR, key: string, matcher: Matcher, occupy: bool,
                    ghost m: CidrMap, ghost done: set<Ref>, ghost r: Ref)
      requires Valid() && m == View() && ValidMap(m) && IsAt(cc, r) && r.key == key && Queued(m, matcher, occupy, r)
      requires pq.Valid() && pq.Heap() && Queues(Elements(pq.items), m, matcher, occupy, done)
      requires r !in done && Detached(pq)
      modifies pq, pq.items
      ensures Valid() && View() == m && pq.Valid() && pq.Heap() && Detached(pq)
      ensures forall x :: x in pq.items ==> x in old(pq.items) || fresh(x)
      ensures Queues(Elements(pq.items), m, matcher, occupy, done + {r})
    {
      hide ValidMap, View, RangeAllocator.Valid, Queues, ItemFor;
      var item := new PriorityQueueItem(cc, matcher(key).count, key, r);
      ItemKey(item, m, matcher, occupy);
      QueuesHasSet(item, m, matcher, occupy);
      QueuesAdd(Elements(pq.items), m, matcher, occupy, done, item);
      pq.HeapPush(item);
      forall x | x in pq.items
        ensures x in old(pq.items) || x == item
      {
        assert x in Elements(pq.items);
      }
    }

    /** Push the ClusterCIDRs of one matching selector. */
    method QueueSelector(pq: PriorityQueue, key: string, matcher: Matcher, occupy: bool, ghost m: CidrMap,
                         ghost done: set<Ref>)
      requires Valid() && m == View() && ValidMap(m) && key in cidrMap && matcher(key).Matches?
      requires pq.Valid() && pq.Heap() && Queues(Elements(pq.items), m, matcher, occupy, done) && Detached(pq)
      requires forall r :: r in done ==> r.key != key
      modifies pq, pq.items
      ensures Valid() && View() == m && pq.Valid() && pq.Heap() && Detached(pq)
      ensures forall x :: x in pq.items ==> x in old(pq.items) || fresh(x)
      ensures Queues(Elements(pq.items), m, matcher, occupy,
                     done + QueuedUnder(m, matcher, occupy, key, |cidrMap[key]|))
    {
      hide ValidMap, View, RangeAllocator.Valid, Queues;
      assert done + QueuedUnder(m, matcher, occupy, key, 0) == done;
      var i := 0;
      while i < |cidrMap[key]|
        invariant i <= |cidrMap[key]| && Valid() && View() == m && pq.Valid() && pq.Heap() && Detached(pq)
        invariant forall x :: x in pq.items ==> x in old(pq.items) || fresh(x)
        invariant Queues(Elements(pq.items), m, matcher, occupy, done + QueuedUnder(m, matcher, occupy, key, i))
      {
        var cc := cidrMap[key][i];
        ghost var before, r := done + QueuedUnder(m, matcher, occupy, key, i), Ref(key, i);
        ViewAt();
        QueuedStep(m, matcher, occupy, key, i);
        // Terminating ClusterCIDRs are only wanted for a release.
        if !occupy || !cc.terminating {
          QueueOne(pq, cc, key, matcher, occupy, m, before, r);
          assert done + QueuedUnder(m, matcher, occupy, key, i + 1) == before + {r};
        } else {
          assert done + QueuedUnder(m, matcher, occupy, key, i + 1) == before;
        }
        i := i + 1;
      }
    }

    /** Push every matching ClusterCIDR; the selectors are visited in no particular order. */
    method QueueMatching(matcher: Matcher, occupy: bool, ghost m: CidrMap)
      returns (ok: bool, pq: PriorityQueue, ghost done: set<Ref>)
      requires Valid() && m == View() && ValidMap(m)
      ensures fresh(pq) && fresh(pq.items) && pq.Valid() && pq.Heap() && Detached(pq)
      ensures ok <==> forall k :: k in cidrMap ==> !matcher(k).BadSelector?
      ensures ok ==>
        Queues(Elements(pq.items), m, matcher, occupy, done) && forall r :: r in done <==> Queued(m, matcher, occupy, r)
    {
      hide ValidMap, View, RangeAllocator.Valid, Queues;
      ViewAt();
      pq := new PriorityQueue();
      var keys := cidrMap.Keys;
      done := {};
      EmptyQueue(m, matcher, occupy);
      while keys != {}
        invariant keys <= cidrMap.Keys && Valid() && View() == m
        invariant fresh(pq) && fresh(pq.items) && pq.Valid() && pq.Heap() && Detached(pq)
        invariant forall k :: k in cidrMap && k !in keys ==> !matcher(k).BadSelector?
        invariant Queues(Elements(pq.items), m, matcher, occupy, done)
        invariant forall r :: r in done <==> Queued(m, matcher, occupy, r) && r.key !in keys
        decreases |keys|
      {
        var key :| key in keys;
        var answer := matcher(key);
        if answer.BadSelector? {
          return false, pq, {};
        }
        if answer.Matches? {
          QueueSelector(pq, key, matcher, occupy, m, done);
          done := done + QueuedUnder(m, matcher, occupy, key, |cidrMap[key]|);
        }
        keys := keys - {key};
      }
      ok := true;
    }

    /** The matching ClusterCIDRs by priority, then the catch-all ones; an error if a selector cannot be parsed. */
    method OrderedMatchingClusterCIDRs(matcher: Matcher, occupy: bool)
      returns (ok: bool, list: seq<ClusterCIDR>, ghost refs: seq<Ref>)
      requires Valid()
      ensures ok <==> forall k :: k in cidrMap ==> !matcher(k).BadSelector?
      ensures ok ==> Lists(list, refs) && ValidMap(View()) && IsOrdering(View(), matcher, occupy, refs)
    {
      hide ValidMap, View, RangeAllocator.Valid, Queues;
      ViewAt();
      ghost var m := View();
      var pq;
      ghost var done;
      ok, pq, done := QueueMatching(matcher, occupy, m);
      list, refs := [], [];
      if ok {
        var popped := PopQueue(pq);
        list := seq(|popped|, i requires 0 <= i < |popped| => popped[i].clusterCIDR);
        refs := RefsOf(popped);
        PoppedSorted(popped, m, matcher, occupy, done);
        ghost var n := |refs|;
        // Append the catch-all ClusterCIDRs.
        if DEFAULT_KEY in cidrMap {
          list := list + cidrMap[DEFAULT_KEY];
        }
        refs := refs + DefaultRefs(m);
        DefaultList(m);
        assert refs[..n] == RefsOf(popped) && refs[n..] == DefaultRefs(m);
      }
    }

    method PopQueue(pq: PriorityQueue) returns (popped: seq<PriorityQueueItem>)
      requires Valid() && pq.Valid() && pq.Heap() && Detached(pq)
      modifies pq, pq.items
      ensures Valid() && View() == old(View())
      ensures InOrder(popped) && Elements(popped) == Elements(old(pq.items))
      ensures forall i :: 0 <= i < |popped| ==> IsAt(popped[i].clusterCIDR, popped[i].ref)
    {
      popped := pq.PopAll();
      forall i | 0 <= i < |popped|
        ensures IsAt(popped[i].clusterCIDR, popped[i].ref)
      {
        assert popped[i] in Elements(popped);
      }
    }

    lemma DefaultList(m: CidrMap)
      requires Valid() && m == View()
      ensures DEFAULT_KEY !in cidrMap ==> DefaultRefs(m) == []
      ensures DEFAULT_KEY in cidrMap ==> Lists(cidrMap[DEFAULT_KEY], DefaultRefs(m))
    {
      hide ValidMap, View, RangeAllocator.Valid;
      ViewAt();
    }

    lemma ItemKey(x: PriorityQueueItem, m: CidrMap, matcher: Matcher, occupy: bool)
      requires Valid() && m == View() && ValidMap(m) && IsAt(x.clusterCIDR, x.ref)
      requires Queued(m, matcher, occupy, x.ref) && x.selectorString == x.ref.key
      requires x.labelMatchCount == matcher(x.ref.key).count
      ensures ItemFor(x, m, matcher, occupy)
    {
      hide ValidMap, View, Bits.Pow2;
      ViewAt();
      assert Entry(x.clusterCIDR, x.ref.key);
    }

    // ---------- The allocator's entry points ----------

    constructor ()
      ensures Valid() && View() == map[] && fresh(Repr)
    {
      cidrMap := map[];
      Repr := {};
    }

    /** In whatever order equal priorities come out, no missing set is dereferenced for the node's CIDRs. */
    ghost predicate CanOccupy(matcher: Matcher, cidrs: seq<Cidr>)
      requires Valid() && ValidMap(View())
      reads this, Repr
    {
      forall refs :: IsOrdering(View(), matcher, true, refs) ==> NoNilList(View(), refs, cidrs)
    }

    ghost predicate CanRelease(matcher: Matcher, node: string, cidrs: seq<Cidr>)
      requires Valid() && ValidMap(View())
      reads this, Repr
    {
      forall refs :: IsOrdering(View(), matcher, false, refs) ==> NoNilRelease(View(), refs, node, cidrs)
    }

    /** AllocateOrOccupyCIDR: a node that has CIDRs gets them marked, one that has none gets blocks assigned. */
    method AllocateOrOccupyCIDR(node: string, podCIDRs: seq<Cidr>, matcher: Matcher, lister: Lister,
                                patches: seq<Patch>)
      returns (ok: bool, ghost refs: seq<Ref>)
      requires Valid() && ValidMap(View()) && (podCIDRs != [] ==> CanOccupy(matcher, podCIDRs))
      requires |patches| == CIDR_UPDATE_RETRIES
      modifies Repr
      ensures Valid() && cidrMap == old(cidrMap) && Repr == old(Repr) && ValidMap(old(View()))
      ensures (exists k :: k in cidrMap && matcher(k).BadSelector?) ==> !ok && View() == old(View())
      ensures (forall k :: k in cidrMap ==> !matcher(k).BadSelector?) ==>
                IsOrdering(old(View()), matcher, true, refs) && InMapAll(old(View()), refs)
      ensures (forall k :: k in cidrMap ==> !matcher(k).BadSelector?) && podCIDRs != [] ==>
                && NoNilList(old(View()), refs, podCIDRs)
                && var o := AllocatorSpec.OccupyCIDRs(old(View()), refs, node, podCIDRs);
                View() == o.m && (ok <==> o.home.Some?)
      ensures (forall k :: k in cidrMap ==> !matcher(k).BadSelector?) && podCIDRs == [] ==>
                var a := AllocateNode(old(View()), refs, node, lister, patches);
                && View() == a.m
                && (ok <==> a.home.Some? && lister.Listed? && (lister.podCIDRs != [] || PatchOk in patches))
    {
      hide ValidMap, View, RangeAllocator.Valid, NoNil, IsOrdering, AllocatorSpec.OccupyCIDRs,
        AllocatorSpec.PrioritizedCIDRs, AllocatorSpec.ReleaseAll, AllocatorSpec.Associate, HasFamilies, UpdateOutcome,
        SameShape;
      ViewAt();
      var list;
      ok, list, refs := OrderedMatchingClusterCIDRs(matcher, true);
      if !ok {
        return;
      }
      ListInMap(list, refs);
      if |podCIDRs| > 0 {
        ghost var home;
        ok, home := OccupyCIDRs(node, podCIDRs, list, refs);
        return;
      }
      var chosen, cidrs;
      ghost var home;
      chosen, cidrs, home := PrioritizedCIDRs(list, refs);
      if chosen == null || |cidrs| == 0 {
        return false, refs;
      }
      FamiliesNoNil(View(), home.value, cidrs);
      Assign.UpdateDecides(cidrs, lister, patches);
      var outcome := UpdateCIDRsAllocation(chosen, node, cidrs, lister, patches, home.value);
      ok := outcome.Assigned? || outcome.AlreadySame? || outcome.HasOther?;
    }

    /** ReleaseCIDR. */
    method ReleaseCIDR(node: string, podCIDRs: seq<Cidr>, matcher: Matcher) returns (ok: bool, ghost refs: seq<Ref>)
      requires Valid() && ValidMap(View()) && (podCIDRs != [] ==> CanRelease(matcher, node, podCIDRs))
      modifies Repr
      ensures Valid() && cidrMap == old(cidrMap) && Repr == old(Repr) && ValidMap(old(View()))
      ensures podCIDRs == [] || (exists k :: k in cidrMap && matcher(k).BadSelector?) ==> View() == old(View())
      ensures podCIDRs == [] ==> ok
      ensures podCIDRs != [] && (exists k :: k in cidrMap && matcher(k).BadSelector?) ==> !ok
      ensures podCIDRs != [] && (forall k :: k in cidrMap ==> !matcher(k).BadSelector?) ==>
                && IsOrdering(old(View()), matcher, false, refs) && NoNilRelease(old(View()), refs, node, podCIDRs)
                && Change(View(), ok) == AllocatorSpec.ReleaseCIDR(old(View()), refs, node, podCIDRs)
    {
      hide ValidMap, View, RangeAllocator.Valid, NoNil, IsOrdering, AllocatorSpec.ReleaseCIDR, HasFamilies;
      ViewAt();
      refs := [];
      if |podCIDRs| == 0 {
        return true, refs;
      }
      var list;
      ok, list, refs := OrderedMatchingClusterCIDRs(matcher, false);
      if !ok {
        return;
      }
      ok := ReleaseNode(node, podCIDRs, list, refs);
    }

    // ---------- ClusterCIDR events ----------

    /** The set of one family of a spec, null if the family is not configured. */
    method BuildFamily(name: string, ghost key: string, cidr: Option<Cidr>, perNodeHostBits: int, text: string)
      returns (ok: bool, s: MultiCIDRSet?)
      requires cidr.Some? ==> Lifecycle.ValidRange(cidr.value, perNodeHostBits)
      ensures ok <==> cidr.None? || Lifecycle.BuildFamily(cidr, perNodeHostBits, text).Some?
      ensures s != null <==> cidr.Some? && ok
      ensures s != null ==>
        fresh(s) && s.Valid() && s.View() == Lifecycle.BuildFamily(cidr, perNodeHostBits, text).value
                            && s.cfg.Fam() == cidr.value.fam && s.clusterCIDRName == name && s.selector == key
    {
      if cidr.None? {
        return true, null;
      }
      NewSetAccepts(cidr.value, perNodeHostBits);
      var params := NewMultiCIDRSet(cidr.value, perNodeHostBits);
      if params.None? {
        return false, null;
      }
      s := new MultiCIDRSet(name, key, cidr.value, params.value.nodeMaskSize, params.value.maxCIDRs, text);
      ok := true;
    }

    /** createClusterCIDRSet. */
    method CreateClusterCIDRSet(spec: Lifecycle.Spec, terminating: bool, ghost key: string) returns (cc: ClusterCIDR?)
      requires Lifecycle.ValidSpec(spec)
      ensures cc != null <==> Lifecycle.CreateClusterCIDRSet(spec, terminating).Some?
      ensures cc != null ==>
                && fresh(cc) && cc.selector == key
                && cc.View() == Lifecycle.CreateClusterCIDRSet(spec, terminating).value
                && (cc.ipv4CIDRSet != null ==> fresh(cc.ipv4CIDRSet))
                && (cc.ipv6CIDRSet != null ==> fresh(cc.ipv6CIDRSet))
                && (cc.ipv4CIDRSet != null || cc.ipv6CIDRSet != null ==> cc.Valid())
    {
      hide Lifecycle.ValidRange, MultiCIDRSet.Valid, MultiCIDRSet.View, Lifecycle.BuildFamily;
      var ok, v4 := BuildFamily(spec.name, key, spec.v4, spec.perNodeHostBits, spec.v4Text);
      if !ok {
        return null;
      }
      var ok6, v6 := BuildFamily(spec.name, key, spec.v6, spec.perNodeHostBits, spec.v6Text);
      if !ok6 {
        return null;
      }
      Lifecycle.UnconfiguredFamily(spec);
      cc := new ClusterCIDR(spec.name, key, v4, v6, terminating);
    }

    /** Whether the selector's list has an entry of this name, and where. */
    method FindName(key: string, name: string) returns (i: nat)
      requires Valid() && key in cidrMap
      ensures key in View() && i == Lifecycle.IndexOf(View()[key], name) && |View()[key]| == |cidrMap[key]|
    {
      hide ValidMap, View, RangeAllocator.Valid, ClusterCIDR.Valid;
      ViewAt();
      ghost var list := View()[key];
      i := 0;
      while i < |cidrMap[key]| && cidrMap[key][i].name != name
        invariant i <= |cidrMap[key]|
        invariant forall j :: 0 <= j < i ==> list[j].name != name
      {
        assert At(View(), Ref(key, i)) == list[i];
        i := i + 1;
      }
      assert i < |list| ==> At(View(), Ref(key, i)) == list[i];
      FirstNamed(list, name, i);
    }

    /** mapClusterCIDRSet for a ClusterCIDR just built. */
    method MapClusterCIDRSet(key: string, cc: ClusterCIDR)
      requires Valid() && cc.selector == key && cc.Valid() && cc !in Repr
      requires cc.ipv4CIDRSet != null ==> cc.ipv4CIDRSet !in Repr
      requires cc.ipv6CIDRSet != null ==> cc.ipv6CIDRSet !in Repr
      modifies this
      ensures Valid() && Repr <= old(Repr) + {cc} + Footprint(cc) && old(Repr) <= Repr
      ensures ValidMap(old(View())) && View() == Lifecycle.MapClusterCIDRSet(old(View()), key, cc.View())
    {
      hide ValidMap, View, Lifecycle.Mapped, CC.Valid, MultiCIDRSet.View, MultiCIDRSet.Valid;
      ViewAt();
      ghost var m := View();
      var found := false;
      if key in cidrMap {
        var i := FindName(key, cc.name);
        found := i < |cidrMap[key]|;
        Lifecycle.MappedIndex(m, key, cc.name);
      } else {
        Lifecycle.NotMapped(m, key, cc.name);
      }
      if !found {
        Append(key, cc, m);
      }
    }

    ghost function Footprint(cc: ClusterCIDR): set<object> {
      {cc} + (if cc.ipv4CIDRSet != null then {cc.ipv4CIDRSet} else {}) +
        (if cc.ipv6CIDRSet != null then {cc.ipv6CIDRSet} else {})
    }

    method Append(key: string, cc: ClusterCIDR, ghost m: CidrMap)
      requires Valid() && m == View() && ValidMap(m) && cc.selector == key && cc.Valid()
      requires cc.View().name == cc.name && !Lifecycle.Mapped(m, key, cc.name)
      requires Footprint(cc) !! Repr
      modifies this
      ensures Valid() && Repr == old(Repr) + Footprint(cc)
      ensures View() == Lifecycle.Append(m, key, cc.View())
    {
      hide ValidMap, ClusterCIDR.Valid, ClusterCIDR.View, CC.Valid, View, Lifecycle.Mapped;
      ViewAt();
      Repr := Repr + Footprint(cc);
      if key in cidrMap {
        cidrMap := cidrMap[key := cidrMap[key] + [cc]];
      } else {
        cidrMap := cidrMap[key := [cc]];
      }
      ghost var added := Ref(key, if key in m then |m[key]| else 0);
      ghost var m' := Lifecycle.Append(m, key, cc.View());
      forall q | Has(q)
        ensures q != added ==> InMap(m, q) && At(m, q).name == Get(q).name
        ensures Entry(Get(q), q.key) && Get(q).View() == At(m', q)
      {
        if q != added {
          assert old(Has(q)) && old(Get(q)) == Get(q);
          assert old(Entry(Get(q), q.key));
        }
      }
      NamesUnique(m, key, cc.name, added);
      ViewIs(m');
    }

    lemma NamesUnique(m: CidrMap, key: string, name: string, added: Ref)
      requires ValidMap(m) && !Lifecycle.Mapped(m, key, name)
      requires added.key == key && Has(added) && Get(added).name == name
      requires forall q :: Has(q) && q != added ==> InMap(m, q) && At(m, q).name == Get(q).name
      ensures forall r, q :: Has(r) && Has(q) && r.key == q.key && Get(r).name == Get(q).name ==> r == q
    {
      hide CC.Valid;
    }

    /** createClusterCIDR. */
    method CreateClusterCIDR(key: string, spec: Lifecycle.Spec, terminating: bool) returns (ok: bool)
      requires Valid() && Lifecycle.ValidSpec(spec)
      modifies this
      ensures Valid() && fresh(Repr - old(Repr)) && ValidMap(old(View()))
      ensures Change(View(), ok) == Lifecycle.CreateClusterCIDR(old(View()), key, spec, terminating)
      ensures ok <==> (spec.v4.Some? || spec.v6.Some?) && Lifecycle.FewEnough(spec)
    {
      hide ValidMap, View, RangeAllocator.Valid, ClusterCIDR.Valid, CC.Valid, MultiCIDRSet.View,
        Lifecycle.MapClusterCIDRSet, Lifecycle.CreateClusterCIDRSet, Lifecycle.ValidSpec;
      ViewAt();
      Lifecycle.CreationSucceeds(View(), key, spec, terminating);
      var cc := CreateClusterCIDRSet(spec, terminating, key);
      if cc == null {
        return false;
      }
      if cc.ipv4CIDRSet == null && cc.ipv6CIDRSet == null {
        return false;
      }
      MapClusterCIDRSet(key, cc);
      return true;
    }

    method MarkTerminating(cc: ClusterCIDR, ghost r: Ref)
      requires Valid() && IsAt(cc, r)
      modifies Repr
      ensures cidrMap == old(cidrMap) && Repr == old(Repr)
      ensures Valid() && InMap(old(View()), r)
      ensures View() == Put(old(View()), r, At(old(View()), r).(terminating := true))
    {
      hide MultiCIDRSet.Valid, ValidMap, MultiCIDRSet.View, View;
      ViewAt();
      assert Entry(cc, r.key);
      ghost var m := View();
      cc.terminating := true;
      forall q | Has(q)
        ensures Entry(Get(q), q.key) && (q != r ==> Get(q).View() == At(m, q))
      {
        assert old(Entry(Get(q), q.key));
      }
      ViewIsPut(m, r);
    }

    /** Take entry i out of a selector's list, or the selector out of the map if it was the only one. */
    method Unmap(key: string, i: nat)
      requires Valid() && key in cidrMap && i < |cidrMap[key]|
      modifies this
      ensures Valid() && Repr == old(Repr) && key in old(View()) && i < |old(View())[key]|
      ensures View() == Lifecycle.Without(old(View()), key, i)
    {
      hide ValidMap, ClusterCIDR.Valid, ClusterCIDR.View, View, CC.Valid;
      ViewAt();
      ghost var m := View();
      ghost var m' := Lifecycle.Without(m, key, i);
      var list := cidrMap[key];
      if |list| == 1 {
        cidrMap := cidrMap - {key};
      } else {
        cidrMap := cidrMap[key := list[..i] + list[i + 1..]];
      }
      Lifecycle.WithoutValid(m, key, i);
      forall q | Has(q)
        ensures Entry(Get(q), q.key) && InMap(m', q) && Get(q).View() == At(m', q) && Get(q).name == At(m', q).name
      {
        var b := Lifecycle.Back(q, key, i);
        assert old(Has(b)) && Get(q) == old(Get(b));
        assert old(Entry(Get(b), b.key));
        assert InMap(m', q);
        Lifecycle.WithoutBack(m, key, i, q);
      }
      forall r, q | Has(r) && Has(q) && r.key == q.key && Get(r).name == Get(q).name
        ensures r == q
      {
        NamesDiffer(m', r, q);
      }
      ViewIs(m');
    }

    /** deleteClusterCIDR. */
    method DeleteClusterCIDR(key: string, name: string) returns (ok: bool)
      requires Valid()
      modifies this, Repr
      ensures Valid() && Repr == old(Repr)
      ensures Change(View(), ok) == Lifecycle.DeleteClusterCIDR(old(View()), key, name)
    {
      hide ValidMap, View, RangeAllocator.Valid, ClusterCIDR.Valid, Lifecycle.IndexOf, Lifecycle.Without, CC.Valid;
      ViewAt();
      ghost var m := View();
      if key !in cidrMap {
        return true;
      }
      var i := FindName(key, name);
      if i == |cidrMap[key]| {
        return true;
      }
      var cc := cidrMap[key][i];
      ghost var r := Ref(key, i);
      assert At(m, r) == cc.View();
      MarkTerminating(cc, r);
      ViewAt();
      assert IsAt(cc, r) && cc.View().nodes == At(m, r).nodes;
      // Deletion is allowed only if no node is associated with the ClusterCIDR.
      if cc.associatedNodes != {} {
        return false;
      }
      Unmap(key, i);
      return true;
    }

    /** reconcileDelete; `updated` says whether the API server accepts the object without its finalizer. */
    method ReconcileDelete(key: string, name: string, hasFinalizer: bool, updated: bool)
      returns (finalizerRemoved: bool)
      requires Valid()
      modifies this, Repr
      ensures Valid() && Repr == old(Repr)
      ensures Lifecycle.Reconciled(View(), finalizerRemoved) ==
              Lifecycle.ReconcileDelete(old(View()), key, name, hasFinalizer, updated)
      ensures finalizerRemoved <==>
                && hasFinalizer && updated
                && forall r :: InMap(old(View()), r) && r.key == key && At(old(View()), r).name == name ==>
                     At(old(View()), r).nodes == {}
    {
      hide View, RangeAllocator.Valid, Lifecycle.DeleteClusterCIDR, ValidMap;
      ViewAt();
      Lifecycle.FinalizerAfterUnmap(View(), key, name, hasFinalizer, updated);
      if !hasFinalizer {
        return false;
      }
      var ok := DeleteClusterCIDR(key, name);
      return ok && updated;
    }

    // ---------- The service range ----------

    /** occupyServiceCIDR. */
    method OccupyServiceCIDR(cc: ClusterCIDR, cidr: Cidr, ghost r: Ref)
      requires Valid() && IsAt(cc, r) && cidr.Valid() && cc.CIDRSetFor(cidr.fam) != null
      modifies Repr
      ensures cidrMap == old(cidrMap) && Repr == old(Repr)
      ensures Valid() && ValidMap(old(View())) && HasSet(old(View()), r, cidr.fam)
      ensures View() == Put(old(View()), r, Lifecycle.OccupyServiceCIDR(At(old(View()), r), cidr))
    {
      hide ValidMap, View, SetSpec.MeetingBlocks, MultiCIDRSet.Valid, SameShape;
      ViewAt();
      assert Entry(cc, r.key);
      var cluster := cc.CIDRSetFor(cidr.fam).cfg.cluster;
      ghost var m := View();
      PutSame(m, r);
      ClusterValid(cc, cidr.fam);
      OverlapsExact(cluster, cidr);
      // Nothing to do if the service range does not intersect the ClusterCIDR.
      if !Overlaps(cluster, cidr) {
        return;
      }
      var ok := Occupy(cc, cidr, r);
    }

    lemma ClusterValid(cc: ClusterCIDR, fam: Family)
      requires cc.Valid() && cc.CIDRSetFor(fam) != null
      ensures cc.CIDRSetFor(fam).cfg.cluster.Valid()
    {
    }

    /** The map after filtering the entries in `done`. */
    ghost predicate FilteredAt(m: CidrMap, m': CidrMap, cidr: Cidr, r: Ref, done: bool)
      requires ValidMap(m) && cidr.Valid() && Lifecycle.AllHave(m, cidr.fam)
    {
      InMap(m, r) && InMap(m', r) && At(m', r) == if done then Lifecycle.OccupyServiceCIDR(At(m, r), cidr) else At(m, r)
    }

    /** filterOutServiceRange. */
    method FilterOutServiceRange(cidr: Cidr)
      requires Valid() && cidr.Valid() && forall r :: Has(r) ==> Get(r).CIDRSetFor(cidr.fam) != null
      modifies Repr
      ensures Valid() && cidrMap == old(cidrMap) && Repr == old(Repr)
      ensures ValidMap(old(View())) && Lifecycle.AllHave(old(View()), cidr.fam)
      ensures View() == Lifecycle.FilterOutServiceRange(old(View()), cidr)
    {
      hide ValidMap, View, RangeAllocator.Valid, Cidr.Valid, Lifecycle.FilterOutServiceRange,
        Lifecycle.OccupyServiceCIDR;
      ViewAt();
      ghost var m := View();
      var keys := cidrMap.Keys;
      while keys != {}
        invariant cidrMap == old(cidrMap) && Repr == old(Repr) && Valid() && keys <= cidrMap.Keys
        invariant forall r :: Has(r) ==> FilteredAt(m, View(), cidr, r, r.key !in keys)
        decreases |keys|
      {
        var key :| key in keys;
        var i := 0;
        while i < |cidrMap[key]|
          invariant cidrMap == old(cidrMap) && Repr == old(Repr) && Valid() && i <= |cidrMap[key]|
          invariant forall r :: Has(r) ==> FilteredAt(m, View(), cidr, r, r.key !in keys || (r.key == key && r.idx < i))
        {
          ghost var r := Ref(key, i);
          assert IsAt(cidrMap[key][i], r);
          OccupyServiceCIDR(cidrMap[key][i], cidr, r);
          i := i + 1;
        }
        keys := keys - {key};
      }
      ViewAt();
      FilteredAll(m, View(), cidr);
    }
  }

  lemma PutSame(m: CidrMap, r: Ref)
    requires InMap(m, r)
    ensures Put(m, r, At(m, r)) == m
  {
    assert m[r.key][r.idx := At(m, r)] == m[r.key];
  }

  ghost predicate Marks(m: CidrMap, r: Ref, c: Cidr)
    requires ValidMap(m)
  {
    HasSet(m, r, c.fam) && SetSpec.IsMarked(SetAt(m, r, c.fam), c)
  }

  ghost predicate Overlapped(m: CidrMap, r: Ref, c: Cidr)
    requires ValidMap(m) && c.Valid()
  {
    HasSet(m, r, c.fam) && SetSpec.MeetsMarked(SetAt(m, r, c.fam), c)
  }

  /** One round of the allocation loop. */
  lemma AllocateUnfold(m: CidrMap, r: Ref, fam: Family, evaluated: nat)
    requires ValidMap(m) && HasSet(m, r, fam) && evaluated < SetAt(m, r, fam).cfg.Max()
    ensures var s := SetAt(m, r, fam);
            var next := SetSpec.NextCandidate(s);
            var a := AllocateFrom(m, r, fam, evaluated);
            if next.None? then a == Allocation(m, None)
            else
              var m1, c := PutSet(m, r, fam, next.value.set'), s.cfg.Block(next.value.index);
              && c.Valid() && c.fam == fam
              && a == if InAllocatedList(m1, c) || OverlapsAllocatedList(m1, c)
                      then AllocateFrom(m1, r, fam, evaluated + next.value.skipped + 1)
                      else var occupied := OccupyAt(m1, r, c);
                           if occupied.None? then Allocation(m1, None) else Allocation(occupied.value, Some(c))
  {
    hide ValidMap, SameShape, Bits.Pow2, OccupyAt, InAllocatedList, OverlapsAllocatedList;
    var s := SetAt(m, r, fam);
    if SetSpec.NextCandidate(s).Some? {
      BlockValid(s.cfg, SetSpec.NextCandidate(s).value.index);
    }
  }

  lemma AllocateEnd(m: CidrMap, r: Ref, fam: Family, evaluated: nat)
    requires ValidMap(m) && HasSet(m, r, fam) && evaluated >= SetAt(m, r, fam).cfg.Max()
    ensures AllocateFrom(m, r, fam, evaluated) == Allocation(m, None)
  {
  }

  lemma MarksList(m: CidrMap, c: Cidr)
    requires ValidMap(m)
    ensures InAllocatedList(m, c) <==> exists r :: InMap(m, r) && Marks(m, r, c)
  {
    hide ValidMap, SetSpec.IsMarked;
    if InAllocatedList(m, c) {
      var r :| HasSet(m, r, c.fam) && SetSpec.IsMarked(SetAt(m, r, c.fam), c);
      assert Marks(m, r, c);
    }
  }

  lemma OverlappedList(m: CidrMap, c: Cidr)
    requires ValidMap(m) && c.Valid()
    ensures OverlapsAllocatedList(m, c) <==> exists r :: InMap(m, r) && Overlapped(m, r, c)
  {
    hide ValidMap, SetSpec.MeetsMarked;
    if OverlapsAllocatedList(m, c) {
      var r :| HasSet(m, r, c.fam) && SetSpec.MeetsMarked(SetAt(m, r, c.fam), c);
      assert Overlapped(m, r, c);
    }
  }

  // ---------- Queue contents ----------

  /** The item stands for a queued ClusterCIDR and has its priority. */
  ghost predicate ItemFor(x: PriorityQueueItem, m: CidrMap, matcher: Matcher, occupy: bool)
    requires ValidMap(m)
  {
    x.HasSet() && Queued(m, matcher, occupy, x.ref) && x.Key() == RefKey(m, matcher, occupy, x.ref)
  }

  /** The items stand for exactly the ClusterCIDRs in `done`, one item each. */
  ghost predicate Queues(items: set<PriorityQueueItem>, m: CidrMap, matcher: Matcher, occupy: bool, done: set<Ref>)
    requires ValidMap(m)
  {
    && (forall x :: x in items ==> ItemFor(x, m, matcher, occupy) && x.ref in done)
    && (forall x, y :: x in items && y in items && x.ref == y.ref ==> x == y)
    && (forall r :: r in done ==> exists x :: x in items && x.ref == r)
  }

  lemma QueuesHasSet(x: PriorityQueueItem, m: CidrMap, matcher: Matcher, occupy: bool)
    requires ValidMap(m) && ItemFor(x, m, matcher, occupy)
    ensures x.HasSet()
  {
  }

  lemma QueuesAdd(items: set<PriorityQueueItem>, m: CidrMap, matcher: Matcher, occupy: bool, done: set<Ref>,
                  x: PriorityQueueItem)
    requires ValidMap(m) && Queues(items, m, matcher, occupy, done) && ItemFor(x, m, matcher, occupy) && x.ref !in done
    ensures x !in items && Queues(items + {x}, m, matcher, occupy, done + {x.ref})
  {
    hide ValidMap, ItemFor;
    forall r | r in done + {x.ref}
      ensures exists y :: y in items + {x} && y.ref == r
    {
      if r in done {
        var y :| y in items && y.ref == r;
        assert y in items + {x};
      } else {
        assert x in items + {x};
      }
    }
  }

  lemma EmptyQueue(m: CidrMap, matcher: Matcher, occupy: bool)
    requires ValidMap(m)
    ensures Queues(Elements([]), m, matcher, occupy, {})
  {
  }

  ghost function RefsOf(items: seq<PriorityQueueItem>): seq<Ref> {
    seq(|items|, i requires 0 <= i < |items| => items[i].ref)
  }

  /** Items popped in order give the sorted part of the list. */
  lemma PoppedSorted(popped: seq<PriorityQueueItem>, m: CidrMap, matcher: Matcher, occupy: bool, done: set<Ref>)
    requires ValidMap(m) && InOrder(popped) && Queues(Elements(popped), m, matcher, occupy, done)
    requires forall r :: r in done <==> Queued(m, matcher, occupy, r)
    ensures SortedPart(m, matcher, occupy, RefsOf(popped))
  {
    hide ValidMap, NotAfter, RefKey;
    var refs := RefsOf(popped);
    forall i | 0 <= i < |popped|
      ensures ItemFor(popped[i], m, matcher, occupy)
    {
      assert popped[i] in Elements(popped);
    }
    forall r | Queued(m, matcher, occupy, r)
      ensures r in refs
    {
      var x :| x in Elements(popped) && x.ref == r;
      var i :| 0 <= i < |popped| && popped[i] == x;
      assert refs[i] == r;
    }
    forall i, j | 0 <= i < j < |refs|
      ensures refs[i] != refs[j] && NotAfter(RefKey(m, matcher, occupy, refs[i]), RefKey(m, matcher, occupy, refs[j]))
    {
      assert popped[i] != popped[j] && Precedes(popped[i], popped[j]);
    }
  }

  /** The queued ClusterCIDRs among the first n of one selector. */
  ghost function QueuedUnder(m: CidrMap, matcher: Matcher, occupy: bool, key: string, n: nat): (s: set<Ref>)
    ensures forall r :: r in s <==> r.key == key && r.idx < n && Queued(m, matcher, occupy, r)
  {
    set i: nat | i < n && Queued(m, matcher, occupy, Ref(key, i)) :: Ref(key, i)
  }

  lemma QueuedStep(m: CidrMap, matcher: Matcher, occupy: bool, key: string, i: nat)
    ensures QueuedUnder(m, matcher, occupy, key, i + 1) ==
            QueuedUnder(m, matcher, occupy, key, i) +
              if Queued(m, matcher, occupy, Ref(key, i)) then {Ref(key, i)} else {}
  {
  }

  lemma FirstNamed(list: seq<CC>, name: string, i: nat)
    requires i <= |list| && (i < |list| ==> list[i].name == name) && forall j :: 0 <= j < i ==> list[j].name != name
    ensures i == Lifecycle.IndexOf(list, name)
  {
  }

  lemma FilteredAll(m: CidrMap, m': CidrMap, cidr: Cidr)
    requires ValidMap(m) && cidr.Valid() && Lifecycle.AllHave(m, cidr.fam)
    requires m.Keys == m'.Keys && forall k :: k in m ==> |m[k]| == |m'[k]|
    requires forall r :: InMap(m, r) ==> At(m', r) == Lifecycle.OccupyServiceCIDR(At(m, r), cidr)
    ensures m' == Lifecycle.FilterOutServiceRange(m, cidr)
  {
    hide ValidMap, CC.Valid, Lifecycle.OccupyServiceCIDR;
    var f := Lifecycle.FilterOutServiceRange(m, cidr);
    forall k | k in m
      ensures k in f && f[k] == m'[k]
    {
      forall i | 0 <= i < |m[k]|
        ensures f[k][i] == m'[k][i]
      {
        assert InMap(m, Ref(k, i)) && At(f, Ref(k, i)) == At(m', Ref(k, i));
      }
    }
  }

  lemma NamesDiffer(m: CidrMap, r: Ref, q: Ref)
    requires ValidMap(m) && InMap(m, r) && InMap(m, q) && r.key == q.key && At(m, r).name == At(m, q).name
    ensures r == q
  {
  }
}
