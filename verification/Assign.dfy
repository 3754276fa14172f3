/** updateCIDRsAllocation: what an assignment attempt keeps and what it gives back. */
module Assign {
  import opened Cidrs
  import opened Blocks
  import opened SetSpec
  import opened AllocatorSpec
  import opened Allocate
  import opened Frames
  import opened Prioritize
  import opened NodeOps

  /** The sets of the ClusterCIDR at r have the same marks in both maps. */
  ghost predicate SameMarks(m: CidrMap, m': CidrMap, r: Ref)
    requires ValidMap(m) && ValidMap(m')
  {
    forall fam :: HasSet(m, r, fam) ==> HasSet(m', r, fam) && SetAt(m', r, fam).marks == SetAt(m, r, fam).marks
  }

  /** Releasing a reserved block undoes its reservation. */
  lemma ReleaseReserved(m: CidrMap, m': CidrMap, r: Ref, c: Cidr)
    requires ValidMap(m) && ValidMap(m') && Reserved(m, m', r, c) && c.Valid()
    ensures var o := ReleaseAt(m', r, c);
            && o.Some?
            && SetAt(o.value, r, c.fam).marks == SetAt(m, r, c.fam).marks
            && At(o.value, r).SetFor(Other(c.fam)) == At(m', r).SetFor(Other(c.fam))
            && At(o.value, r).nodes == At(m', r).nodes
  {
    hide ValidMap, Bits.Pow2, Eligible;
    var s, s' := SetAt(m, r, c.fam), SetAt(m', r, c.fam);
    var i: nat :| i < s.cfg.Max() && ReservedAt(m, m', r, c, i);
    BlockMeetsItself(s.cfg, i);
    EligibleIsFree(m, r, c.fam, i);
    assert s.marks + {i} - {i} == s.marks;
  }

  lemma EligibleIsFree(m: CidrMap, r: Ref, fam: Family, i: nat)
    requires ValidMap(m) && HasSet(m, r, fam) && i < SetAt(m, r, fam).cfg.Max() && Eligible(m, r, fam, i)
    ensures i !in SetAt(m, r, fam).marks
  {
    hide ValidMap, Bits.Pow2, Eligible;
    if i in SetAt(m, r, fam).marks {
      MarkedIneligible(m, r, fam, i);
    }
  }

  /** Releasing everything an attempt reserved restores the marks of the chosen ClusterCIDR. */
  lemma ReleaseAllReserved(m: CidrMap, m': CidrMap, r: Ref, cidrs: seq<Cidr>)
    requires ValidMap(m) && ValidMap(m') && InMap(m, r) && HasFamilies(m', r, cidrs)
    requires OnePerFamily(At(m, r), cidrs) && AllReserved(m, m', r, cidrs)
    ensures NoNil(m', r, cidrs)
    ensures var o := ReleaseAll(m', r, cidrs);
            o.ok && InMap(o.m, r) && SameMarks(m, o.m, r) && At(o.m, r).nodes == At(m', r).nodes
  {
    hide ValidMap, Reserved, ReleaseAt, Cidr.Valid, SameShape;
    ConfiguredFamily(m, r);
    FamiliesNoNil(m', r, cidrs);
    ReleaseReserved(m, m', r, cidrs[0]);
    var o := ReleaseAt(m', r, cidrs[0]);
    ShapeKeeps(m', o.value, r);
    FamiliesKept(m', o.value, r, cidrs);
    NoNilKept(m', o.value, r, cidrs[1..]);
    if |cidrs| == 2 {
      ReservedAfter(m, m', o.value, r, cidrs[1]);
      ReleaseReserved(m, o.value, r, cidrs[1]);
      var o2 := ReleaseAt(o.value, r, cidrs[1]);
      ShapeKeeps(o.value, o2.value, r);
      assert cidrs[1..][1..] == [] && cidrs[1..][0] == cidrs[1];
      assert ReleaseAll(o.value, r, cidrs[1..]) == Change(o2.value, true);
    } else {
      assert cidrs[1..] == [];
    }
  }

  lemma ReservedAfter(m: CidrMap, m': CidrMap, m2: CidrMap, r: Ref, c: Cidr)
    requires ValidMap(m) && ValidMap(m') && ValidMap(m2) && Reserved(m, m', r, c)
    requires InMap(m2, r) && At(m2, r).SetFor(c.fam) == At(m', r).SetFor(c.fam)
    ensures Reserved(m, m2, r, c)
  {
    hide ValidMap, Bits.Pow2, Eligible;
    var i: nat :| i < SetAt(m, r, c.fam).cfg.Max() && ReservedAt(m, m', r, c, i);
    assert ReservedAt(m, m2, r, c, i);
  }

  /** The reservation is not needed: the node has other CIDRs, or no patch was confirmed and the last one failed with
      another error than a server timeout. */
  predicate Abandoned(cidrs: seq<Cidr>, lister: Lister, patches: seq<Patch>)
    requires patches != []
  {
    && lister.Listed? && lister.podCIDRs != cidrs
    && (lister.podCIDRs != [] || (PatchOk !in patches && patches[|patches| - 1] == PatchFailed))
  }

  /** Lister and patches decide how updateCIDRsAllocation ends. */
  lemma UpdateDecides(cidrs: seq<Cidr>, lister: Lister, patches: seq<Patch>)
    requires patches != []
    ensures var o := UpdateOutcome(cidrs, lister, patches);
            && (GivesBack(o) <==> Abandoned(cidrs, lister, patches))
            && (o.Assigned? <==> cidrs != [] && lister == Listed([]) && PatchOk in patches)
            && (o.Assigned? || o.AlreadySame? || o.HasOther? <==>
                  lister.Listed? && (lister.podCIDRs == cidrs || lister.podCIDRs != [] || PatchOk in patches))
  {
    PatchResultValue(patches);
  }

  /** Conservation: if the lister shows other CIDRs, or no patch is confirmed and the last one fails with another error
      than a server timeout, the chosen ClusterCIDR has exactly the marks (hence the count) and nodes from before the
      attempt. If the lister errs or shows the very CIDRs, if a patch is confirmed or the last one times out, the
      reserved blocks are still marked; only a confirmed patch associates the node. */
  lemma Conservation(m: CidrMap, list: seq<Ref>, node: string, lister: Lister, patches: seq<Patch>)
    requires ValidMap(m) && InMapAll(m, list) && patches != []
    ensures var a := AllocateNode(m, list, node, lister, patches);
            a.home.Some? ==>
              && a.home.value in list
              && InMap(a.m, a.home.value)
              && OnePerFamily(At(m, a.home.value), a.cidrs)
              && (lister.Listed? && lister.podCIDRs != [] && lister.podCIDRs != a.cidrs ==>
                    SameMarks(m, a.m, a.home.value))
              && (lister == Listed([]) && PatchOk !in patches && patches[|patches| - 1] == PatchFailed ==>
                    SameMarks(m, a.m, a.home.value))
              && (lister.ListerError? || lister == Listed(a.cidrs) ==> AllReserved(m, a.m, a.home.value, a.cidrs))
              && (lister == Listed([]) && (PatchOk in patches || patches[|patches| - 1] != PatchFailed) ==>
                    AllReserved(m, a.m, a.home.value, a.cidrs))
              && At(a.m, a.home.value).nodes ==
                 At(m, a.home.value).nodes + if lister == Listed([]) && PatchOk in patches then {node} else {}
  {
    hide ValidMap, SameMarks, AllocateNode, SameShape, AllReserved, OnePerFamily, UpdateOutcome;
    ConservationByOutcome(m, list, node, lister, patches);
    GivesBackHome(m, list, node, lister, patches);
    UpdateDecides(AllocateNode(m, list, node, lister, patches).cidrs, lister, patches);
  }

  lemma ConservationByOutcome(m: CidrMap, list: seq<Ref>, node: string, lister: Lister, patches: seq<Patch>)
    requires ValidMap(m) && InMapAll(m, list) && patches != []
    ensures var a := AllocateNode(m, list, node, lister, patches);
            a.home.Some? ==>
              && a.home.value in list
              && InMap(a.m, a.home.value)
              && OnePerFamily(At(m, a.home.value), a.cidrs)
              && (if GivesBack(a.outcome) then SameMarks(m, a.m, a.home.value)
                  else AllReserved(m, a.m, a.home.value, a.cidrs))
              && At(a.m, a.home.value).nodes ==
                 At(m, a.home.value).nodes + if a.outcome.Assigned? then {node} else {}
  {
    hide ValidMap, Reserved, SameMarks, ReleaseAll, PrioritizedCIDRs, SameShape;
    PrioritizedExact(m, list);
    var p := PrioritizedCIDRs(m, list);
    if p.chosen.Some? && p.cidrs != [] {
      var r, outcome := p.chosen.value, UpdateOutcome(p.cidrs, lister, patches);
      if GivesBack(outcome) {
        ReleaseAllReserved(m, p.m, r, p.cidrs);
      } else if outcome.Assigned? {
        forall j | 0 <= j < |p.cidrs|
          ensures Reserved(m, Associate(p.m, r, node), r, p.cidrs[j])
        {
          ReservedAfter(m, p.m, Associate(p.m, r, node), r, p.cidrs[j]);
        }
      }
    }
  }

  /** Only a confirmed patch associates the node, with the ClusterCIDR the blocks came from and no other. */
  lemma AttemptNodes(m: CidrMap, list: seq<Ref>, node: string, lister: Lister, patches: seq<Patch>)
    requires ValidMap(m) && InMapAll(m, list) && patches != []
    ensures var a := AllocateNode(m, list, node, lister, patches);
            forall q :: InMap(m, q) ==>
              && InMap(a.m, q)
              && At(a.m, q).nodes == At(m, q).nodes + if a.outcome.Assigned? && a.home == Some(q) then {node} else {}
  {
    hide ValidMap, ReleaseAll, PrioritizedCIDRs, SameShape;
    PrioritizedNodes(m, list);
    var p := PrioritizedCIDRs(m, list);
    if p.chosen.Some? && p.cidrs != [] && GivesBack(UpdateOutcome(p.cidrs, lister, patches)) {
      FamiliesNoNil(p.m, p.chosen.value, p.cidrs);
      ReleaseKeepsNodes(p.m, p.chosen.value, p.cidrs);
    }
  }

  lemma ReleaseKeepsNodes(m: CidrMap, r: Ref, cidrs: seq<Cidr>)
    requires ValidMap(m) && NoNil(m, r, cidrs)
    ensures SameNodes(m, ReleaseAll(m, r, cidrs).m)
  {
    hide ValidMap, ReleaseAll, Cidr.Valid, LeadInRange, Removed;
    ReleaseAllExact(m, r, cidrs, V4);
  }

  lemma AttemptReservation(m: CidrMap, list: seq<Ref>, node: string, lister: Lister, patches: seq<Patch>)
    requires ValidMap(m) && InMapAll(m, list) && patches != []
    ensures var a, p := AllocateNode(m, list, node, lister, patches), PrioritizedCIDRs(m, list);
            a.home.Some? ==>
              && p.chosen == a.home && p.cidrs == a.cidrs && InMap(m, a.home.value)
              && OnePerFamily(At(m, a.home.value), a.cidrs) && AllReserved(m, p.m, a.home.value, a.cidrs)
  {
    hide ValidMap, SameShape, Reserved, PrioritizedCIDRs;
    PrioritizedExact(m, list);
  }

  /** If the freed CIDRs overlapped nothing, no mark was lost. */
  lemma FreedNothing(m: CidrMap, m': CidrMap, freed: set<Cidr>, left: set<string>)
    requires ValidMap(m) && Frame(m, m', freed, left)
    requires forall c :: c in freed ==> c.Valid() && !OverlapsAllocatedList(m, c)
    ensures Frame(m, m', {}, left)
  {
    hide OverlapsAllocatedList, SetKeeps, CC.Valid;
    forall r | InMap(m, r)
      ensures Keeps(At(m, r), At(m', r), {}, left)
    {
      assert Keeps(At(m, r), At(m', r), freed, left);
      if HasSet(m, r, V4) {
        SetFreedNothing(m, r, V4, At(m', r).v4.value, freed);
      }
      if HasSet(m, r, V6) {
        SetFreedNothing(m, r, V6, At(m', r).v6.value, freed);
      }
    }
  }

  lemma SetFreedNothing(m: CidrMap, r: Ref, fam: Family, s': SetState, freed: set<Cidr>)
    requires ValidMap(m) && HasSet(m, r, fam) && SetKeeps(SetAt(m, r, fam), s', freed)
    requires forall c :: c in freed ==> c.Valid() && !OverlapsAllocatedList(m, c)
    ensures SetKeeps(SetAt(m, r, fam), s', {})
  {
    hide ValidMap, Cidr.Valid, Bits.Pow2;
    var s := SetAt(m, r, fam);
    forall i | i in s.marks
      ensures i in s'.marks
    {
    }
  }

  /** An attempt, however it ends, removes no mark that was there before it. */
  lemma AttemptKeepsMarks(m: CidrMap, list: seq<Ref>, node: string, lister: Lister, patches: seq<Patch>)
    requires ValidMap(m) && InMapAll(m, list) && patches != []
    ensures Frame(m, AllocateNode(m, list, node, lister, patches).m, {}, {})
  {
    hide ValidMap, Frame, AllocateNode, PrioritizedCIDRs, OverlapsAllocatedList, Reserved, SameShape, OnePerFamily,
      Cidr.Valid;
    var a := AllocateNode(m, list, node, lister, patches);
    AllocateNodeFrame(m, list, node, lister, patches);
    if GivesBack(a.outcome) {
      GivesBackHome(m, list, node, lister, patches);
      AttemptReservation(m, list, node, lister, patches);
      forall c | c in Elements(a.cidrs)
        ensures c.Valid() && !OverlapsAllocatedList(m, c)
      {
        var j :| 0 <= j < |a.cidrs| && a.cidrs[j] == c;
        ReservedWasFree(m, PrioritizedCIDRs(m, list).m, a.home.value, c);
      }
      FreedNothing(m, a.m, Elements(a.cidrs), {});
    }
  }

  lemma GivesBackHome(m: CidrMap, list: seq<Ref>, node: string, lister: Lister, patches: seq<Patch>)
    requires ValidMap(m) && InMapAll(m, list) && patches != []
    ensures var a := AllocateNode(m, list, node, lister, patches);
            && (a.home.None? <==> a.outcome.NoBlock?)
            && (a.home.Some? ==> a.cidrs != [] && a.outcome == UpdateOutcome(a.cidrs, lister, patches))
  {
    hide ValidMap, SameShape, PrioritizedCIDRs, ReleaseAll;
  }

  lemma ReservedWasFree(m: CidrMap, m': CidrMap, r: Ref, c: Cidr)
    requires ValidMap(m) && ValidMap(m') && Reserved(m, m', r, c)
    ensures c.Valid() && !OverlapsAllocatedList(m, c)
  {
    hide Bits.Pow2, ValidMap, OverlapsAllocatedList;
    var i: nat :| i < SetAt(m, r, c.fam).cfg.Max() && ReservedAt(m, m', r, c, i);
    BlockValid(SetAt(m, r, c.fam).cfg, i);
  }

  lemma ReservedInside(m: CidrMap, m': CidrMap, r: Ref, d: Cidr)
    requires ValidMap(m) && ValidMap(m') && Reserved(m, m', r, d)
    ensures d.Valid() && HasSet(m, r, d.fam) && Inside(d, SetAt(m, r, d.fam).cfg.cluster)
  {
    hide ValidMap, Bits.Pow2, Eligible;
    var i: nat :| i < SetAt(m, r, d.fam).cfg.Max() && ReservedAt(m, m', r, d, i);
    BlockValid(SetAt(m, r, d.fam).cfg, i);
  }

  /** Round trip: releasing a node that was assigned its CIDRs, before anything else happens, restores the marks and
      the nodes of the ClusterCIDR they came from, if that is in the list and the node is in no other one of it. */
  lemma AllocateThenRelease(m: CidrMap, list: seq<Ref>, node: string, lister: Lister, patches: seq<Patch>,
                            list': seq<Ref>)
    requires ValidMap(m) && InMapAll(m, list) && patches != [] && InMapAll(m, list')
    requires AllocateNode(m, list, node, lister, patches).outcome.Assigned?
    requires AllocateNode(m, list, node, lister, patches).home.Some? ==>
      AllocateNode(m, list, node, lister, patches).home.value in list'
    requires forall q :: q in list' && AllocateNode(m, list, node, lister, patches).home != Some(q) ==>
      node !in At(m, q).nodes
    ensures var a := AllocateNode(m, list, node, lister, patches);
            && NoNilRelease(a.m, list', node, a.cidrs)
            && var o := ReleaseCIDR(a.m, list', node, a.cidrs);
            && o.ok && a.home.Some? && SameMarks(m, o.m, a.home.value)
            && InMap(o.m, a.home.value) && At(o.m, a.home.value).nodes == At(m, a.home.value).nodes - {node}
  {
    hide ValidMap, Reserved, ReleaseAll, AllocateNode, OnePerFamily, Cidr.Valid, NoNil;
    var a := AllocateNode(m, list, node, lister, patches);
    ConservationByOutcome(m, list, node, lister, patches);
    AttemptNodes(m, list, node, lister, patches);
    GivesBackHome(m, list, node, lister, patches);
    var r := a.home.value;
    forall j | 0 <= j < |a.cidrs|
      ensures a.cidrs[j].Valid()
    {
      ReservedWasFree(m, a.m, r, a.cidrs[j]);
    }
    ReservedFamilies(m, a.m, r, a.cidrs);
    ReleaseAllReserved(m, a.m, r, a.cidrs);
    OnlyAssociated(a.m, list', node, r);
    var o := ReleaseAll(a.m, r, a.cidrs);
    DissociateKeepsMarks(m, o.m, r, node);
  }

  lemma OnlyAssociated(m: CidrMap, list: seq<Ref>, node: string, r: Ref)
    requires InMapAll(m, list) && r in list && node in At(m, r).nodes
    requires forall q :: q in list && q != r ==> InMap(m, q) && node !in At(m, q).nodes
    ensures AllocatedClusterCIDR(m, list, node) == Some(r)
  {
    var j :| 0 <= j < |list| && list[j] == r;
    assert node in At(m, list[j]).nodes;
  }

  lemma ReservedFamilies(m: CidrMap, m': CidrMap, r: Ref, cidrs: seq<Cidr>)
    requires ValidMap(m) && ValidMap(m') && InMap(m', r) && AllReserved(m, m', r, cidrs) && AllValid(cidrs)
    ensures HasFamilies(m', r, cidrs)
  {
    hide ValidMap, Cidr.Valid;
  }

  lemma DissociateKeepsMarks(m: CidrMap, m': CidrMap, r: Ref, node: string)
    requires ValidMap(m) && ValidMap(m') && InMap(m', r) && SameMarks(m, m', r)
    ensures SameMarks(m, Dissociate(m', r, node), r)
  {
    hide ValidMap;
  }

  // ---------- Patch attempts ----------

  lemma {:induction false} PatchResultValue(patches: seq<Patch>)
    requires patches != []
    ensures PatchResult(patches) == if PatchOk in patches then PatchOk else patches[|patches| - 1]
  {
    if !patches[0].PatchOk? && |patches| > 1 {
      PatchResultValue(patches[1..]);
      assert PatchOk in patches <==> PatchOk in patches[1..];
    }
  }

  /** An attempt that has its blocks ends with an assignment iff the lister shows no CIDRs and some patch succeeds. */
  lemma AssignedIff(cidrs: seq<Cidr>, lister: Lister, patches: seq<Patch>)
    requires patches != [] && cidrs != []
    ensures UpdateOutcome(cidrs, lister, patches).Assigned? <==> lister == Listed([]) && PatchOk in patches
  {
    UpdateDecides(cidrs, lister, patches);
  }

  /** The code means to keep a reservation whose patch may have gone through. Whatever became of the patches, it gives
      the reservation back exactly when no attempt was confirmed and the last one failed with another error than a
      server timeout - a lost connection, for instance. */
  lemma UncertainPatchReleased(cidrs: seq<Cidr>, patches: seq<Patch>)
    requires patches != [] && cidrs != []
    ensures GivesBack(UpdateOutcome(cidrs, Listed([]), patches)) <==>
            PatchOk !in patches && patches[|patches| - 1] == PatchFailed
  {
    PatchResultValue(patches);
  }

  /** Such a sequence of answers: a server timeout, then two other errors. */
  lemma UncertainPatchReleasedExample(cidrs: seq<Cidr>)
    requires cidrs != []
    ensures var patches := [PatchTimeout, PatchFailed, PatchFailed];
            |patches| == CIDR_UPDATE_RETRIES && GivesBack(UpdateOutcome(cidrs, Listed([]), patches))
  {
    UncertainPatchReleased(cidrs, [PatchTimeout, PatchFailed, PatchFailed]);
  }

  /** The home of an attempt is the first ClusterCIDR to fit; the outcome is decided by lister and patches. */
  lemma HomeFirstFits(m: CidrMap, list: seq<Ref>, node: string, lister: Lister, patches: seq<Patch>) returns (n: nat)
    requires ValidMap(m) && InMapAll(m, list) && patches != []
    ensures var a := AllocateNode(m, list, node, lister, patches);
            && n <= |list| && (forall j :: 0 <= j < n ==> !Fits(m, list, j))
            && (n < |list| ==> Fits(m, list, n) && a.home == Some(list[n])
                               && (a.outcome.Assigned? <==> lister == Listed([]) && PatchOk in patches))
            && (n == |list| ==> a.home.None?)
  {
    hide ValidMap, Fits, PrioritizedCIDRs, SameShape, ReleaseAll, TryFamilies, StateBefore, Reserved, UpdateOutcome;
    n := FirstFit(m, list);
    if n < |list| {
      PrioritizedExact(m, list);
      ConfiguredFamily(m, list[n]);
      AssignedIff(PrioritizedCIDRs(m, list).cidrs, lister, patches);
    }
  }

  // ---------- What failed attempts leave marked ----------

  lemma NoneEligibleLater(m: CidrMap, m': CidrMap, r: Ref, fam: Family)
    requires ValidMap(m) && ValidMap(m') && Frame(m, m', {}, {})
    requires HasSet(m, r, fam) && HasSet(m', r, fam) && !HasEligible(m, r, fam)
    ensures !HasEligible(m', r, fam)
  {
    hide ValidMap, Frame, Eligible;
    if HasEligible(m', r, fam) {
      var i: nat :| i < SetAt(m', r, fam).cfg.Max() && Eligible(m', r, fam, i);
      EligibleEarlier(m, m', r, fam, i);
    }
  }

  lemma ReservedCount(m: CidrMap, m': CidrMap, r: Ref, c: Cidr)
    requires ValidMap(m) && ValidMap(m') && Reserved(m, m', r, c)
    ensures SetAt(m, r, c.fam).marks <= SetAt(m', r, c.fam).marks
    ensures |SetAt(m', r, c.fam).marks| == |SetAt(m, r, c.fam).marks| + 1
  {
    hide ValidMap, Bits.Pow2, Eligible;
    var i: nat :| i < SetAt(m, r, c.fam).cfg.Max() && ReservedAt(m, m', r, c, i);
    EligibleIsFree(m, r, c.fam, i);
  }

  /** How many of the first n rounds mark an IPv4 block of q that the attempt then does not use. */
  ghost function Leaks(m: CidrMap, list: seq<Ref>, q: Ref, n: nat): nat
    requires ValidMap(m) && InMapAll(m, list) && n <= |list|
  {
    if n == 0 then 0 else Leaks(m, list, q, n - 1) + if LeaksAt(m, list, q, n - 1) then 1 else 0
  }

  /** It is q's turn, and it has an eligible IPv4 block. */
  ghost predicate LeaksAt(m: CidrMap, list: seq<Ref>, q: Ref, j: nat)
    requires ValidMap(m) && InMapAll(m, list) && j < |list|
  {
    list[j] == q && HasSet(StateBefore(m, list, j), q, V4) && HasEligible(StateBefore(m, list, j), q, V4)
  }

  /** In the ClusterCIDR at q, k more IPv4 blocks are marked, and nothing else but cursors differs. */
  ghost predicate Leaked(m: CidrMap, m': CidrMap, q: Ref, k: nat)
    requires ValidMap(m) && ValidMap(m') && InMap(m, q)
  {
    && InMap(m', q) && SameCCShape(At(m, q), At(m', q)) && At(m', q).nodes == At(m, q).nodes
    && (HasSet(m, q, V6) ==> SetAt(m', q, V6).marks == SetAt(m, q, V6).marks)
    && (HasSet(m, q, V4) ==>
          && SetAt(m, q, V4).marks <= SetAt(m', q, V4).marks
          && |SetAt(m', q, V4).marks| == |SetAt(m, q, V4).marks| + k)
  }

  lemma LeakedThrough(m: CidrMap, m1: CidrMap, m2: CidrMap, q: Ref, k: nat, k': nat)
    requires ValidMap(m) && ValidMap(m1) && ValidMap(m2) && InMap(m, q) && Leaked(m, m1, q, k) && Leaked(m1, m2, q, k')
    ensures Leaked(m, m2, q, k + k')
  {
    hide ValidMap;
  }

  lemma LeakedNothing(m: CidrMap, m': CidrMap, q: Ref)
    requires ValidMap(m) && ValidMap(m') && InMap(m, q) && InMap(m', q) && At(m', q) == At(m, q)
    ensures Leaked(m, m', q, 0)
  {
    hide ValidMap;
  }

  /** One failed round. */
  lemma RoundLeaks(m: CidrMap, r: Ref, q: Ref)
    requires ValidMap(m) && InMap(m, r) && InMap(m, q) && !FamiliesEligible(m, r)
    ensures Leaked(m, TryFamilies(m, r).m, q, if q == r && HasSet(m, q, V4) && HasEligible(m, q, V4) then 1 else 0)
  {
    hide ValidMap, HasEligible, TryFamilies, Reserved;
    var m' := TryFamilies(m, r).m;
    TryExact(m, r);
    ShapeKeeps(m, m', q);
    if q != r {
      LeakedNothing(m, m', q);
    } else if HasSet(m, q, V4) && HasEligible(m, q, V4) {
      var c: Cidr :| c.fam == V4 && Reserved(m, m', r, c);
      ReservedCount(m, m', r, c);
    }
  }

  /** What an attempt leaves in the ClusterCIDRs it passes over: in each of them exactly one more IPv4 block is marked
      for every time its turn came with an eligible IPv4 block; IPv6 marks and nodes are as before. */
  lemma {:induction false} PassedOver(m: CidrMap, list: seq<Ref>, n: nat, q: Ref)
    requires ValidMap(m) && InMapAll(m, list) && n <= |list| && InMap(m, q)
    requires forall j :: 0 <= j < n ==> !Fits(m, list, j)
    ensures Leaked(m, StateBefore(m, list, n), q, Leaks(m, list, q, n))
    decreases n
  {
    hide ValidMap, FamiliesEligible, TryFamilies, HasEligible, Leaked, SameShape;
    if n == 0 {
      LeakedNothing(m, m, q);
    } else {
      PassedOver(m, list, n - 1, q);
      var before := StateBefore(m, list, n - 1);
      ShapeKeeps(m, before, q);
      ShapeKeeps(m, before, list[n - 1]);
      assert !Fits(m, list, n - 1);
      RoundLeaks(before, list[n - 1], q);
      LeakedThrough(m, before, StateBefore(m, list, n), q, Leaks(m, list, q, n - 1),
        if LeaksAt(m, list, q, n - 1) then 1 else 0);
    }
  }

  /** A whole attempt, whatever becomes of it, leaves that much in every ClusterCIDR but the one it takes its blocks
      from (for which see `Conservation`); n is the number of ClusterCIDRs passed over. */
  lemma AttemptLeaves(m: CidrMap, list: seq<Ref>, node: string, lister: Lister, patches: seq<Patch>, q: Ref)
    returns (n: nat)
    requires ValidMap(m) && InMapAll(m, list) && patches != [] && InMap(m, q)
    ensures var a := AllocateNode(m, list, node, lister, patches);
            && n <= |list| && (forall j :: 0 <= j < n ==> !Fits(m, list, j))
            && (n == |list| ==> a.home.None?) && (n < |list| ==> Fits(m, list, n) && a.home == Some(list[n]))
            && (a.home != Some(q) ==> Leaked(m, a.m, q, Leaks(m, list, q, n)))
  {
    hide ValidMap, Fits, AllocateNode, PrioritizedCIDRs, SameShape, TryFamilies, StateBefore, Leaked, Leaks;
    n := HomeFirstFits(m, list, node, lister, patches);
    var a, before := AllocateNode(m, list, node, lister, patches), StateBefore(m, list, n);
    if a.home != Some(q) {
      PassedOver(m, list, n, q);
      ShapeKeeps(m, before, q);
      ElsewhereAsBefore(m, list, node, lister, patches, n, q);
      LeakedNothing(before, a.m, q);
      LeakedThrough(m, before, a.m, q, Leaks(m, list, q, n), 0);
    }
  }

  lemma ElsewhereAsBefore(m: CidrMap, list: seq<Ref>, node: string, lister: Lister, patches: seq<Patch>, n: nat, q: Ref)
    requires ValidMap(m) && InMapAll(m, list) && patches != [] && InMap(m, q)
    requires n <= |list| && (forall j :: 0 <= j < n ==> !Fits(m, list, j))
    requires n < |list| ==> Fits(m, list, n) && list[n] != q
    ensures var a, before := AllocateNode(m, list, node, lister, patches), StateBefore(m, list, n);
            InMap(before, q) && InMap(a.m, q) && At(a.m, q) == At(before, q)
  {
    hide ValidMap, Fits, PrioritizedCIDRs, TryFamilies, StateBefore, ReleaseAll, UpdateOutcome, Reserved, LeadInRange,
      Removed;
    var n' := FirstFit(m, list);
    assert n' == n;
    var p, before := PrioritizedCIDRs(m, list), StateBefore(m, list, n);
    ShapeKeeps(m, before, q);
    if n < |list| {
      ShapeKeeps(m, before, list[n]);
      TryExact(before, list[n]);
      if p.cidrs != [] && GivesBack(UpdateOutcome(p.cidrs, lister, patches)) {
        FamiliesNoNil(p.m, list[n], p.cidrs);
        ReleaseAllExact(p.m, list[n], p.cidrs, V4);
      }
    }
  }

  // ---------- Retries ----------

  /** No ClusterCIDR of the list has room in every family. */
  ghost predicate NoRoom(m: CidrMap, list: seq<Ref>)
    requires ValidMap(m) && InMapAll(m, list)
  {
    forall j :: 0 <= j < |list| ==> !FamiliesEligible(m, list[j])
  }

  /** The map after k attempts to serve a node from the list. */
  ghost function Retried(m: CidrMap, list: seq<Ref>, node: string, lister: Lister, patches: seq<Patch>, k: nat)
    : (m': CidrMap)
    requires ValidMap(m) && InMapAll(m, list) && patches != []
    ensures ValidMap(m') && SameShape(m, m') && InMapAll(m', list)
  {
    hide ValidMap, AllocateNode;
    if k == 0 then m else
    var before := Retried(m, list, node, lister, patches, k - 1);
    var m' := AllocateNode(before, list, node, lister, patches).m;
    ShapeTransitive(m, before, m');
    m'
  }

  /** Where there is no room at first, no ClusterCIDR fits when its turn comes, and there is none afterwards. */
  lemma NoRoomFails(m: CidrMap, list: seq<Ref>, node: string, lister: Lister, patches: seq<Patch>)
    requires ValidMap(m) && InMapAll(m, list) && patches != [] && NoRoom(m, list)
    ensures forall j :: 0 <= j < |list| ==> !Fits(m, list, j)
    ensures var a := AllocateNode(m, list, node, lister, patches);
            && a.outcome.NoBlock? && a.home.None? && a.m == StateBefore(m, list, |list|)
            && InMapAll(a.m, list) && NoRoom(a.m, list)
  {
    hide ValidMap, FamiliesEligible, Frame, PrioritizedCIDRs, StateBefore, SameShape, TryFamilies, ReleaseAll;
    forall j | 0 <= j <= |list|
      ensures forall i :: 0 <= i < |list| ==>
        InMap(StateBefore(m, list, j), list[i]) && !FamiliesEligible(StateBefore(m, list, j), list[i])
    {
      StateBeforeFrame(m, list, 0, j);
      StartsAt(m, list);
      forall i | 0 <= i < |list|
        ensures InMap(StateBefore(m, list, j), list[i]) && !FamiliesEligible(StateBefore(m, list, j), list[i])
      {
        ShapeKeeps(m, StateBefore(m, list, j), list[i]);
        if FamiliesEligible(StateBefore(m, list, j), list[i]) {
          FitsEarlier(m, StateBefore(m, list, j), list[i]);
        }
      }
    }
    var n := FirstFit(m, list);
  }

  lemma StartsAt(m: CidrMap, list: seq<Ref>)
    requires ValidMap(m) && InMapAll(m, list)
    ensures StateBefore(m, list, 0) == m
  {
  }

  lemma {:induction false} LeaksPositive(m: CidrMap, list: seq<Ref>, q: Ref, j: nat, n: nat)
    requires ValidMap(m) && InMapAll(m, list) && j < n <= |list| && LeaksAt(m, list, q, j)
    ensures Leaks(m, list, q, n) >= 1
    decreases n
  {
    hide ValidMap, LeaksAt;
    if j < n - 1 {
      LeaksPositive(m, list, q, j, n - 1);
    }
  }

  /** One attempt without room anywhere marks at least one more IPv4 block of every ClusterCIDR of the list that still
      has an eligible one afterwards. */
  lemma RetryLeaks(m: CidrMap, list: seq<Ref>, node: string, lister: Lister, patches: seq<Patch>, q: Ref)
    returns (k: nat)
    requires ValidMap(m) && InMapAll(m, list) && patches != [] && NoRoom(m, list) && q in list
    ensures var a := AllocateNode(m, list, node, lister, patches);
            Leaked(m, a.m, q, k) && (HasSet(a.m, q, V4) && HasEligible(a.m, q, V4) ==> k >= 1)
  {
    hide ValidMap, AllocateNode, HasEligible, StateBefore, Leaked, Leaks, Frame, FamiliesEligible, SameShape;
    NoRoomFails(m, list, node, lister, patches);
    var n := AttemptLeaves(m, list, node, lister, patches, q);
    k := Leaks(m, list, q, n);
    var a := AllocateNode(m, list, node, lister, patches);
    var j: nat :| j < |list| && list[j] == q;
    if HasSet(a.m, q, V4) && HasEligible(a.m, q, V4) {
      var before := StateBefore(m, list, j);
      StateBeforeFrame(m, list, j, |list|);
      ShapeKeeps(m, before, q);
      ShapeKeeps(m, a.m, q);
      if !HasEligible(before, q, V4) {
        NoneEligibleLater(before, a.m, q, V4);
      }
      LeaksPositive(m, list, q, j, |list|);
    }
  }

  /** Failed attempts are not rolled back: where no ClusterCIDR of the list has room in every family, k attempts leave
      at least k more IPv4 blocks marked for nobody in each one that has an eligible IPv4 block to the end. */
  lemma {:induction false} RetriesLeak(m: CidrMap, list: seq<Ref>, node: string, lister: Lister, patches: seq<Patch>,
                                       k: nat, q: Ref)
    returns (leaked: nat)
    requires ValidMap(m) && InMapAll(m, list) && patches != [] && NoRoom(m, list) && q in list
    ensures var m' := Retried(m, list, node, lister, patches, k);
            && NoRoom(m', list) && Leaked(m, m', q, leaked)
            && (HasSet(m', q, V4) && HasEligible(m', q, V4) ==> leaked >= k)
    decreases k
  {
    hide ValidMap, HasEligible, AllocateNode, Leaked, FamiliesEligible, StateBefore, SameShape, Frame, NoRoom;
    if k == 0 {
      LeakedNothing(m, m, q);
      return 0;
    }
    var before := Retried(m, list, node, lister, patches, k - 1);
    var earlier := RetriesLeak(m, list, node, lister, patches, k - 1, q);
    NoRoomFails(before, list, node, lister, patches);
    var more := RetryLeaks(before, list, node, lister, patches, q);
    var m' := Retried(m, list, node, lister, patches, k);
    LeakedThrough(m, before, m', q, earlier, more);
    leaked := earlier + more;
    if HasSet(m', q, V4) && HasEligible(m', q, V4) {
      AttemptKeepsMarks(before, list, node, lister, patches);
      ShapeKeeps(m, before, q);
      ShapeSymmetric(before, m');
      ShapeKeeps(m', before, q);
      if !HasEligible(before, q, V4) {
        NoneEligibleLater(before, m', q, V4);
      }
    }
  }

  /** After as many such attempts as the IPv4 set of a ClusterCIDR has blocks, none of them is eligible any more. */
  lemma RetriesExhaust(m: CidrMap, list: seq<Ref>, node: string, lister: Lister, patches: seq<Patch>, k: nat, q: Ref)
    requires ValidMap(m) && InMapAll(m, list) && patches != [] && NoRoom(m, list) && q in list && HasSet(m, q, V4)
    requires k >= SetAt(m, q, V4).cfg.Max()
    ensures var m' := Retried(m, list, node, lister, patches, k); HasSet(m', q, V4) && !HasEligible(m', q, V4)
  {
    hide ValidMap, HasEligible, Retried, SameShape, Bits.Pow2, NextCandidate, NoRoom;
    var leaked := RetriesLeak(m, list, node, lister, patches, k, q);
    var m' := Retried(m, list, node, lister, patches, k);
    Pigeonhole(SetAt(m', q, V4));
    if NextCandidate(SetAt(m', q, V4)).None? {
      AllMarked(m', q, V4);
    }
  }
}
