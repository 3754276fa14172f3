/** prioritizedCIDRs is first-fit, and failed assignments give back exactly what they took. */
module Prioritize {
  import opened Cidrs
  import opened Blocks
  import opened SetSpec
  import opened AllocatorSpec
  import opened Allocate
  import opened Frames

  /** c was an eligible block of the ClusterCIDR at r in m, and its mark is the only one added to that set in m'. */
  ghost predicate Reserved(m: CidrMap, m': CidrMap, r: Ref, c: Cidr)
    requires ValidMap(m) && ValidMap(m')
  {
    HasSet(m, r, c.fam) && HasSet(m', r, c.fam) &&
    exists i: nat :: i < SetAt(m, r, c.fam).cfg.Max() && ReservedAt(m, m', r, c, i)
  }

  ghost predicate ReservedAt(m: CidrMap, m': CidrMap, r: Ref, c: Cidr, i: nat)
    requires ValidMap(m) && ValidMap(m')
    requires HasSet(m, r, c.fam) && HasSet(m', r, c.fam) && i < SetAt(m, r, c.fam).cfg.Max()
  {
    var s, s' := SetAt(m, r, c.fam), SetAt(m', r, c.fam);
    Eligible(m, r, c.fam, i) && c == s.cfg.Block(i) && s'.cfg == s.cfg && s'.marks == s.marks + {i}
  }

  /** Nothing but the sets of the ClusterCIDR at r differs. */
  ghost predicate OnlyTouches(m: CidrMap, m': CidrMap, r: Ref) {
    && SameShape(m, m')
    && (forall q :: InMap(m, q) && q != r ==> At(m', q) == At(m, q))
    && (InMap(m, r) ==> At(m', r).nodes == At(m, r).nodes)
  }

  function Other(fam: Family): Family {
    if fam.V4? then V6 else V4
  }

  lemma AllocateFacts(m: CidrMap, r: Ref, fam: Family)
    requires ValidMap(m) && HasSet(m, r, fam)
    ensures var a := AllocateCIDR(m, r, fam);
            && OnlyTouches(m, a.m, r)
            && At(a.m, r).SetFor(Other(fam)) == At(m, r).SetFor(Other(fam))
            && (a.block.Some? <==> HasEligible(m, r, fam))
            && (a.block.Some? ==> a.block.value.fam == fam && Reserved(m, a.m, r, a.block.value))
            && (a.block.None? ==> SetAt(a.m, r, fam).marks == SetAt(m, r, fam).marks)
  {
    hide AllocateCIDR, ValidMap, Bits.Pow2, Cidr.Valid, Eligible;
    AllocateExact(m, r, fam);
    var a, s := AllocateCIDR(m, r, fam), SetAt(m, r, fam);
    var n: nat :| n < s.cfg.Max() && AttemptedTo(m, r, fam, a, n);
    if a.block.Some? {
      var i: nat :| i < s.cfg.Max() && Eligible(m, r, fam, i) && a.block.value == s.cfg.Block(i)
        && a.m == PutSet(m, r, fam, s.(next := n, marks := s.marks + {i}));
      assert ReservedAt(m, a.m, r, a.block.value, i);
    }
  }

  /** Sets of one family do not matter to blocks of the other. */
  lemma OtherFamilyIrrelevant(m: CidrMap, m': CidrMap, r: Ref, fam: Family, c: Cidr)
    requires ValidMap(m) && ValidMap(m') && OnlyTouches(m, m', r) && InMap(m, r) && c.Valid() && c.fam == fam
    requires At(m', r).SetFor(fam) == At(m, r).SetFor(fam)
    ensures OverlapsAllocatedList(m', c) <==> OverlapsAllocatedList(m, c)
  {
    hide ValidMap, MeetsMarked, Cidr.Valid;
    forall q
      ensures HasSet(m', q, fam) <==> HasSet(m, q, fam)
      ensures HasSet(m, q, fam) ==> SetAt(m', q, fam) == SetAt(m, q, fam)
    {
    }
  }

  lemma EligibleOtherFamily(m: CidrMap, m': CidrMap, r: Ref, fam: Family)
    requires ValidMap(m) && ValidMap(m') && OnlyTouches(m, m', r) && HasSet(m, r, fam)
    requires At(m', r).SetFor(fam) == At(m, r).SetFor(fam)
    ensures HasSet(m', r, fam)
    ensures forall i: nat :: i < SetAt(m, r, fam).cfg.Max() ==> (Eligible(m', r, fam, i) <==> Eligible(m, r, fam, i))
    ensures HasEligible(m', r, fam) <==> HasEligible(m, r, fam)
  {
    hide ValidMap, Bits.Pow2, Cidr.Valid, OverlapsAllocatedList;
    var cfg := SetAt(m, r, fam).cfg;
    forall i: nat | i < cfg.Max()
      ensures Eligible(m', r, fam, i) <==> Eligible(m, r, fam, i)
    {
      BlockValid(cfg, i);
      OtherFamilyIrrelevant(m, m', r, fam, cfg.Block(i));
    }
  }

  /** Every configured family of the ClusterCIDR has an eligible block. */
  ghost predicate FamiliesEligible(m: CidrMap, r: Ref)
    requires ValidMap(m) && InMap(m, r)
  {
    && (At(m, r).v4.Some? ==> HasEligible(m, r, V4))
    && (At(m, r).v6.Some? ==> HasEligible(m, r, V6))
  }

  function FamiliesOf(cc: CC): seq<Family> {
    (if cc.v4.Some? then [V4] else []) + (if cc.v6.Some? then [V6] else [])
  }

  /** One CIDR for each configured family, IPv4 first. */
  ghost predicate OnePerFamily(cc: CC, cidrs: seq<Cidr>) {
    |cidrs| == |FamiliesOf(cc)| && forall j :: 0 <= j < |cidrs| ==> cidrs[j].fam == FamiliesOf(cc)[j]
  }

  ghost predicate AllReserved(m: CidrMap, m': CidrMap, r: Ref, cidrs: seq<Cidr>)
    requires ValidMap(m) && ValidMap(m')
  {
    forall j :: 0 <= j < |cidrs| ==> Reserved(m, m', r, cidrs[j])
  }

  lemma ReservedThrough(m: CidrMap, m1: CidrMap, m2: CidrMap, r: Ref, c: Cidr)
    requires ValidMap(m) && ValidMap(m1) && ValidMap(m2) && InMap(m, r)
    requires OnlyTouches(m, m1, r) && OnlyTouches(m1, m2, r)
    ensures OnlyTouches(m, m2, r)
    ensures Reserved(m, m1, r, c) && At(m2, r).SetFor(c.fam) == At(m1, r).SetFor(c.fam) ==> Reserved(m, m2, r, c)
    ensures Reserved(m1, m2, r, c) && At(m1, r).SetFor(c.fam) == At(m, r).SetFor(c.fam) ==> Reserved(m, m2, r, c)
  {
    hide ValidMap, Bits.Pow2, Cidr.Valid, Eligible;
    if Reserved(m, m1, r, c) && At(m2, r).SetFor(c.fam) == At(m1, r).SetFor(c.fam) {
      var i: nat :| i < SetAt(m, r, c.fam).cfg.Max() && ReservedAt(m, m1, r, c, i);
      assert ReservedAt(m, m2, r, c, i);
    }
    if Reserved(m1, m2, r, c) && At(m1, r).SetFor(c.fam) == At(m, r).SetFor(c.fam) {
      EligibleOtherFamily(m, m1, r, c.fam);
      var i: nat :| i < SetAt(m1, r, c.fam).cfg.Max() && ReservedAt(m1, m2, r, c, i);
      assert ReservedAt(m, m2, r, c, i);
    }
  }

  /** What a failed round leaves: an IPv4 block stays marked iff IPv4 had an eligible one, and no other mark is made. */
  ghost predicate FailedRound(m: CidrMap, m': CidrMap, r: Ref)
    requires ValidMap(m) && ValidMap(m') && InMap(m, r)
  {
    && (HasSet(m, r, V6) ==> HasSet(m', r, V6) && SetAt(m', r, V6).marks == SetAt(m, r, V6).marks)
    && (HasSet(m, r, V4) && !HasEligible(m, r, V4) ==>
          HasSet(m', r, V4) && SetAt(m', r, V4).marks == SetAt(m, r, V4).marks)
    && (HasSet(m, r, V4) && HasEligible(m, r, V4) ==> exists c: Cidr :: c.fam == V4 && Reserved(m, m', r, c))
  }

  /** One round reserves a block per family iff every family has an eligible one, and touches no other ClusterCIDR. If
      it fails, an eligible IPv4 block stays marked for nobody. */
  lemma TryExact(m: CidrMap, r: Ref)
    requires ValidMap(m) && InMap(m, r)
    ensures var a := TryFamilies(m, r);
            && OnlyTouches(m, a.m, r)
            && (a.cidrs.Some? <==> FamiliesEligible(m, r))
            && (a.cidrs.Some? ==> OnePerFamily(At(m, r), a.cidrs.value) && AllReserved(m, a.m, r, a.cidrs.value))
            && (a.cidrs.None? ==> FailedRound(m, a.m, r))
  {
    hide ValidMap, Reserved, HasEligible, AllocateCIDR;
    assert At(m, r).v4.Some? || At(m, r).v6.Some? by {
      ConfiguredFamily(m, r);
    }
    if At(m, r).v4.None? {
      AllocateFacts(m, r, V6);
    } else {
      AllocateFacts(m, r, V4);
      var a := AllocateCIDR(m, r, V4);
      if a.block.Some? && At(m, r).v6.Some? {
        AllocateFacts(a.m, r, V6);
        EligibleOtherFamily(m, a.m, r, V6);
        var b := AllocateCIDR(a.m, r, V6);
        ReservedThrough(m, a.m, b.m, r, a.block.value);
        if b.block.Some? {
          ReservedThrough(m, a.m, b.m, r, b.block.value);
        }
      } else if At(m, r).v6.Some? {
      }
    }
  }

  lemma ConfiguredFamily(m: CidrMap, r: Ref)
    requires ValidMap(m) && InMap(m, r)
    ensures At(m, r).v4.Some? || At(m, r).v6.Some?
  {
    assert At(m, r).Valid();
  }

  // ---------- First fit ----------

  /** The state in which list[n] is tried. */
  ghost function StateBefore(m: CidrMap, list: seq<Ref>, n: nat): (m': CidrMap)
    requires ValidMap(m) && InMapAll(m, list) && n <= |list|
    ensures ValidMap(m') && SameShape(m, m')
    decreases n
  {
    hide ValidMap, SameShape;
    ShapeReflexive(m);
    if n == 0 then m else
    var before := StateBefore(m, list, n - 1);
    ShapeKeeps(m, before, list[n - 1]);
    var m' := TryFamilies(before, list[n - 1]).m;
    ShapeTransitive(m, before, m');
    m'
  }

  ghost predicate Fits(m: CidrMap, list: seq<Ref>, n: nat)
    requires ValidMap(m) && InMapAll(m, list) && n < |list|
  {
    FamiliesEligible(StateBefore(m, list, n), list[n])
  }

  lemma {:induction false} StateBeforeTail(m: CidrMap, list: seq<Ref>, n: nat)
    requires ValidMap(m) && InMapAll(m, list) && 0 < n <= |list|
    ensures InMapAll(TryFamilies(m, list[0]).m, list[1..])
    ensures StateBefore(m, list, n) == StateBefore(TryFamilies(m, list[0]).m, list[1..], n - 1)
    decreases n
  {
    hide ValidMap, TryFamilies;
    if n > 1 {
      StateBeforeTail(m, list, n - 1);
      assert list[1..][n - 2] == list[n - 1];
    }
  }

  /** prioritizedCIDRs takes its blocks from the first ClusterCIDR of the list that has an eligible block
      in every configured family when its turn comes, and fails iff there is none. */
  lemma {:induction false} FirstFit(m: CidrMap, list: seq<Ref>) returns (n: nat)
    requires ValidMap(m) && InMapAll(m, list)
    ensures var p := PrioritizedCIDRs(m, list);
            && n <= |list|
            && (forall j :: 0 <= j < n ==> !Fits(m, list, j))
            && (p.chosen.None? <==> n == |list|)
            && (n == |list| ==> p.m == StateBefore(m, list, n))
            && (n < |list| ==>
                  && Fits(m, list, n) && p.chosen == Some(list[n])
                  && TryFamilies(StateBefore(m, list, n), list[n]) == Reservation(p.m, Some(p.cidrs)))
    decreases |list|
  {
    hide ValidMap, FamiliesEligible, TryFamilies, SameShape, HasFamilies;
    if list == [] {
      return 0;
    }
    TryExact(m, list[0]);
    StateBeforeTail(m, list, 1);
    var a := TryFamilies(m, list[0]);
    if a.cidrs.Some? {
      return 0;
    }
    assert !Fits(m, list, 0);
    var k := FirstFit(a.m, list[1..]);
    n := k + 1;
    forall j | 0 < j <= n && j < |list|
      ensures Fits(m, list, j) <==> Fits(a.m, list[1..], j - 1)
    {
      StateBeforeTail(m, list, j);
    }
    StateBeforeTail(m, list, n);
  }

  /** No round changes which nodes a ClusterCIDR is associated with. */
  lemma {:induction false} PrioritizedNodes(m: CidrMap, list: seq<Ref>)
    requires ValidMap(m) && InMapAll(m, list)
    ensures SameNodes(m, PrioritizedCIDRs(m, list).m)
    decreases |list|
  {
    hide ValidMap, TryFamilies, FailedRound;
    if list != [] {
      var a := TryFamilies(m, list[0]);
      TryExact(m, list[0]);
      if a.cidrs.None? {
        PrioritizedNodes(a.m, list[1..]);
      }
    }
  }

  ghost predicate SameNodes(m: CidrMap, m': CidrMap) {
    forall q :: InMap(m, q) ==> InMap(m', q) && At(m', q).nodes == At(m, q).nodes
  }

  // ---------- What the attempt as a whole reserved ----------

  lemma {:induction false} StateBeforeFrame(m: CidrMap, list: seq<Ref>, j: nat, n: nat)
    requires ValidMap(m) && InMapAll(m, list) && j <= n <= |list|
    ensures Frame(StateBefore(m, list, j), StateBefore(m, list, n), {}, {})
    decreases n
  {
    hide ValidMap, Frame, TryFamilies, SameShape;
    if j == n {
      FrameReflexive(StateBefore(m, list, n));
    } else {
      StateBeforeFrame(m, list, j, n - 1);
      var before := StateBefore(m, list, n - 1);
      ShapeKeeps(m, before, list[n - 1]);
      TryFamiliesFrame(before, list[n - 1]);
      FrameTransitive(StateBefore(m, list, j), before, StateBefore(m, list, n), {}, {});
    }
  }

  lemma {:induction false} UntouchedBefore(m: CidrMap, list: seq<Ref>, n: nat, q: Ref)
    requires ValidMap(m) && InMapAll(m, list) && n <= |list| && InMap(m, q)
    requires forall j :: 0 <= j < n ==> list[j] != q
    ensures InMap(StateBefore(m, list, n), q) && At(StateBefore(m, list, n), q) == At(m, q)
    decreases n
  {
    hide ValidMap, TryFamilies, SameShape;
    if n != 0 {
      UntouchedBefore(m, list, n - 1, q);
      ShapeKeeps(m, StateBefore(m, list, n - 1), list[n - 1]);
      ShapeKeeps(m, StateBefore(m, list, n), q);
      TryExact(StateBefore(m, list, n - 1), list[n - 1]);
    }
  }

  /** As marks only accumulate, a block eligible later was eligible before. */
  lemma EligibleEarlier(m: CidrMap, m': CidrMap, r: Ref, fam: Family, i: nat)
    requires ValidMap(m) && ValidMap(m') && Frame(m, m', {}, {}) && HasSet(m, r, fam) && HasSet(m', r, fam)
    requires i < SetAt(m', r, fam).cfg.Max() && Eligible(m', r, fam, i)
    ensures SetAt(m, r, fam).cfg == SetAt(m', r, fam).cfg && Eligible(m, r, fam, i)
  {
    hide ValidMap, Bits.Pow2, Cidr.Valid, OverlapsAllocatedList, Keeps;
    var cfg := SetAt(m', r, fam).cfg;
    BlockValid(cfg, i);
    if OverlapsAllocatedList(m, cfg.Block(i)) {
      OverlapKept(m, m', cfg.Block(i));
    }
  }

  lemma FitsEarlier(m: CidrMap, m': CidrMap, r: Ref)
    requires ValidMap(m) && ValidMap(m') && Frame(m, m', {}, {})
    requires InMap(m, r) && InMap(m', r) && FamiliesEligible(m', r)
    ensures FamiliesEligible(m, r)
  {
    hide ValidMap, Bits.Pow2, Cidr.Valid, Eligible, Keeps;
    if At(m, r).v4.Some? {
      var i: nat :| i < SetAt(m', r, V4).cfg.Max() && Eligible(m', r, V4, i);
      EligibleEarlier(m, m', r, V4, i);
    }
    if At(m, r).v6.Some? {
      var i: nat :| i < SetAt(m', r, V6).cfg.Max() && Eligible(m', r, V6, i);
      EligibleEarlier(m, m', r, V6, i);
    }
  }

  /** The ClusterCIDR that fits first has not been tried before in the same attempt, even if it is listed twice. */
  lemma FirstFitIsFresh(m: CidrMap, list: seq<Ref>, j: nat, n: nat)
    requires ValidMap(m) && InMapAll(m, list) && j < n < |list| && Fits(m, list, n) && !Fits(m, list, j)
    ensures list[j] != list[n]
  {
    hide ValidMap, FamiliesEligible, Frame, SameShape, StateBefore;
    var early, late := StateBefore(m, list, j), StateBefore(m, list, n);
    ShapeKeeps(m, early, list[j]);
    ShapeKeeps(m, late, list[n]);
    if list[j] == list[n] {
      StateBeforeFrame(m, list, j, n);
      FitsEarlier(early, late, list[n]);
    }
  }

  /** Measured against the state before the whole attempt: the chosen ClusterCIDR has given one block per
      configured family, each disjoint from everything allocated then, and no other mark has changed in it. */
  lemma PrioritizedExact(m: CidrMap, list: seq<Ref>)
    requires ValidMap(m) && InMapAll(m, list)
    ensures var p := PrioritizedCIDRs(m, list);
            p.chosen.Some? ==>
              && OnePerFamily(At(m, p.chosen.value), p.cidrs)
              && AllReserved(m, p.m, p.chosen.value, p.cidrs)
              && At(p.m, p.chosen.value).nodes == At(m, p.chosen.value).nodes
  {
    hide ValidMap, FamiliesEligible, Frame, TryFamilies, PrioritizedCIDRs, Reserved;
    var n := FirstFit(m, list);
    var p := PrioritizedCIDRs(m, list);
    if n < |list| {
      var r, before := list[n], StateBefore(m, list, n);
      forall j | 0 <= j < n
        ensures list[j] != list[n]
      {
        FirstFitIsFresh(m, list, j, n);
      }
      UntouchedBefore(m, list, n, r);
      TryExact(before, r);
      StateBeforeFrame(m, list, 0, n);
      forall j | 0 <= j < |p.cidrs|
        ensures Reserved(m, p.m, r, p.cidrs[j])
      {
        ReservedEarlier(m, before, p.m, r, p.cidrs[j]);
      }
    }
  }

  lemma ReservedEarlier(m: CidrMap, m1: CidrMap, m2: CidrMap, r: Ref, c: Cidr)
    requires ValidMap(m) && ValidMap(m1) && ValidMap(m2) && Frame(m, m1, {}, {})
    requires InMap(m, r) && InMap(m1, r) && At(m1, r) == At(m, r) && Reserved(m1, m2, r, c)
    ensures Reserved(m, m2, r, c)
  {
    hide ValidMap, Bits.Pow2, Cidr.Valid, Eligible, Frame;
    var i: nat :| i < SetAt(m1, r, c.fam).cfg.Max() && ReservedAt(m1, m2, r, c, i);
    EligibleEarlier(m, m1, r, c.fam, i);
    assert ReservedAt(m, m2, r, c, i);
  }
}
