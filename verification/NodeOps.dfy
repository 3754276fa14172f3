/** occupyCIDRs and ReleaseCIDR, exactly: which ClusterCIDR they pick and what they do to it. */
module NodeOps {
  import opened Cidrs
  import opened Blocks
  import opened SetSpec
  import opened AllocatorSpec
  import opened Prioritize

  /** The marks of one set after its share of the CIDRs is occupied. */
  ghost function Added(cfg: Config, marks: set<nat>, cidrs: seq<Cidr>): set<nat>
    requires cfg.Valid() && forall j :: 0 <= j < |cidrs| ==> cidrs[j].Valid()
    decreases |cidrs|
  {
    if cidrs == [] then marks
    else Added(cfg, if cidrs[0].fam == cfg.Fam() then marks + MeetingBlocks(cfg, cidrs[0]) else marks, cidrs[1..])
  }

  /** The marks of one set after its share of the CIDRs is released. */
  ghost function Removed(cfg: Config, marks: set<nat>, cidrs: seq<Cidr>): set<nat>
    requires cfg.Valid() && forall j :: 0 <= j < |cidrs| ==> cidrs[j].Valid()
    decreases |cidrs|
  {
    if cidrs == [] then marks
    else Removed(cfg, if cidrs[0].fam == cfg.Fam() then marks - MeetingBlocks(cfg, cidrs[0]) else marks, cidrs[1..])
  }

  /** A block is marked afterwards iff it was before or meets one of the CIDRs. */
  lemma {:induction false} AddedMember(cfg: Config, marks: set<nat>, cidrs: seq<Cidr>, i: nat)
    requires cfg.Valid() && forall j :: 0 <= j < |cidrs| ==> cidrs[j].Valid()
    ensures i in Added(cfg, marks, cidrs) <==>
            i in marks || exists j :: 0 <= j < |cidrs| && cidrs[j].fam == cfg.Fam() && i in MeetingBlocks(cfg, cidrs[j])
    decreases |cidrs|
  {
    hide Cidr.Valid, Config.Valid;
    if cidrs != [] {
      var rest := cidrs[1..];
      AddedMember(cfg, if cidrs[0].fam == cfg.Fam() then marks + MeetingBlocks(cfg, cidrs[0]) else marks, rest, i);
      if j :| 0 <= j < |cidrs| && cidrs[j].fam == cfg.Fam() && i in MeetingBlocks(cfg, cidrs[j]) {
        assert j > 0 ==> rest[j - 1] == cidrs[j];
      }
      if j :| 0 <= j < |rest| && rest[j].fam == cfg.Fam() && i in MeetingBlocks(cfg, rest[j]) {
        assert cidrs[j + 1] == rest[j];
      }
    }
  }

  /** A block is marked afterwards iff it was before and meets none of the CIDRs. */
  lemma {:induction false} RemovedMember(cfg: Config, marks: set<nat>, cidrs: seq<Cidr>, i: nat)
    requires cfg.Valid() && forall j :: 0 <= j < |cidrs| ==> cidrs[j].Valid()
    ensures i in Removed(cfg, marks, cidrs) <==>
            i in marks && forall j :: 0 <= j < |cidrs| && cidrs[j].fam == cfg.Fam() ==>
              i !in MeetingBlocks(cfg, cidrs[j])
    decreases |cidrs|
  {
    hide Cidr.Valid, Config.Valid;
    if cidrs != [] {
      var rest := cidrs[1..];
      RemovedMember(cfg, if cidrs[0].fam == cfg.Fam() then marks - MeetingBlocks(cfg, cidrs[0]) else marks, rest, i);
      assert forall j :: 0 <= j < |rest| ==> rest[j] == cidrs[j + 1];
      assert forall j :: 0 < j < |cidrs| ==> cidrs[j] == rest[j - 1];
    }
  }

  /** Occupying the same CIDRs again marks nothing more. */
  lemma AddedTwice(cfg: Config, marks: set<nat>, cidrs: seq<Cidr>)
    requires cfg.Valid() && forall j :: 0 <= j < |cidrs| ==> cidrs[j].Valid()
    ensures Added(cfg, Added(cfg, marks, cidrs), cidrs) == Added(cfg, marks, cidrs)
  {
    hide Cidr.Valid, Config.Valid, Added;
    var once := Added(cfg, marks, cidrs);
    forall i: nat
      ensures i in Added(cfg, once, cidrs) <==> i in once
    {
      AddedMember(cfg, once, cidrs, i);
      AddedMember(cfg, marks, cidrs, i);
    }
  }

  /** How many CIDRs are dealt with before the first one out of range. */
  ghost function LeadInRange(m: CidrMap, r: Ref, cidrs: seq<Cidr>): (k: nat)
    requires ValidMap(m) && NoNil(m, r, cidrs)
    ensures k <= |cidrs| && (k == |cidrs| <==> InRanges(m, r, cidrs))
    ensures forall j :: 0 <= j < k ==> HasSet(m, r, cidrs[j].fam) && InRange(m, r, cidrs[j])
    ensures k < |cidrs| ==> HasSet(m, r, cidrs[k].fam) && !InRange(m, r, cidrs[k])
    decreases |cidrs|
  {
    hide ValidMap, InRange, Cidr.Valid;
    if cidrs == [] || !InRange(m, r, cidrs[0]) then 0 else 1 + LeadInRange(m, r, cidrs[1..])
  }

  lemma {:induction false} LeadKept(m: CidrMap, m': CidrMap, r: Ref, cidrs: seq<Cidr>)
    requires ValidMap(m) && ValidMap(m') && SameShape(m, m') && NoNil(m, r, cidrs)
    ensures NoNil(m', r, cidrs) && LeadInRange(m', r, cidrs) == LeadInRange(m, r, cidrs)
    decreases |cidrs|
  {
    hide ValidMap, InRange, Cidr.Valid, SameShape;
    NoNilKept(m, m', r, cidrs);
    if cidrs != [] {
      RangeKept(m, m', r, cidrs[0]);
      if InRange(m, r, cidrs[0]) {
        LeadKept(m, m', r, cidrs[1..]);
      }
    }
  }

  lemma LeadStep(m: CidrMap, m': CidrMap, r: Ref, cidrs: seq<Cidr>)
    requires ValidMap(m) && ValidMap(m') && SameShape(m, m')
    requires NoNil(m, r, cidrs) && cidrs != [] && InRange(m, r, cidrs[0])
    ensures NoNil(m', r, cidrs[1..])
    ensures var k := LeadInRange(m, r, cidrs);
            && k > 0 && LeadInRange(m', r, cidrs[1..]) == k - 1
            && cidrs[..k][0] == cidrs[0] && cidrs[..k][1..] == cidrs[1..][..k - 1]
  {
    hide ValidMap, InRange, Cidr.Valid, SameShape;
    LeadKept(m, m', r, cidrs[1..]);
  }

  lemma MarksTransitive(m: CidrMap, m1: CidrMap, m2: CidrMap, r: Ref)
    requires OnlyTouches(m, m1, r) && OnlyTouches(m1, m2, r)
    ensures OnlyTouches(m, m2, r)
  {
    ShapeTransitive(m, m1, m2);
  }

  lemma OccupyAtMarks(m: CidrMap, r: Ref, c: Cidr, fam: Family)
    requires ValidMap(m) && c.Valid() && HasSet(m, r, c.fam) && HasSet(m, r, fam) && OccupyAt(m, r, c).Some?
    ensures var m' := OccupyAt(m, r, c).value;
            && OnlyTouches(m, m', r) && HasSet(m', r, fam) && SetAt(m', r, fam).cfg == SetAt(m, r, fam).cfg
            && SetAt(m', r, fam).marks ==
               SetAt(m, r, fam).marks + if c.fam == fam then MeetingBlocks(SetAt(m, r, fam).cfg, c) else {}
  {
    hide ValidMap, MeetingBlocks, Meets;
  }

  lemma ReleaseAtMarks(m: CidrMap, r: Ref, c: Cidr, fam: Family)
    requires ValidMap(m) && c.Valid() && HasSet(m, r, c.fam) && HasSet(m, r, fam) && ReleaseAt(m, r, c).Some?
    ensures var m' := ReleaseAt(m, r, c).value;
            && OnlyTouches(m, m', r) && HasSet(m', r, fam) && SetAt(m', r, fam).cfg == SetAt(m, r, fam).cfg
            && SetAt(m', r, fam).marks ==
               SetAt(m, r, fam).marks - if c.fam == fam then MeetingBlocks(SetAt(m, r, fam).cfg, c) else {}
  {
    hide ValidMap, MeetingBlocks, Meets;
  }

  /** Occupying a node's CIDRs in one ClusterCIDR succeeds iff they all meet its ranges. It marks, in that ClusterCIDR
      only, exactly the blocks met by the CIDRs before the first one out of range, and they stay marked if it fails. */
  lemma {:induction false} OccupyAllExact(m: CidrMap, r: Ref, cidrs: seq<Cidr>, fam: Family)
    requires ValidMap(m) && NoNil(m, r, cidrs)
    ensures var o := OccupyAll(m, r, cidrs);
            && (o.ok <==> InRanges(m, r, cidrs))
            && OnlyTouches(m, o.m, r)
            && (HasSet(m, r, fam) ==>
                  && HasSet(o.m, r, fam) && SetAt(o.m, r, fam).cfg == SetAt(m, r, fam).cfg
                  && SetAt(o.m, r, fam).marks ==
                     Added(SetAt(m, r, fam).cfg, SetAt(m, r, fam).marks, cidrs[..LeadInRange(m, r, cidrs)]))
    decreases |cidrs|
  {
    hide ValidMap, MeetingBlocks, Meets, Cidr.Valid, SameShape, OccupyAt;
    ShapeReflexive(m);
    if cidrs != [] {
      NoNilNext(m, r, cidrs);
      var o := OccupyAt(m, r, cidrs[0]);
      if o.Some? {
        OccupyAtMarks(m, r, cidrs[0], cidrs[0].fam);
        if HasSet(m, r, fam) {
          OccupyAtMarks(m, r, cidrs[0], fam);
        }
        LeadStep(m, o.value, r, cidrs);
        OccupyAllExact(o.value, r, cidrs[1..], fam);
        MarksTransitive(m, o.value, OccupyAll(o.value, r, cidrs[1..]).m, r);
        if HasSet(m, r, fam) && cidrs[0].fam != fam {
          assert SetAt(m, r, fam).marks + {} == SetAt(m, r, fam).marks;
        }
      }
    }
  }

  /** Releasing unmarks exactly the blocks met by the CIDRs before the first one out of range. */
  lemma {:induction false} ReleaseAllExact(m: CidrMap, r: Ref, cidrs: seq<Cidr>, fam: Family)
    requires ValidMap(m) && NoNil(m, r, cidrs)
    ensures var o := ReleaseAll(m, r, cidrs);
            && (o.ok <==> InRanges(m, r, cidrs))
            && OnlyTouches(m, o.m, r)
            && (HasSet(m, r, fam) ==>
                  && HasSet(o.m, r, fam) && SetAt(o.m, r, fam).cfg == SetAt(m, r, fam).cfg
                  && SetAt(o.m, r, fam).marks ==
                     Removed(SetAt(m, r, fam).cfg, SetAt(m, r, fam).marks, cidrs[..LeadInRange(m, r, cidrs)]))
    decreases |cidrs|
  {
    hide ValidMap, MeetingBlocks, Meets, Cidr.Valid, SameShape, ReleaseAt;
    ShapeReflexive(m);
    if cidrs != [] {
      NoNilNext(m, r, cidrs);
      var o := ReleaseAt(m, r, cidrs[0]);
      if o.Some? {
        ReleaseAtMarks(m, r, cidrs[0], cidrs[0].fam);
        if HasSet(m, r, fam) {
          ReleaseAtMarks(m, r, cidrs[0], fam);
        }
        LeadStep(m, o.value, r, cidrs);
        ReleaseAllExact(o.value, r, cidrs[1..], fam);
        MarksTransitive(m, o.value, ReleaseAll(o.value, r, cidrs[1..]).m, r);
        if HasSet(m, r, fam) && cidrs[0].fam != fam {
          assert SetAt(m, r, fam).marks - {} == SetAt(m, r, fam).marks;
        }
      }
    }
  }

  /** How many ClusterCIDRs of the list occupyCIDRs tries. */
  ghost function TriedCount(m: CidrMap, list: seq<Ref>, cidrs: seq<Cidr>): (n: nat)
    requires ValidMap(m) && NoNilList(m, list, cidrs)
    ensures n <= |list| && forall j :: 0 <= j < n ==> NoNil(m, list[j], cidrs)
    decreases |list|
  {
    hide ValidMap, NoNil, InRanges;
    if list == [] then 0 else if InRanges(m, list[0], cidrs) then 1 else 1 + TriedCount(m, list[1..], cidrs)
  }

  lemma {:induction false} TriedKept(m: CidrMap, m': CidrMap, list: seq<Ref>, cidrs: seq<Cidr>)
    requires ValidMap(m) && ValidMap(m') && SameShape(m, m') && NoNilList(m, list, cidrs)
    ensures NoNilList(m', list, cidrs) && TriedCount(m', list, cidrs) == TriedCount(m, list, cidrs)
    decreases |list|
  {
    hide ValidMap, SameShape, NoNil, InRanges;
    if list != [] {
      NoNilKept(m, m', list[0], cidrs);
      if !InRanges(m, list[0], cidrs) {
        TriedKept(m, m', list[1..], cidrs);
      }
    }
  }

  /** occupyCIDRs picks the first ClusterCIDR of the list whose ranges all the node's CIDRs meet, fails iff there is
      none, and adds the node there and nowhere else. */
  lemma {:induction false} OccupyFirstMeeting(m: CidrMap, list: seq<Ref>, node: string, cidrs: seq<Cidr>)
    returns (n: nat)
    requires ValidMap(m) && NoNilList(m, list, cidrs)
    ensures var o := OccupyCIDRs(m, list, node, cidrs);
            && n <= |list|
            && (forall j :: 0 <= j < n ==> NoNil(m, list[j], cidrs) && !InRanges(m, list[j], cidrs))
            && (o.home.None? <==> n == |list|)
            && (n < |list| ==> NoNil(m, list[n], cidrs) && InRanges(m, list[n], cidrs) && o.home == Some(list[n]))
            && TriedCount(m, list, cidrs) == (if n < |list| then n + 1 else n)
            && (forall q :: InMap(m, q) ==>
                  InMap(o.m, q) && At(o.m, q).nodes == At(m, q).nodes + if o.home == Some(q) then {node} else {})
    decreases |list|
  {
    hide ValidMap, InRanges, SameShape, NoNil, OccupyAll, Associate;
    if list == [] {
      return 0;
    }
    NoNilInMap(m, list[0], cidrs);
    OccupyAllExact(m, list[0], cidrs, V4);
    var o := OccupyAll(m, list[0], cidrs);
    ShapeKeeps(m, o.m, list[0]);
    if o.ok {
      AssociateNodes(m, o.m, list[0], node);
      return 0;
    }
    NoNilListKept(m, o.m, list[1..], cidrs);
    TriedKept(m, o.m, list[1..], cidrs);
    var k := OccupyFirstMeeting(o.m, list[1..], node, cidrs);
    n := k + 1;
    forall j | 0 < j < |list| && j <= n
      ensures NoNil(m, list[j], cidrs) && (InRanges(o.m, list[j], cidrs) <==> InRanges(m, list[j], cidrs))
    {
      ShapeSymmetric(m, o.m);
      NoNilKept(o.m, m, list[j], cidrs);
    }
    forall q | InMap(m, q)
      ensures InMap(o.m, q) && At(o.m, q).nodes == At(m, q).nodes
    {
      ShapeKeeps(m, o.m, q);
    }
  }

  lemma NoNilInMap(m: CidrMap, r: Ref, cidrs: seq<Cidr>)
    requires ValidMap(m) && NoNil(m, r, cidrs)
    ensures InMap(m, r)
  {
  }

  lemma AssociateNodes(m: CidrMap, m1: CidrMap, r: Ref, node: string)
    requires ValidMap(m1) && OnlyTouches(m, m1, r) && InMap(m, r) && InMap(m1, r)
    ensures forall q :: InMap(m, q) ==>
              && InMap(Associate(m1, r, node), q)
              && At(Associate(m1, r, node), q).nodes == At(m, q).nodes + if q == r then {node} else {}
  {
    hide ValidMap;
  }

  /** Every mark occupyCIDRs makes: each ClusterCIDR it tries keeps the blocks met by the CIDRs before the first one out
      of its range - the one that gets the node those of all CIDRs - and no other ClusterCIDR is touched. */
  lemma {:induction false} OccupyMarksExact(m: CidrMap, list: seq<Ref>, node: string, cidrs: seq<Cidr>, q: Ref,
                                            fam: Family)
    requires ValidMap(m) && NoNilList(m, list, cidrs) && HasSet(m, q, fam)
    ensures var o := OccupyCIDRs(m, list, node, cidrs);
            var tried := list[..TriedCount(m, list, cidrs)];
            && HasSet(o.m, q, fam) && SetAt(o.m, q, fam).cfg == SetAt(m, q, fam).cfg
            && (q in tried ==> NoNil(m, q, cidrs) && SetAt(o.m, q, fam).marks == MarksAfterTry(m, q, cidrs, fam))
            && (q !in tried ==> SetAt(o.m, q, fam).marks == SetAt(m, q, fam).marks)
    decreases |list|
  {
    hide ValidMap, InRanges, SameShape, NoNil, OccupyAll, Associate, MarksAfterTry, Cidr.Valid;
    if list != [] {
      var r, o := list[0], OccupyAll(m, list[0], cidrs);
      NoNilInMap(m, r, cidrs);
      ShapeKeeps(m, o.m, r);
      OnceTried(m, r, cidrs, q, fam);
      if o.ok {
        AssociateSets(o.m, r, node, q, fam);
        assert list[..1] == [r];
      } else {
        TriedKept(m, o.m, list[1..], cidrs);
        OccupyMarksExact(o.m, list[1..], node, cidrs, q, fam);
        var rest := list[1..][..TriedCount(m, list[1..], cidrs)];
        assert list[..TriedCount(m, list, cidrs)] == [r] + rest;
        if q == r {
          TriedAgain(m, r, cidrs, fam);
        } else if q in rest {
          ShapeSymmetric(m, o.m);
          NoNilKept(o.m, m, q, cidrs);
          TryUnchanged(m, o.m, q, cidrs, fam);
        }
      }
    }
  }

  /** The marks of a set after its ClusterCIDR was tried. */
  ghost function MarksAfterTry(m: CidrMap, r: Ref, cidrs: seq<Cidr>, fam: Family): set<nat>
    requires ValidMap(m) && NoNil(m, r, cidrs) && HasSet(m, r, fam)
  {
    Added(SetAt(m, r, fam).cfg, SetAt(m, r, fam).marks, cidrs[..LeadInRange(m, r, cidrs)])
  }

  lemma OnceTried(m: CidrMap, r: Ref, cidrs: seq<Cidr>, q: Ref, fam: Family)
    requires ValidMap(m) && NoNil(m, r, cidrs) && HasSet(m, q, fam)
    ensures var o := OccupyAll(m, r, cidrs);
            && HasSet(o.m, q, fam) && SetAt(o.m, q, fam).cfg == SetAt(m, q, fam).cfg
            && SetAt(o.m, q, fam).marks == if q == r then MarksAfterTry(m, r, cidrs, fam) else SetAt(m, q, fam).marks
  {
    hide ValidMap, OccupyAll, NoNil, Cidr.Valid;
    OccupyAllExact(m, r, cidrs, fam);
    ShapeKeeps(m, OccupyAll(m, r, cidrs).m, q);
  }

  lemma TriedAgain(m: CidrMap, r: Ref, cidrs: seq<Cidr>, fam: Family)
    requires ValidMap(m) && NoNil(m, r, cidrs) && HasSet(m, r, fam)
    ensures var m' := OccupyAll(m, r, cidrs).m;
            && HasSet(m', r, fam) && NoNil(m', r, cidrs)
            && MarksAfterTry(m', r, cidrs, fam) == MarksAfterTry(m, r, cidrs, fam) == SetAt(m', r, fam).marks
  {
    hide ValidMap, OccupyAll, SameShape, Added;
    var m' := OccupyAll(m, r, cidrs).m;
    OnceTried(m, r, cidrs, r, fam);
    LeadKept(m, m', r, cidrs);
    AddedTwice(SetAt(m, r, fam).cfg, SetAt(m, r, fam).marks, cidrs[..LeadInRange(m, r, cidrs)]);
  }

  lemma TryUnchanged(m: CidrMap, m': CidrMap, q: Ref, cidrs: seq<Cidr>, fam: Family)
    requires ValidMap(m) && ValidMap(m') && SameShape(m, m')
    requires NoNil(m, q, cidrs) && HasSet(m, q, fam) && HasSet(m', q, fam)
    requires SetAt(m', q, fam).cfg == SetAt(m, q, fam).cfg && SetAt(m', q, fam).marks == SetAt(m, q, fam).marks
    ensures NoNil(m', q, cidrs) && MarksAfterTry(m', q, cidrs, fam) == MarksAfterTry(m, q, cidrs, fam)
  {
    hide ValidMap, SameShape, Added;
    LeadKept(m, m', q, cidrs);
  }

  lemma AssociateSets(m: CidrMap, r: Ref, node: string, q: Ref, fam: Family)
    requires ValidMap(m) && InMap(m, r) && HasSet(m, q, fam)
    ensures var m' := Associate(m, r, node); HasSet(m', q, fam) && SetAt(m', q, fam) == SetAt(m, q, fam)
  {
    hide ValidMap;
  }

  /** The blocks met by the CIDRs before the first one out of range are unmarked in the ClusterCIDR at r, the node
      leaves it iff none was out of range, and nothing else changes. */
  ghost predicate ReleasedIn(m: CidrMap, o: Change, r: Ref, node: string, cidrs: seq<Cidr>, fam: Family)
    requires ValidMap(m) && ValidMap(o.m) && NoNil(m, r, cidrs)
  {
    && (o.ok <==> InRanges(m, r, cidrs))
    && (forall q :: InMap(m, q) && q != r ==> InMap(o.m, q) && At(o.m, q) == At(m, q))
    && InMap(m, r) && InMap(o.m, r)
    && At(o.m, r).nodes == At(m, r).nodes - (if o.ok then {node} else {})
    && (HasSet(m, r, fam) ==>
          && HasSet(o.m, r, fam)
          && SetAt(o.m, r, fam).marks ==
             Removed(SetAt(m, r, fam).cfg, SetAt(m, r, fam).marks, cidrs[..LeadInRange(m, r, cidrs)]))
  }

  /** ReleaseCIDR acts on the first ClusterCIDR of the list the node is associated with. The
      blocks met by the CIDRs before the first one out of its ranges are unmarked there, and exactly those; the node
      leaves it iff no CIDR was out of range; no other ClusterCIDR changes. */
  lemma ReleaseExact(m: CidrMap, list: seq<Ref>, node: string, cidrs: seq<Cidr>, fam: Family) returns (n: nat)
    requires ValidMap(m) && NoNilRelease(m, list, node, cidrs) && cidrs != []
    ensures n <= |list| && InMapAll(m, list) && forall j :: 0 <= j < n ==> node !in At(m, list[j]).nodes
    ensures n == |list| ==> ReleaseCIDR(m, list, node, cidrs) == Change(m, false)
    ensures n < |list| ==>
              && node in At(m, list[n]).nodes && AllocatedClusterCIDR(m, list, node) == Some(list[n])
              && NoNil(m, list[n], cidrs) && ReleasedIn(m, ReleaseCIDR(m, list, node, cidrs), list[n], node, cidrs, fam)
  {
    hide ValidMap, InRanges, MeetingBlocks, Cidr.Valid, ReleaseAll, NoNil, LeadInRange, Removed, SameShape, Dissociate,
      OnlyTouches;
    var home := AllocatedClusterCIDR(m, list, node);
    if home.None? {
      return |list|;
    }
    n :| 0 <= n < |list| && list[n] == home.value && FirstAssociated(m, list, node, n);
    var r, o := home.value, ReleaseAll(m, home.value, cidrs);
    ReleaseAllExact(m, r, cidrs, fam);
    TouchedOnly(m, o.m, r);
    DissociatedOnly(o.m, r, node, fam);
  }

  lemma TouchedOnly(m: CidrMap, m': CidrMap, r: Ref)
    requires OnlyTouches(m, m', r) && InMap(m, r)
    ensures InMap(m', r) && At(m', r).nodes == At(m, r).nodes
    ensures forall q :: InMap(m, q) && q != r ==> InMap(m', q) && At(m', q) == At(m, q)
  {
  }

  lemma DissociatedOnly(m: CidrMap, r: Ref, node: string, fam: Family)
    requires ValidMap(m) && InMap(m, r)
    ensures var m' := Dissociate(m, r, node);
            && InMap(m', r) && At(m', r).nodes == At(m, r).nodes - {node}
            && (forall q :: InMap(m, q) && q != r ==> InMap(m', q) && At(m', q) == At(m, q))
            && (HasSet(m, r, fam) ==> HasSet(m', r, fam) && SetAt(m', r, fam) == SetAt(m, r, fam))
  {
    hide ValidMap;
  }
}
