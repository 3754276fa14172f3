/** How long the marks of a filtered service range last, and what they prevent. */
module ServiceRange {
  import opened Cidrs
  import opened Blocks
  import opened SetSpec
  import opened AllocatorSpec
  import opened Frames
  import opened Prioritize
  import opened NodeOps
  import opened Assign
  import opened Ordering
  import opened Lifecycle
  import opened Safety
  import opened Drain
  import opened Scenarios

  /** The entry with this key and name, if any, has every block marked that meets c. */
  ghost predicate ServiceMarked(m: CidrMap, key: string, name: string, c: Cidr)
    requires ValidMap(m) && c.Valid()
  {
    forall r :: InMap(m, r) && r.key == key && At(m, r).name == name ==> EntryMarked(m, r, c)
  }

  ghost predicate EntryMarked(m: CidrMap, r: Ref, c: Cidr)
    requires ValidMap(m) && c.Valid()
  {
    HasSet(m, r, c.fam) && MeetingBlocks(SetAt(m, r, c.fam).cfg, c) <= SetAt(m, r, c.fam).marks
  }

  /** The CIDR meets c, or is part of a block of which c is a part too. */
  predicate SharesWith(cfg: Config, x: Cidr, c: Cidr)
    requires cfg.nodeMask <= cfg.Fam().Width() && x.Valid() && c.Valid()
  {
    Meets(x, c) || PartsOfOneBlock(cfg, x, c)
  }

  /** The release concerns this entry, and one of the CIDRs it frees there shares a block with c. */
  ghost predicate FreesService(m: CidrMap, list: seq<Ref>, node: string, cidrs: seq<Cidr>, key: string, name: string,
                               c: Cidr)
    requires ValidMap(m) && NoNilRelease(m, list, node, cidrs) && c.Valid()
  {
    var home := AllocatedClusterCIDR(m, list, node);
    && home.Some? && home.value.key == key && At(m, home.value).name == name && HasSet(m, home.value, c.fam)
    && FreesWithin(m, home.value, cidrs, c)
  }

  /** Releasing CIDRs of the range keeps the marks of c iff none of them shares a block with it. */
  lemma RemovedKeeps(cfg: Config, marks: set<nat>, cidrs: seq<Cidr>, c: Cidr)
    requires cfg.Valid() && c.Valid() && c.fam == cfg.Fam() && MeetingBlocks(cfg, c) <= marks
    requires forall j :: 0 <= j < |cidrs| ==>
      cidrs[j].Valid() && (cidrs[j].fam == cfg.Fam() ==> Meets(cfg.cluster, cidrs[j]))
    ensures MeetingBlocks(cfg, c) <= Removed(cfg, marks, cidrs) <==>
            !(&& Meets(cfg.cluster, c)
              && exists j :: 0 <= j < |cidrs| && cidrs[j].fam == c.fam && SharesWith(cfg, cidrs[j], c))
  {
    hide Meets, PartsOfOneBlock, Removed, Bits.Pow2, Bits.And, MeetingBlocks;
    if !Meets(cfg.cluster, c) {
      MissesNoBlock(cfg, c);
    } else {
      forall j | 0 <= j < |cidrs| && cidrs[j].fam == c.fam
        ensures MeetingBlocks(cfg, cidrs[j]) !! MeetingBlocks(cfg, c) <==> !SharesWith(cfg, cidrs[j], c)
      {
        NoCommonBlock(cfg, cidrs[j], c);
      }
      if j :| 0 <= j < |cidrs| && cidrs[j].fam == c.fam && SharesWith(cfg, cidrs[j], c) {
        var i: nat :| i in MeetingBlocks(cfg, cidrs[j]) && i in MeetingBlocks(cfg, c);
        RemovedMember(cfg, marks, cidrs, i);
      } else {
        forall i | i in MeetingBlocks(cfg, c)
          ensures i in Removed(cfg, marks, cidrs)
        {
          RemovedMember(cfg, marks, cidrs, i);
        }
      }
    }
  }

  lemma ReleaseService(m: CidrMap, list: seq<Ref>, node: string, cidrs: seq<Cidr>, key: string, name: string, c: Cidr)
    requires ValidMap(m) && NoNilRelease(m, list, node, cidrs) && c.Valid() && ServiceMarked(m, key, name, c)
    ensures ServiceMarked(ReleaseCIDR(m, list, node, cidrs).m, key, name, c) <==>
      !FreesService(m, list, node, cidrs, key, name, c)
  {
    hide ValidMap, ReleaseCIDR, EntryMarked, FreesWithin, InRanges, Removed, LeadInRange, SameShape, Cidr.Valid;
    if !ReleasesAny(m, list, node, cidrs) {
      ReleaseNothing(m, list, node, cidrs);
      if cidrs == [] && AllocatedClusterCIDR(m, list, node).Some? {
        NothingFreed(m, AllocatedClusterCIDR(m, list, node).value, c);
      }
    } else {
      var r, o := AllocatedClusterCIDR(m, list, node).value, ReleaseCIDR(m, list, node, cidrs);
      var n := ReleaseExact(m, list, node, cidrs, c.fam);
      ShapeKeeps(m, o.m, r);
      if r.key == key && At(m, r).name == name {
        MarkedHasSet(m, r, c);
        ReleasedEntry(m, o.m, r, cidrs, c);
      }
      forall q | InMap(o.m, q)
        ensures InMap(m, q) && At(o.m, q).name == At(m, q).name
        ensures q != r ==> (EntryMarked(o.m, q, c) <==> EntryMarked(m, q, c))
      {
        ShapeBack(m, o.m, q);
        if q != r {
          SameEntry(m, o.m, q, c);
        }
      }
    }
  }

  lemma MarkedHasSet(m: CidrMap, r: Ref, c: Cidr)
    requires ValidMap(m) && c.Valid() && EntryMarked(m, r, c)
    ensures HasSet(m, r, c.fam)
  {
  }

  lemma SameEntry(m: CidrMap, m': CidrMap, q: Ref, c: Cidr)
    requires ValidMap(m) && ValidMap(m') && c.Valid() && InMap(m, q) && InMap(m', q) && At(m', q) == At(m, q)
    ensures EntryMarked(m', q, c) <==> EntryMarked(m, q, c)
  {
    hide ValidMap, MeetingBlocks, Cidr.Valid;
  }

  lemma NothingFreed(m: CidrMap, r: Ref, c: Cidr)
    requires ValidMap(m) && c.Valid() && InMap(m, r) && NoNil(m, r, [])
    ensures HasSet(m, r, c.fam) ==> !FreesWithin(m, r, [], c)
  {
  }

  /** One of the CIDRs before the first out of range shares a block with c in the set at r. */
  ghost predicate FreesWithin(m: CidrMap, r: Ref, cidrs: seq<Cidr>, c: Cidr)
    requires ValidMap(m) && c.Valid() && HasSet(m, r, c.fam) && NoNil(m, r, cidrs)
  {
    var cfg := SetAt(m, r, c.fam).cfg;
    && Meets(cfg.cluster, c)
    && exists j :: 0 <= j < LeadInRange(m, r, cidrs) && cidrs[j].fam == c.fam && SharesWith(cfg, cidrs[j], c)
  }

  lemma ReleasedEntry(m: CidrMap, m': CidrMap, r: Ref, cidrs: seq<Cidr>, c: Cidr)
    requires ValidMap(m) && ValidMap(m') && SameShape(m, m') && c.Valid() && NoNil(m, r, cidrs) && EntryMarked(m, r, c)
    requires HasSet(m', r, c.fam) && SetAt(m', r, c.fam).marks ==
               Removed(SetAt(m, r, c.fam).cfg, SetAt(m, r, c.fam).marks, cidrs[..LeadInRange(m, r, cidrs)])
    ensures EntryMarked(m', r, c) <==> !FreesWithin(m, r, cidrs, c)
  {
    hide ValidMap, Meets, MeetingBlocks, SharesWith, InRanges, Removed, Cidr.Valid, SameShape;
    ShapeKeeps(m, m', r);
    var s, cut := SetAt(m, r, c.fam), cidrs[..LeadInRange(m, r, cidrs)];
    RemovedKeeps(s.cfg, s.marks, cut, c);
    assert (exists j :: 0 <= j < |cut| && cut[j].fam == c.fam && SharesWith(s.cfg, cut[j], c)) <==>
           (exists j :: 0 <= j < LeadInRange(m, r, cidrs) && cidrs[j].fam == c.fam && SharesWith(s.cfg, cidrs[j], c));
  }

  lemma FrameService(m: CidrMap, m': CidrMap, key: string, name: string, c: Cidr)
    requires ValidMap(m) && ValidMap(m') && Frame(m, m', {}, {}) && c.Valid() && ServiceMarked(m, key, name, c)
    ensures ServiceMarked(m', key, name, c)
  {
    hide ValidMap, MeetingBlocks, Cidr.Valid, CC.Valid;
    forall r | InMap(m', r) && r.key == key && At(m', r).name == name
      ensures EntryMarked(m', r, c)
    {
      ShapeBack(m, m', r);
      MarksKept(m, m', r, c.fam);
    }
  }

  /** The event frees a block that meets c. */
  ghost predicate FreesAt(w: World, e: Event, key: string, name: string, c: Cidr)
    requires ValidMap(w.m) && Enabled(w, e) && c.Valid()
  {
    e.ReleaseEvent? && FreesService(w.m, e.list, e.node, e.cidrs, key, name, c)
  }

  /** The marks of the service range survive every event but exactly a release that shares a block with it. */
  lemma StepServiceMarked(w: World, e: Event, key: string, name: string, c: Cidr)
    requires Inv(w) && Enabled(w, e) && c.Valid() && Mapped(w.m, key, name) && ServiceMarked(w.m, key, name, c)
    ensures ValidMap(Next(w, e).m)
    ensures ServiceMarked(Next(w, e).m, key, name, c) <==> !FreesAt(w, e, key, name, c)
  {
    hide ValidMap, Cidr.Valid, SameShape, Frame, IsOrdering, Holds, SelfApart, Apart, AllocateNode, OccupyCIDRs,
      ReleaseCIDR, CreateClusterCIDR, DeleteClusterCIDR, FilterOutServiceRange, Mapped, MeetingBlocks, FreesService,
      NoNilList, NoNilRelease;
    StepKeepsInv(w, e);
    EnabledList(w, e);
    var m' := Next(w, e).m;
    match e
    case AllocateEvent(node, matcher, list, lister, patches) =>
      AttemptKeepsMarks(w.m, list, node, lister, patches);
      FrameService(w.m, m', key, name, c);
    case OccupyEvent(node, cidrs, matcher, list) =>
      OccupyCIDRsFrame(w.m, list, node, cidrs);
      FrameService(w.m, m', key, name, c);
    case ReleaseEvent(node, cidrs, matcher, list) =>
      ReleaseService(w.m, list, node, cidrs, key, name, c);
    case CreateEvent(ckey, spec, terminating) =>
      CreateService(w.m, ckey, spec, terminating, key, name, c);
    case DeleteEvent(dkey, dname, hasFinalizer, updated) =>
      if hasFinalizer {
        DeleteService(w.m, dkey, dname, key, name, c);
      }
    case ServiceEvent(cidr) =>
      ServiceRangeMarked(w.m, cidr);
      FrameService(w.m, m', key, name, c);
  }

  lemma CreateService(m: CidrMap, ckey: string, spec: Spec, terminating: bool, key: string, name: string, c: Cidr)
    requires ValidMap(m) && ValidSpec(spec) && c.Valid() && Mapped(m, key, name) && ServiceMarked(m, key, name, c)
    ensures ServiceMarked(CreateClusterCIDR(m, ckey, spec, terminating).m, key, name, c)
  {
    hide ValidMap, Cidr.Valid, ValidSpec, CreateClusterCIDR, MeetingBlocks, Mapped;
    var m' := CreateClusterCIDR(m, ckey, spec, terminating).m;
    forall q | InMap(m', q) && q.key == key && At(m', q).name == name
      ensures EntryMarked(m', q, c)
    {
      CreatedBefore(m, ckey, spec, terminating, q);
    }
  }

  lemma DeleteService(m: CidrMap, dkey: string, dname: string, key: string, name: string, c: Cidr)
    requires ValidMap(m) && c.Valid() && ServiceMarked(m, key, name, c)
    ensures ValidMap(DeleteClusterCIDR(m, dkey, dname).m)
    ensures ServiceMarked(DeleteClusterCIDR(m, dkey, dname).m, key, name, c)
  {
    hide ValidMap, Cidr.Valid, DeleteClusterCIDR, MeetingBlocks;
    DeletedValid(m, dkey, dname);
    var m' := DeleteClusterCIDR(m, dkey, dname).m;
    forall q | InMap(m', q) && q.key == key && At(m', q).name == name
      ensures EntryMarked(m', q, c)
    {
      var r := DeletedBefore(m, dkey, dname, q);
    }
  }

  // ---------- Runs ----------

  /** The ClusterCIDR was mapped when c was filtered at event t, stays mapped up to world u, and no release in between
      shares a block with c there. */
  ghost predicate Undisturbed(worlds: seq<World>, events: seq<Event>, t: nat, u: nat, key: string, name: string,
                              c: Cidr) {
    && IsRun(worlds, events) && t < u < |worlds| && events[t] == ServiceEvent(c) && c.Valid()
    && (forall s :: t <= s < u ==> Mapped(worlds[s].m, key, name))
    && (forall s :: t < s < u && ValidMap(worlds[s].m) && Enabled(worlds[s], events[s]) ==>
          !FreesAt(worlds[s], events[s], key, name, c))
  }

  lemma {:induction false} ServiceMarksLast(worlds: seq<World>, events: seq<Event>, t: nat, u: nat, key: string,
                                            name: string, c: Cidr)
    requires Undisturbed(worlds, events, t, u, key, name, c)
    ensures Inv(worlds[u]) && ServiceMarked(worlds[u].m, key, name, c)
    decreases u
  {
    hide Enabled, Next, ServiceMarked, FreesAt, Mapped, Cidr.Valid;
    RunKeepsInv(worlds, events, u);
    RunKeepsInv(worlds, events, u - 1);
    if u == t + 1 {
      Filtered(worlds[t], c, key, name);
    } else {
      ServiceMarksLast(worlds, events, t, u - 1, key, name, c);
      StepServiceMarked(worlds[u - 1], events[u - 1], key, name, c);
    }
  }

  lemma Filtered(w: World, c: Cidr, key: string, name: string)
    requires Inv(w) && Enabled(w, ServiceEvent(c))
    ensures ValidMap(Next(w, ServiceEvent(c)).m) && ServiceMarked(Next(w, ServiceEvent(c)).m, key, name, c)
  {
    hide ValidMap, Cidr.Valid, FilterOutServiceRange, MeetingBlocks;
    ServiceRangeMarked(w.m, c);
  }

  /** From the filtering on, through every run, until the filtered ClusterCIDR is unmapped or a release there shares a
      block with the service range: no node is given, out of whatever ClusterCIDR, an address that lies both in the
      service range and in the range of the filtered one; out of that one, no block that meets the service range. */
  lemma ServiceRangeExcluded(worlds: seq<World>, events: seq<Event>, t: nat, u: nat, key: string, name: string, c: Cidr,
                             e: Event, r: Ref, j: nat)
    requires u < |worlds| && Undisturbed(worlds, events, t, u, key, name, c)
    requires ValidMap(worlds[u].m) && Enabled(worlds[u], e) && e.AllocateEvent?
    requires InMapAll(worlds[u].m, e.list) && e.patches != []
    requires InMap(worlds[u].m, r) && r.key == key && At(worlds[u].m, r).name == name
    requires var a := AllocateNode(worlds[u].m, e.list, e.node, e.lister, e.patches); j < |a.cidrs| && a.home.Some?
    ensures var a := AllocateNode(worlds[u].m, e.list, e.node, e.lister, e.patches);
            var d := a.cidrs[j];
            && c.Valid() && d.Valid() && HasSet(worlds[u].m, r, c.fam)
            && (forall ip: nat :: d.fam == c.fam && d.Has(ip) && c.Has(ip) ==>
                  !SetAt(worlds[u].m, r, c.fam).cfg.cluster.Has(ip))
            && (a.home == Some(r) ==> !Meets(d, c))
  {
    hide Undisturbed, ValidMap, Enabled, AllocateNode, PrioritizedCIDRs, Reserved, OnePerFamily, Meets,
      MeetingBlocks, EntryMarked, Bits.Pow2;
    var m := worlds[u].m;
    FilteredCidr(worlds, events, t, u, key, name, c);
    ServiceMarksLast(worlds, events, t, u, key, name, c);
    MarkedHasSet(m, r, c);
    AttemptReservation(m, e.list, e.node, e.lister, e.patches);
    var a, p := AllocateNode(m, e.list, e.node, e.lister, e.patches), PrioritizedCIDRs(m, e.list);
    var d := a.cidrs[j];
    ReservedWasFree(m, p.m, a.home.value, d);
    forall ip: nat | d.fam == c.fam && d.Has(ip) && c.Has(ip)
      ensures !SetAt(m, r, c.fam).cfg.cluster.Has(ip)
    {
      if SetAt(m, r, c.fam).cfg.cluster.Has(ip) {
        TakenAddress(m, r, c, d, ip);
      }
    }
    if a.home == Some(r) {
      ReservedInside(m, p.m, r, d);
      MeetsIffShared(d, c);
      if Meets(d, c) {
        var ip: nat :| d.Has(ip) && c.Has(ip);
        InsideIffSubset(d, SetAt(m, r, c.fam).cfg.cluster);
      }
    }
  }

  /** What holds an address of both ranges overlaps a marked block. */
  lemma TakenAddress(m: CidrMap, r: Ref, c: Cidr, d: Cidr, ip: nat)
    requires ValidMap(m) && c.Valid() && d.Valid() && EntryMarked(m, r, c) && d.fam == c.fam
    requires d.Has(ip) && c.Has(ip) && SetAt(m, r, c.fam).cfg.cluster.Has(ip)
    ensures OverlapsAllocatedList(m, d)
  {
    hide ValidMap, Bits.Pow2;
    var s := SetAt(m, r, c.fam);
    Tiling(s.cfg, ip);
    var i := BlockOf(s.cfg, ip);
    assert i in MeetingBlocks(s.cfg, c);
    assert Meets(s.cfg.Block(i), d);
    assert MeetsMarked(SetAt(m, r, d.fam), d);
  }

  lemma FilteredCidr(worlds: seq<World>, events: seq<Event>, t: nat, u: nat, key: string, name: string, c: Cidr)
    requires Undisturbed(worlds, events, t, u, key, name, c)
    ensures c.Valid()
  {
  }

  /** The first of the CIDRs meets c. */
  predicate MeetsFirst(cidrs: seq<Cidr>, c: Cidr)
    requires c.Valid()
  {
    cidrs != [] && cidrs[0].Valid() && Meets(cidrs[0], c)
  }

  /** Filtering is not repeated: a ClusterCIDR created afterwards, here one whose IPv4 range lies in the service range,
      hands out blocks of it. */
  lemma LateRangeServesService(spec: Spec, c: Cidr, matcher: Matcher, node: string, patches: seq<Patch>)
    returns (worlds: seq<World>, events: seq<Event>)
    requires Usable(spec) && matcher(DEFAULT_KEY) == NoMatch && |patches| == CIDR_UPDATE_RETRIES && PatchOk in patches
    requires c.Valid() && spec.v4.Some? && spec.v4.value.Valid() && Inside(spec.v4.value, c)
    ensures IsRun(worlds, events) && |worlds| == 4 && events[0] == ServiceEvent(c)
    ensures exists a :: a in worlds[3].claims && a.live && a.node == node && MeetsFirst(a.cidrs, c)
  {
    hide Usable, ValidMap, AllocateNode, Enabled, Next, FirstMap, DefaultRefs, Inv, Inside, Meets, Cidr.Valid;
    var m := FirstMap(spec, false);
    FirstCreated(spec, false);
    FilterNothing(c);
    var d := FirstBlockServed(spec, matcher, node, patches);
    InsideMeets(d, spec.v4.value, c);
    var w, e := World(m, {}), FirstAttempt(m, matcher, node, patches);
    worlds, events := [NOTHING, NOTHING, w, Next(w, e)], [ServiceEvent(c), FirstCreation(spec, false), e];
  }

  lemma FilterNothing(c: Cidr)
    requires c.Valid()
    ensures ValidMap(NOTHING.m) && Enabled(NOTHING, ServiceEvent(c)) && Next(NOTHING, ServiceEvent(c)) == NOTHING
  {
    assert FilterOutServiceRange(map[], c) == map[];
  }

  /** The first node served from an IPv4 range gets a block of it. */
  lemma FirstBlockServed(spec: Spec, matcher: Matcher, node: string, patches: seq<Patch>) returns (d: Cidr)
    requires Usable(spec) && matcher(DEFAULT_KEY) == NoMatch && |patches| == CIDR_UPDATE_RETRIES && PatchOk in patches
    requires spec.v4.Some? && spec.v4.value.Valid()
    ensures var w := World(FirstMap(spec, false), {});
            var e := FirstAttempt(w.m, matcher, node, patches);
            && ValidMap(w.m) && Enabled(w, e) && d.Valid() && Inside(d, spec.v4.value)
            && exists a :: a in Next(w, e).claims && a.live && a.node == node && a.cidrs != [] && a.cidrs[0] == d
  {
    hide Usable, ValidMap, AllocateNode, IsOrdering, FamiliesEligible, DefaultRefs, UpdateOutcome, PrioritizedCIDRs,
      FirstMap, Inside, Cidr.Valid, Reserved;
    var m := FirstMap(spec, false);
    FirstMapFacts(spec, false);
    DefaultServes(m, matcher, node, Listed([]), patches);
    var w, e := World(m, {}), FirstAttempt(m, matcher, node, patches);
    var a := AllocateNode(m, DefaultRefs(m), node, Listed([]), patches);
    AssignedIff(a.cidrs, Listed([]), patches);
    AttemptReservation(m, DefaultRefs(m), node, Listed([]), patches);
    d := a.cidrs[0];
    assert d.fam == V4;
    ReservedInside(m, PrioritizedCIDRs(m, DefaultRefs(m)).m, FIRST, d);
    BuiltRange(spec, false);
    FirstEntry(spec, false);
    assert NewClaim(m, FIRST, node, a.cidrs, true) in Next(w, e).claims;
  }
}
