/** Termination of ClusterCIDRs over runs: what a terminating ClusterCIDR can still gain and lose. */
module Drain {
  import opened Cidrs
  import opened Blocks
  import opened SetSpec
  import opened AllocatorSpec
  import opened Prioritize
  import opened Assign
  import opened NodeOps
  import opened Ordering
  import opened Lifecycle
  import opened Safety

  // ---------- The termination mark ----------

  /** The entry with this key and name, if any, is terminating. */
  ghost predicate Terminating(m: CidrMap, key: string, name: string) {
    forall r :: InMap(m, r) && r.key == key && At(m, r).name == name ==> At(m, r).terminating
  }

  /** The entry with this key and name, if any, is associated with no node outside `nodes`. */
  ghost predicate NodesBounded(m: CidrMap, key: string, name: string, nodes: set<string>) {
    forall r :: InMap(m, r) && r.key == key && At(m, r).name == name ==> At(m, r).nodes <= nodes
  }

  lemma ShapeTerminating(m: CidrMap, m': CidrMap, key: string, name: string)
    requires SameShape(m, m') && Terminating(m, key, name)
    ensures Terminating(m', key, name)
  {
    forall r | InMap(m', r) && r.key == key && At(m', r).name == name
      ensures At(m', r).terminating
    {
      ShapeKeeps(m, m', r);
    }
  }

  /** What a creation or a deletion leaves under a mapped key and name was there before, but for the mark. */
  lemma CreatedBefore(m: CidrMap, ckey: string, spec: Spec, terminating: bool, q: Ref)
    requires ValidMap(m) && ValidSpec(spec)
    ensures var m' := CreateClusterCIDR(m, ckey, spec, terminating).m;
            InMap(m', q) && Mapped(m, q.key, At(m', q).name) ==> InMap(m, q) && At(m', q) == At(m, q)
  {
    hide ValidMap, ValidSpec, CC.Valid, CreateClusterCIDRSet;
  }

  lemma DeletedBefore(m: CidrMap, dkey: string, dname: string, q: Ref) returns (r: Ref)
    requires ValidMap(m) && InMap(DeleteClusterCIDR(m, dkey, dname).m, q)
    ensures var m' := DeleteClusterCIDR(m, dkey, dname).m;
            && InMap(m, r) && r.key == q.key && (At(m', q) == At(m, r) || At(m', q) == At(m, r).(terminating := true))
  {
    hide ValidMap, DeleteClusterCIDR;
    var d := DeleteClusterCIDR(m, dkey, dname);
    if d.ok {
      DeletionExact(m, dkey, dname);
      r :| InMap(m, r) && r.key == q.key && At(m, r) == At(d.m, q);
    } else {
      var t := DeletionRefused(m, dkey, dname);
      r := q;
    }
  }

  /** No event takes the termination mark off a mapped ClusterCIDR, whatever its selector. */
  lemma StepStaysTerminating(w: World, e: Event, key: string, name: string)
    requires Inv(w) && Enabled(w, e) && Terminating(w.m, key, name) && Mapped(w.m, key, name)
    ensures Terminating(Next(w, e).m, key, name)
  {
    hide ValidMap, SameShape, IsOrdering, Holds, SelfApart, Apart, AllocateNode, OccupyCIDRs, ReleaseCIDR,
      CreateClusterCIDR, DeleteClusterCIDR, FilterOutServiceRange, Mapped;
    EnabledList(w, e);
    var m' := Next(w, e).m;
    if e.ServiceEvent? {
      ServiceRangeMarked(w.m, e.cidr);
    }
    if e.CreateEvent? {
      forall q | InMap(m', q) && q.key == key && At(m', q).name == name
        ensures At(m', q).terminating
      {
        CreatedBefore(w.m, e.key, e.spec, e.terminating, q);
      }
    } else if e.DeleteEvent? && e.hasFinalizer {
      forall q | InMap(m', q) && q.key == key && At(m', q).name == name
        ensures At(m', q).terminating
      {
        var r := DeletedBefore(w.m, e.key, e.name, q);
      }
    } else {
      ShapeReflexive(w.m);
      ShapeTerminating(w.m, m', key, name);
    }
  }

  /** Terminating is permanent: through every run, for as long as the ClusterCIDR stays mapped. */
  lemma {:induction false} RunStaysTerminating(worlds: seq<World>, events: seq<Event>, t: nat, u: nat, key: string,
                                               name: string)
    requires IsRun(worlds, events) && t <= u < |worlds|
    requires forall s :: t <= s < u ==> Mapped(worlds[s].m, key, name)
    requires Terminating(worlds[t].m, key, name)
    ensures Terminating(worlds[u].m, key, name)
    decreases u
  {
    hide Enabled, Next, Inv, Terminating, Mapped;
    if t < u {
      RunStaysTerminating(worlds, events, t, u - 1, key, name);
      RunKeepsInv(worlds, events, u - 1);
      InvValid(worlds[u - 1]);
      StepStaysTerminating(worlds[u - 1], events[u - 1], key, name);
    }
  }

  lemma InvValid(w: World)
    requires Inv(w)
    ensures ValidMap(w.m)
  {
  }

  // ---------- Who gains nodes ----------

  /** The nodes of every ClusterCIDR after an allocation or occupation. */
  ghost predicate Gains(m: CidrMap, m': CidrMap, home: Option<Ref>, node: string) {
    SameShape(m, m') && forall q :: InMap(m, q) ==>
      At(m', q).nodes == At(m, q).nodes + if home == Some(q) then {node} else {}
  }

  lemma AllocateGains(m: CidrMap, list: seq<Ref>, node: string, lister: Lister, patches: seq<Patch>)
    requires ValidMap(m) && InMapAll(m, list) && patches != []
    ensures var a := AllocateNode(m, list, node, lister, patches);
            Gains(m, a.m, if a.outcome.Assigned? then a.home else None, node)
  {
    hide ValidMap, AllocateNode;
    AttemptNodes(m, list, node, lister, patches);
  }

  lemma OccupyGains(m: CidrMap, list: seq<Ref>, node: string, cidrs: seq<Cidr>)
    requires ValidMap(m) && NoNilList(m, list, cidrs)
    ensures Gains(m, OccupyCIDRs(m, list, node, cidrs).m, OccupyCIDRs(m, list, node, cidrs).home, node)
  {
    hide ValidMap, OccupyCIDRs, NoNil, InRanges, TriedCount;
    var n := OccupyFirstMeeting(m, list, node, cidrs);
  }

  lemma ReleaseLoses(m: CidrMap, list: seq<Ref>, node: string, cidrs: seq<Cidr>)
    requires ValidMap(m) && NoNilRelease(m, list, node, cidrs)
    ensures var o := ReleaseCIDR(m, list, node, cidrs);
            && SameShape(m, o.m)
            && forall q :: InMap(m, q) ==>
                 At(o.m, q).nodes == At(m, q).nodes -
                   if o.ok && cidrs != [] && AllocatedClusterCIDR(m, list, node) == Some(q) then {node} else {}
  {
    hide ValidMap, ReleaseCIDR, NoNil, InRanges, LeadInRange, Removed;
    if cidrs == [] {
      ReleaseNothing(m, list, node, cidrs);
    } else {
      var n := ReleaseExact(m, list, node, cidrs, V4);
    }
  }

  /** The ClusterCIDR is the first of the list to have room in every family when its turn comes. */
  ghost predicate FirstToFit(m: CidrMap, list: seq<Ref>, r: Ref)
    requires ValidMap(m) && InMapAll(m, list)
  {
    exists n :: 0 <= n < |list| && list[n] == r && Fits(m, list, n) && forall j :: 0 <= j < n ==> !Fits(m, list, j)
  }

  /** The ClusterCIDR is the first of the list whose ranges all the CIDRs meet. */
  ghost predicate FirstToMeet(m: CidrMap, list: seq<Ref>, cidrs: seq<Cidr>, r: Ref)
    requires ValidMap(m)
  {
    exists n :: 0 <= n < |list| && list[n] == r && NoNil(m, list[n], cidrs) && InRanges(m, list[n], cidrs)
             && forall j :: 0 <= j < n ==> NoNil(m, list[j], cidrs) && !InRanges(m, list[j], cidrs)
  }

  /** Which ClusterCIDR gains a node it did not have by an allocation, exactly: the first one with room, if the lister
      shows no CIDRs and a patch succeeds. A terminating one does so only as a catch-all. */
  lemma AllocateGainsExact(w: World, e: Event, r: Ref)
    requires ValidMap(w.m) && Enabled(w, e) && e.AllocateEvent? && InMap(w.m, r) && e.node !in At(w.m, r).nodes
    ensures InMapAll(w.m, e.list) && InMap(Next(w, e).m, r)
    ensures e.node in At(Next(w, e).m, r).nodes <==>
            e.lister == Listed([]) && PatchOk in e.patches && FirstToFit(w.m, e.list, r)
    ensures e.node in At(Next(w, e).m, r).nodes && At(w.m, r).terminating ==> r.key == DEFAULT_KEY
  {
    hide ValidMap, IsOrdering, AllocateNode, Fits, PrioritizedCIDRs, SameShape, UpdateOutcome, OnePerFamily;
    EnabledList(w, e);
    OrderingMembers(w.m, e.matcher, true, e.list);
    AllocateGains(w.m, e.list, e.node, e.lister, e.patches);
    ShapeKeeps(w.m, Next(w, e).m, r);
    var n := HomeFirstFits(w.m, e.list, e.node, e.lister, e.patches);
  }

  /** Which ClusterCIDR gains a node it did not have when the node's CIDRs are occupied, exactly: the first one whose
      ranges they all meet. A terminating one does so only as a catch-all. */
  lemma OccupyGainsExact(w: World, e: Event, r: Ref)
    requires ValidMap(w.m) && Enabled(w, e) && e.OccupyEvent? && InMap(w.m, r) && e.node !in At(w.m, r).nodes
    ensures InMap(Next(w, e).m, r)
    ensures e.node in At(Next(w, e).m, r).nodes <==> FirstToMeet(w.m, e.list, e.cidrs, r)
    ensures e.node in At(Next(w, e).m, r).nodes && At(w.m, r).terminating ==> r.key == DEFAULT_KEY
  {
    hide ValidMap, IsOrdering, OccupyCIDRs, NoNil, InRanges, SameShape, TriedCount, SelfApart, Apart, NoNilList;
    OrderingMembers(w.m, e.matcher, true, e.list);
    OccupyGains(w.m, e.list, e.node, e.cidrs);
    ShapeKeeps(w.m, Next(w, e).m, r);
    var n := OccupyFirstMeeting(w.m, e.list, e.node, e.cidrs);
  }

  /** Nodes come only with allocations and occupations, and of a terminating ClusterCIDR only if it is a catch-all
      one. */
  lemma StepDrains(w: World, e: Event, key: string, name: string, nodes: set<string>)
    requires Inv(w) && Enabled(w, e) && NodesBounded(w.m, key, name, nodes) && Mapped(w.m, key, name)
    requires e.AllocateEvent? || e.OccupyEvent? ==> key != DEFAULT_KEY && Terminating(w.m, key, name)
    ensures NodesBounded(Next(w, e).m, key, name, nodes)
  {
    hide ValidMap, SameShape, IsOrdering, Holds, SelfApart, Apart, AllocateNode, OccupyCIDRs, ReleaseCIDR,
      CreateClusterCIDR, DeleteClusterCIDR, Mapped, NoNilList, NoNilRelease;
    EnabledList(w, e);
    var m' := Next(w, e).m;
    forall q | InMap(m', q) && q.key == key && At(m', q).name == name
      ensures At(m', q).nodes <= nodes
    {
      match e
      case AllocateEvent(node, matcher, list, lister, patches) =>
        ShapeBack(w.m, m', q);
        AllocateGains(w.m, list, node, lister, patches);
        if node !in At(w.m, q).nodes {
          AllocateGainsExact(w, e, q);
        }
      case OccupyEvent(node, cidrs, matcher, list) =>
        ShapeBack(w.m, m', q);
        OccupyGains(w.m, list, node, cidrs);
        if node !in At(w.m, q).nodes {
          OccupyGainsExact(w, e, q);
        }
      case ReleaseEvent(node, cidrs, matcher, list) =>
        ReleaseLoses(w.m, list, node, cidrs);
        ShapeBack(w.m, m', q);
      case CreateEvent(ckey, spec, terminating) =>
        CreatedBefore(w.m, ckey, spec, terminating, q);
      case DeleteEvent(dkey, dname, hasFinalizer, updated) =>
        if hasFinalizer {
          var r := DeletedBefore(w.m, dkey, dname, q);
        }
      case ServiceEvent(cidr) =>
        ServiceNodes(w.m, cidr, q);
    }
  }

  lemma ServiceNodes(m: CidrMap, c: Cidr, q: Ref)
    requires ValidMap(m) && c.Valid() && AllHave(m, c.fam) && InMap(m, q)
    ensures At(FilterOutServiceRange(m, c), q).nodes == At(m, q).nodes
    ensures At(FilterOutServiceRange(m, c), q).name == At(m, q).name
  {
    hide ValidMap, CC.Valid, Occupy;
  }

  /** Drain measure: while a terminating ClusterCIDR under a selector of its own stays mapped, it stays terminating
      and its set of associated nodes only shrinks, through every run. */
  lemma {:induction false} RunDrains(worlds: seq<World>, events: seq<Event>, t: nat, u: nat, key: string,
                                     name: string, nodes: set<string>)
    requires IsRun(worlds, events) && t <= u < |worlds| && key != DEFAULT_KEY
    requires forall s :: t <= s < u ==> Mapped(worlds[s].m, key, name)
    requires Terminating(worlds[t].m, key, name) && NodesBounded(worlds[t].m, key, name, nodes)
    ensures Terminating(worlds[u].m, key, name) && NodesBounded(worlds[u].m, key, name, nodes)
    decreases u
  {
    hide Enabled, Next, Inv, Terminating, Mapped, NodesBounded;
    RunStaysTerminating(worlds, events, t, u, key, name);
    if t < u {
      RunDrains(worlds, events, t, u - 1, key, name, nodes);
      RunKeepsInv(worlds, events, u - 1);
      InvValid(worlds[u - 1]);
      StepDrains(worlds[u - 1], events[u - 1], key, name, nodes);
    }
  }

  // ---------- Unmapping ----------

  lemma ShapeMapped(m: CidrMap, m': CidrMap, key: string, name: string)
    requires SameShape(m, m') && Mapped(m, key, name)
    ensures Mapped(m', key, name)
  {
    var r :| InMap(m, r) && r.key == key && At(m, r).name == name;
    ShapeKeeps(m, m', r);
  }

  lemma DeleteUnmaps(m: CidrMap, dkey: string, dname: string, key: string, name: string)
    requires ValidMap(m) && Mapped(m, key, name) && !Mapped(DeleteClusterCIDR(m, dkey, dname).m, key, name)
    ensures dkey == key && dname == name
    ensures forall r :: InMap(m, r) && r.key == key && At(m, r).name == name ==> At(m, r).nodes == {}
  {
    hide ValidMap, DeleteClusterCIDR;
    var d := DeleteClusterCIDR(m, dkey, dname);
    var r :| InMap(m, r) && r.key == key && At(m, r).name == name;
    if d.ok {
      var q := DeletionKeeps(m, dkey, dname, r);
      DeletionExact(m, dkey, dname);
    } else {
      var t := DeletionRefused(m, dkey, dname);
    }
  }

  /** A ClusterCIDR leaves the map only through its own deletion event, and only when no node is associated with it. */
  lemma UnmappedOnlyWhenIdle(w: World, e: Event, key: string, name: string)
    requires Inv(w) && Enabled(w, e) && Mapped(w.m, key, name) && !Mapped(Next(w, e).m, key, name)
    ensures e.DeleteEvent? && e.key == key && e.name == name && e.hasFinalizer
    ensures forall r :: InMap(w.m, r) && r.key == key && At(w.m, r).name == name ==> At(w.m, r).nodes == {}
  {
    hide ValidMap, SameShape, IsOrdering, Holds, SelfApart, Apart, Mapped, AllocateNode, OccupyCIDRs, ReleaseCIDR,
      DeleteClusterCIDR, FilterOutServiceRange;
    EnabledList(w, e);
    match e
    case AllocateEvent(node, matcher, list, lister, patches) => ShapeMapped(w.m, Next(w, e).m, key, name);
    case OccupyEvent(node, cidrs, matcher, list) => ShapeMapped(w.m, Next(w, e).m, key, name);
    case ReleaseEvent(node, cidrs, matcher, list) => ShapeMapped(w.m, Next(w, e).m, key, name);
    case CreateEvent(ckey, spec, terminating) => CreateKeepsMapped(w.m, ckey, spec, terminating, key, name);
    case DeleteEvent(dkey, dname, hasFinalizer, updated) => DeleteUnmaps(w.m, dkey, dname, key, name);
    case ServiceEvent(cidr) =>
      ServiceRangeMarked(w.m, cidr);
      ShapeMapped(w.m, Next(w, e).m, key, name);
  }

  lemma CreateKeepsMapped(m: CidrMap, ckey: string, spec: Spec, terminating: bool, key: string, name: string)
    requires ValidMap(m) && ValidSpec(spec) && Mapped(m, key, name)
    ensures Mapped(CreateClusterCIDR(m, ckey, spec, terminating).m, key, name)
  {
    hide ValidMap, ValidSpec, CC.Valid;
    var r :| InMap(m, r) && r.key == key && At(m, r).name == name;
    var m' := CreateClusterCIDR(m, ckey, spec, terminating).m;
    assert InMap(m', r) && At(m', r) == At(m, r);
  }

  /** A node is never given, nor occupies, CIDRs of a terminating ClusterCIDR, unless that is a catch-all one. */
  lemma HomeNotTerminating(w: World, e: Event)
    requires ValidMap(w.m) && Enabled(w, e) && (e.AllocateEvent? || e.OccupyEvent?) && InMapAll(w.m, e.list)
    ensures e.AllocateEvent? ==>
              && e.patches != []
              && var a := AllocateNode(w.m, e.list, e.node, e.lister, e.patches);
              a.home.Some? ==>
                InMap(w.m, a.home.value) && (a.home.value.key == DEFAULT_KEY || !At(w.m, a.home.value).terminating)
    ensures e.OccupyEvent? ==>
              var o := OccupyCIDRs(w.m, e.list, e.node, e.cidrs);
              o.home.Some? ==>
                InMap(w.m, o.home.value) && (o.home.value.key == DEFAULT_KEY || !At(w.m, o.home.value).terminating)
  {
    hide ValidMap, IsOrdering, SelfApart, Apart, AllocateNode, OccupyCIDRs, SameShape, SameMarks, AllReserved,
      OnePerFamily, Holds;
    EnabledList(w, e);
    OrderingMembers(w.m, e.matcher, true, e.list);
    if e.AllocateEvent? {
      ConservationByOutcome(w.m, e.list, e.node, e.lister, e.patches);
    } else {
      OccupiedHolds(w.m, e.list, e.node, e.cidrs);
    }
  }

  // ---------- Associations left behind ----------

  /** A successful release takes the node out of one ClusterCIDR only. It leaves the node associated nowhere exactly if
      it was associated nowhere else; any other ClusterCIDR it was in cannot be deleted. */
  lemma ReleaseLeavesAssociated(m: CidrMap, list: seq<Ref>, node: string, cidrs: seq<Cidr>)
    requires ValidMap(m) && NoNilRelease(m, list, node, cidrs) && cidrs != [] && ReleaseCIDR(m, list, node, cidrs).ok
    ensures var home, o := AllocatedClusterCIDR(m, list, node), ReleaseCIDR(m, list, node, cidrs);
            && home.Some?
            && ((forall q :: InMap(o.m, q) ==> node !in At(o.m, q).nodes) <==>
                (forall q :: InMap(m, q) && node in At(m, q).nodes ==> q == home.value))
            && forall q :: InMap(m, q) && node in At(m, q).nodes && q != home.value ==>
                 InMap(o.m, q) && node in At(o.m, q).nodes && !DeleteClusterCIDR(o.m, q.key, At(m, q).name).ok
  {
    hide ValidMap, ReleaseAll, DeleteClusterCIDR, NoNil;
    var home, o := AllocatedClusterCIDR(m, list, node), ReleaseCIDR(m, list, node, cidrs);
    ReleaseLoses(m, list, node, cidrs);
    forall q | InMap(m, q) && node in At(m, q).nodes && q != home.value
      ensures InMap(o.m, q) && node in At(o.m, q).nodes && !DeleteClusterCIDR(o.m, q.key, At(m, q).name).ok
    {
      if DeleteClusterCIDR(o.m, q.key, At(m, q).name).ok {
        var q' := DeletionKeeps(o.m, q.key, At(m, q).name, q);
      }
    }
  }
}
