/** The CIDRs nodes really hold, and when the allocator keeps track of them.

The world of `Safety` holds what the allocator has promised. Here the podCIDRs
that the API server stores for each node are added: a patch that timed out or
failed may have been applied or not, unseen by the allocator. When the controller
starts, nodes may hold CIDRs already; they wait to be occupied. The podCIDRs of
all other nodes stay disjoint as long as they are claimed, and each event that
ends this is named.
 */
module PodCidrs {
  import opened Cidrs
  import opened Blocks
  import opened SetSpec
  import opened AllocatorSpec
  import opened Prioritize
  import opened Assign
  import opened Ordering
  import opened Lifecycle
  import opened Safety
  import opened Scenarios

  /** The allocator's world, and the podCIDRs of the nodes that are not being deleted. */
  datatype PodWorld = PodWorld(w: World, pods: map<string, seq<Cidr>>)

  /** `applied` says whether a patch that was not confirmed was applied all the same. */
  datatype PodEvent = PodEvent(e: Event, applied: bool)

  /** A patch is sent only if the lister shows no CIDRs; a node whose CIDRs are occupied holds them. */
  ghost predicate PodEnabled(p: PodWorld, pe: PodEvent)
    requires ValidMap(p.w.m)
  {
    && Enabled(p.w, pe.e)
    && (pe.applied ==> pe.e.AllocateEvent? && pe.e.lister == Listed([]))
    && (pe.e.OccupyEvent? && pe.e.node in p.pods ==> p.pods[pe.e.node] == pe.e.cidrs)
  }

  ghost function NextPods(p: PodWorld, pe: PodEvent): map<string, seq<Cidr>>
    requires ValidMap(p.w.m) && PodEnabled(p, pe)
  {
    EnabledList(p.w, pe.e);
    match pe.e
    case AllocateEvent(node, matcher, list, lister, patches) =>
      var a := AllocateNode(p.w.m, list, node, lister, patches);
      if a.home.Some? && (a.outcome.Assigned? || pe.applied) then p.pods[node := a.cidrs] else p.pods
    case OccupyEvent(node, cidrs, matcher, list) => p.pods[node := cidrs]
    case ReleaseEvent(node, cidrs, matcher, list) => p.pods - {node}
    case _ => p.pods
  }

  ghost function NextPod(p: PodWorld, pe: PodEvent): PodWorld
    requires ValidMap(p.w.m) && PodEnabled(p, pe)
  {
    PodWorld(Next(p.w, pe.e), NextPods(p, pe))
  }

  /** A node's CIDRs are promised to it. */
  ghost predicate Claimed(w: World, node: string, cidrs: seq<Cidr>) {
    exists a :: a in w.claims && a.node == node && a.cidrs == cidrs
  }

  /** All podCIDRs are promised to the nodes that hold them, except for nodes still waiting. */
  ghost predicate Tracked(p: PodWorld, waiting: set<string>) {
    forall n :: n in p.pods && n !in waiting ==> p.pods[n] != [] && Claimed(p.w, n, p.pods[n])
  }

  /** The attempt puts CIDRs on the node. */
  ghost predicate Lands(p: PodWorld, pe: PodEvent)
    requires ValidMap(p.w.m) && PodEnabled(p, pe) && pe.e.AllocateEvent?
  {
    EnabledList(p.w, pe.e);
    var a := AllocateNode(p.w.m, pe.e.list, pe.e.node, pe.e.lister, pe.e.patches);
    a.home.Some? && (a.outcome.Assigned? || pe.applied)
  }

  /** A node waits until its CIDRs are occupied or replaced, or until it is released. */
  ghost function NextWaiting(p: PodWorld, pe: PodEvent, waiting: set<string>): set<string>
    requires ValidMap(p.w.m) && PodEnabled(p, pe)
  {
    match pe.e
    case AllocateEvent(node, matcher, list, lister, patches) => if Lands(p, pe) then waiting - {node} else waiting
    case OccupyEvent(node, cidrs, matcher, list) => waiting - {node}
    case ReleaseEvent(node, cidrs, matcher, list) => waiting - {node}
    case _ => waiting
  }

  /** The ClusterCIDR that takes the CIDRs, if any, is made of blocks of which they are whole ones. */
  ghost predicate Fitting(m: CidrMap, home: Option<Ref>, cidrs: seq<Cidr>)
    requires ValidMap(m)
  {
    home.Some? && SuitsAll(m, home.value, cidrs)
  }

  /** The events after which a node holds CIDRs that are not promised to it: a patch was applied unseen and the last
      attempt failed with another error than a timeout; no ClusterCIDR takes the CIDRs a node brings along, or they are
      not whole blocks of the one that does; the ClusterCIDR of a patch that was applied unseen is deleted, having no
      node. */
  ghost predicate Untracks(p: PodWorld, pe: PodEvent, waiting: set<string>)
    requires ValidMap(p.w.m) && PodEnabled(p, pe)
  {
    match pe.e
    case AllocateEvent(node, matcher, list, lister, patches) =>
      && pe.applied && PatchOk !in patches && patches[|patches| - 1] == PatchFailed
      && InMapAll(p.w.m, list) && exists n :: 0 <= n < |list| && Fits(p.w.m, list, n)
    case OccupyEvent(node, cidrs, matcher, list) =>
      !Fitting(p.w.m, OccupyCIDRs(p.w.m, list, node, cidrs).home, cidrs) && !Claimed(p.w, node, cidrs)
    case DeleteEvent(key, name, hasFinalizer, updated) =>
      && hasFinalizer
      && (forall r :: InMap(p.w.m, r) && r.key == key && At(p.w.m, r).name == name ==> At(p.w.m, r).nodes == {})
      && exists a :: a in p.w.claims && a.key == key && a.name == name && HeldUnseen(p, a) && a.node !in waiting
    case _ => false
  }

  /** The claim is pending, but the node really holds its CIDRs. */
  ghost predicate HeldUnseen(p: PodWorld, a: Claim) {
    !a.live && a.node in p.pods && p.pods[a.node] == a.cidrs
  }

  // ---------- One event ----------

  /** No CIDRs are apart from themselves. */
  lemma ApartFromItself(x: seq<Cidr>)
    requires x != []
    ensures !Apart(x, x)
  {
    assert !Clear(x[0], x[0]);
  }

  /** An attempt on a lister without CIDRs gives its blocks back iff no patch succeeded and the last one failed. */
  lemma GivesBackIff(m: CidrMap, list: seq<Ref>, node: string, patches: seq<Patch>)
    requires ValidMap(m) && InMapAll(m, list) && patches != []
    ensures var a := AllocateNode(m, list, node, Listed([]), patches);
            && (a.home.Some? <==> exists n :: 0 <= n < |list| && Fits(m, list, n))
            && (GivesBack(a.outcome) <==> a.home.Some? && PatchOk !in patches && patches[|patches| - 1] == PatchFailed)
  {
    hide ValidMap, AllocateNode, Fits;
    var a := AllocateNode(m, list, node, Listed([]), patches);
    GivesBackHome(m, list, node, Listed([]), patches);
    PatchResultValue(patches);
    var n := HomeFirstFits(m, list, node, Listed([]), patches);
  }

  lemma AllocateTracks(p: PodWorld, pe: PodEvent, waiting: set<string>)
    requires Inv(p.w) && PodEnabled(p, pe) && Tracked(p, waiting) && pe.e.AllocateEvent?
    ensures Tracked(NextPod(p, pe), NextWaiting(p, pe, waiting)) <==> !Untracks(p, pe, waiting)
  {
    hide ValidMap, IsOrdering, Holds, SelfApart, Apart, AllocateNode, Fits, SameShape, SameMarks, Reserved, Claimed,
      PrioritizedCIDRs;
    var e := pe.e;
    EnabledList(p.w, e);
    var a, p' := AllocateNode(p.w.m, e.list, e.node, e.lister, e.patches), NextPod(p, pe);
    GivesBackHome(p.w.m, e.list, e.node, e.lister, e.patches);
    forall n | n in p.pods && n !in waiting
      ensures Claimed(p'.w, n, p.pods[n])
    {
      ClaimedMore(p.w, p'.w, n, p.pods[n]);
    }
    if pe.applied {
      GivesBackIff(p.w.m, e.list, e.node, e.patches);
    }
    if a.home.Some? && (a.outcome.Assigned? || pe.applied) {
      if GivesBack(a.outcome) {
        AttemptReservation(p.w.m, e.list, e.node, e.lister, e.patches);
        ReservationApart(p.w, PrioritizedCIDRs(p.w.m, e.list).m, a.home.value, a.cidrs);
        assert p'.w.claims == p.w.claims && p'.pods[e.node] == a.cidrs;
        NotClaimed(p'.w, e.node, a.cidrs);
      } else {
        ConservationByOutcome(p.w.m, e.list, e.node, e.lister, e.patches);
        assert NewClaim(p.w.m, a.home.value, e.node, a.cidrs, a.outcome.Assigned?) in p'.w.claims;
        ClaimMakes(p'.w, NewClaim(p.w.m, a.home.value, e.node, a.cidrs, a.outcome.Assigned?));
      }
    }
  }

  lemma ClaimMakes(w: World, a: Claim)
    requires a in w.claims
    ensures Claimed(w, a.node, a.cidrs)
  {
  }

  lemma ClaimedMore(w: World, w': World, node: string, cidrs: seq<Cidr>)
    requires w.claims <= w'.claims && Claimed(w, node, cidrs)
    ensures Claimed(w', node, cidrs)
  {
  }

  lemma NotClaimed(w: World, node: string, cidrs: seq<Cidr>)
    requires cidrs != [] && forall a :: a in w.claims ==> Apart(a.cidrs, cidrs)
    ensures !Claimed(w, node, cidrs)
  {
    hide Apart;
    if Claimed(w, node, cidrs) {
      ApartFromItself(cidrs);
    }
  }

  lemma OccupyTracks(p: PodWorld, pe: PodEvent, waiting: set<string>)
    requires Inv(p.w) && PodEnabled(p, pe) && Tracked(p, waiting) && pe.e.OccupyEvent?
    ensures Tracked(NextPod(p, pe), NextWaiting(p, pe, waiting)) <==> !Untracks(p, pe, waiting)
  {
    hide ValidMap, IsOrdering, Holds, SelfApart, Apart, OccupyCIDRs, SuitsAll, NoNilList;
    var e, p' := pe.e, NextPod(p, pe);
    var o := OccupyCIDRs(p.w.m, e.list, e.node, e.cidrs);
    EnabledHome(p.w, e);
    if Fitting(p.w.m, o.home, e.cidrs) && !HasLive(p.w, e.node, e.cidrs) {
      assert NewClaim(p.w.m, o.home.value, e.node, e.cidrs, true) in p'.w.claims;
    } else {
      assert p'.w.claims == p.w.claims && p'.pods[e.node] == e.cidrs;
    }
  }

  lemma DeleteTracks(p: PodWorld, pe: PodEvent, waiting: set<string>)
    requires Inv(p.w) && PodEnabled(p, pe) && Tracked(p, waiting) && pe.e.DeleteEvent?
    ensures Tracked(NextPod(p, pe), NextWaiting(p, pe, waiting)) <==> !Untracks(p, pe, waiting)
  {
    hide ValidMap, Holds, SelfApart, Apart, DeleteClusterCIDR;
    var e, p' := pe.e, NextPod(p, pe);
    if Untracks(p, pe, waiting) {
      var a :| a in p.w.claims && a.key == e.key && a.name == e.name && HeldUnseen(p, a) && a.node !in waiting;
      PendingClaimLost(p.w, e, a);
      OnlyClaim(p.w, p'.w, a);
    } else {
      forall n | n in p.pods && n !in waiting
        ensures Claimed(p'.w, n, p.pods[n])
      {
        var a :| a in p.w.claims && a.node == n && a.cidrs == p.pods[n];
        if !a.live {
          PendingClaimLost(p.w, e, a);
        }
        assert a in p'.w.claims;
      }
    }
  }

  /** With its claim, a node loses the promise of its CIDRs. */
  lemma OnlyClaim(w: World, w': World, a: Claim)
    requires Inv(w) && w'.claims <= w.claims && a in w.claims && a !in w'.claims && a.cidrs != []
    ensures !Claimed(w', a.node, a.cidrs)
  {
    hide ValidMap, Holds, SelfApart, Apart;
    if Claimed(w', a.node, a.cidrs) {
      var b :| b in w'.claims && b.node == a.node && b.cidrs == a.cidrs;
      ApartFromItself(a.cidrs);
    }
  }

  /** Every event keeps all podCIDRs promised to the nodes that hold them, except exactly what `Untracks` lists. */
  lemma StepTracks(p: PodWorld, pe: PodEvent, waiting: set<string>)
    requires Inv(p.w) && PodEnabled(p, pe) && Tracked(p, waiting)
    ensures Inv(NextPod(p, pe).w)
    ensures Tracked(NextPod(p, pe), NextWaiting(p, pe, waiting)) <==> !Untracks(p, pe, waiting)
  {
    hide ValidMap, IsOrdering, Holds, SelfApart, Apart, AllocateNode, OccupyCIDRs, ReleaseCIDR, DeleteClusterCIDR,
      CreateClusterCIDR, FilterOutServiceRange, NoNilList, NoNilRelease;
    StepKeepsInv(p.w, pe.e);
    match pe.e
    case AllocateEvent(node, matcher, list, lister, patches) => AllocateTracks(p, pe, waiting);
    case OccupyEvent(node, cidrs, matcher, list) => OccupyTracks(p, pe, waiting);
    case DeleteEvent(key, name, hasFinalizer, updated) => DeleteTracks(p, pe, waiting);
    case ReleaseEvent(node, cidrs, matcher, list) => ReleaseTracks(p, pe, waiting);
    case _ =>
  }

  lemma ReleaseTracks(p: PodWorld, pe: PodEvent, waiting: set<string>)
    requires Inv(p.w) && PodEnabled(p, pe) && Tracked(p, waiting) && pe.e.ReleaseEvent?
    ensures Tracked(NextPod(p, pe), NextWaiting(p, pe, waiting))
  {
    hide ValidMap, IsOrdering, Holds, SelfApart, Apart, ReleaseCIDR, NoNilRelease;
    var p' := NextPod(p, pe);
    forall n | n in p'.pods && n !in waiting
      ensures Claimed(p'.w, n, p.pods[n])
    {
      var a :| a in p.w.claims && a.node == n && a.cidrs == p.pods[n];
      assert a in p'.w.claims;
    }
  }

  // ---------- Runs ----------

  /** The controller starts with nothing mapped, whatever CIDRs the nodes hold already. */
  ghost predicate IsPodRun(worlds: seq<PodWorld>, events: seq<PodEvent>) {
    && |worlds| == |events| + 1
    && worlds[0].w == NOTHING
    && (forall t :: 0 <= t < |events| && ValidMap(worlds[t].w.m) ==>
          PodEnabled(worlds[t], events[t]) && worlds[t + 1] == NextPod(worlds[t], events[t]))
  }

  /** The nodes of world t that held CIDRs from the start and are still waiting. */
  ghost function WaitingAt(worlds: seq<PodWorld>, events: seq<PodEvent>, t: nat): set<string>
    requires t < |worlds| == |events| + 1
  {
    if t == 0 then worlds[0].pods.Keys
    else
      var before := WaitingAt(worlds, events, t - 1);
      if ValidMap(worlds[t - 1].w.m) && PodEnabled(worlds[t - 1], events[t - 1])
      then NextWaiting(worlds[t - 1], events[t - 1], before)
      else before
  }

  /** Event t loses track of a node's CIDRs. */
  ghost predicate UntracksAt(worlds: seq<PodWorld>, events: seq<PodEvent>, t: nat)
    requires t < |events| && |worlds| == |events| + 1
  {
    && ValidMap(worlds[t].w.m) && PodEnabled(worlds[t], events[t])
    && Untracks(worlds[t], events[t], WaitingAt(worlds, events, t))
  }

  lemma {:induction false} RunTracks(worlds: seq<PodWorld>, events: seq<PodEvent>, t: nat)
    requires IsPodRun(worlds, events) && t < |worlds| && forall s :: 0 <= s < t ==> !UntracksAt(worlds, events, s)
    ensures Inv(worlds[t].w) && Tracked(worlds[t], WaitingAt(worlds, events, t))
  {
    hide PodEnabled, NextPod, Untracks, NextWaiting;
    if t == 0 {
      NothingClaimed();
    } else {
      RunTracks(worlds, events, t - 1);
      assert !UntracksAt(worlds, events, t - 1);
      StepTracks(worlds[t - 1], events[t - 1], WaitingAt(worlds, events, t - 1));
    }
  }

  lemma NothingClaimed()
    ensures Inv(NOTHING)
  {
  }

  /** The node is occupied or released by the event. */
  predicate Settles(pe: PodEvent, node: string) {
    (pe.e.OccupyEvent? || pe.e.ReleaseEvent?) && pe.e.node == node
  }

  /** A node that has been occupied or released is not waiting. */
  lemma {:induction false} SettledNotWaiting(worlds: seq<PodWorld>, events: seq<PodEvent>, s: nat, t: nat, node: string)
    requires IsPodRun(worlds, events) && s < t < |worlds| && Settles(events[s], node)
    requires forall u :: 0 <= u < t ==> !UntracksAt(worlds, events, u)
    ensures node !in WaitingAt(worlds, events, t)
    decreases t
  {
    hide PodEnabled, UntracksAt, Inv, NextPod;
    RunTracks(worlds, events, t - 1);
    InvIsValid(worlds[t - 1].w);
    if s < t - 1 {
      SettledNotWaiting(worlds, events, s, t - 1, node);
    }
  }

  lemma InvIsValid(w: World)
    requires Inv(w)
    ensures ValidMap(w.m)
  {
  }

  /** One mapped ClusterCIDR has the CIDRs in its ranges and all their blocks marked. */
  ghost predicate Backed(m: CidrMap, cidrs: seq<Cidr>) {
    exists r :: InMap(m, r) && forall j :: 0 <= j < |cidrs| ==> Protected(At(m, r), cidrs[j])
  }

  /** In every run in which no event loses track of a node, the podCIDRs that different nodes really hold are disjoint,
      and those of each node lie in a mapped ClusterCIDR in which every block they touch is marked - for all nodes that
      have come in during the run, and for those that held CIDRs from the start once they were occupied. */
  lemma PodsDisjoint(worlds: seq<PodWorld>, events: seq<PodEvent>, t: nat)
    requires IsPodRun(worlds, events) && t < |worlds| && forall s :: 0 <= s < t ==> !UntracksAt(worlds, events, s)
    ensures var pods, waiting := worlds[t].pods, WaitingAt(worlds, events, t);
            && (forall n, n' :: n in pods && n' in pods && n !in waiting && n' !in waiting && n != n' ==>
                  Apart(pods[n], pods[n']))
            && (forall n :: n in pods && n !in waiting ==> Backed(worlds[t].w.m, pods[n]))
  {
    hide PodEnabled, NextPod, UntracksAt, ValidMap, Apart, SelfApart, Protected, WaitingAt;
    RunTracks(worlds, events, t);
    var w, pods, waiting := worlds[t].w, worlds[t].pods, WaitingAt(worlds, events, t);
    forall n, n' | n in pods && n' in pods && n !in waiting && n' !in waiting && n != n'
      ensures Apart(pods[n], pods[n'])
    {
      var a :| a in w.claims && a.node == n && a.cidrs == pods[n];
      var b :| b in w.claims && b.node == n' && b.cidrs == pods[n'];
    }
    forall n | n in pods && n !in waiting
      ensures Backed(w.m, pods[n])
    {
      var a :| a in w.claims && a.node == n && a.cidrs == pods[n];
      var r :| InMap(w.m, r) && r.key == a.key && ClaimAt(At(w.m, r), a);
    }
  }

  /** After a restart: once every node that held CIDRs has been occupied or released, all podCIDRs are disjoint. */
  lemma DisjointAfterRestart(worlds: seq<PodWorld>, events: seq<PodEvent>, t: nat)
    requires IsPodRun(worlds, events) && t < |worlds| && forall s :: 0 <= s < t ==> !UntracksAt(worlds, events, s)
    requires forall n :: n in worlds[0].pods ==> exists s :: 0 <= s < t && Settles(events[s], n)
    ensures forall n, n' :: n in worlds[t].pods && n' in worlds[t].pods && n != n' ==>
              Apart(worlds[t].pods[n], worlds[t].pods[n'])
    ensures forall n :: n in worlds[t].pods ==> Backed(worlds[t].w.m, worlds[t].pods[n])
  {
    hide PodEnabled, NextPod, UntracksAt, WaitingAt, Apart, Backed, Settles;
    PodsDisjoint(worlds, events, t);
    forall n | n in worlds[t].pods
      ensures n !in WaitingAt(worlds, events, t)
    {
      if n in worlds[0].pods {
        var s :| 0 <= s < t && Settles(events[s], n);
        SettledNotWaiting(worlds, events, s, t, n);
      } else {
        WaitingFromStart(worlds, events, t);
      }
    }
  }

  lemma {:induction false} WaitingFromStart(worlds: seq<PodWorld>, events: seq<PodEvent>, t: nat)
    requires t < |worlds| == |events| + 1
    ensures WaitingAt(worlds, events, t) <= worlds[0].pods.Keys
  {
    hide PodEnabled, ValidMap;
    if t > 0 {
      WaitingFromStart(worlds, events, t - 1);
    }
  }

  // ---------- Runs that lose track ----------

  /** No attempt is confirmed and the last one fails with another error than a timeout. */
  predicate Unconfirmed(patches: seq<Patch>) {
    |patches| == CIDR_UPDATE_RETRIES && PatchOk !in patches && patches[|patches| - 1] == PatchFailed
  }

  const CONFIRMED := [PatchOk, PatchOk, PatchOk]

  /** The range of each family is a single block. */
  ghost predicate OneBlock(spec: Spec) {
    && Usable(spec)
    && (spec.v4.Some? ==> spec.v4.value.HostBits() == spec.perNodeHostBits)
    && (spec.v6.Some? ==> spec.v6.value.HostBits() == spec.perNodeHostBits)
  }

  lemma OneBlockMax(spec: Spec, fam: Family)
    requires OneBlock(spec) && ValidMap(FirstMap(spec, false)) && HasSet(FirstMap(spec, false), FIRST, fam)
    ensures SetAt(FirstMap(spec, false), FIRST, fam).cfg.Max() == 1
  {
    hide ValidMap, SetState.Valid;
  }

  /** From a set with one block, only that can be reserved. */
  lemma SameSingleBlock(m: CidrMap, p: CidrMap, m2: CidrMap, p2: CidrMap, r: Ref, c: Cidr, d: Cidr)
    requires ValidMap(m) && ValidMap(p) && ValidMap(m2) && ValidMap(p2) && SameShape(m, m2) && c.fam == d.fam
    requires Reserved(m, p, r, c) && Reserved(m2, p2, r, d) && SetAt(m, r, c.fam).cfg.Max() == 1
    ensures c == d
  {
    hide ValidMap, Bits.Pow2;
    ShapeKeeps(m, m2, r);
    var i: nat :| i < SetAt(m, r, c.fam).cfg.Max() && ReservedAt(m, p, r, c, i);
    var j: nat :| j < SetAt(m2, r, d.fam).cfg.Max() && ReservedAt(m2, p2, r, d, j);
  }

  /** An attempt that gives its blocks back restores a map without marks, in which the next attempt gets the same. */
  lemma ServedAgain(spec: Spec, matcher: Matcher, n1: string, n2: string, patches: seq<Patch>)
    requires OneBlock(spec) && Unconfirmed(patches) && matcher(DEFAULT_KEY) == NoMatch
    ensures var m := FirstMap(spec, false);
            && ValidMap(m) && InMapAll(m, DefaultRefs(m))
            && var a := AllocateNode(m, DefaultRefs(m), n1, Listed([]), patches);
            && a.home == Some(FIRST) && a.outcome.PatchRefused? && a.cidrs != []
            && IsOrdering(m, matcher, true, DefaultRefs(m)) && IsOrdering(a.m, matcher, true, DefaultRefs(a.m))
            && InMapAll(a.m, DefaultRefs(a.m))
            && var b := AllocateNode(a.m, DefaultRefs(a.m), n2, Listed([]), CONFIRMED);
            b.home == Some(FIRST) && b.outcome.Assigned? && b.cidrs == a.cidrs
  {
    hide ValidMap, FamiliesEligible, AllocateNode, IsOrdering, FirstMap, DefaultRefs, PrioritizedCIDRs, Reserved,
      OneBlock, SameShape, SameMarks, OnePerFamily, AllReserved, InMapAll;
    assert Usable(spec) by {
      OneBlockUsable(spec);
    }
    var m := FirstMap(spec, false);
    FirstMapFacts(spec, false);
    DefaultServes(m, matcher, n1, Listed([]), patches);
    var list, a := DefaultRefs(m), AllocateNode(m, DefaultRefs(m), n1, Listed([]), patches);
    PatchResultValue(patches);
    ConservationByOutcome(m, list, n1, Listed([]), patches);
    GivenBackUnmarked(m, a.m);
    UnmarkedEligible(a.m, FIRST);
    DefaultServes(a.m, matcher, n2, Listed([]), CONFIRMED);
    PatchResultValue(CONFIRMED);
    var list2, b := DefaultRefs(a.m), AllocateNode(a.m, DefaultRefs(a.m), n2, Listed([]), CONFIRMED);
    AttemptReservation(m, list, n1, Listed([]), patches);
    AttemptReservation(a.m, list2, n2, Listed([]), CONFIRMED);
    ShapeKeeps(m, a.m, FIRST);
    SameBlocks(spec, PrioritizedCIDRs(m, list).m, a.m, PrioritizedCIDRs(a.m, list2).m, a.cidrs, b.cidrs);
  }

  lemma SameBlocks(spec: Spec, p: CidrMap, m2: CidrMap, p2: CidrMap, cidrs: seq<Cidr>, cidrs2: seq<Cidr>)
    requires OneBlock(spec) && ValidMap(FirstMap(spec, false)) && InMap(FirstMap(spec, false), FIRST)
    requires ValidMap(p) && ValidMap(m2) && ValidMap(p2) && SameShape(FirstMap(spec, false), m2) && InMap(m2, FIRST)
    requires OnePerFamily(At(FirstMap(spec, false), FIRST), cidrs)
    requires AllReserved(FirstMap(spec, false), p, FIRST, cidrs)
    requires OnePerFamily(At(m2, FIRST), cidrs2) && AllReserved(m2, p2, FIRST, cidrs2)
    ensures cidrs2 == cidrs
  {
    hide ValidMap, FirstMap, Reserved, OneBlock, SameShape;
    OneBlockUsable(spec);
    var m := FirstMap(spec, false);
    ShapeKeeps(m, m2, FIRST);
    forall j | 0 <= j < |cidrs|
      ensures cidrs2[j] == cidrs[j]
    {
      ReservedSets(m, p, FIRST, cidrs[j]);
      OneBlockMax(spec, cidrs[j].fam);
      SameSingleBlock(m, p, m2, p2, FIRST, cidrs[j], cidrs2[j]);
    }
  }

  lemma OneBlockUsable(spec: Spec)
    requires OneBlock(spec)
    ensures Usable(spec)
  {
  }

  lemma GivenBackUnmarked(m: CidrMap, m': CidrMap)
    requires ValidMap(m) && ValidMap(m') && SameShape(m, m') && SameMarks(m, m', FIRST)
    requires (forall q :: InMap(m, q) <==> q == FIRST) && m.Keys == {DEFAULT_KEY}
    requires forall fam :: HasSet(m, FIRST, fam) ==> SetAt(m, FIRST, fam).marks == {}
    ensures m'.Keys == {DEFAULT_KEY} && InMap(m', FIRST)
    ensures forall q, fam :: HasSet(m', q, fam) ==> SetAt(m', q, fam).marks == {}
  {
    hide ValidMap;
    ShapeKeeps(m, m', FIRST);
  }

  /** A double assignment, from any spec with a single block: a patch is applied although it was not confirmed - it
      timed out, or its answer was lost -, the last attempt fails, the block goes back to the pool, and the next node
      gets it. */
  lemma GivenBackTwice(spec: Spec, matcher: Matcher, n1: string, n2: string, patches: seq<Patch>)
    returns (worlds: seq<PodWorld>, events: seq<PodEvent>)
    requires OneBlock(spec) && Unconfirmed(patches) && matcher(DEFAULT_KEY) == NoMatch && n1 != n2
    ensures IsPodRun(worlds, events) && |worlds| == 4
    ensures n1 in worlds[3].pods && n2 in worlds[3].pods && worlds[3].pods[n1] == worlds[3].pods[n2] != []
    ensures !Apart(worlds[3].pods[n1], worlds[3].pods[n2])
  {
    hide ValidMap, AllocateNode, FirstMap, DefaultRefs, IsOrdering, Inv, OneBlock, Usable, Apart, CreateClusterCIDR;
    OneBlockUsable(spec);
    var m := FirstMap(spec, false);
    FirstCreated(spec, false);
    ServedAgain(spec, matcher, n1, n2, patches);
    var a := AllocateNode(m, DefaultRefs(m), n1, Listed([]), patches);
    var e0 := PodEvent(FirstCreation(spec, false), false);
    var e1 := PodEvent(FirstAttempt(m, matcher, n1, patches), true);
    var e2 := PodEvent(FirstAttempt(a.m, matcher, n2, CONFIRMED), false);
    var p0, p1 := PodWorld(NOTHING, map[]), PodWorld(World(m, {}), map[]);
    var p2 := PodWorld(World(a.m, {}), map[n1 := a.cidrs]);
    assert NextPod(p0, e0) == p1;
    assert NextPod(p1, e1) == p2;
    ApartFromItself(a.cidrs);
    worlds, events := [p0, p1, p2, NextPod(p2, e2)], [e0, e1, e2];
  }

  /** A double assignment, from any usable spec: the patches time out but one is applied, the ClusterCIDR is deleted and
      created again, and the next node gets the same blocks. */
  lemma LostAndGivenAgain(spec: Spec, matcher: Matcher, n1: string, n2: string)
    returns (worlds: seq<PodWorld>, events: seq<PodEvent>)
    requires Usable(spec) && matcher(DEFAULT_KEY) == NoMatch && n1 != n2
    ensures IsPodRun(worlds, events) && |worlds| == 6
    ensures n1 in worlds[5].pods && n2 in worlds[5].pods && worlds[5].pods[n1] == worlds[5].pods[n2] != []
    ensures !Apart(worlds[5].pods[n1], worlds[5].pods[n2])
  {
    hide ValidMap, AllocateNode, FirstMap, DefaultRefs, IsOrdering, Inv, Usable, Apart, Enabled, Next,
      PrioritizedCIDRs, FamiliesEligible, UpdateOutcome, SameShape;
    var m := FirstMap(spec, false);
    FirstCreated(spec, false);
    FirstMapFacts(spec, false);
    FirstAttemptPending(spec, matcher, n1);
    PendingDeleted(spec, matcher, n1);
    FirstConfirmed(spec, matcher, n2);
    var cidrs := PrioritizedCIDRs(m, DefaultRefs(m)).cidrs;
    var e0 := PodEvent(FirstCreation(spec, false), false);
    var e1 := PodEvent(FirstAttempt(m, matcher, n1, TIMEOUTS), true);
    var e2 := PodEvent(FirstDeletion(spec), false);
    var e4 := PodEvent(FirstAttempt(m, matcher, n2, CONFIRMED), false);
    var w, pods := World(m, {}), map[n1 := cidrs];
    var p0, p1, p2 := PodWorld(NOTHING, map[]), PodWorld(w, map[]), PodWorld(Next(w, e1.e), pods);
    var p3, p4, p5 := PodWorld(NOTHING, pods), PodWorld(w, pods), PodWorld(Next(w, e4.e), pods[n2 := cidrs]);
    assert NextPod(p1, e1) == p2;
    assert NextPod(p4, e4) == p5;
    ApartFromItself(cidrs);
    worlds, events := [p0, p1, p2, p3, p4, p5], [e0, e1, e2, e0, e4];
  }

  lemma FirstConfirmed(spec: Spec, matcher: Matcher, node: string)
    requires Usable(spec) && matcher(DEFAULT_KEY) == NoMatch
    ensures var m := FirstMap(spec, false);
            && ValidMap(m) && Enabled(World(m, {}), FirstAttempt(m, matcher, node, CONFIRMED))
            && InMapAll(m, DefaultRefs(m))
            && var a := AllocateNode(m, DefaultRefs(m), node, Listed([]), CONFIRMED);
            a.home == Some(FIRST) && a.outcome.Assigned? && a.cidrs == PrioritizedCIDRs(m, DefaultRefs(m)).cidrs
  {
    hide ValidMap, AllocateNode, FirstMap, DefaultRefs, IsOrdering, PrioritizedCIDRs, FamiliesEligible, Usable;
    var m := FirstMap(spec, false);
    FirstMapFacts(spec, false);
    DefaultServes(m, matcher, node, Listed([]), CONFIRMED);
    PatchResultValue(CONFIRMED);
  }
}
