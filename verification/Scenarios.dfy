/** Runs that reach the situations the theorems speak of: a first ClusterCIDR is created and serves nodes. */
module Scenarios {
  import opened Cidrs
  import opened Blocks
  import opened SetSpec
  import opened AllocatorSpec
  import opened Allocate
  import opened Prioritize
  import opened Assign
  import opened Ordering
  import opened Lifecycle
  import opened Safety

  /** The place of the first catch-all ClusterCIDR. */
  const FIRST := Ref(DEFAULT_KEY, 0)

  const NOTHING := World(map[], {})

  /** A node that no selector matches is offered blocks of the first catch-all ClusterCIDR if that has room in every
      family, whether it is terminating or not; which blocks does not depend on the node or on the patches. */
  lemma DefaultServes(m: CidrMap, matcher: Matcher, node: string, lister: Lister, patches: seq<Patch>)
    requires ValidMap(m) && DEFAULT_KEY in m && (forall k :: k in m ==> matcher(k) == NoMatch)
    requires InMap(m, FIRST) && FamiliesEligible(m, FIRST) && patches != []
    ensures IsOrdering(m, matcher, true, DefaultRefs(m)) && InMapAll(m, DefaultRefs(m))
    ensures var a, p := AllocateNode(m, DefaultRefs(m), node, lister, patches), PrioritizedCIDRs(m, DefaultRefs(m));
            && a.home == Some(FIRST) && a.cidrs == p.cidrs && a.cidrs != [] && OnePerFamily(At(m, FIRST), a.cidrs)
            && a.outcome == UpdateOutcome(a.cidrs, lister, patches)
  {
    hide ValidMap, FamiliesEligible, PrioritizedCIDRs, ReleaseAll, DefaultRefs, UpdateOutcome;
    DefaultOrdering(m, matcher);
    FirstChosen(m, DefaultRefs(m));
  }

  lemma DefaultOrdering(m: CidrMap, matcher: Matcher)
    requires ValidMap(m) && InMap(m, FIRST) && forall k :: k in m ==> matcher(k) == NoMatch
    ensures IsOrdering(m, matcher, true, DefaultRefs(m)) && InMapAll(m, DefaultRefs(m))
    ensures DefaultRefs(m) != [] && DefaultRefs(m)[0] == FIRST
  {
    hide ValidMap;
    var list := DefaultRefs(m);
    assert list[..0] == [] && list[0..] == list;
    assert SortedPart(m, matcher, true, list[..0]);
    OrderingMembers(m, matcher, true, list);
  }

  /** The first ClusterCIDR of a list is chosen if it has room. */
  lemma FirstChosen(m: CidrMap, list: seq<Ref>)
    requires ValidMap(m) && InMapAll(m, list) && list != [] && FamiliesEligible(m, list[0])
    ensures var p := PrioritizedCIDRs(m, list);
            p.chosen == Some(list[0]) && p.cidrs != [] && OnePerFamily(At(m, list[0]), p.cidrs)
  {
    hide ValidMap, FamiliesEligible, TryFamilies, Reserved, FailedRound, SameShape;
    TryExact(m, list[0]);
    ConfiguredFamily(m, list[0]);
  }

  /** Without any mark every block of every set is eligible. */
  lemma UnmarkedEligible(m: CidrMap, r: Ref)
    requires ValidMap(m) && InMap(m, r)
    requires forall q, fam :: HasSet(m, q, fam) ==> SetAt(m, q, fam).marks == {}
    ensures FamiliesEligible(m, r)
  {
    hide ValidMap, Bits.Pow2, Meets, Cidr.Valid;
    forall fam | HasSet(m, r, fam)
      ensures HasEligible(m, r, fam)
    {
      BlockValid(SetAt(m, r, fam).cfg, 0);
      assert Eligible(m, r, fam, 0);
    }
  }

  /** A valid spec with a configured family, and not too many IPv6 blocks. */
  ghost predicate Usable(spec: Spec) {
    ValidSpec(spec) && (spec.v4.Some? || spec.v6.Some?) && FewEnough(spec)
  }

  /** The map with one catch-all ClusterCIDR. */
  ghost function FirstMap(spec: Spec, terminating: bool): CidrMap
    requires Usable(spec)
  {
    CreatedExact(spec, terminating);
    map[DEFAULT_KEY := [CreateClusterCIDRSet(spec, terminating).value]]
  }

  lemma FirstEntry(spec: Spec, terminating: bool)
    requires Usable(spec)
    ensures InMap(FirstMap(spec, terminating), FIRST) && CreateClusterCIDRSet(spec, terminating).Some?
    ensures At(FirstMap(spec, terminating), FIRST) == CreateClusterCIDRSet(spec, terminating).value
  {
    CreatedExact(spec, terminating);
  }

  /** A new ClusterCIDR: its sets cut up the ranges of the spec, without any mark, and it has no node. */
  lemma BuiltRange(spec: Spec, terminating: bool)
    requires Usable(spec)
    ensures CreateClusterCIDRSet(spec, terminating).Some?
    ensures var cc := CreateClusterCIDRSet(spec, terminating).value;
            && cc.Valid() && cc.nodes == {} && cc.terminating == terminating && cc.name == spec.name
            && cc.v4.Some? == spec.v4.Some? && cc.v6.Some? == spec.v6.Some?
            && (spec.v4.Some? ==>
                  cc.v4.value.cfg == Config(spec.v4.value, 32 - spec.perNodeHostBits) && cc.v4.value.marks == {})
            && (spec.v6.Some? ==>
                  cc.v6.value.cfg == Config(spec.v6.value, 128 - spec.perNodeHostBits) && cc.v6.value.marks == {})
  {
    hide SetState.Valid, Bits.Pow2, CreateClusterCIDRSet;
    CreatedExact(spec, terminating);
  }

  ghost function FirstCreation(spec: Spec, terminating: bool): Event {
    CreateEvent(DEFAULT_KEY, spec, terminating)
  }

  /** Creating a catch-all ClusterCIDR where nothing is mapped. */
  lemma FirstCreated(spec: Spec, terminating: bool)
    requires Usable(spec)
    ensures Inv(NOTHING) && ValidMap(NOTHING.m) && Enabled(NOTHING, FirstCreation(spec, terminating))
    ensures Next(NOTHING, FirstCreation(spec, terminating)) == World(FirstMap(spec, terminating), {})
    ensures Inv(World(FirstMap(spec, terminating), {}))
  {
    hide ValidSpec, SetState.Valid, BuildFamily;
    var e := FirstCreation(spec, terminating);
    CreatedExact(spec, terminating);
    StepKeepsInv(NOTHING, e);
    assert !Mapped(NOTHING.m, DEFAULT_KEY, spec.name);
    assert Next(NOTHING, e).m == FirstMap(spec, terminating);
  }

  lemma FirstMapFacts(spec: Spec, terminating: bool)
    requires Usable(spec)
    ensures var m := FirstMap(spec, terminating);
            && ValidMap(m) && m.Keys == {DEFAULT_KEY} && (forall q :: InMap(m, q) <==> q == FIRST)
            && At(m, FIRST).name == spec.name && At(m, FIRST).nodes == {} && At(m, FIRST).terminating == terminating
            && At(m, FIRST).v4.Some? == spec.v4.Some? && At(m, FIRST).v6.Some? == spec.v6.Some?
            && (forall fam :: HasSet(m, FIRST, fam) ==> SetAt(m, FIRST, fam).marks == {})
            && FamiliesEligible(m, FIRST)
  {
    hide ValidSpec, SetState.Valid, FamiliesEligible;
    var m := FirstMap(spec, terminating);
    CreatedExact(spec, terminating);
    UnmarkedEligible(m, FIRST);
  }

  /** The attempt to serve a node from the first catch-all ClusterCIDR. */
  ghost function FirstAttempt(m: CidrMap, matcher: Matcher, node: string, patches: seq<Patch>): Event {
    AllocateEvent(node, matcher, DefaultRefs(m), Listed([]), patches)
  }

  /** A run that serves a node from a catch-all ClusterCIDR, made from any usable spec - also from one created as
      terminating, which the program announces not to be used for allocation. */
  lemma FirstNodeServed(spec: Spec, terminating: bool, matcher: Matcher, node: string, patches: seq<Patch>)
    returns (worlds: seq<World>, events: seq<Event>)
    requires Usable(spec) && matcher(DEFAULT_KEY) == NoMatch
    requires |patches| == CIDR_UPDATE_RETRIES && PatchOk in patches
    ensures IsRun(worlds, events) && |worlds| == 3
    ensures InMap(worlds[1].m, FIRST) && At(worlds[1].m, FIRST).terminating == terminating
    ensures At(worlds[1].m, FIRST).nodes == {}
    ensures InMap(worlds[2].m, FIRST) && At(worlds[2].m, FIRST).terminating == terminating
    ensures At(worlds[2].m, FIRST).nodes == {node}
    ensures exists a :: a in worlds[2].claims && a.live && a.node == node && a.name == spec.name
              && |a.cidrs| == (if spec.v4.Some? then 1 else 0) + (if spec.v6.Some? then 1 else 0)
  {
    hide Usable, ValidMap, FamiliesEligible, AllocateNode, Holds, SelfApart, Apart, IsOrdering, FirstMap, DefaultRefs,
      UpdateOutcome, PrioritizedCIDRs, FirstCreation;
    var m := FirstMap(spec, terminating);
    FirstCreated(spec, terminating);
    FirstMapFacts(spec, terminating);
    DefaultServes(m, matcher, node, Listed([]), patches);
    var w, e := World(m, {}), FirstAttempt(m, matcher, node, patches);
    var a := AllocateNode(m, DefaultRefs(m), node, Listed([]), patches);
    AssignedIff(a.cidrs, Listed([]), patches);
    AttemptNodes(m, DefaultRefs(m), node, Listed([]), patches);
    ShapeKeeps(m, a.m, FIRST);
    assert NewClaim(m, FIRST, node, a.cidrs, true) in Next(w, e).claims;
    worlds, events := [NOTHING, w, Next(w, e)], [FirstCreation(spec, terminating), e];
  }

  const TIMEOUTS := [PatchTimeout, PatchTimeout, PatchTimeout]

  /** After timeouts only, the reservation is a pending claim of an unassociated node. */
  lemma FirstAttemptPending(spec: Spec, matcher: Matcher, node: string)
    requires Usable(spec) && matcher(DEFAULT_KEY) == NoMatch
    ensures var m := FirstMap(spec, false);
            var w, e := World(m, {}), FirstAttempt(m, matcher, node, TIMEOUTS);
            && ValidMap(m) && Enabled(w, e) && InMapAll(m, DefaultRefs(m)) && InMap(m, FIRST)
            && var a := AllocateNode(m, DefaultRefs(m), node, Listed([]), TIMEOUTS);
            && var p := PrioritizedCIDRs(m, DefaultRefs(m));
            && a.outcome.TimedOut? && a.home == Some(FIRST) && a.cidrs == p.cidrs && a.cidrs != []
            && Next(w, e) == World(a.m, {NewClaim(m, FIRST, node, a.cidrs, false)})
            && SameShape(m, a.m) && InMap(a.m, FIRST) && At(a.m, FIRST).nodes == {}
  {
    hide Usable, ValidMap, FamiliesEligible, AllocateNode, IsOrdering, FirstMap, DefaultRefs, PrioritizedCIDRs,
      SameShape;
    var m := FirstMap(spec, false);
    FirstMapFacts(spec, false);
    DefaultServes(m, matcher, node, Listed([]), TIMEOUTS);
    PatchResultValue(TIMEOUTS);
    AttemptNodes(m, DefaultRefs(m), node, Listed([]), TIMEOUTS);
  }

  /** Deleting the only ClusterCIDR while no node is associated with it leaves nothing mapped. */
  lemma OnlyOneDeleted(m: CidrMap, m': CidrMap, name: string)
    requires m.Keys == {DEFAULT_KEY} && |m[DEFAULT_KEY]| == 1 && SameShape(m, m')
    requires At(m, FIRST).name == name && InMap(m', FIRST) && At(m', FIRST).nodes == {}
    ensures DeleteClusterCIDR(m', DEFAULT_KEY, name) == Change(map[], true)
  {
    ShapeKeeps(m, m', FIRST);
    assert InMap(m', Ref(DEFAULT_KEY, 1)) <==> InMap(m, Ref(DEFAULT_KEY, 1));
    assert m' - {DEFAULT_KEY} == map[];
  }

  ghost function FirstDeletion(spec: Spec): Event {
    DeleteEvent(DEFAULT_KEY, spec.name, true, true)
  }

  /** A run that loses a pending claim, from any usable spec: the patches time out, and the ClusterCIDR is deleted
      while the node may hold its blocks. */
  lemma PendingClaimLostRun(spec: Spec, matcher: Matcher, node: string) returns (worlds: seq<World>, events: seq<Event>)
    requires Usable(spec) && matcher(DEFAULT_KEY) == NoMatch
    ensures IsRun(worlds, events) && |worlds| == 4
    ensures exists a :: worlds[2].claims == {a} && !a.live && a.node == node && a.name == spec.name && a.cidrs != []
    ensures Mapped(worlds[2].m, DEFAULT_KEY, spec.name) && worlds[3] == NOTHING
  {
    hide Usable, ValidMap, AllocateNode, FirstMap, DefaultRefs, PrioritizedCIDRs, Enabled, Next, SameShape;
    var m := FirstMap(spec, false);
    FirstCreated(spec, false);
    FirstMapFacts(spec, false);
    FirstAttemptPending(spec, matcher, node);
    var w, e := World(m, {}), FirstAttempt(m, matcher, node, TIMEOUTS);
    var w2 := Next(w, e);
    ShapeKeeps(m, w2.m, FIRST);
    PendingDeleted(spec, matcher, node);
    worlds, events := [NOTHING, w, w2, NOTHING], [FirstCreation(spec, false), e, FirstDeletion(spec)];
  }

  lemma PendingDeleted(spec: Spec, matcher: Matcher, node: string)
    requires Usable(spec) && matcher(DEFAULT_KEY) == NoMatch
    ensures var m := FirstMap(spec, false);
            var w, e := World(m, {}), FirstAttempt(m, matcher, node, TIMEOUTS);
            && ValidMap(m) && Enabled(w, e) && ValidMap(Next(w, e).m)
            && Enabled(Next(w, e), FirstDeletion(spec)) && Next(Next(w, e), FirstDeletion(spec)) == NOTHING
  {
    hide Usable, ValidMap, AllocateNode, DefaultRefs, PrioritizedCIDRs, SameShape;
    var m := FirstMap(spec, false);
    FirstMapFacts(spec, false);
    FirstAttemptPending(spec, matcher, node);
    var w2 := Next(World(m, {}), FirstAttempt(m, matcher, node, TIMEOUTS));
    OnlyOneDeleted(m, w2.m, spec.name);
  }

  // ---------- Retries as runs ----------

  /** A run goes on with any enabled event. */
  lemma ExtendRun(worlds: seq<World>, events: seq<Event>, e: Event)
    requires IsRun(worlds, events) && ValidMap(worlds[|events|].m) && Enabled(worlds[|events|], e)
    ensures IsRun(worlds + [Next(worlds[|events|], e)], events + [e])
  {
    hide ValidMap, Enabled, Next;
    var w := worlds[|events|];
    var worlds', events' := worlds + [Next(w, e)], events + [e];
    forall t | 0 <= t < |events'| && ValidMap(worlds'[t].m)
      ensures Enabled(worlds'[t], events'[t]) && worlds'[t + 1] == Next(worlds'[t], events'[t])
    {
      if t < |events| {
        assert worlds'[t] == worlds[t] && worlds'[t + 1] == worlds[t + 1] && events'[t] == events[t];
      } else {
        assert worlds'[t] == w && events'[t] == e;
      }
    }
  }

  /** Where no ClusterCIDR of a node's list has room, any number of attempts to serve it extends the run: only the map
      changes, as `Assign.RetriesLeak` says. */
  lemma {:induction false} RetriesRun(worlds: seq<World>, events: seq<Event>, matcher: Matcher, list: seq<Ref>,
                                      node: string, lister: Lister, patches: seq<Patch>, k: nat)
    returns (worlds': seq<World>, events': seq<Event>)
    requires IsRun(worlds, events) && |patches| == CIDR_UPDATE_RETRIES
    requires ValidMap(worlds[|events|].m) && IsOrdering(worlds[|events|].m, matcher, true, list)
    requires InMapAll(worlds[|events|].m, list) && NoRoom(worlds[|events|].m, list)
    ensures IsRun(worlds', events') && |events'| == |events| + k && worlds'[|events|] == worlds[|events|]
    ensures var w := worlds[|events|];
            worlds'[|events'|] == World(Retried(w.m, list, node, lister, patches, k), w.claims)
    decreases k
  {
    hide ValidMap, IsOrdering, AllocateNode, FamiliesEligible, SameShape, IsRun, NoRoom;
    assert |worlds| == |events| + 1 by {
      RunLength(worlds, events);
    }
    var w := worlds[|events|];
    if k == 0 {
      return worlds, events;
    }
    worlds', events' := RetriesRun(worlds, events, matcher, list, node, lister, patches, k - 1);
    RunLength(worlds', events');
    var m, e := Retried(w.m, list, node, lister, patches, k - 1), AllocateEvent(node, matcher, list, lister, patches);
    OrderingKept(w.m, m, matcher, true, list);
    NoRoomStays(w.m, list, node, lister, patches, k - 1);
    NoRoomFails(m, list, node, lister, patches);
    ExtendRun(worlds', events', e);
    worlds', events' := worlds' + [Next(World(m, w.claims), e)], events' + [e];
  }

  lemma RunLength(worlds: seq<World>, events: seq<Event>)
    requires IsRun(worlds, events)
    ensures |worlds| == |events| + 1
  {
  }

  lemma NoRoomStays(m: CidrMap, list: seq<Ref>, node: string, lister: Lister, patches: seq<Patch>, k: nat)
    requires ValidMap(m) && InMapAll(m, list) && patches != [] && NoRoom(m, list)
    ensures NoRoom(Retried(m, list, node, lister, patches, k), list)
  {
    hide ValidMap, FamiliesEligible, Retried;
    if list != [] {
      var leaked := RetriesLeak(m, list, node, lister, patches, k, list[0]);
    }
  }

  /** A dual-stack spec whose IPv6 range is a single block. */
  ghost predicate OneIPv6Block(spec: Spec) {
    Usable(spec) && spec.v4.Some? && spec.v6.Some? && spec.v6.value.HostBits() == spec.perNodeHostBits
  }

  /** From such a spec, once one node is served, k attempts to serve another leave k more IPv4 blocks marked, as long as
      there are that many, though only one node has any. */
  lemma LeakRun(spec: Spec, matcher: Matcher, n1: string, n2: string, lister: Lister, patches: seq<Patch>, k: nat)
    returns (worlds: seq<World>, events: seq<Event>)
    requires OneIPv6Block(spec) && matcher(DEFAULT_KEY) == NoMatch && |patches| == CIDR_UPDATE_RETRIES
    ensures IsRun(worlds, events) && |events| == 2 + k
    ensures var m := worlds[2 + k].m;
            && ValidMap(m) && (forall q :: InMap(m, q) <==> q == FIRST)
            && At(m, FIRST).nodes == {n1} && HasSet(m, FIRST, V4)
            && (HasEligible(m, FIRST, V4) ==> |SetAt(m, FIRST, V4).marks| >= 1 + k)
            && (k >= SetAt(m, FIRST, V4).cfg.Max() ==> !HasEligible(m, FIRST, V4))
  {
    hide OneIPv6Block, Usable, ValidMap, FirstMap, Enabled, Next, FamiliesEligible, SameShape, HasEligible, DefaultRefs,
      AllocateNode, IsOrdering, NoRoom, Retried, Bits.Pow2, IsRun;
    var ws, es := IPv6UsedUp(spec, matcher, n1);
    var m, list := ws[2].m, [FIRST];
    worlds, events := RetriesRun(ws, es, matcher, list, n2, lister, patches, k);
    var m' := Retried(m, list, n2, lister, patches, k);
    var leaked := RetriesLeak(m, list, n2, lister, patches, k, FIRST);
    ShapeOnly(m, m');
    if k >= SetAt(m, FIRST, V4).cfg.Max() {
      RetriesExhaust(m, list, n2, lister, patches, k, FIRST);
    }
  }

  lemma ShapeOnly(m: CidrMap, m': CidrMap)
    requires SameShape(m, m')
    ensures forall q :: InMap(m', q) <==> InMap(m, q)
  {
  }

  /** The run that uses up the IPv6 block. */
  lemma IPv6UsedUp(spec: Spec, matcher: Matcher, node: string) returns (worlds: seq<World>, events: seq<Event>)
    requires OneIPv6Block(spec) && matcher(DEFAULT_KEY) == NoMatch
    ensures IsRun(worlds, events) && |worlds| == 3 && |events| == 2
    ensures var m := worlds[2].m;
            && ValidMap(m) && (forall q :: InMap(m, q) <==> q == FIRST) && At(m, FIRST).nodes == {node}
            && IsOrdering(m, matcher, true, [FIRST]) && InMapAll(m, [FIRST]) && NoRoom(m, [FIRST])
            && HasSet(m, FIRST, V4) && |SetAt(m, FIRST, V4).marks| == 1
            && HasSet(m, FIRST, V6) && !HasEligible(m, FIRST, V6)
  {
    hide Usable, ValidMap, FamiliesEligible, AllocateNode, Holds, SelfApart, Apart, IsOrdering, FirstMap, DefaultRefs,
      UpdateOutcome, PrioritizedCIDRs, FirstCreation, SameShape, Reserved, HasEligible;
    var m, patches := FirstMap(spec, false), [PatchOk, PatchOk, PatchOk];
    FirstCreated(spec, false);
    FirstMapFacts(spec, false);
    OnlyDefault(m);
    DefaultServes(m, matcher, node, Listed([]), patches);
    var w, e := World(m, {}), FirstAttempt(m, matcher, node, patches);
    var a := AllocateNode(m, DefaultRefs(m), node, Listed([]), patches);
    AssignedIff(a.cidrs, Listed([]), patches);
    AttemptNodes(m, DefaultRefs(m), node, Listed([]), patches);
    ConservationByOutcome(m, DefaultRefs(m), node, Listed([]), patches);
    ShapeOnly(m, a.m);
    ShapeKeeps(m, a.m, FIRST);
    OrderingKept(m, a.m, matcher, true, [FIRST]);
    assert a.cidrs[0].fam == V4 && a.cidrs[1].fam == V6;
    ReservedCount(m, a.m, FIRST, a.cidrs[0]);
    ReservedSets(m, a.m, FIRST, a.cidrs[0]);
    ReservedSets(m, a.m, FIRST, a.cidrs[1]);
    OneIPv6Max(spec);
    UsedUp(m, a.m, a.cidrs[1]);
    NoIPv6NoRoom(a.m);
    worlds, events := [NOTHING, w, Next(w, e)], [FirstCreation(spec, false), e];
  }

  lemma ReservedSets(m: CidrMap, m': CidrMap, r: Ref, c: Cidr)
    requires ValidMap(m) && ValidMap(m') && Reserved(m, m', r, c)
    ensures HasSet(m, r, c.fam) && HasSet(m', r, c.fam)
  {
  }

  lemma OnlyDefault(m: CidrMap)
    requires forall q :: InMap(m, q) <==> q == FIRST
    ensures DefaultRefs(m) == [FIRST]
  {
    assert InMap(m, FIRST) && !InMap(m, Ref(DEFAULT_KEY, 1));
  }

  lemma OneIPv6Max(spec: Spec)
    requires OneIPv6Block(spec) && ValidMap(FirstMap(spec, false)) && HasSet(FirstMap(spec, false), FIRST, V6)
    ensures SetAt(FirstMap(spec, false), FIRST, V6).cfg.Max() == 1
  {
    hide ValidMap, CreateClusterCIDRSet;
    CreatedExact(spec, false);
    FirstEntry(spec, false);
  }

  /** After its only block is reserved, a set has nothing eligible. */
  lemma UsedUp(m: CidrMap, m': CidrMap, c: Cidr)
    requires ValidMap(m) && ValidMap(m') && Reserved(m, m', FIRST, c) && SetAt(m, FIRST, c.fam).cfg.Max() == 1
    ensures !HasEligible(m', FIRST, c.fam)
  {
    hide ValidMap, Bits.Pow2, Eligible;
    AllMarked(m', FIRST, c.fam);
  }

  lemma NoIPv6NoRoom(m: CidrMap)
    requires ValidMap(m) && HasSet(m, FIRST, V6) && !HasEligible(m, FIRST, V6) && InMapAll(m, [FIRST])
    ensures NoRoom(m, [FIRST])
  {
    hide ValidMap, HasEligible;
  }
}
