/** Runs with two ClusterCIDRs: a node associated with both, and CIDRs coarser than a range. */
module TwoRanges {
  import opened Cidrs
  import opened Blocks
  import opened SetSpec
  import opened AllocatorSpec
  import opened Allocate
  import opened Prioritize
  import opened NodeOps
  import opened Assign
  import opened Ordering
  import opened Lifecycle
  import opened Safety
  import opened Drain
  import opened Scenarios
  import opened PodCidrs

  /** The ClusterCIDR as created from a spec. */
  ghost function Built(spec: Spec): CC
    requires Usable(spec)
  {
    CreatedExact(spec, false);
    CreateClusterCIDRSet(spec, false).value
  }

  ghost function TwoMap(k1: string, s1: Spec, k2: string, s2: Spec): CidrMap
    requires Usable(s1) && Usable(s2)
  {
    map[k1 := [Built(s1)], k2 := [Built(s2)]]
  }

  /** Creating the first ClusterCIDR under a selector. */
  lemma CreatedUnder(w: World, key: string, spec: Spec)
    requires Inv(w) && key !in w.m && Usable(spec)
    ensures Enabled(w, CreateEvent(key, spec, false))
    ensures Next(w, CreateEvent(key, spec, false)) == World(w.m[key := [Built(spec)]], w.claims)
    ensures Inv(World(w.m[key := [Built(spec)]], w.claims))
  {
    hide ValidSpec, SetState.Valid, CreateClusterCIDRSet, Holds, SelfApart, Apart;
    var e := CreateEvent(key, spec, false);
    CreatedExact(spec, false);
    StepKeepsInv(w, e);
    assert !Mapped(w.m, key, spec.name);
  }

  lemma TwoCreated(k1: string, s1: Spec, k2: string, s2: Spec)
    requires Usable(s1) && Usable(s2) && k1 != k2
    ensures Inv(NOTHING) && Enabled(NOTHING, CreateEvent(k1, s1, false))
    ensures var w := World(map[k1 := [Built(s1)]], {});
            && Next(NOTHING, CreateEvent(k1, s1, false)) == w && Inv(w) && Enabled(w, CreateEvent(k2, s2, false))
            && Next(w, CreateEvent(k2, s2, false)) == World(TwoMap(k1, s1, k2, s2), {})
    ensures Inv(World(TwoMap(k1, s1, k2, s2), {}))
  {
    hide Usable, Enabled, Next, Inv, Built;
    NothingClaimed();
    CreatedUnder(NOTHING, k1, s1);
    assert NOTHING.m[k1 := [Built(s1)]] == map[k1 := [Built(s1)]];
    CreatedUnder(World(map[k1 := [Built(s1)]], {}), k2, s2);
  }

  lemma TwoFacts(k1: string, s1: Spec, k2: string, s2: Spec)
    requires Usable(s1) && Usable(s2) && k1 != k2 && ValidMap(TwoMap(k1, s1, k2, s2))
    ensures var m, r1, r2 := TwoMap(k1, s1, k2, s2), Ref(k1, 0), Ref(k2, 0);
            && m.Keys == {k1, k2} && |m[k1]| == |m[k2]| == 1 && (forall q :: InMap(m, q) <==> q == r1 || q == r2)
            && At(m, r1).nodes == At(m, r2).nodes == {} && !At(m, r1).terminating && !At(m, r2).terminating
            && At(m, r1).name == s1.name && At(m, r2).name == s2.name
            && (s1.v4.Some? ==> HasSet(m, r1, V4) && SetAt(m, r1, V4).cfg.cluster == s1.v4.value)
            && (s2.v4.Some? ==> HasSet(m, r2, V4) && SetAt(m, r2, V4).cfg.cluster == s2.v4.value)
            && At(m, r2).v6.Some? == s2.v6.Some?
            && (forall q, fam :: HasSet(m, q, fam) ==> SetAt(m, q, fam).marks == {})
  {
    hide ValidMap, CreateClusterCIDRSet, Usable, CC.Valid;
    BuiltRange(s1, false);
    BuiltRange(s2, false);
  }

  /** The list of a node that matches one selector only. */
  ghost function ListFor(m: CidrMap, key: string): seq<Ref> {
    [Ref(key, 0)] + DefaultRefs(m)
  }

  /** The matcher matches this selector and none of the others. */
  ghost predicate MatchesOnly(m: CidrMap, matcher: Matcher, key: string) {
    key in m && |m[key]| == 1 && matcher(key).Matches? && forall k :: k in m && k != key ==> matcher(k) == NoMatch
  }

  lemma SingleMatch(m: CidrMap, matcher: Matcher, occupy: bool, key: string)
    requires ValidMap(m) && MatchesOnly(m, matcher, key) && (occupy ==> !At(m, Ref(key, 0)).terminating)
    ensures IsOrdering(m, matcher, occupy, ListFor(m, key))
  {
    hide ValidMap, DefaultRefs, RefKey;
    var list := ListFor(m, key);
    assert list[..1] == [Ref(key, 0)] && list[1..] == DefaultRefs(m);
    assert SortedPart(m, matcher, occupy, list[..1]);
  }

  /** Only one node has claims. */
  ghost predicate ClaimsOnlyOf(w: World, node: string) {
    forall a :: a in w.claims ==> a.node == node
  }

  ghost predicate InFirstRange(m: CidrMap, key: string, c: Cidr)
    requires ValidMap(m)
  {
    && c.Valid() && c.fam == V4 && HasSet(m, Ref(key, 0), V4) && !At(m, Ref(key, 0)).terminating
    && Meets(SetAt(m, Ref(key, 0), V4).cfg.cluster, c)
  }

  /** Occupying a node's CIDR, meeting the range of the only ClusterCIDR whose selector it matches. */
  lemma OccupyOne(w: World, node: string, c: Cidr, matcher: Matcher, key: string)
    requires Inv(w) && ClaimsOnlyOf(w, node) && MatchesOnly(w.m, matcher, key) && InFirstRange(w.m, key, c)
    ensures var e := OccupyEvent(node, [c], matcher, ListFor(w.m, key));
            && Enabled(w, e) && Inv(Next(w, e)) && ClaimsOnlyOf(Next(w, e), node)
            && Gains(w.m, Next(w, e).m, Some(Ref(key, 0)), node)
            && (forall q, fam :: HasSet(w.m, q, fam) && q != Ref(key, 0) ==>
                  HasSet(Next(w, e).m, q, fam) && SetAt(Next(w, e).m, q, fam).marks == SetAt(w.m, q, fam).marks)
  {
    hide ValidMap, IsOrdering, Holds, SameShape, DefaultRefs, OccupyCIDRs, Meets, Cidr.Valid, SuitsAll, Apart, Gains;
    var r, list := Ref(key, 0), ListFor(w.m, key);
    var e := OccupyEvent(node, [c], matcher, list);
    SingleMatch(w.m, matcher, true, key);
    OneInRange(w.m, r, c);
    assert list[0] == r;
    assert Enabled(w, e);
    StepKeepsInv(w, e);
    OccupyGains(w.m, list, node, [c]);
    var n := OccupyFirstMeeting(w.m, list, node, [c]);
    assert n == 0;
    forall q, fam | HasSet(w.m, q, fam) && q != r
      ensures HasSet(Next(w, e).m, q, fam) && SetAt(Next(w, e).m, q, fam).marks == SetAt(w.m, q, fam).marks
    {
      OccupyMarksExact(w.m, list, node, [c], q, fam);
      assert list[..1] == [r];
    }
  }

  lemma OneInRange(m: CidrMap, r: Ref, c: Cidr)
    requires ValidMap(m) && c.Valid() && HasSet(m, r, c.fam) && Meets(SetAt(m, r, c.fam).cfg.cluster, c)
    ensures NoNil(m, r, [c]) && InRanges(m, r, [c])
  {
    hide ValidMap, Cidr.Valid, Meets;
    assert [c][1..] == [];
    assert NoNil(m, r, []);
  }

  /** The range and the termination mark of an entry do not depend on marks and nodes. */
  lemma InRangeKept(m: CidrMap, m': CidrMap, key: string, c: Cidr)
    requires ValidMap(m) && ValidMap(m') && SameShape(m, m') && InFirstRange(m, key, c)
    ensures InFirstRange(m', key, c)
  {
    hide ValidMap, Cidr.Valid, Meets;
    ShapeKeeps(m, m', Ref(key, 0));
  }

  lemma MatchKept(m: CidrMap, m': CidrMap, matcher: Matcher, key: string)
    requires SameShape(m, m') && MatchesOnly(m, matcher, key)
    ensures MatchesOnly(m', matcher, key)
  {
    assert InMap(m', Ref(key, 0)) && !InMap(m', Ref(key, 1));
  }

  // ---------- A node associated with two ClusterCIDRs ----------

  /** Releasing the node from the only ClusterCIDR whose selector it matches. */
  lemma ReleaseOne(w: World, node: string, c: Cidr, matcher: Matcher, key: string)
    requires Inv(w) && ClaimsOnlyOf(w, node) && MatchesOnly(w.m, matcher, key) && InFirstRange(w.m, key, c)
    requires DEFAULT_KEY !in w.m && node in At(w.m, Ref(key, 0)).nodes
    ensures var e := ReleaseEvent(node, [c], matcher, ListFor(w.m, key));
            && Enabled(w, e) && Inv(Next(w, e)) && Next(w, e).claims == {} && SameShape(w.m, Next(w, e).m)
            && forall q :: InMap(w.m, q) ==>
                 At(Next(w, e).m, q).nodes == At(w.m, q).nodes - if q == Ref(key, 0) then {node} else {}
  {
    hide ValidMap, IsOrdering, Holds, SameShape, ReleaseCIDR, Meets, Cidr.Valid, Apart, NoNil, InRanges;
    var r, list := Ref(key, 0), ListFor(w.m, key);
    var e := ReleaseEvent(node, [c], matcher, list);
    SingleMatch(w.m, matcher, false, key);
    OneInRange(w.m, r, c);
    assert list == [r];
    assert AllocatedClusterCIDR(w.m, list, node) == Some(r);
    assert Enabled(w, e);
    StepKeepsInv(w, e);
    ReleaseLoses(w.m, list, node, [c]);
    var n := ReleaseExact(w.m, list, node, [c], V4);
  }

  /** Two selectors with one ClusterCIDR each, both of whose ranges the CIDR meets. */
  ghost predicate BothMeet(m: CidrMap, k1: string, k2: string, match1: Matcher, match2: Matcher, c: Cidr)
    requires ValidMap(m)
  {
    && k1 != k2 && DEFAULT_KEY !in m
    && MatchesOnly(m, match1, k1) && MatchesOnly(m, match2, k2) && InFirstRange(m, k1, c) && InFirstRange(m, k2, c)
  }

  lemma BothMeetKept(m: CidrMap, m': CidrMap, k1: string, k2: string, match1: Matcher, match2: Matcher, c: Cidr)
    requires ValidMap(m) && ValidMap(m') && SameShape(m, m') && BothMeet(m, k1, k2, match1, match2, c)
    ensures BothMeet(m', k1, k2, match1, match2, c)
    ensures InMap(m, Ref(k1, 0)) && InMap(m, Ref(k2, 0)) && InMap(m', Ref(k1, 0)) && InMap(m', Ref(k2, 0))
    ensures At(m', Ref(k1, 0)).name == At(m, Ref(k1, 0)).name
  {
    hide ValidMap, MatchesOnly, Meets, Cidr.Valid;
    MatchKept(m, m', match1, k1);
    MatchKept(m, m', match2, k2);
    InRangeKept(m, m', k1, c);
    InRangeKept(m, m', k2, c);
    ShapeKeeps(m, m', Ref(k1, 0));
  }

  /** After the node was occupied under one selector and then under the other, it is associated with both. */
  lemma OccupiedTwice(w: World, k1: string, k2: string, node: string, c: Cidr, match1: Matcher, match2: Matcher)
    returns (e1: Event, e2: Event)
    requires Inv(w) && ClaimsOnlyOf(w, node) && BothMeet(w.m, k1, k2, match1, match2, c)
    ensures Enabled(w, e1) && Inv(Next(w, e1)) && Enabled(Next(w, e1), e2)
    ensures var w' := Next(Next(w, e1), e2);
            && Inv(w') && ClaimsOnlyOf(w', node) && BothMeet(w'.m, k1, k2, match1, match2, c) && SameShape(w.m, w'.m)
            && InMap(w'.m, Ref(k1, 0)) && node in At(w'.m, Ref(k1, 0)).nodes
            && InMap(w'.m, Ref(k2, 0)) && node in At(w'.m, Ref(k2, 0)).nodes
  {
    hide ValidMap, Enabled, Next, SameShape, Inv, HasSet, InFirstRange, MatchesOnly, ListFor;
    InvIsValid(w);
    e1 := OccupyEvent(node, [c], match1, ListFor(w.m, k1));
    OccupyOne(w, node, c, match1, k1);
    var w1 := Next(w, e1);
    InvIsValid(w1);
    BothMeetKept(w.m, w1.m, k1, k2, match1, match2, c);
    e2 := OccupyEvent(node, [c], match2, ListFor(w1.m, k2));
    OccupyOne(w1, node, c, match2, k2);
    var w2 := Next(w1, e2);
    InvIsValid(w2);
    BothMeetKept(w1.m, w2.m, k1, k2, match1, match2, c);
    ShapeTransitive(w.m, w1.m, w2.m);
  }

  lemma TwoMeet(k1: string, s1: Spec, k2: string, s2: Spec, c: Cidr, match1: Matcher, match2: Matcher)
    requires Usable(s1) && Usable(s2) && k1 != k2 && k1 != DEFAULT_KEY && k2 != DEFAULT_KEY
    requires c.Valid() && s1.v4.Some? && s2.v4.Some? && s1.v4.value.Valid() && s2.v4.value.Valid()
    requires Meets(s1.v4.value, c) && Meets(s2.v4.value, c) && c.fam == V4
    requires match1(k1).Matches? && match1(k2) == NoMatch && match2(k1) == NoMatch && match2(k2).Matches?
    requires ValidMap(TwoMap(k1, s1, k2, s2))
    ensures BothMeet(TwoMap(k1, s1, k2, s2), k1, k2, match1, match2, c)
    ensures InMap(TwoMap(k1, s1, k2, s2), Ref(k1, 0)) && At(TwoMap(k1, s1, k2, s2), Ref(k1, 0)).name == s1.name
  {
    hide Usable, ValidMap, Meets, Cidr.Valid, TwoMap;
    TwoFacts(k1, s1, k2, s2);
  }

  /** A run, from any two specs whose IPv4 ranges meet the node's CIDR: the node is occupied under one selector, its
      labels change, it is occupied under another, and released once. It stays associated with the first ClusterCIDR,
      whose deletion is refused although nobody has a claim any more. */
  lemma AssociatedTwice(k1: string, s1: Spec, k2: string, s2: Spec, node: string, c: Cidr, match1: Matcher,
                        match2: Matcher)
    returns (worlds: seq<World>, events: seq<Event>)
    requires Usable(s1) && Usable(s2) && k1 != k2 && k1 != DEFAULT_KEY && k2 != DEFAULT_KEY
    requires c.Valid() && s1.v4.Some? && s2.v4.Some? && s1.v4.value.Valid() && s2.v4.value.Valid()
    requires Meets(s1.v4.value, c) && Meets(s2.v4.value, c) && c.fam == V4
    requires match1(k1).Matches? && match1(k2) == NoMatch && match2(k1) == NoMatch && match2(k2).Matches?
    ensures IsRun(worlds, events) && |worlds| == 7
    ensures var r1, r2 := Ref(k1, 0), Ref(k2, 0);
            && InMap(worlds[4].m, r1) && InMap(worlds[4].m, r2)
            && node in At(worlds[4].m, r1).nodes && node in At(worlds[4].m, r2).nodes
            && worlds[5].claims == {} && InMap(worlds[5].m, r2) && node !in At(worlds[5].m, r2).nodes
            && events[5] == DeleteEvent(k1, s1.name, true, true) && worlds[6].claims == {}
            && InMap(worlds[6].m, r1) && At(worlds[6].m, r1).name == s1.name && node in At(worlds[6].m, r1).nodes
  {
    hide Usable, ValidMap, Enabled, Next, Meets, Cidr.Valid, TwoMap, SameShape, Built, Inv, HasSet, MatchesOnly,
      InFirstRange, ListFor;
    TwoCreated(k1, s1, k2, s2);
    var w1, w2 := World(map[k1 := [Built(s1)]], {}), World(TwoMap(k1, s1, k2, s2), {});
    InvIsValid(w2);
    TwoMeet(k1, s1, k2, s2, c, match1, match2);
    var e2, e3 := OccupiedTwice(w2, k1, k2, node, c, match1, match2);
    var w3 := Next(w2, e2);
    InvIsValid(w3);
    var w4 := Next(w3, e3);
    InvIsValid(w4);
    BothMeetKept(w2.m, w4.m, k1, k2, match1, match2, c);
    ReleaseOne(w4, node, c, match2, k2);
    var e4 := ReleaseEvent(node, [c], match2, ListFor(w4.m, k2));
    var w5 := Next(w4, e4);
    ShapeKeeps(w4.m, w5.m, Ref(k1, 0));
    ShapeKeeps(w4.m, w5.m, Ref(k2, 0));
    var w6 := StuckDeletion(w5, Ref(k1, 0), node);
    worlds := [NOTHING, w1, w2, w3, w4, w5, w6];
    events := [CreateEvent(k1, s1, false), CreateEvent(k2, s2, false), e2, e3, e4,
      DeleteEvent(k1, s1.name, true, true)];
  }

  /** A ClusterCIDR with an associated node is only marked as terminating. */
  lemma StuckDeletion(w: World, r: Ref, node: string) returns (w': World)
    requires Inv(w) && InMap(w.m, r) && node in At(w.m, r).nodes
    ensures var e := DeleteEvent(r.key, At(w.m, r).name, true, true);
            && Enabled(w, e) && w' == Next(w, e) && w'.claims == w.claims
            && InMap(w'.m, r) && At(w'.m, r).name == At(w.m, r).name && node in At(w'.m, r).nodes
  {
    hide ValidMap, Holds, SelfApart, Apart, DeleteClusterCIDR;
    w' := Next(w, DeleteEvent(r.key, At(w.m, r).name, true, true));
    if DeleteClusterCIDR(w.m, r.key, At(w.m, r).name).ok {
      var q := DeletionKeeps(w.m, r.key, At(w.m, r).name, r);
    } else {
      var q := DeletionRefused(w.m, r.key, At(w.m, r).name);
    }
  }

  // ---------- CIDRs coarser than a range ----------

  /** Where one set has marks, and those lie outside a range, the first block of that range is eligible. */
  lemma EligibleBeside(m: CidrMap, r1: Ref, r2: Ref)
    requires ValidMap(m) && (forall q :: InMap(m, q) <==> q == r1 || q == r2) && HasSet(m, r1, V4) && HasSet(m, r2, V4)
    requires At(m, r2).v6.None? && SetAt(m, r2, V4).marks == {}
    requires !Meets(SetAt(m, r1, V4).cfg.cluster, SetAt(m, r2, V4).cfg.cluster)
    ensures FamiliesEligible(m, r2)
  {
    hide ValidMap, Bits.Pow2;
    var cfg := SetAt(m, r2, V4).cfg;
    BlockValid(cfg, 0);
    forall q | HasSet(m, q, V4)
      ensures !MeetsMarked(SetAt(m, q, V4), cfg.Block(0))
    {
      if q == r1 {
        BlocksMiss(SetAt(m, r1, V4), cfg.Block(0), cfg.cluster);
      }
    }
    assert Eligible(m, r2, V4, 0);
  }

  lemma BlocksMiss(s: SetState, d: Cidr, range: Cidr)
    requires s.Valid() && d.Valid() && range.Valid() && Inside(d, range) && !Meets(s.cfg.cluster, range)
    ensures !MeetsMarked(s, d)
  {
    hide Bits.Pow2;
    forall i | i in s.marks
      ensures !Meets(s.cfg.Block(i), d)
    {
      BlockValid(s.cfg, i);
    }
  }

  /** A run in which two nodes hold a common address, from any two specs with disjoint IPv4 ranges of which the second
      lies in the CIDR that a node brings along: the first range takes that CIDR, coarser than itself, and the second
      one then serves a block of the part outside. */
  lemma CoarseCidrServedAgain(key: string, s1: Spec, s2: Spec, n1: string, n2: string, c: Cidr, match1: Matcher,
                              match2: Matcher)
    returns (worlds: seq<PodWorld>, events: seq<PodEvent>)
    requires Usable(s1) && Usable(s2) && key != DEFAULT_KEY && n1 != n2
    requires c.Valid() && s1.v4.Some? && s2.v4.Some? && s2.v6.None? && s1.v4.value.Valid() && s2.v4.value.Valid()
    requires c.fam == V4 && Meets(s1.v4.value, c) && Inside(s2.v4.value, c) && !Meets(s1.v4.value, s2.v4.value)
    requires match1(key).Matches? && match1(DEFAULT_KEY) == NoMatch && match2(key) == match2(DEFAULT_KEY) == NoMatch
    ensures IsPodRun(worlds, events) && |worlds| == 5
    ensures n1 in worlds[4].pods && n2 in worlds[4].pods && worlds[4].pods[n1] == [c]
    ensures !Apart(worlds[4].pods[n1], worlds[4].pods[n2])
  {
    hide Usable, ValidMap, Enabled, Next, Meets, Inside, Cidr.Valid, TwoMap, SameShape, Built, DefaultRefs, Inv, Apart,
      AllocateNode, FamiliesEligible;
    TwoCreated(key, s1, DEFAULT_KEY, s2);
    var w1, w2 := World(map[key := [Built(s1)]], {}), World(TwoMap(key, s1, DEFAULT_KEY, s2), {});
    InvIsValid(NOTHING);
    InvIsValid(w1);
    InvIsValid(w2);
    TwoFacts(key, s1, DEFAULT_KEY, s2);
    OccupyOne(w2, n1, c, match1, key);
    var e2 := OccupyEvent(n1, [c], match1, ListFor(w2.m, key));
    var w3 := Next(w2, e2);
    InvIsValid(w3);
    var e3, d := ServedBeside(w2.m, w3, key, n2, match2);
    InsideMeets(d, s2.v4.value, c);
    var a := AllocateNode(w3.m, e3.list, n2, Listed([]), CONFIRMED);
    NotApart(c, d, a.cidrs);
    var p0, p1, p2 := PodWorld(NOTHING, map[]), PodWorld(w1, map[]), PodWorld(w2, map[]);
    var p3, p4 := PodWorld(w3, map[n1 := [c]]), PodWorld(Next(w3, e3), map[n1 := [c], n2 := a.cidrs]);
    assert map[][n1 := [c]] == map[n1 := [c]] && map[n1 := [c]][n2 := a.cidrs] == map[n1 := [c], n2 := a.cidrs];
    worlds := [p0, p1, p2, p3, p4];
    events := [PodEvent(CreateEvent(key, s1, false), false), PodEvent(CreateEvent(DEFAULT_KEY, s2, false), false),
               PodEvent(e2, false), PodEvent(e3, false)];
  }

  lemma NotApart(c: Cidr, d: Cidr, cidrs: seq<Cidr>)
    requires cidrs != [] && cidrs[0] == d && c.Valid() && d.Valid() && Meets(d, c)
    ensures !Apart([c], cidrs)
  {
    assert !Clear([c][0], cidrs[0]);
  }

  /** The catch-all range next to another one serves a node. */
  lemma ServedBeside(m: CidrMap, w: World, key: string, node: string, matcher: Matcher) returns (e: Event, d: Cidr)
    requires ValidMap(m) && Inv(w) && SameShape(m, w.m) && key != DEFAULT_KEY && m.Keys == {key, DEFAULT_KEY}
    requires forall q :: InMap(m, q) <==> q == Ref(key, 0) || q == FIRST
    requires HasSet(m, Ref(key, 0), V4) && HasSet(m, FIRST, V4) && At(m, FIRST).v6.None?
    requires !Meets(SetAt(m, Ref(key, 0), V4).cfg.cluster, SetAt(m, FIRST, V4).cfg.cluster)
    requires HasSet(w.m, FIRST, V4) && SetAt(w.m, FIRST, V4).marks == {}
    requires matcher(key) == matcher(DEFAULT_KEY) == NoMatch
    ensures e == AllocateEvent(node, matcher, DefaultRefs(w.m), Listed([]), CONFIRMED) && Enabled(w, e)
    ensures InMapAll(w.m, e.list)
    ensures var a := AllocateNode(w.m, e.list, node, Listed([]), CONFIRMED);
            && a.home.Some? && a.outcome.Assigned? && a.cidrs != [] && a.cidrs[0] == d
            && d.Valid() && Inside(d, SetAt(m, FIRST, V4).cfg.cluster)
  {
    hide ValidMap, AllocateNode, FamiliesEligible, PrioritizedCIDRs, Meets, Inside, Cidr.Valid, IsOrdering, DefaultRefs,
      UpdateOutcome, Reserved, Holds, SelfApart, Apart;
    var r := Ref(key, 0);
    ShapeKeeps(m, w.m, r);
    ShapeKeeps(m, w.m, FIRST);
    EligibleBeside(w.m, r, FIRST);
    DefaultServes(w.m, matcher, node, Listed([]), CONFIRMED);
    e := AllocateEvent(node, matcher, DefaultRefs(w.m), Listed([]), CONFIRMED);
    var a := AllocateNode(w.m, e.list, node, Listed([]), CONFIRMED);
    AssignedIff(a.cidrs, Listed([]), CONFIRMED);
    AttemptReservation(w.m, e.list, node, Listed([]), CONFIRMED);
    d := a.cidrs[0];
    ReservedInside(w.m, PrioritizedCIDRs(w.m, e.list).m, FIRST, d);
    assert d.fam == V4;
  }
}
