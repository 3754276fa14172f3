/** Safety over whole runs of the allocator.

A `Claim` records CIDRs that were promised to a node out of a ClusterCIDR. It is
live once the controller has associated the node (a confirmed patch, or an
occupied CIDR); it is pending when the outcome of the patch is unknown. The
theorems say that claims are pairwise disjoint and backed by marks in a mapped
ClusterCIDR, after every run of node and ClusterCIDR events.
 */
module Safety {
  import opened Cidrs
  import opened Blocks
  import opened SetSpec
  import opened AllocatorSpec
  import opened Frames
  import opened Prioritize
  import opened Assign
  import opened Ordering
  import opened Lifecycle

  datatype Claim = Claim(node: string, key: string, name: string, cidrs: seq<Cidr>, live: bool)

  // ---------- The invariant ----------

  /** c is made of whole blocks of the ClusterCIDR's set of its family, and all of them are marked. */
  ghost predicate Protected(cc: CC, c: Cidr) {
    && cc.Valid() && c.Valid() && cc.SetFor(c.fam).Some?
    && Suits(cc.SetFor(c.fam).value.cfg, c) && Covers(cc.SetFor(c.fam).value, c)
  }

  ghost predicate ClaimAt(cc: CC, claim: Claim) {
    && cc.name == claim.name
    && (claim.live ==> claim.node in cc.nodes)
    && (forall j :: 0 <= j < |claim.cidrs| ==> Protected(cc, claim.cidrs[j]))
  }

  /** The claim's home is mapped, associated with the node if the claim is live, and protects its CIDRs. */
  ghost predicate Holds(m: CidrMap, claim: Claim) {
    exists r :: InMap(m, r) && r.key == claim.key && ClaimAt(At(m, r), claim)
  }

  /** Two networks without a common address. */
  ghost predicate Clear(c: Cidr, d: Cidr) {
    c.Valid() && d.Valid() && !Meets(c, d)
  }

  ghost predicate Apart(x: seq<Cidr>, y: seq<Cidr>) {
    forall i, j :: 0 <= i < |x| && 0 <= j < |y| ==> Clear(x[i], y[j])
  }

  ghost predicate SelfApart(x: seq<Cidr>) {
    forall i, j :: 0 <= i < j < |x| ==> Clear(x[i], x[j])
  }

  datatype World = World(m: CidrMap, claims: set<Claim>)

  ghost predicate Inv(w: World) {
    && ValidMap(w.m)
    && (forall a :: a in w.claims ==> Holds(w.m, a) && SelfApart(a.cidrs))
    && (forall a, b :: a in w.claims && b in w.claims && a != b ==> Apart(a.cidrs, b.cidrs))
  }

  // ---------- Events ----------

  datatype Event =
    | AllocateEvent(node: string, matcher: Matcher, list: seq<Ref>, lister: Lister, patches: seq<Patch>)
    | OccupyEvent(node: string, cidrs: seq<Cidr>, matcher: Matcher, list: seq<Ref>)
    | ReleaseEvent(node: string, cidrs: seq<Cidr>, matcher: Matcher, list: seq<Ref>)
    | CreateEvent(key: string, spec: Spec, terminating: bool)
    | DeleteEvent(key: string, name: string, hasFinalizer: bool, updated: bool)
    | ServiceEvent(cidr: Cidr)

  /** The node's CIDRs are disjoint from those of every claim of another node. */
  ghost predicate ApartFromOthers(w: World, node: string, cidrs: seq<Cidr>) {
    forall a :: a in w.claims && a.node != node ==> Apart(a.cidrs, cidrs)
  }

  ghost predicate SuitsAll(m: CidrMap, r: Ref, cidrs: seq<Cidr>)
    requires ValidMap(m)
  {
    forall j :: 0 <= j < |cidrs| ==>
      cidrs[j].Valid() && HasSet(m, r, cidrs[j].fam) && Suits(SetAt(m, r, cidrs[j].fam).cfg, cidrs[j])
  }

  ghost predicate HasLive(w: World, node: string, cidrs: seq<Cidr>) {
    exists a :: a in w.claims && a.live && a.node == node && a.cidrs == cidrs
  }

  /** The release finds CIDRs and a ClusterCIDR to release them in. */
  ghost predicate ReleasesAny(m: CidrMap, list: seq<Ref>, node: string, cidrs: seq<Cidr>)
    requires InMapAll(m, list)
  {
    cidrs != [] && AllocatedClusterCIDR(m, list, node).Some?
  }

  /** A second release of a node finds nothing to do. */
  lemma ReleaseNothing(m: CidrMap, list: seq<Ref>, node: string, cidrs: seq<Cidr>)
    requires ValidMap(m) && NoNilRelease(m, list, node, cidrs) && !ReleasesAny(m, list, node, cidrs)
    ensures ReleaseCIDR(m, list, node, cidrs).m == m
  {
  }

  /** What is asked of the surroundings. CIDRs that a node brings along are disjoint from those claimed by other
      nodes. CIDRs that a release really frees are not claimed by another node. New ClusterCIDRs are valid, and a set
      that is dereferenced is there. */
  ghost predicate Enabled(w: World, e: Event)
    requires ValidMap(w.m)
  {
    match e
    case AllocateEvent(node, matcher, list, lister, patches) =>
      IsOrdering(w.m, matcher, true, list) && |patches| == CIDR_UPDATE_RETRIES
    case OccupyEvent(node, cidrs, matcher, list) =>
      && IsOrdering(w.m, matcher, true, list) && cidrs != [] && NoNilList(w.m, list, cidrs)
      && SelfApart(cidrs) && ApartFromOthers(w, node, cidrs)
    case ReleaseEvent(node, cidrs, matcher, list) =>
      && IsOrdering(w.m, matcher, false, list) && NoNilRelease(w.m, list, node, cidrs)
      && (ReleasesAny(w.m, list, node, cidrs) ==> ApartFromOthers(w, node, cidrs))
    case CreateEvent(key, spec, terminating) => ValidSpec(spec)
    case DeleteEvent(key, name, hasFinalizer, updated) => true
    case ServiceEvent(cidr) => cidr.Valid() && AllHave(w.m, cidr.fam)
  }

  lemma EnabledList(w: World, e: Event)
    requires ValidMap(w.m) && Enabled(w, e)
    ensures e.AllocateEvent? || e.OccupyEvent? || e.ReleaseEvent? ==> InMapAll(w.m, e.list)
    ensures e.AllocateEvent? ==> e.patches != []
  {
    match e
    case AllocateEvent(node, matcher, list, lister, patches) => OrderingMembers(w.m, matcher, true, list);
    case OccupyEvent(node, cidrs, matcher, list) => OrderingMembers(w.m, matcher, true, list);
    case ReleaseEvent(node, cidrs, matcher, list) => OrderingMembers(w.m, matcher, false, list);
    case _ =>
  }

  /** The home an event chooses is mapped. */
  lemma EnabledHome(w: World, e: Event)
    requires ValidMap(w.m) && Enabled(w, e)
    ensures e.AllocateEvent? ==>
              && InMapAll(w.m, e.list) && e.patches != []
              && var a := AllocateNode(w.m, e.list, e.node, e.lister, e.patches);
              a.home.Some? ==> InMap(w.m, a.home.value)
    ensures e.OccupyEvent? ==>
              var o := OccupyCIDRs(w.m, e.list, e.node, e.cidrs);
              o.home.Some? ==> InMap(w.m, o.home.value)
  {
    hide ValidMap, IsOrdering, SelfApart, Apart, AllocateNode, OccupyCIDRs, SameShape, SameMarks, AllReserved,
      OnePerFamily;
    EnabledList(w, e);
    if e.AllocateEvent? {
      ConservationByOutcome(w.m, e.list, e.node, e.lister, e.patches);
    } else if e.OccupyEvent? {
      OccupiedHolds(w.m, e.list, e.node, e.cidrs);
    }
  }

  /** The map after the event. */
  ghost function NextMap(w: World, e: Event): CidrMap
    requires ValidMap(w.m) && Enabled(w, e)
  {
    EnabledList(w, e);
    match e
    case AllocateEvent(node, matcher, list, lister, patches) => AllocateNode(w.m, list, node, lister, patches).m
    case OccupyEvent(node, cidrs, matcher, list) => OccupyCIDRs(w.m, list, node, cidrs).m
    case ReleaseEvent(node, cidrs, matcher, list) => ReleaseCIDR(w.m, list, node, cidrs).m
    case CreateEvent(key, spec, terminating) => CreateClusterCIDR(w.m, key, spec, terminating).m
    case DeleteEvent(key, name, hasFinalizer, updated) => ReconcileDelete(w.m, key, name, hasFinalizer, updated).m
    case ServiceEvent(cidr) => FilterOutServiceRange(w.m, cidr)
  }

  ghost function NewClaim(m: CidrMap, r: Ref, node: string, cidrs: seq<Cidr>, live: bool): Claim
    requires InMap(m, r)
  {
    Claim(node, r.key, At(m, r).name, cidrs, live)
  }

  /** Claims of other nodes. */
  ghost function ClaimsOfOthers(claims: set<Claim>, node: string): set<Claim> {
    set a | a in claims && a.node != node
  }

  /** Claims that a deletion of the ClusterCIDR leaves: a pending claim goes with its home. */
  ghost function ClaimsAfterUnmap(claims: set<Claim>, key: string, name: string): set<Claim> {
    set a | a in claims && (a.live || a.key != key || a.name != name)
  }

  /** The claims after the event: an attempt that keeps its blocks makes a claim, live if the patch was confirmed;
      occupied CIDRs make a live claim if they are whole blocks of the range; a released node has none. */
  ghost function NextClaims(w: World, e: Event): set<Claim>
    requires ValidMap(w.m) && Enabled(w, e)
  {
    EnabledList(w, e);
    EnabledHome(w, e);
    match e
    case AllocateEvent(node, matcher, list, lister, patches) =>
      var a := AllocateNode(w.m, list, node, lister, patches);
      if a.home.None? || GivesBack(a.outcome) then w.claims
      else w.claims + {NewClaim(w.m, a.home.value, node, a.cidrs, a.outcome.Assigned?)}
    case OccupyEvent(node, cidrs, matcher, list) =>
      var o := OccupyCIDRs(w.m, list, node, cidrs);
      if o.home.None? || HasLive(w, node, cidrs) || !SuitsAll(w.m, o.home.value, cidrs) then w.claims
      else ClaimsOfOthers(w.claims, node) + {NewClaim(w.m, o.home.value, node, cidrs, true)}
    case ReleaseEvent(node, cidrs, matcher, list) => ClaimsOfOthers(w.claims, node)
    case DeleteEvent(key, name, hasFinalizer, updated) =>
      if hasFinalizer && DeleteClusterCIDR(w.m, key, name).ok then ClaimsAfterUnmap(w.claims, key, name) else w.claims
    case _ => w.claims
  }

  ghost function Next(w: World, e: Event): World
    requires ValidMap(w.m) && Enabled(w, e)
  {
    World(NextMap(w, e), NextClaims(w, e))
  }

  // ---------- Claims survive frames ----------

  lemma ProtectedKept(a: CC, b: CC, freed: set<Cidr>, left: set<string>, c: Cidr)
    requires a.Valid() && b.Valid() && Keeps(a, b, freed, left) && Protected(a, c)
    requires forall d :: d in freed ==> Clear(c, d)
    ensures Protected(b, c)
  {
    hide Bits.Pow2, Config.Block, Config.Valid;
    var s, s' := a.SetFor(c.fam).value, b.SetFor(c.fam).value;
    forall i | i in MeetingBlocks(s.cfg, c)
      ensures i in s'.marks
    {
      if Freed(s.cfg, i, freed) {
        var d :| d in freed && d.Valid() && i in MeetingBlocks(s.cfg, d);
        WholeBlocksNotShared(s.cfg, d, c);
      }
    }
  }

  lemma ClaimKept(m: CidrMap, m': CidrMap, freed: set<Cidr>, left: set<string>, claim: Claim)
    requires ValidMap(m) && ValidMap(m') && Frame(m, m', freed, left) && Holds(m, claim)
    requires claim.live ==> claim.node !in left
    requires forall d, j :: d in freed && 0 <= j < |claim.cidrs| ==> Clear(claim.cidrs[j], d)
    ensures Holds(m', claim)
  {
    hide Protected, Clear, CC.Valid;
    var r :| InMap(m, r) && r.key == claim.key && ClaimAt(At(m, r), claim);
    forall j | 0 <= j < |claim.cidrs|
      ensures Protected(At(m', r), claim.cidrs[j])
    {
      ProtectedKept(At(m, r), At(m', r), freed, left, claim.cidrs[j]);
    }
    assert ClaimAt(At(m', r), claim);
  }

  /** A frame that frees nothing claimed keeps every claim. */
  lemma ClaimsKept(w: World, m': CidrMap, freed: set<Cidr>, left: set<string>, claims: set<Claim>)
    requires Inv(w) && ValidMap(m') && Frame(w.m, m', freed, left) && claims <= w.claims
    requires forall a :: a in claims && a.live ==> a.node !in left
    requires forall a, d, j :: a in claims && d in freed && 0 <= j < |a.cidrs| ==> Clear(a.cidrs[j], d)
    ensures Inv(World(m', claims))
  {
    hide Frame, ValidMap, Holds, SelfApart, Apart, Clear;
    forall a | a in claims
      ensures Holds(m', a)
    {
      ClaimKept(w.m, m', freed, left, a);
    }
  }

  /** CIDRs apart from the claims' may be freed. */
  lemma FreedApart(claims: set<Claim>, cidrs: seq<Cidr>)
    requires forall a :: a in claims ==> Apart(a.cidrs, cidrs)
    ensures forall a, d, j :: a in claims && d in Elements(cidrs) && 0 <= j < |a.cidrs| ==> Clear(a.cidrs[j], d)
  {
    hide Clear, Elements;
  }

  // ---------- New claims ----------

  /** What is disjoint from every allocated block is disjoint from every claim. */
  lemma EligibleApart(m: CidrMap, claim: Claim, c: Cidr, j: nat)
    requires ValidMap(m) && Holds(m, claim) && c.Valid() && !OverlapsAllocatedList(m, c) && j < |claim.cidrs|
    ensures Clear(claim.cidrs[j], c)
  {
    hide Bits.Pow2, Config.Block, Config.Valid;
    var r :| InMap(m, r) && r.key == claim.key && ClaimAt(At(m, r), claim);
    assert Protected(At(m, r), claim.cidrs[j]);
    if claim.cidrs[j].fam == c.fam {
      assert HasSet(m, r, c.fam);
      CoveredIsProtected(SetAt(m, r, c.fam), claim.cidrs[j], c);
    }
  }

  /** A reserved block was disjoint from everything allocated, and is protected from then on. */
  lemma ReservedProtected(m: CidrMap, m': CidrMap, r: Ref, c: Cidr)
    requires ValidMap(m) && ValidMap(m') && Reserved(m, m', r, c)
    ensures c.Valid() && !OverlapsAllocatedList(m, c)
    ensures Protected(At(m', r), c)
  {
    hide Bits.Pow2;
    var s := SetAt(m, r, c.fam);
    var i: nat :| i < s.cfg.Max() && ReservedAt(m, m', r, c, i);
    BlockMeetsItself(s.cfg, i);
    BlockValid(s.cfg, i);
  }

  /** Adding a claim that holds and is disjoint from the others keeps the invariant. */
  lemma AddClaim(w: World, claim: Claim)
    requires Inv(w) && Holds(w.m, claim) && SelfApart(claim.cidrs)
    requires forall a :: a in w.claims ==> Apart(a.cidrs, claim.cidrs)
    ensures Inv(World(w.m, w.claims + {claim}))
  {
    hide ValidMap, Holds, SelfApart;
    forall a | a in w.claims
      ensures Apart(a.cidrs, claim.cidrs) && Apart(claim.cidrs, a.cidrs)
    {
      ApartSymmetric(a.cidrs, claim.cidrs);
    }
  }

  lemma ApartSymmetric(x: seq<Cidr>, y: seq<Cidr>)
    requires Apart(x, y)
    ensures Apart(y, x)
  {
    forall i, j | 0 <= i < |y| && 0 <= j < |x|
      ensures Clear(y[i], x[j])
    {
      assert Clear(x[j], y[i]);
    }
  }

  // ---------- Steps ----------

  /** The reserved blocks of an attempt are disjoint from every claim and from each other. */
  lemma ReservationApart(w: World, m': CidrMap, r: Ref, cidrs: seq<Cidr>)
    requires Inv(w) && ValidMap(m') && InMap(w.m, r)
    requires OnePerFamily(At(w.m, r), cidrs) && AllReserved(w.m, m', r, cidrs)
    ensures SelfApart(cidrs)
    ensures forall a :: a in w.claims ==> Apart(a.cidrs, cidrs)
  {
    hide ValidMap, Holds, Meets, Cidr.Valid, Reserved, Protected, OverlapsAllocatedList, Clear;
    forall j | 0 <= j < |cidrs|
      ensures cidrs[j].Valid() && !OverlapsAllocatedList(w.m, cidrs[j])
    {
      ReservedProtected(w.m, m', r, cidrs[j]);
    }
    forall a, i, j | a in w.claims && 0 <= i < |a.cidrs| && 0 <= j < |cidrs|
      ensures Clear(a.cidrs[i], cidrs[j])
    {
      EligibleApart(w.m, a, cidrs[j], i);
    }
    forall i, j | 0 <= i < j < |cidrs|
      ensures Clear(cidrs[i], cidrs[j])
    {
      FamiliesClear(cidrs[i], cidrs[j]);
    }
  }

  lemma FamiliesClear(c: Cidr, d: Cidr)
    requires c.Valid() && d.Valid() && c.fam != d.fam
    ensures Clear(c, d)
  {
  }

  lemma ReservationHolds(m: CidrMap, m': CidrMap, r: Ref, node: string, cidrs: seq<Cidr>, live: bool)
    requires ValidMap(m) && ValidMap(m') && SameShape(m, m') && InMap(m, r) && AllReserved(m, m', r, cidrs)
    requires live ==> node in At(m', r).nodes
    ensures Holds(m', NewClaim(m, r, node, cidrs, live))
  {
    hide ValidMap, Reserved, Protected;
    forall j | 0 <= j < |cidrs|
      ensures Protected(At(m', r), cidrs[j])
    {
      ReservedProtected(m, m', r, cidrs[j]);
    }
    assert ClaimAt(At(m', r), NewClaim(m, r, node, cidrs, live));
  }

  lemma AllocateKeepsInv(w: World, e: Event)
    requires Inv(w) && Enabled(w, e) && e.AllocateEvent?
    ensures Inv(Next(w, e))
  {
    hide ValidMap, SameShape, Frame, Holds, SelfApart, Apart, Reserved, AllocateNode, SameMarks, IsOrdering,
      PrioritizedCIDRs;
    EnabledList(w, e);
    var a := AllocateNode(w.m, e.list, e.node, e.lister, e.patches);
    AttemptKeepsMarks(w.m, e.list, e.node, e.lister, e.patches);
    ClaimsKept(w, a.m, {}, {}, w.claims);
    ConservationByOutcome(w.m, e.list, e.node, e.lister, e.patches);
    if a.home.Some? && !GivesBack(a.outcome) {
      var r := a.home.value;
      ReservationApart(w, a.m, r, a.cidrs);
      ReservationHolds(w.m, a.m, r, e.node, a.cidrs, a.outcome.Assigned?);
      AddClaim(World(a.m, w.claims), NewClaim(w.m, r, e.node, a.cidrs, a.outcome.Assigned?));
    }
  }

  /** Occupying succeeds in one ClusterCIDR only by marking every block the CIDRs meet. */
  lemma {:induction false} OccupyAllMarks(m: CidrMap, r: Ref, cidrs: seq<Cidr>, j: nat)
    requires ValidMap(m) && NoNil(m, r, cidrs) && OccupyAll(m, r, cidrs).ok && j < |cidrs|
    ensures var m' := OccupyAll(m, r, cidrs).m;
            && HasSet(m', r, cidrs[j].fam)
            && MeetingBlocks(SetAt(m', r, cidrs[j].fam).cfg, cidrs[j]) <= SetAt(m', r, cidrs[j].fam).marks
    decreases |cidrs|
  {
    hide ValidMap, SameShape, Frame, Cidr.Valid;
    var o := OccupyAt(m, r, cidrs[0]);
    NoNilKept(m, o.value, r, cidrs[1..]);
    if j > 0 {
      OccupyAllMarks(o.value, r, cidrs[1..], j - 1);
    } else {
      OccupyAllFrame(o.value, r, cidrs[1..]);
      MarksKept(o.value, OccupyAll(o.value, r, cidrs[1..]).m, r, cidrs[0].fam);
    }
  }

  lemma MarksKept(m: CidrMap, m': CidrMap, r: Ref, fam: Family)
    requires ValidMap(m) && ValidMap(m') && Frame(m, m', {}, {}) && HasSet(m, r, fam)
    ensures HasSet(m', r, fam) && SetAt(m', r, fam).cfg == SetAt(m, r, fam).cfg
    ensures SetAt(m, r, fam).marks <= SetAt(m', r, fam).marks
  {
    hide CC.Valid, MeetingBlocks;
    assert Keeps(At(m, r), At(m', r), {}, {});
  }

  lemma {:induction false} OccupiedHolds(m: CidrMap, list: seq<Ref>, node: string, cidrs: seq<Cidr>)
    requires ValidMap(m) && InMapAll(m, list) && NoNilList(m, list, cidrs)
    ensures var o := OccupyCIDRs(m, list, node, cidrs);
            o.home.Some? ==>
              && o.home.value in list && InMap(m, o.home.value)
              && (SuitsAll(m, o.home.value, cidrs) ==> Holds(o.m, NewClaim(m, o.home.value, node, cidrs, true)))
    decreases |list|
  {
    hide ValidMap, SameShape, OccupyAll, Holds, SuitsAll, NoNil, InRanges, Associate;
    if list != [] {
      var o := OccupyAll(m, list[0], cidrs);
      ShapeKeeps(m, o.m, list[0]);
      if o.ok {
        if SuitsAll(m, list[0], cidrs) {
          AssociatedHolds(m, list[0], node, cidrs);
        }
      } else {
        NoNilListKept(m, o.m, list[1..], cidrs);
        ShapeInMapAll(m, o.m, list);
        OccupiedHolds(o.m, list[1..], node, cidrs);
        var rest := OccupyCIDRs(o.m, list[1..], node, cidrs);
        if rest.home.Some? {
          ShapeBack(m, o.m, rest.home.value);
          SuitsShape(m, o.m, rest.home.value, cidrs);
        }
      }
    }
  }

  lemma ShapeInMapAll(m: CidrMap, m': CidrMap, list: seq<Ref>)
    requires SameShape(m, m') && InMapAll(m, list)
    ensures InMapAll(m', list)
  {
  }

  lemma ShapeBack(m: CidrMap, m': CidrMap, r: Ref)
    requires SameShape(m, m') && InMap(m', r)
    ensures InMap(m, r) && At(m, r).name == At(m', r).name
  {
  }

  lemma SuitsShape(m: CidrMap, m': CidrMap, r: Ref, cidrs: seq<Cidr>)
    requires ValidMap(m) && ValidMap(m') && SameShape(m, m') && InMap(m, r)
    ensures SuitsAll(m, r, cidrs) ==> SuitsAll(m', r, cidrs)
  {
    hide ValidMap, Suits, Cidr.Valid;
    ShapeKeeps(m, m', r);
  }

  lemma AssociatedHolds(m: CidrMap, r: Ref, node: string, cidrs: seq<Cidr>)
    requires ValidMap(m) && NoNil(m, r, cidrs) && OccupyAll(m, r, cidrs).ok && SuitsAll(m, r, cidrs)
    ensures InMap(OccupyAll(m, r, cidrs).m, r)
    ensures Holds(Associate(OccupyAll(m, r, cidrs).m, r, node), NewClaim(m, r, node, cidrs, true))
  {
    hide OccupyAll, Cidr.Valid, Bits.Pow2, Config.Block, SameShape;
    var o := OccupyAll(m, r, cidrs);
    ShapeKeeps(m, o.m, r);
    var m' := Associate(o.m, r, node);
    forall j | 0 <= j < |cidrs|
      ensures Protected(At(m', r), cidrs[j])
    {
      OccupyAllMarks(m, r, cidrs, j);
      assert At(m', r).Valid();
    }
    assert ClaimAt(At(m', r), NewClaim(m, r, node, cidrs, true));
  }

  lemma OccupyKeepsInv(w: World, e: Event)
    requires Inv(w) && Enabled(w, e) && e.OccupyEvent?
    ensures Inv(Next(w, e))
  {
    hide ValidMap, SameShape, Frame, Holds, SelfApart, OccupyCIDRs, SuitsAll, Apart, IsOrdering, HasLive;
    EnabledList(w, e);
    var o := OccupyCIDRs(w.m, e.list, e.node, e.cidrs);
    OccupyCIDRsFrame(w.m, e.list, e.node, e.cidrs);
    OccupiedHolds(w.m, e.list, e.node, e.cidrs);
    if o.home.None? || HasLive(w, e.node, e.cidrs) || !SuitsAll(w.m, o.home.value, e.cidrs) {
      ClaimsKept(w, o.m, {}, {}, w.claims);
    } else {
      var others := ClaimsOfOthers(w.claims, e.node);
      ClaimsKept(w, o.m, {}, {}, others);
      AddClaim(World(o.m, others), NewClaim(w.m, o.home.value, e.node, e.cidrs, true));
    }
  }

  lemma ReleaseKeepsInv(w: World, e: Event)
    requires Inv(w) && Enabled(w, e) && e.ReleaseEvent?
    ensures Inv(Next(w, e))
  {
    hide ValidMap, SameShape, Frame, Holds, SelfApart, Apart, ReleaseCIDR, IsOrdering;
    EnabledList(w, e);
    var others := ClaimsOfOthers(w.claims, e.node);
    if ReleasesAny(w.m, e.list, e.node, e.cidrs) {
      ReleaseCIDRFrame(w.m, e.list, e.node, e.cidrs);
      FreedApart(others, e.cidrs);
      ClaimsKept(w, ReleaseCIDR(w.m, e.list, e.node, e.cidrs).m, Elements(e.cidrs), {e.node}, others);
    } else {
      ReleaseNothing(w.m, e.list, e.node, e.cidrs);
      FrameReflexive(w.m);
      ClaimsKept(w, w.m, {}, {}, others);
    }
  }

  lemma CreateKeepsInv(w: World, e: Event)
    requires Inv(w) && Enabled(w, e) && e.CreateEvent?
    ensures Inv(Next(w, e))
  {
    hide ValidMap, ValidSpec, SelfApart, Apart, ClaimAt, CreateClusterCIDRSet;
    var m' := CreateClusterCIDR(w.m, e.key, e.spec, e.terminating).m;
    forall a | a in w.claims
      ensures Holds(m', a)
    {
      var r :| InMap(w.m, r) && r.key == a.key && ClaimAt(At(w.m, r), a);
      assert InMap(m', r) && At(m', r) == At(w.m, r);
    }
  }

  /** Deleting never drops a live claim: its home has an associated node. */
  lemma DeleteKeepsInv(w: World, e: Event)
    requires Inv(w) && Enabled(w, e) && e.DeleteEvent?
    ensures Inv(Next(w, e))
  {
    hide ValidMap, SelfApart, Apart, Holds, DeleteClusterCIDR;
    if e.hasFinalizer {
      var m' := DeleteClusterCIDR(w.m, e.key, e.name).m;
      DeletedValid(w.m, e.key, e.name);
      forall a | a in NextClaims(w, e)
        ensures Holds(m', a)
      {
        DeleteKeepsClaim(w.m, e.key, e.name, a);
      }
    }
  }

  lemma DeleteKeepsClaim(m: CidrMap, key: string, name: string, a: Claim)
    requires ValidMap(m) && Holds(m, a)
    requires DeleteClusterCIDR(m, key, name).ok ==> a.live || a.key != key || a.name != name
    ensures Holds(DeleteClusterCIDR(m, key, name).m, a)
  {
    hide ValidMap, Protected, DeleteClusterCIDR;
    var d := DeleteClusterCIDR(m, key, name);
    var r :| InMap(m, r) && r.key == a.key && ClaimAt(At(m, r), a);
    if d.ok {
      var q := DeletionKeeps(m, key, name, r);
      assert InMap(d.m, q) && ClaimAt(At(d.m, q), a);
    } else {
      var t := DeletionRefused(m, key, name);
      TerminatingIrrelevant(At(m, r), a);
      assert InMap(d.m, r) && ClaimAt(At(d.m, r), a);
    }
  }

  lemma TerminatingIrrelevant(cc: CC, a: Claim)
    ensures ClaimAt(cc.(terminating := true), a) <==> ClaimAt(cc, a)
  {
    hide Suits, Covers;
    assert forall c :: Protected(cc.(terminating := true), c) <==> Protected(cc, c);
  }

  lemma ServiceKeepsInv(w: World, e: Event)
    requires Inv(w) && Enabled(w, e) && e.ServiceEvent?
    ensures Inv(Next(w, e))
  {
    hide ValidMap, Frame, Holds, SelfApart, Apart, FilterOutServiceRange;
    ServiceRangeMarked(w.m, e.cidr);
    ClaimsKept(w, FilterOutServiceRange(w.m, e.cidr), {}, {}, w.claims);
  }

  /** Every event keeps the invariant. */
  lemma StepKeepsInv(w: World, e: Event)
    requires Inv(w) && Enabled(w, e)
    ensures Inv(Next(w, e))
  {
    hide Inv, Enabled, Next;
    match e
    case AllocateEvent(node, matcher, list, lister, patches) => AllocateKeepsInv(w, e);
    case OccupyEvent(node, cidrs, matcher, list) => OccupyKeepsInv(w, e);
    case ReleaseEvent(node, cidrs, matcher, list) => ReleaseKeepsInv(w, e);
    case CreateEvent(key, spec, terminating) => CreateKeepsInv(w, e);
    case DeleteEvent(key, name, hasFinalizer, updated) => DeleteKeepsInv(w, e);
    case ServiceEvent(cidr) => ServiceKeepsInv(w, e);
  }

  // ---------- Runs ----------

  /** worlds[t] is the world before events[t]; a run begins with nothing mapped and nothing claimed. */
  ghost predicate IsRun(worlds: seq<World>, events: seq<Event>) {
    && |worlds| == |events| + 1
    && worlds[0] == World(map[], {})
    && (forall t :: 0 <= t < |events| && ValidMap(worlds[t].m) ==>
          Enabled(worlds[t], events[t]) && worlds[t + 1] == Next(worlds[t], events[t]))
  }

  lemma {:induction false} RunKeepsInv(worlds: seq<World>, events: seq<Event>, t: nat)
    requires IsRun(worlds, events) && t < |worlds|
    ensures Inv(worlds[t])
  {
    hide Enabled, Next;
    if t != 0 {
      RunKeepsInv(worlds, events, t - 1);
      StepKeepsInv(worlds[t - 1], events[t - 1]);
    }
  }

  /** Safety: in every world of every run, the CIDRs of distinct claims - in particular of live nodes - are
      pairwise disjoint, and each claim has a mapped home ClusterCIDR, associated with the node if the claim is
      live, in whose range its CIDRs lie and which has every block they touch marked. */
  lemma RunSafety(worlds: seq<World>, events: seq<Event>, t: nat)
    requires IsRun(worlds, events) && t < |worlds|
    ensures ValidMap(worlds[t].m)
    ensures forall a, b, i, j ::
              a in worlds[t].claims && b in worlds[t].claims && a != b && 0 <= i < |a.cidrs| && 0 <= j < |b.cidrs| ==>
                Clear(a.cidrs[i], b.cidrs[j])
    ensures forall a :: a in worlds[t].claims ==>
              exists r :: InMap(worlds[t].m, r) && r.key == a.key && At(worlds[t].m, r).name == a.name
                && (a.live ==> a.node in At(worlds[t].m, r).nodes)
                && forall j :: 0 <= j < |a.cidrs| ==> Protected(At(worlds[t].m, r), a.cidrs[j])
  {
    hide Protected, Clear, ValidMap, IsRun;
    RunKeepsInv(worlds, events, t);
    var w := worlds[t];
    forall a | a in w.claims
      ensures exists r :: InMap(w.m, r) && r.key == a.key && At(w.m, r).name == a.name
                && (a.live ==> a.node in At(w.m, r).nodes)
                && forall j :: 0 <= j < |a.cidrs| ==> Protected(At(w.m, r), a.cidrs[j])
    {
      var r :| InMap(w.m, r) && r.key == a.key && ClaimAt(At(w.m, r), a);
    }
    forall a, b, i, j | a in w.claims && b in w.claims && a != b && 0 <= i < |a.cidrs| && 0 <= j < |b.cidrs|
      ensures Clear(a.cidrs[i], b.cidrs[j])
    {
      assert Apart(a.cidrs, b.cidrs);
    }
  }

  // ---------- How long claims last ----------

  /** Only a release of its node, or the node turning up with other CIDRs, ends a live claim. */
  predicate EndsClaim(e: Event, a: Claim) {
    || (e.ReleaseEvent? && e.node == a.node)
    || (e.OccupyEvent? && e.node == a.node && e.cidrs != a.cidrs)
  }

  lemma LiveClaimStays(w: World, e: Event, a: Claim)
    requires Inv(w) && Enabled(w, e) && a in w.claims && a.live && !EndsClaim(e, a)
    ensures a in Next(w, e).claims
  {
    hide ValidMap, IsOrdering, Holds, SelfApart, Apart, AllocateNode, OccupyCIDRs, ReleaseCIDR, DeleteClusterCIDR;
    if e.OccupyEvent? && e.node == a.node {
      assert HasLive(w, e.node, e.cidrs);
    }
  }

  /** From its assignment on, through any run of other events, a node keeps CIDRs that no one else is given. */
  lemma {:induction false} LiveUntilReleased(worlds: seq<World>, events: seq<Event>, t: nat, u: nat, a: Claim)
    requires IsRun(worlds, events) && t <= u < |worlds| && a in worlds[t].claims && a.live
    requires forall s :: t <= s < u ==> !EndsClaim(events[s], a)
    ensures a in worlds[u].claims && Inv(worlds[u])
    decreases u
  {
    hide Enabled, Next, EndsClaim;
    RunKeepsInv(worlds, events, u);
    if t < u {
      LiveUntilReleased(worlds, events, t, u - 1, a);
      LiveClaimStays(worlds[u - 1], events[u - 1], a);
    }
  }

  /** A pending claim - its patch timed out, say, and may have been applied - is not associated with its ClusterCIDR:
      a deletion ends the claim exactly when it names that ClusterCIDR and no other node is associated with it. */
  lemma PendingClaimLost(w: World, e: Event, a: Claim)
    requires Inv(w) && Enabled(w, e) && e.DeleteEvent? && a in w.claims && !a.live
    ensures a !in Next(w, e).claims <==>
              && e.hasFinalizer && e.key == a.key && e.name == a.name
              && forall r :: InMap(w.m, r) && r.key == a.key && At(w.m, r).name == a.name ==> At(w.m, r).nodes == {}
  {
    hide ValidMap, SelfApart, Apart, Protected, DeleteClusterCIDR;
    var r :| InMap(w.m, r) && r.key == a.key && ClaimAt(At(w.m, r), a);
    if DeleteClusterCIDR(w.m, e.key, e.name).ok {
      forall q | InMap(w.m, q) && q.key == e.key && At(w.m, q).name == e.name
        ensures At(w.m, q).nodes == {}
      {
        var q' := DeletionKeeps(w.m, e.key, e.name, q);
      }
    } else {
      var t := DeletionRefused(w.m, e.key, e.name);
    }
  }

  /** Why a released CIDR must not be claimed by another node: releasing it strips a CIDR that the same ClusterCIDR
      protects, whoever it belongs to, as long as the released node is associated there. */
  lemma ReleaseStripsSharedCidr(m: CidrMap, list: seq<Ref>, node: string, c: Cidr, r: Ref)
    requires ValidMap(m) && NoNilRelease(m, list, node, [c])
    requires AllocatedClusterCIDR(m, list, node) == Some(r) && Protected(At(m, r), c)
    ensures var m' := ReleaseCIDR(m, list, node, [c]).m; InMap(m', r) && !Protected(At(m', r), c)
  {
    hide Bits.Pow2, ValidMap;
    var s := SetAt(m, r, c.fam);
    Tiling(s.cfg, c.base);
    var i := BlockOf(s.cfg, c.base);
    assert i in MeetingBlocks(s.cfg, c);
    assert Meets(s.cfg.cluster, c);
    assert [c][1..] == [];
    var m1 := ReleaseAt(m, r, c).value;
    assert ReleaseAll(m, r, [c]) == Change(m1, true);
    assert i !in SetAt(m1, r, c.fam).marks;
  }
}
