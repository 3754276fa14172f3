/** The range allocator as functions on values.

The state is the map from selector keys to lists of ClusterCIDRs; a `Ref` is a
position in it and stands for a pointer to the ClusterCIDR there. Each function
follows one function of multi_cidr_range_allocator.go; the class `RangeAllocator`
is proved to behave as they say.
 */
module AllocatorSpec {
  import opened Cidrs
  import opened Blocks
  import opened SetSpec

  /** ClusterCIDR: one set per configured family, the nodes using it, and the termination mark. */
  datatype CC = CC(name: string, v4: Option<SetState>, v6: Option<SetState>, nodes: set<string>, terminating: bool) {
    ghost predicate Valid() {
      && (v4.Some? || v6.Some?)
      && (v4.Some? ==> v4.value.Valid() && v4.value.cfg.Fam() == V4)
      && (v6.Some? ==> v6.value.Valid() && v6.value.cfg.Fam() == V6)
    }

    /** associatedCIDRSet. */
    function SetFor(fam: Family): Option<SetState> {
      if fam.V4? then v4 else v6
    }

    function With(fam: Family, s: SetState): CC {
      if fam.V4? then this.(v4 := Some(s)) else this.(v6 := Some(s))
    }
  }

  type CidrMap = map<string, seq<CC>>

  datatype Ref = Ref(key: string, idx: nat)

  predicate InMap(m: CidrMap, r: Ref) {
    r.key in m && r.idx < |m[r.key]|
  }

  function At(m: CidrMap, r: Ref): CC
    requires InMap(m, r)
  {
    m[r.key][r.idx]
  }

  function Put(m: CidrMap, r: Ref, cc: CC): (m': CidrMap)
    requires InMap(m, r)
    ensures m'.Keys == m.Keys
    ensures forall q :: InMap(m', q) <==> InMap(m, q)
    ensures forall q :: InMap(m, q) ==> At(m', q) == if q == r then cc else At(m, q)
  {
    m[r.key := m[r.key][r.idx := cc]]
  }

  /** Every mapped ClusterCIDR is well formed, lists are never empty and names are unique in them. */
  ghost predicate ValidMap(m: CidrMap) {
    && (forall k :: k in m ==> m[k] != [])
    && (forall r :: InMap(m, r) ==> At(m, r).Valid())
    && (forall r, q :: InMap(m, r) && InMap(m, q) && r.key == q.key && At(m, r).name == At(m, q).name ==> r == q)
  }

  lemma PutValid(m: CidrMap, r: Ref, cc: CC)
    requires ValidMap(m) && InMap(m, r) && cc.Valid() && cc.name == At(m, r).name
    ensures ValidMap(Put(m, r, cc))
  {
    var m' := Put(m, r, cc);
    assert forall q :: InMap(m', q) ==> InMap(m, q);
    forall k | k in m'
      ensures m'[k] != []
    {
      assert InMap(m', Ref(k, 0)) <==> InMap(m, Ref(k, 0));
    }
  }

  ghost predicate SameSetShape(a: Option<SetState>, b: Option<SetState>) {
    && a.Some? == b.Some?
    && (a.Some? ==> b.value.cfg == a.value.cfg && b.value.cidrLabel == a.value.cidrLabel)
  }

  ghost predicate SameCCShape(a: CC, b: CC) {
    && b.name == a.name && b.terminating == a.terminating
    && SameSetShape(a.v4, b.v4) && SameSetShape(a.v6, b.v6)
  }

  /** The same ClusterCIDRs in the same places; marks, cursors and associated nodes may differ. */
  ghost predicate SameShape(m: CidrMap, m': CidrMap) {
    && m'.Keys == m.Keys
    && (forall r :: InMap(m', r) <==> InMap(m, r))
    && (forall r :: InMap(m, r) ==> SameCCShape(At(m, r), At(m', r)))
  }

  lemma ShapeTransitive(m: CidrMap, m1: CidrMap, m2: CidrMap)
    requires SameShape(m, m1) && SameShape(m1, m2)
    ensures SameShape(m, m2)
  {
  }

  lemma ShapeKeeps(m: CidrMap, m': CidrMap, r: Ref)
    requires SameShape(m, m') && InMap(m, r)
    ensures InMap(m', r) && SameCCShape(At(m, r), At(m', r))
  {
  }

  lemma ShapeSymmetric(m: CidrMap, m': CidrMap)
    requires SameShape(m, m')
    ensures SameShape(m', m)
  {
  }

  lemma ShapeReflexive(m: CidrMap)
    ensures SameShape(m, m)
  {
  }

  ghost predicate HasSet(m: CidrMap, r: Ref, fam: Family) {
    InMap(m, r) && At(m, r).SetFor(fam).Some?
  }

  ghost function SetAt(m: CidrMap, r: Ref, fam: Family): (s: SetState)
    requires ValidMap(m) && HasSet(m, r, fam)
    ensures s.Valid() && s.cfg.Fam() == fam
  {
    At(m, r).SetFor(fam).value
  }

  /** The map with another state for one set. */
  ghost function PutSet(m: CidrMap, r: Ref, fam: Family, s: SetState): (m': CidrMap)
    requires ValidMap(m) && HasSet(m, r, fam) && s.Valid()
    requires s.cfg == SetAt(m, r, fam).cfg && s.cidrLabel == SetAt(m, r, fam).cidrLabel
    ensures ValidMap(m') && SameShape(m, m') && SetAt(m', r, fam) == s
  {
    PutValid(m, r, At(m, r).With(fam, s));
    Put(m, r, At(m, r).With(fam, s))
  }

  // ---------- Occupy and release in one ClusterCIDR ----------

  ghost function OccupyAt(m: CidrMap, r: Ref, c: Cidr): (r': Option<CidrMap>)
    requires ValidMap(m) && c.Valid() && HasSet(m, r, c.fam)
    ensures r'.Some? ==> ValidMap(r'.value) && SameShape(m, r'.value)
  {
    var s := Occupy(SetAt(m, r, c.fam), c);
    if s.None? then None else Some(PutSet(m, r, c.fam, s.value))
  }

  ghost function ReleaseAt(m: CidrMap, r: Ref, c: Cidr): (r': Option<CidrMap>)
    requires ValidMap(m) && c.Valid() && HasSet(m, r, c.fam)
    ensures r'.Some? ==> ValidMap(r'.value) && SameShape(m, r'.value)
  {
    var s := Release(SetAt(m, r, c.fam), c);
    if s.None? then None else Some(PutSet(m, r, c.fam, s.value))
  }

  // ---------- allocateCIDR ----------

  /** cidrInAllocatedList. */
  ghost predicate InAllocatedList(m: CidrMap, c: Cidr)
    requires ValidMap(m)
  {
    exists r :: HasSet(m, r, c.fam) && IsMarked(SetAt(m, r, c.fam), c)
  }

  /** cidrOverlapWithAllocatedList. */
  ghost predicate OverlapsAllocatedList(m: CidrMap, c: Cidr)
    requires ValidMap(m) && c.Valid()
  {
    exists r :: HasSet(m, r, c.fam) && MeetsMarked(SetAt(m, r, c.fam), c)
  }

  datatype Allocation = Allocation(m: CidrMap, block: Option<Cidr>)

  /** The loop of allocateCIDR, entered with `evaluated` ring positions already consumed. */
  ghost function AllocateFrom(m: CidrMap, r: Ref, fam: Family, evaluated: nat): (a: Allocation)
    requires ValidMap(m) && HasSet(m, r, fam)
    ensures ValidMap(a.m) && SameShape(m, a.m)
    ensures a.block.Some? ==> a.block.value.Valid() && a.block.value.fam == fam
    decreases SetAt(m, r, fam).cfg.Max() - evaluated
  {
    hide SameShape, ValidMap, Bits.Pow2;
    ShapeReflexive(m);
    var s := SetAt(m, r, fam);
    if evaluated >= s.cfg.Max() then Allocation(m, None) else
    var next := NextCandidate(s);
    if next.None? then Allocation(m, None) else
    var m1 := PutSet(m, r, fam, next.value.set');
    var candidate := s.cfg.Block(next.value.index);
    BlockValid(s.cfg, next.value.index);
    ShapeKeeps(m, m1, r);
    if InAllocatedList(m1, candidate) || OverlapsAllocatedList(m1, candidate) then
      var a := AllocateFrom(m1, r, fam, evaluated + next.value.skipped + 1);
      ShapeTransitive(m, m1, a.m);
      a
    else
      var occupied := OccupyAt(m1, r, candidate);
      if occupied.None? then Allocation(m1, None) else
      ShapeTransitive(m, m1, occupied.value);
      Allocation(occupied.value, Some(candidate))
  }

  ghost function AllocateCIDR(m: CidrMap, r: Ref, fam: Family): (a: Allocation)
    requires ValidMap(m) && HasSet(m, r, fam)
    ensures ValidMap(a.m) && SameShape(m, a.m)
    ensures a.block.Some? ==> a.block.value.Valid() && a.block.value.fam == fam
  {
    AllocateFrom(m, r, fam, 0)
  }

  // ---------- prioritizedCIDRs ----------

  datatype Reservation = Reservation(m: CidrMap, cidrs: Option<seq<Cidr>>)

  /** The second half of one round of prioritizedCIDRs: the IPv6 block, after the IPv4 one. */
  ghost function TryIPv6(m: CidrMap, r: Ref, cidrs: seq<Cidr>): (a: Reservation)
    requires ValidMap(m) && HasFamilies(m, r, cidrs)
    ensures ValidMap(a.m) && SameShape(m, a.m)
    ensures a.cidrs.Some? ==> HasFamilies(a.m, r, a.cidrs.value)
  {
    hide ValidMap, SameShape, Cidr.Valid;
    ShapeReflexive(m);
    if At(m, r).v6.None? then Reservation(m, Some(cidrs)) else
    var a := AllocateCIDR(m, r, V6);
    FamiliesKept(m, a.m, r, cidrs);
    ShapeKeeps(m, a.m, r);
    if a.block.None? then Reservation(a.m, None) else Reservation(a.m, Some(cidrs + [a.block.value]))
  }

  /** One round of prioritizedCIDRs: a block for each configured family of one ClusterCIDR.
      When the second family fails, the block of the first stays marked. */
  ghost function TryFamilies(m: CidrMap, r: Ref): (a: Reservation)
    requires ValidMap(m) && InMap(m, r)
    ensures ValidMap(a.m) && SameShape(m, a.m)
    ensures a.cidrs.Some? ==> HasFamilies(a.m, r, a.cidrs.value)
  {
    hide SameShape, ValidMap, Cidr.Valid;
    if At(m, r).v4.None? then TryIPv6(m, r, []) else
    var a := AllocateCIDR(m, r, V4);
    ShapeKeeps(m, a.m, r);
    if a.block.None? then Reservation(a.m, None) else
    var b := TryIPv6(a.m, r, [a.block.value]);
    ShapeTransitive(m, a.m, b.m);
    b
  }

  ghost predicate InMapAll(m: CidrMap, list: seq<Ref>) {
    forall j :: 0 <= j < |list| ==> InMap(m, list[j])
  }

  datatype Prioritized = Prioritized(m: CidrMap, chosen: Option<Ref>, cidrs: seq<Cidr>)

  /** prioritizedCIDRs over an ordered list. */
  ghost function PrioritizedCIDRs(m: CidrMap, list: seq<Ref>): (p: Prioritized)
    requires ValidMap(m) && InMapAll(m, list)
    ensures ValidMap(p.m) && SameShape(m, p.m)
    ensures p.chosen.Some? ==> p.chosen.value in list && HasFamilies(p.m, p.chosen.value, p.cidrs)
    decreases |list|
  {
    hide ValidMap;
    if list == [] then Prioritized(m, None, []) else
    var a := TryFamilies(m, list[0]);
    if a.cidrs.Some? then Prioritized(a.m, Some(list[0]), a.cidrs.value) else
    var p := PrioritizedCIDRs(a.m, list[1..]);
    ShapeTransitive(m, a.m, p.m);
    p
  }

  // ---------- Associated nodes ----------

  ghost function SetNodes(m: CidrMap, r: Ref, nodes: set<string>): (m': CidrMap)
    requires ValidMap(m) && InMap(m, r)
    ensures ValidMap(m') && SameShape(m, m')
  {
    PutValid(m, r, At(m, r).(nodes := nodes));
    Put(m, r, At(m, r).(nodes := nodes))
  }

  ghost function Associate(m: CidrMap, r: Ref, node: string): (m': CidrMap)
    requires ValidMap(m) && InMap(m, r)
    ensures ValidMap(m') && SameShape(m, m')
  {
    SetNodes(m, r, At(m, r).nodes + {node})
  }

  ghost function Dissociate(m: CidrMap, r: Ref, node: string): (m': CidrMap)
    requires ValidMap(m) && InMap(m, r)
    ensures ValidMap(m') && SameShape(m, m')
  {
    SetNodes(m, r, At(m, r).nodes - {node})
  }

  // ---------- occupyCIDRs and ReleaseCIDR ----------

  /** The ClusterCIDR has a set for the family of each CIDR. */
  ghost predicate HasFamilies(m: CidrMap, r: Ref, cidrs: seq<Cidr>) {
    InMap(m, r) && forall j :: 0 <= j < |cidrs| ==> cidrs[j].Valid() && HasSet(m, r, cidrs[j].fam)
  }

  lemma FamiliesKept(m: CidrMap, m': CidrMap, r: Ref, cidrs: seq<Cidr>)
    requires SameShape(m, m') && HasFamilies(m, r, cidrs)
    ensures HasFamilies(m', r, cidrs)
  {
  }

  ghost predicate AllValid(cidrs: seq<Cidr>) {
    forall j :: 0 <= j < |cidrs| ==> cidrs[j].Valid()
  }

  /** The CIDR meets the range of the ClusterCIDR's set of its family. */
  ghost predicate InRange(m: CidrMap, r: Ref, c: Cidr)
    requires ValidMap(m) && c.Valid() && HasSet(m, r, c.fam)
  {
    Meets(SetAt(m, r, c.fam).cfg.cluster, c)
  }

  /** Going through the CIDRs up to the first that is out of range, no missing set is dereferenced. */
  ghost predicate NoNil(m: CidrMap, r: Ref, cidrs: seq<Cidr>)
    requires ValidMap(m)
    decreases |cidrs|
  {
    && InMap(m, r) && AllValid(cidrs)
    && (cidrs == [] || (HasSet(m, r, cidrs[0].fam) && (InRange(m, r, cidrs[0]) ==> NoNil(m, r, cidrs[1..]))))
  }

  /** Every CIDR meets the range of its family. */
  ghost predicate InRanges(m: CidrMap, r: Ref, cidrs: seq<Cidr>)
    requires ValidMap(m) && NoNil(m, r, cidrs)
    decreases |cidrs|
  {
    cidrs == [] || (InRange(m, r, cidrs[0]) && InRanges(m, r, cidrs[1..]))
  }

  lemma RangeKept(m: CidrMap, m': CidrMap, r: Ref, c: Cidr)
    requires ValidMap(m) && ValidMap(m') && SameShape(m, m') && c.Valid() && HasSet(m, r, c.fam)
    ensures HasSet(m', r, c.fam) && (InRange(m', r, c) <==> InRange(m, r, c))
  {
    hide ValidMap, Meets, Cidr.Valid;
    ShapeKeeps(m, m', r);
  }

  lemma {:induction false} NoNilKept(m: CidrMap, m': CidrMap, r: Ref, cidrs: seq<Cidr>)
    requires ValidMap(m) && ValidMap(m') && SameShape(m, m') && NoNil(m, r, cidrs)
    ensures NoNil(m', r, cidrs) && (InRanges(m', r, cidrs) <==> InRanges(m, r, cidrs))
    decreases |cidrs|
  {
    hide ValidMap, InRange, Cidr.Valid, SameShape;
    ShapeKeeps(m, m', r);
    if cidrs != [] {
      RangeKept(m, m', r, cidrs[0]);
      if InRange(m, r, cidrs[0]) {
        NoNilKept(m, m', r, cidrs[1..]);
      }
    }
  }

  lemma {:induction false} FamiliesNoNil(m: CidrMap, r: Ref, cidrs: seq<Cidr>)
    requires ValidMap(m) && HasFamilies(m, r, cidrs)
    ensures NoNil(m, r, cidrs)
    decreases |cidrs|
  {
    hide ValidMap, InRange, Cidr.Valid;
    if cidrs != [] {
      FamiliesNoNil(m, r, cidrs[1..]);
    }
  }

  /** The next CIDR can be occupied or released iff it is in range, and nothing is missing for the rest afterwards. */
  lemma NoNilNext(m: CidrMap, r: Ref, cidrs: seq<Cidr>)
    requires ValidMap(m) && NoNil(m, r, cidrs) && cidrs != []
    ensures cidrs[0].Valid() && HasSet(m, r, cidrs[0].fam)
    ensures OccupyAt(m, r, cidrs[0]).Some? <==> InRange(m, r, cidrs[0])
    ensures ReleaseAt(m, r, cidrs[0]).Some? <==> InRange(m, r, cidrs[0])
    ensures OccupyAt(m, r, cidrs[0]).Some? ==> NoNil(OccupyAt(m, r, cidrs[0]).value, r, cidrs[1..])
    ensures ReleaseAt(m, r, cidrs[0]).Some? ==> NoNil(ReleaseAt(m, r, cidrs[0]).value, r, cidrs[1..])
  {
    hide ValidMap, SameShape, Cidr.Valid, Meets;
    if InRange(m, r, cidrs[0]) {
      NoNilKept(m, OccupyAt(m, r, cidrs[0]).value, r, cidrs[1..]);
      NoNilKept(m, ReleaseAt(m, r, cidrs[0]).value, r, cidrs[1..]);
    }
  }

  /** Going through the list up to the first ClusterCIDR that all CIDRs meet, no missing set is dereferenced. */
  ghost predicate NoNilList(m: CidrMap, list: seq<Ref>, cidrs: seq<Cidr>)
    requires ValidMap(m)
    decreases |list|
  {
    list == [] || (NoNil(m, list[0], cidrs) && (!InRanges(m, list[0], cidrs) ==> NoNilList(m, list[1..], cidrs)))
  }

  lemma {:induction false} NoNilListKept(m: CidrMap, m': CidrMap, list: seq<Ref>, cidrs: seq<Cidr>)
    requires ValidMap(m) && ValidMap(m') && SameShape(m, m') && NoNilList(m, list, cidrs)
    ensures NoNilList(m', list, cidrs)
    decreases |list|
  {
    hide ValidMap, SameShape, NoNil, InRanges;
    if list != [] {
      NoNilKept(m, m', list[0], cidrs);
      if !InRanges(m, list[0], cidrs) {
        NoNilListKept(m, m', list[1..], cidrs);
      }
    }
  }

  datatype Change = Change(m: CidrMap, ok: bool)

  /** Occupy the CIDRs one by one in one ClusterCIDR; stop at the first that misses its range. */
  ghost function OccupyAll(m: CidrMap, r: Ref, cidrs: seq<Cidr>): (o: Change)
    requires ValidMap(m) && NoNil(m, r, cidrs)
    ensures ValidMap(o.m) && SameShape(m, o.m) && (o.ok <==> InRanges(m, r, cidrs))
    decreases |cidrs|
  {
    hide ValidMap, SameShape, Cidr.Valid, Meets;
    ShapeReflexive(m);
    if cidrs == [] then Change(m, true) else
    var o := OccupyAt(m, r, cidrs[0]);
    if o.None? then Change(m, false) else
    NoNilKept(m, o.value, r, cidrs[1..]);
    var rest := OccupyAll(o.value, r, cidrs[1..]);
    ShapeTransitive(m, o.value, rest.m);
    rest
  }

  /** Release the CIDRs one by one in one ClusterCIDR; stop at the first that misses its range. */
  ghost function ReleaseAll(m: CidrMap, r: Ref, cidrs: seq<Cidr>): (o: Change)
    requires ValidMap(m) && NoNil(m, r, cidrs)
    ensures ValidMap(o.m) && SameShape(m, o.m) && (o.ok <==> InRanges(m, r, cidrs))
    decreases |cidrs|
  {
    hide ValidMap, SameShape, Cidr.Valid, Meets;
    ShapeReflexive(m);
    if cidrs == [] then Change(m, true) else
    var o := ReleaseAt(m, r, cidrs[0]);
    if o.None? then Change(m, false) else
    NoNilKept(m, o.value, r, cidrs[1..]);
    var rest := ReleaseAll(o.value, r, cidrs[1..]);
    ShapeTransitive(m, o.value, rest.m);
    rest
  }

  datatype Occupied = Occupied(m: CidrMap, home: Option<Ref>)

  /** occupyCIDRs over an ordered list: the first ClusterCIDR that can occupy every CIDR gets the node. */
  ghost function OccupyCIDRs(m: CidrMap, list: seq<Ref>, node: string, cidrs: seq<Cidr>): (o: Occupied)
    requires ValidMap(m) && NoNilList(m, list, cidrs)
    ensures ValidMap(o.m) && SameShape(m, o.m)
    decreases |list|
  {
    hide ValidMap, SameShape, InRanges;
    ShapeReflexive(m);
    if list == [] then Occupied(m, None) else
    var o := OccupyAll(m, list[0], cidrs);
    ShapeKeeps(m, o.m, list[0]);
    if o.ok then
      var m' := Associate(o.m, list[0], node);
      ShapeTransitive(m, o.m, m');
      Occupied(m', Some(list[0]))
    else
      NoNilListKept(m, o.m, list[1..], cidrs);
      var rest := OccupyCIDRs(o.m, list[1..], node, cidrs);
      ShapeTransitive(m, o.m, rest.m);
      rest
  }

  /** The node is associated with list[n] and with none before it. */
  predicate FirstAssociated(m: CidrMap, list: seq<Ref>, node: string, n: nat)
    requires InMapAll(m, list) && n < |list|
  {
    node in At(m, list[n]).nodes && forall j :: 0 <= j < n ==> node !in At(m, list[j]).nodes
  }

  /** allocatedClusterCIDR: the first in the list the node is associated with. */
  ghost function AllocatedClusterCIDR(m: CidrMap, list: seq<Ref>, node: string): (r: Option<Ref>)
    requires InMapAll(m, list)
    ensures r.Some? ==> r.value in list && node in At(m, r.value).nodes
    ensures r.Some? ==> exists n :: 0 <= n < |list| && list[n] == r.value && FirstAssociated(m, list, node, n)
    ensures r.None? ==> forall j :: 0 <= j < |list| ==> node !in At(m, list[j]).nodes
  {
    if list == [] then None
    else if node in At(m, list[0]).nodes then
      assert FirstAssociated(m, list, node, 0);
      Some(list[0])
    else
      var r := AllocatedClusterCIDR(m, list[1..], node);
      assert forall n :: 0 <= n < |list| - 1 && FirstAssociated(m, list[1..], node, n) ==>
                FirstAssociated(m, list, node, n + 1);
      r
  }

  /** No missing set is dereferenced in the ClusterCIDR the node is found in. */
  ghost predicate NoNilRelease(m: CidrMap, list: seq<Ref>, node: string, cidrs: seq<Cidr>)
    requires ValidMap(m)
  {
    && InMapAll(m, list) && AllValid(cidrs)
    && var home := AllocatedClusterCIDR(m, list, node);
    home.Some? ==> NoNil(m, home.value, cidrs)
  }

  /** ReleaseCIDR: nothing happens without an associated ClusterCIDR, and the association
      stays when a release fails. */
  ghost function ReleaseCIDR(m: CidrMap, list: seq<Ref>, node: string, cidrs: seq<Cidr>): (o: Change)
    requires ValidMap(m) && NoNilRelease(m, list, node, cidrs)
    ensures ValidMap(o.m) && SameShape(m, o.m)
  {
    hide ValidMap, SameShape;
    ShapeReflexive(m);
    if cidrs == [] then Change(m, true) else
    var home := AllocatedClusterCIDR(m, list, node);
    if home.None? then Change(m, false) else
    var o := ReleaseAll(m, home.value, cidrs);
    if !o.ok then o else
    ShapeKeeps(m, o.m, home.value);
    var m' := Dissociate(o.m, home.value, node);
    ShapeTransitive(m, o.m, m');
    Change(m', true)
  }

  // ---------- AllocateOrOccupyCIDR for a node without CIDRs ----------

  /** What the node lister answers before the patch. */
  datatype Lister = ListerError | Listed(podCIDRs: seq<Cidr>)

  /** The answer to one patch request; PatchFailed is every error but a server timeout, whether or not the patch was
      applied. */
  datatype Patch = PatchOk | PatchTimeout | PatchFailed

  const CIDR_UPDATE_RETRIES: nat := 3

  /** The attempts stop at the first success; otherwise the error of the last one decides. */
  function PatchResult(patches: seq<Patch>): Patch
    requires patches != []
  {
    if patches[0].PatchOk? || |patches| == 1 then patches[0] else PatchResult(patches[1..])
  }

  datatype Outcome = NoBlock | ListerFailed | AlreadySame | HasOther | Assigned | TimedOut | PatchRefused

  /** Which outcomes give the reserved blocks back. */
  predicate GivesBack(o: Outcome) {
    o.HasOther? || o.PatchRefused?
  }

  /** How updateCIDRsAllocation ends, given what the API server and its cache answer. */
  function UpdateOutcome(cidrs: seq<Cidr>, lister: Lister, patches: seq<Patch>): Outcome
    requires patches != []
  {
    if lister.ListerError? then ListerFailed
    else if lister.podCIDRs == cidrs then AlreadySame
    else if lister.podCIDRs != [] then HasOther
    else match PatchResult(patches)
      case PatchOk => Assigned
      case PatchTimeout => TimedOut
      case PatchFailed => PatchRefused
  }

  datatype Attempt = Attempt(m: CidrMap, outcome: Outcome, home: Option<Ref>, cidrs: seq<Cidr>)

  /** prioritizedCIDRs and then updateCIDRsAllocation. */
  ghost function AllocateNode(m: CidrMap, list: seq<Ref>, node: string, lister: Lister, patches: seq<Patch>)
    : (a: Attempt)
    requires ValidMap(m) && InMapAll(m, list) && patches != []
    ensures ValidMap(a.m) && SameShape(m, a.m)
  {
    hide ValidMap, SameShape;
    var p := PrioritizedCIDRs(m, list);
    if p.chosen.None? || p.cidrs == [] then Attempt(p.m, NoBlock, None, []) else
    var outcome := UpdateOutcome(p.cidrs, lister, patches);
    if GivesBack(outcome) then
      FamiliesNoNil(p.m, p.chosen.value, p.cidrs);
      var released := ReleaseAll(p.m, p.chosen.value, p.cidrs);
      ShapeTransitive(m, p.m, released.m);
      Attempt(released.m, outcome, p.chosen, p.cidrs)
    else if outcome.Assigned? then
      var m' := Associate(p.m, p.chosen.value, node);
      ShapeTransitive(m, p.m, m');
      Attempt(m', outcome, p.chosen, p.cidrs)
    else Attempt(p.m, outcome, p.chosen, p.cidrs)
  }
}
