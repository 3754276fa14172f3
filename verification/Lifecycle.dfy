/** Creating, re-creating and deleting ClusterCIDRs, and filtering out the service range. */
module Lifecycle {
  import opened Cidrs
  import opened Blocks
  import opened SetSpec
  import opened AllocatorSpec
  import opened Frames

  /** The parts of a ClusterCIDR API object the controller reads; the texts are the printed CIDRs. */
  datatype Spec = Spec(name: string, v4: Option<Cidr>, v6: Option<Cidr>, perNodeHostBits: int,
                       v4Text: string, v6Text: string)

  ghost predicate ValidRange(cidr: Cidr, perNodeHostBits: int) {
    && Validated(cidr, perNodeHostBits)
    && (cidr.fam.V6? ==> forall ip: nat :: cidr.Has(ip) ==> !IsMapped(ip))
  }

  ghost predicate ValidSpec(spec: Spec) {
    && (spec.v4.Some? ==> spec.v4.value.fam == V4 && ValidRange(spec.v4.value, spec.perNodeHostBits))
    && (spec.v6.Some? ==> spec.v6.value.fam == V6 && ValidRange(spec.v6.value, spec.perNodeHostBits))
  }

  ghost function BuildSet(cidr: Cidr, perNodeHostBits: int, text: string): (s: Option<SetState>)
    requires ValidRange(cidr, perNodeHostBits)
    ensures s.Some? ==> s.value.Valid() && s.value.cfg.Fam() == cidr.fam
  {
    NewSetAccepts(cidr, perNodeHostBits);
    var params := NewMultiCIDRSet(cidr, perNodeHostBits);
    if params.None? then None else Some(SetState(Config(cidr, params.value.nodeMaskSize), text, {}, 0))
  }

  ghost function BuildFamily(cidr: Option<Cidr>, perNodeHostBits: int, text: string): Option<SetState>
    requires cidr.Some? ==> ValidRange(cidr.value, perNodeHostBits)
  {
    if cidr.None? then None else BuildSet(cidr.value, perNodeHostBits, text)
  }

  /** createClusterCIDRSet; None stands for an error of one of the constructors. */
  ghost function CreateClusterCIDRSet(spec: Spec, terminating: bool): (cc: Option<CC>)
    requires ValidSpec(spec)
    ensures cc.Some? ==> cc.value.name == spec.name && (spec.v4.Some? || spec.v6.Some? ==> cc.value.Valid())
    ensures cc.Some? ==> cc.value.v4.Some? == spec.v4.Some? && cc.value.v6.Some? == spec.v6.Some?
  {
    hide ValidRange, SetState.Valid;
    var v4 := BuildFamily(spec.v4, spec.perNodeHostBits, spec.v4Text);
    if spec.v4.Some? && v4.None? then None else
    var v6 := BuildFamily(spec.v6, spec.perNodeHostBits, spec.v6Text);
    if spec.v6.Some? && v6.None? then None else
    Some(CC(spec.name, v4, v6, {}, terminating))
  }

  /** IPv6, if configured, has at most 2^16 blocks. */
  ghost predicate FewEnough(spec: Spec)
    requires ValidSpec(spec)
  {
    spec.v6.Some? ==> Bits.Pow2(spec.v6.value.HostBits() - spec.perNodeHostBits) <= 65536
  }

  lemma BuiltIff(cidr: Cidr, perNodeHostBits: int, text: string)
    requires ValidRange(cidr, perNodeHostBits)
    ensures var s := BuildSet(cidr, perNodeHostBits, text);
            && (s.None? <==> cidr.fam.V6? && Bits.Pow2(cidr.HostBits() - perNodeHostBits) > 65536)
            && (s.Some? ==> s == Some(SetState(Config(cidr, cidr.fam.Width() - perNodeHostBits), text, {}, 0)))
  {
    hide Bits.Pow2;
    NewSetAccepts(cidr, perNodeHostBits);
  }

  /** Which specs give a ClusterCIDR, and which one: it has a set for each configured family, over its own range with
      its own text as label, without marks and with the cursor at block 0; and no node. */
  lemma CreatedExact(spec: Spec, terminating: bool)
    requires ValidSpec(spec)
    ensures var cc := CreateClusterCIDRSet(spec, terminating);
            && (cc.Some? <==> FewEnough(spec))
            && (cc.Some? ==>
                  var bits := spec.perNodeHostBits;
                  && cc.value.name == spec.name && cc.value.nodes == {} && cc.value.terminating == terminating
                  && cc.value.v4.Some? == spec.v4.Some? && cc.value.v6.Some? == spec.v6.Some?
                  && (spec.v4.Some? ==>
                        cc.value.v4.value == SetState(Config(spec.v4.value, 32 - bits), spec.v4Text, {}, 0))
                  && (spec.v6.Some? ==>
                        cc.value.v6.value == SetState(Config(spec.v6.value, 128 - bits), spec.v6Text, {}, 0)))
  {
    hide ValidRange, SetState.Valid, Bits.Pow2, BuildSet;
    if spec.v4.Some? {
      BuiltIff(spec.v4.value, spec.perNodeHostBits, spec.v4Text);
    }
    if spec.v6.Some? {
      BuiltIff(spec.v6.value, spec.perNodeHostBits, spec.v6Text);
    }
  }

  lemma UnconfiguredFamily(spec: Spec)
    requires ValidSpec(spec)
    ensures spec.v4.None? ==> BuildFamily(spec.v4, spec.perNodeHostBits, spec.v4Text).None?
    ensures spec.v6.None? ==> BuildFamily(spec.v6, spec.perNodeHostBits, spec.v6Text).None?
  {
  }

  /** A ClusterCIDR built from one spec has blocks of 2^perNodeHostBits addresses in both families. */
  lemma DualStackBlockSizes(spec: Spec, terminating: bool)
    requires ValidSpec(spec)
    ensures var cc := CreateClusterCIDRSet(spec, terminating);
            cc.Some? ==>
              && (cc.value.v4.Some? ==>
                    var cfg := cc.value.v4.value.cfg;
                    cfg.Valid() && cfg.BlockSize() == Bits.Pow2(spec.perNodeHostBits))
              && (cc.value.v6.Some? ==>
                    var cfg := cc.value.v6.value.cfg;
                    cfg.Valid() && cfg.BlockSize() == Bits.Pow2(spec.perNodeHostBits))
  {
    hide Bits.Pow2;
    if spec.v4.Some? {
      NewSetAccepts(spec.v4.value, spec.perNodeHostBits);
    }
    if spec.v6.Some? {
      NewSetAccepts(spec.v6.value, spec.perNodeHostBits);
    }
  }

  ghost predicate Mapped(m: CidrMap, key: string, name: string) {
    exists r :: InMap(m, r) && r.key == key && At(m, r).name == name
  }

  /** mapClusterCIDRSet: appended to its selector's list unless that list has the name already. */
  ghost function MapClusterCIDRSet(m: CidrMap, key: string, cc: CC): (m': CidrMap)
    requires ValidMap(m) && cc.Valid()
    ensures Mapped(m, key, cc.name) ==> m' == m
    ensures forall r :: InMap(m, r) ==> InMap(m', r) && At(m', r) == At(m, r)
    ensures forall r :: InMap(m', r) && !InMap(m, r) ==> r.key == key && At(m', r) == cc
    ensures Mapped(m', key, cc.name)
    ensures ValidMap(m')
  {
    hide ValidMap;
    if Mapped(m, key, cc.name) then m else
    AppendValid(m, key, cc);
    Append(m, key, cc)
  }

  ghost function Append(m: CidrMap, key: string, cc: CC): CidrMap {
    if key in m then m[key := m[key] + [cc]] else m[key := [cc]]
  }

  lemma AppendValid(m: CidrMap, key: string, cc: CC)
    requires ValidMap(m) && cc.Valid() && !Mapped(m, key, cc.name)
    ensures var m' := Append(m, key, cc);
            && (forall r :: InMap(m, r) ==> InMap(m', r) && At(m', r) == At(m, r))
            && (forall r :: InMap(m', r) && !InMap(m, r) ==> r.key == key && At(m', r) == cc)
            && Mapped(m', key, cc.name)
            && ValidMap(m')
  {
    hide CC.Valid;
    var m' := Append(m, key, cc);
    var added := Ref(key, if key in m then |m[key]| else 0);
    assert InMap(m', added) && At(m', added) == cc;
    assert forall r :: InMap(m', r) ==> r == added || (InMap(m, r) && At(m', r) == At(m, r));
  }

  /** createClusterCIDR on the map; whether the API object is then updated makes no difference to it. */
  ghost function CreateClusterCIDR(m: CidrMap, key: string, spec: Spec, terminating: bool): (c: Change)
    requires ValidMap(m) && ValidSpec(spec)
    ensures ValidMap(c.m)
  {
    var cc := CreateClusterCIDRSet(spec, terminating);
    if cc.None? then Change(m, false)
    else if spec.v4.None? && spec.v6.None? then Change(m, false)
    else Change(MapClusterCIDRSet(m, key, cc.value), true)
  }

  /** A create event succeeds iff a family is configured and an IPv6 range has at most 2^16 blocks. */
  lemma CreationSucceeds(m: CidrMap, key: string, spec: Spec, terminating: bool)
    requires ValidMap(m) && ValidSpec(spec)
    ensures var c := CreateClusterCIDR(m, key, spec, terminating);
            && (c.ok <==> (spec.v4.Some? || spec.v6.Some?) && FewEnough(spec))
            && (c.ok ==> Mapped(c.m, key, spec.name))
            && (!c.ok ==> c.m == m)
  {
    hide ValidMap, FewEnough, Mapped, ValidRange;
    CreatedExact(spec, terminating);
  }

  datatype Creation = Creation(key: string, spec: Spec, terminating: bool)

  ghost function CreateEach(m: CidrMap, creations: seq<Creation>): (m': CidrMap)
    requires ValidMap(m) && forall j :: 0 <= j < |creations| ==> ValidSpec(creations[j].spec)
    ensures ValidMap(m')
    decreases |creations|
  {
    if creations == [] then m
    else
      var c := creations[0];
      CreateEach(CreateClusterCIDR(m, c.key, c.spec, c.terminating).m, creations[1..])
  }

  /** Re-sync: any number of create events, repeated or not, keeps every mapped ClusterCIDR in its place with its
      marks, cursors, nodes and termination mark, keeps names unique per selector, and changes nothing at all if
      every name is mapped already. */
  lemma {:induction false} ResyncPreserves(m: CidrMap, creations: seq<Creation>)
    requires ValidMap(m) && forall j :: 0 <= j < |creations| ==> ValidSpec(creations[j].spec)
    ensures ValidMap(CreateEach(m, creations))
    ensures forall r :: InMap(m, r) ==>
      InMap(CreateEach(m, creations), r) && At(CreateEach(m, creations), r) == At(m, r)
    ensures (forall j :: 0 <= j < |creations| ==> Mapped(m, creations[j].key, creations[j].spec.name)) ==>
      CreateEach(m, creations) == m
    decreases |creations|
  {
    hide ValidMap, ValidSpec;
    if creations != [] {
      var m1 := CreateClusterCIDR(m, creations[0].key, creations[0].spec, creations[0].terminating).m;
      ResyncPreserves(m1, creations[1..]);
      if forall j :: 0 <= j < |creations| ==> Mapped(m, creations[j].key, creations[j].spec.name) {
        assert Mapped(m, creations[0].key, creations[0].spec.name);
      }
    }
  }

  // ---------- Deletion ----------

  /** The position of the first entry with the name, or the length of the list. */
  function IndexOf(list: seq<CC>, name: string): (i: nat)
    ensures i <= |list|
    ensures i < |list| ==> list[i].name == name
    ensures forall j :: 0 <= j < i ==> list[j].name != name
  {
    if list == [] || list[0].name == name then 0 else 1 + IndexOf(list[1..], name)
  }

  /** deleteClusterCIDR: marks the entry as terminating, and unmaps it only if no node uses it. */
  function DeleteClusterCIDR(m: CidrMap, key: string, name: string): Change {
    if key !in m then Change(m, true) else
    var list := m[key];
    var i := IndexOf(list, name);
    if i == |list| then Change(m, true) else
    var marked := list[i := list[i].(terminating := true)];
    if list[i].nodes != {} then Change(m[key := marked], false)
    else Change(Without(m[key := marked], key, i), true)
  }

  /** Entry i leaves its list, and an only entry takes the selector with it. */
  function Without(m: CidrMap, key: string, i: nat): CidrMap
    requires key in m && i < |m[key]|
  {
    if |m[key]| == 1 then m - {key} else m[key := m[key][..i] + m[key][i + 1..]]
  }

  datatype Reconciled = Reconciled(m: CidrMap, finalizerRemoved: bool)

  /** reconcileDelete; `updated` says whether the API server accepts the object without the finalizer. */
  function ReconcileDelete(m: CidrMap, key: string, name: string, hasFinalizer: bool, updated: bool): Reconciled {
    if !hasFinalizer then Reconciled(m, false) else
    var d := DeleteClusterCIDR(m, key, name);
    Reconciled(d.m, d.ok && updated)
  }

  /** Where an entry of the list lies after entry i is taken out. */
  function ShiftedPast(r: Ref, key: string, i: nat): Ref {
    if r.key == key && r.idx > i then Ref(key, r.idx - 1) else r
  }

  /** Where an entry of the shortened list was before. */
  function Back(q: Ref, key: string, i: nat): Ref {
    if q.key == key && q.idx >= i then Ref(key, q.idx + 1) else q
  }

  /** Taking out an entry moves the later ones of its list up by one and touches nothing else. */
  lemma WithoutBack(m: CidrMap, key: string, i: nat, q: Ref)
    requires key in m && i < |m[key]| && InMap(Without(m, key, i), q)
    ensures var r := Back(q, key, i); InMap(m, r) && r != Ref(key, i) && At(Without(m, key, i), q) == At(m, r)
  {
  }

  lemma WithoutForth(m: CidrMap, key: string, i: nat, r: Ref)
    requires key in m && i < |m[key]| && InMap(m, r) && r != Ref(key, i)
    ensures var q := ShiftedPast(r, key, i); InMap(Without(m, key, i), q) && At(Without(m, key, i), q) == At(m, r)
  {
  }

  lemma WithoutValid(m: CidrMap, key: string, i: nat)
    requires ValidMap(m) && key in m && i < |m[key]|
    ensures ValidMap(Without(m, key, i))
  {
    hide CC.Valid;
    var m' := Without(m, key, i);
    forall r | InMap(m', r)
      ensures At(m', r).Valid()
    {
      WithoutBack(m, key, i, r);
    }
    forall r, q | InMap(m', r) && InMap(m', q) && r.key == q.key && At(m', r).name == At(m', q).name
      ensures r == q
    {
      WithoutBack(m, key, i, r);
      WithoutBack(m, key, i, q);
    }
    forall k | k in m'
      ensures m'[k] != []
    {
      assert k in m && m[k] != [];
    }
  }

  lemma DeletedValid(m: CidrMap, key: string, name: string)
    requires ValidMap(m)
    ensures ValidMap(DeleteClusterCIDR(m, key, name).m)
  {
    hide ValidMap, Without;
    if key in m && IndexOf(m[key], name) < |m[key]| {
      var i := IndexOf(m[key], name);
      var m1 := Put(m, Ref(key, i), At(m, Ref(key, i)).(terminating := true));
      PutTerminatingValid(m, Ref(key, i));
      WithoutValid(m1, key, i);
    }
  }

  lemma PutTerminatingValid(m: CidrMap, r: Ref)
    requires ValidMap(m) && InMap(m, r)
    ensures ValidMap(Put(m, r, At(m, r).(terminating := true)))
  {
    PutValid(m, r, At(m, r).(terminating := true));
  }

  /** A deletion event, exactly: the entry that leaves the map, if any, has no associated node; every other entry
      stays as it is and the entries of a list keep their order. */
  lemma DeletionExact(m: CidrMap, key: string, name: string)
    requires ValidMap(m)
    ensures var d := DeleteClusterCIDR(m, key, name);
            && (d.ok ==> !Mapped(d.m, key, name))
            && (!d.ok ==> exists r :: InMap(m, r) && r.key == key && At(m, r).name == name && At(m, r).nodes != {}
                            && d.m == Put(m, r, At(m, r).(terminating := true)))
            && (d.ok ==> forall r :: InMap(m, r) && r.key == key && At(m, r).name == name ==> At(m, r).nodes == {})
            && (d.ok ==> forall r :: InMap(m, r) && !(r.key == key && At(m, r).name == name) ==>
                           var q := ShiftedPast(r, key, IndexOf(m[r.key], name));
                           InMap(d.m, q) && At(d.m, q) == At(m, r))
            && (d.ok ==> forall q :: InMap(d.m, q) ==>
                           exists r :: InMap(m, r) && r.key == q.key && At(m, r) == At(d.m, q))
  {
    var d := DeleteClusterCIDR(m, key, name);
    if key in m {
      var list := m[key];
      var i := IndexOf(list, name);
      if i < |list| {
        NameOnce(m, key, i);
        if d.ok {
          RemovedEntry(m, key, i);
        } else {
          var r := Ref(key, i);
          assert d.m == Put(m, r, At(m, r).(terminating := true));
        }
      } else {
        NameAbsent(m, key, name);
        Unmoved(m, key);
      }
    } else {
      Unmoved(m, key);
    }
  }

  lemma NameOnce(m: CidrMap, key: string, i: nat)
    requires ValidMap(m) && key in m && i < |m[key]|
    ensures forall r :: InMap(m, r) && r.key == key && At(m, r).name == m[key][i].name ==> r.idx == i
  {
    hide CC.Valid;
    assert InMap(m, Ref(key, i)) && At(m, Ref(key, i)) == m[key][i];
  }

  lemma NameAbsent(m: CidrMap, key: string, name: string)
    requires key in m && IndexOf(m[key], name) == |m[key]|
    ensures !Mapped(m, key, name)
  {
  }

  lemma MappedIndex(m: CidrMap, key: string, name: string)
    requires key in m
    ensures Mapped(m, key, name) <==> IndexOf(m[key], name) < |m[key]|
  {
    var i := IndexOf(m[key], name);
    if i < |m[key]| {
      assert InMap(m, Ref(key, i)) && At(m, Ref(key, i)).name == name;
    }
  }

  lemma NotMapped(m: CidrMap, key: string, name: string)
    requires key !in m
    ensures !Mapped(m, key, name)
  {
  }

  lemma Unmoved(m: CidrMap, key: string)
    ensures forall q :: InMap(m, q) ==> exists r :: InMap(m, r) && r.key == q.key && At(m, r) == At(m, q)
  {
  }

  lemma RemovedEntry(m: CidrMap, key: string, i: nat)
    requires ValidMap(m) && key in m && i < |m[key]|
    requires i == IndexOf(m[key], m[key][i].name) && m[key][i].nodes == {}
    ensures var name := m[key][i].name;
            var d := DeleteClusterCIDR(m, key, name);
            && !Mapped(d.m, key, name)
            && (forall r :: InMap(m, r) && !(r.key == key && At(m, r).name == name) ==>
                  var q := ShiftedPast(r, key, IndexOf(m[r.key], name)); InMap(d.m, q) && At(d.m, q) == At(m, r))
            && (forall q :: InMap(d.m, q) ==> exists r :: InMap(m, r) && r.key == q.key && At(m, r) == At(d.m, q))
  {
    hide ValidMap, CC.Valid, Without, IndexOf;
    var name := m[key][i].name;
    var m1 := Put(m, Ref(key, i), At(m, Ref(key, i)).(terminating := true));
    var m' := DeleteClusterCIDR(m, key, name).m;
    assert m' == Without(m1, key, i);
    NameOnce(m, key, i);
    forall q | InMap(m', q)
      ensures exists r :: InMap(m, r) && r.key == q.key && At(m, r) == At(m', q)
      ensures !(q.key == key && At(m', q).name == name)
    {
      var r := Back(q, key, i);
      WithoutBack(m1, key, i, q);
      assert InMap(m, r) && r.key == q.key && At(m, r) == At(m', q);
    }
    forall r | InMap(m, r) && !(r.key == key && At(m, r).name == name)
      ensures var q := ShiftedPast(r, key, IndexOf(m[r.key], name)); InMap(m', q) && At(m', q) == At(m, r)
    {
      WithoutForth(m1, key, i, r);
    }
  }

  /** An entry that a successful deletion does not concern stays under its key. */
  lemma DeletionKeeps(m: CidrMap, key: string, name: string, r: Ref) returns (q: Ref)
    requires ValidMap(m) && DeleteClusterCIDR(m, key, name).ok && InMap(m, r)
    ensures r.key == key && At(m, r).name == name ==> At(m, r).nodes == {}
    ensures !(r.key == key && At(m, r).name == name) ==>
              var m' := DeleteClusterCIDR(m, key, name).m; InMap(m', q) && q.key == r.key && At(m', q) == At(m, r)
  {
    hide ValidMap, DeleteClusterCIDR, IndexOf;
    DeletionExact(m, key, name);
    q := ShiftedPast(r, key, IndexOf(m[r.key], name));
  }

  /** A refused deletion only sets the termination mark. */
  lemma DeletionRefused(m: CidrMap, key: string, name: string) returns (r: Ref)
    requires ValidMap(m) && !DeleteClusterCIDR(m, key, name).ok
    ensures InMap(m, r) && r.key == key && At(m, r).name == name && At(m, r).nodes != {}
    ensures DeleteClusterCIDR(m, key, name).m == Put(m, r, At(m, r).(terminating := true))
  {
    hide ValidMap, DeleteClusterCIDR;
    DeletionExact(m, key, name);
    r :| InMap(m, r) && r.key == key && At(m, r).name == name && At(m, r).nodes != {}
      && DeleteClusterCIDR(m, key, name).m == Put(m, r, At(m, r).(terminating := true));
  }

  /** The finalizer goes exactly if it was there, the API server accepts the update and no node is associated with the
      ClusterCIDR, which has then left the map; without a finalizer nothing changes. */
  lemma FinalizerAfterUnmap(m: CidrMap, key: string, name: string, hasFinalizer: bool, updated: bool)
    requires ValidMap(m)
    ensures var c := ReconcileDelete(m, key, name, hasFinalizer, updated);
            && (c.finalizerRemoved <==>
                  && hasFinalizer && updated
                  && forall r :: InMap(m, r) && r.key == key && At(m, r).name == name ==> At(m, r).nodes == {})
            && (c.finalizerRemoved ==> !Mapped(c.m, key, name))
            && c.m == if hasFinalizer then DeleteClusterCIDR(m, key, name).m else m
  {
    hide ValidMap, DeleteClusterCIDR;
    DeletionExact(m, key, name);
  }

  // ---------- The service range ----------

  /** occupyServiceCIDR. */
  ghost function OccupyServiceCIDR(cc: CC, c: Cidr): (cc': CC)
    requires cc.Valid() && c.Valid() && cc.SetFor(c.fam).Some?
    ensures cc'.Valid()
  {
    var s := Occupy(cc.SetFor(c.fam).value, c);
    if s.None? then cc else cc.With(c.fam, s.value)
  }

  ghost predicate AllHave(m: CidrMap, fam: Family) {
    forall r :: InMap(m, r) ==> At(m, r).SetFor(fam).Some?
  }

  /** filterOutServiceRange, for a map in which every ClusterCIDR has a set of the service range's family. */
  ghost function FilterOutServiceRange(m: CidrMap, c: Cidr): (m': CidrMap)
    requires ValidMap(m) && c.Valid() && AllHave(m, c.fam)
    ensures forall r :: InMap(m', r) <==> InMap(m, r)
    ensures forall r :: InMap(m, r) ==> At(m', r) == OccupyServiceCIDR(At(m, r), c)
  {
    map k | k in m :: seq(|m[k]|, (i: nat) requires InMap(m, Ref(k, i)) => OccupyServiceCIDR(At(m, Ref(k, i)), c))
  }

  /** Filtering, exactly: in every ClusterCIDR the blocks that meet the service range are marked in addition, and
      nothing else changes. */
  lemma ServiceRangeExact(m: CidrMap, c: Cidr, r: Ref)
    requires ValidMap(m) && c.Valid() && AllHave(m, c.fam) && InMap(m, r)
    ensures var a, b := At(m, r), At(FilterOutServiceRange(m, c), r);
            && a.Valid()
            && var s := a.SetFor(c.fam).value;
            && b.SetFor(c.fam) == Some(s.(marks := s.marks + MeetingBlocks(s.cfg, c)))
            && (forall fam :: fam != c.fam ==> b.SetFor(fam) == a.SetFor(fam))
            && b.name == a.name && b.nodes == a.nodes && b.terminating == a.terminating
  {
    hide MeetingBlocks, Meets;
    var s := At(m, r).SetFor(c.fam).value;
    if !Meets(s.cfg.cluster, c) {
      MissesNoBlock(s.cfg, c);
      assert s.marks + {} == s.marks;
    }
  }

  /** Filtering marks every block that meets the service range and removes no mark. */
  lemma ServiceRangeMarked(m: CidrMap, c: Cidr)
    requires ValidMap(m) && c.Valid() && AllHave(m, c.fam)
    ensures var m' := FilterOutServiceRange(m, c);
            && ValidMap(m') && Frame(m, m', {}, {})
            && forall r :: InMap(m', r) ==>
                 HasSet(m', r, c.fam) && MeetingBlocks(SetAt(m', r, c.fam).cfg, c) <= SetAt(m', r, c.fam).marks
  {
    var m' := FilterOutServiceRange(m, c);
    assert forall k :: k in m' ==> InMap(m', Ref(k, 0));
    forall r | InMap(m, r)
      ensures Keeps(At(m, r), At(m', r), {}, {}) && HasSet(m', r, c.fam)
      ensures At(m', r).Valid()
      ensures MeetingBlocks(At(m', r).SetFor(c.fam).value.cfg, c) <= At(m', r).SetFor(c.fam).value.marks
    {
      ServiceCCMarked(At(m, r), c);
    }
  }

  lemma ServiceCCMarked(cc: CC, c: Cidr)
    requires cc.Valid() && c.Valid() && cc.SetFor(c.fam).Some?
    ensures var cc' := OccupyServiceCIDR(cc, c);
            && Keeps(cc, cc', {}, {}) && cc'.SetFor(c.fam).Some?
            && MeetingBlocks(cc'.SetFor(c.fam).value.cfg, c) <= cc'.SetFor(c.fam).value.marks
  {
    var s := cc.SetFor(c.fam).value;
    if !Meets(s.cfg.cluster, c) {
      MissesNoBlock(s.cfg, c);
    }
  }

  lemma MissesNoBlock(cfg: Config, c: Cidr)
    requires cfg.Valid() && c.Valid() && !Meets(cfg.cluster, c)
    ensures MeetingBlocks(cfg, c) == {}
  {
    forall i: nat | i < cfg.Max()
      ensures !Meets(cfg.Block(i), c)
    {
      BlockValid(cfg, i);
    }
  }
}
