/** What the node operations leave in place.

`Frame(m, m', freed, left)` says that m' has the same ClusterCIDRs as m, that
every mark survives unless its block meets a CIDR in `freed`, and every
associated node unless it is in `left`. All node operations are such frames.
 */
module Frames {
  import opened Cidrs
  import opened Blocks
  import opened SetSpec
  import opened AllocatorSpec
  import opened Allocate

  ghost predicate Freed(cfg: Config, i: nat, freed: set<Cidr>)
    requires cfg.Valid()
  {
    exists c :: c in freed && c.Valid() && i in MeetingBlocks(cfg, c)
  }

  ghost predicate SetKeeps(s: SetState, s': SetState, freed: set<Cidr>)
    requires s.Valid()
  {
    forall i :: i in s.marks ==> i in s'.marks || Freed(s.cfg, i, freed)
  }

  ghost predicate Keeps(a: CC, b: CC, freed: set<Cidr>, left: set<string>)
    requires a.Valid()
  {
    && SameCCShape(a, b)
    && a.nodes - left <= b.nodes
    && (a.v4.Some? ==> SetKeeps(a.v4.value, b.v4.value, freed))
    && (a.v6.Some? ==> SetKeeps(a.v6.value, b.v6.value, freed))
  }

  ghost predicate Frame(m: CidrMap, m': CidrMap, freed: set<Cidr>, left: set<string>)
    requires ValidMap(m)
  {
    SameShape(m, m') && forall r :: InMap(m, r) ==> Keeps(At(m, r), At(m', r), freed, left)
  }

  lemma FrameReflexive(m: CidrMap)
    requires ValidMap(m)
    ensures Frame(m, m, {}, {})
  {
  }

  lemma FreedWeaken(cfg: Config, i: nat, freed: set<Cidr>, freed': set<Cidr>)
    requires cfg.Valid() && Freed(cfg, i, freed) && freed <= freed'
    ensures Freed(cfg, i, freed')
  {
    var c :| c in freed && c.Valid() && i in MeetingBlocks(cfg, c);
    assert c in freed';
  }

  lemma SetKeepsThrough(s: SetState, s1: SetState, s2: SetState, freed: set<Cidr>, freed': set<Cidr>)
    requires s.Valid() && s1.Valid() && s1.cfg == s.cfg && SetKeeps(s, s1, freed) && SetKeeps(s1, s2, freed')
    ensures SetKeeps(s, s2, freed + freed')
  {
    forall i | i in s.marks
      ensures i in s2.marks || Freed(s.cfg, i, freed + freed')
    {
      if i !in s1.marks {
        FreedWeaken(s.cfg, i, freed, freed + freed');
      } else if i !in s2.marks {
        FreedWeaken(s.cfg, i, freed', freed + freed');
      }
    }
  }

  lemma KeepsThrough(a: CC, b: CC, c: CC, freed: set<Cidr>, left: set<string>, freed': set<Cidr>, left': set<string>)
    requires a.Valid() && b.Valid() && Keeps(a, b, freed, left) && Keeps(b, c, freed', left')
    ensures Keeps(a, c, freed + freed', left + left')
  {
    hide SetKeeps;
    if a.v4.Some? {
      SetKeepsThrough(a.v4.value, b.v4.value, c.v4.value, freed, freed');
    }
    if a.v6.Some? {
      SetKeepsThrough(a.v6.value, b.v6.value, c.v6.value, freed, freed');
    }
  }

  /** Frames compose. */
  lemma FrameThrough(m: CidrMap, m1: CidrMap, m2: CidrMap,
                     freed: set<Cidr>, left: set<string>, freed': set<Cidr>, left': set<string>)
    requires ValidMap(m) && ValidMap(m1) && Frame(m, m1, freed, left) && Frame(m1, m2, freed', left')
    ensures Frame(m, m2, freed + freed', left + left')
  {
    hide Keeps;
    ShapeTransitive(m, m1, m2);
    forall r | InMap(m, r)
      ensures Keeps(At(m, r), At(m2, r), freed + freed', left + left')
    {
      KeepsThrough(At(m, r), At(m1, r), At(m2, r), freed, left, freed', left');
    }
  }

  lemma FrameTransitive(m: CidrMap, m1: CidrMap, m2: CidrMap, freed: set<Cidr>, left: set<string>)
    requires ValidMap(m) && ValidMap(m1) && Frame(m, m1, freed, left) && Frame(m1, m2, freed, left)
    ensures Frame(m, m2, freed, left)
  {
    hide Frame;
    FrameThrough(m, m1, m2, freed, left, freed, left);
    assert freed + freed == freed && left + left == left;
  }

  lemma FrameWeaken(m: CidrMap, m': CidrMap, freed: set<Cidr>, left: set<string>, freed': set<Cidr>, left': set<string>)
    requires ValidMap(m) && Frame(m, m', freed, left) && freed <= freed' && left <= left'
    ensures Frame(m, m', freed', left')
  {
    hide Frame;
    FrameSelf(m, freed', left');
    FrameThrough(m, m, m', freed', left', freed, left);
    assert freed' + freed == freed' && left' + left == left';
  }

  lemma FrameSelf(m: CidrMap, freed: set<Cidr>, left: set<string>)
    requires ValidMap(m)
    ensures Frame(m, m, freed, left)
  {
  }

  // ---------- Single updates ----------

  lemma PutSetFrame(m: CidrMap, r: Ref, fam: Family, s: SetState, freed: set<Cidr>)
    requires ValidMap(m) && HasSet(m, r, fam) && s.Valid()
    requires s.cfg == SetAt(m, r, fam).cfg && s.cidrLabel == SetAt(m, r, fam).cidrLabel
    requires SetKeeps(SetAt(m, r, fam), s, freed)
    ensures Frame(m, PutSet(m, r, fam, s), freed, {})
  {
  }

  lemma OccupyAtFrame(m: CidrMap, r: Ref, c: Cidr)
    requires ValidMap(m) && c.Valid() && HasSet(m, r, c.fam) && OccupyAt(m, r, c).Some?
    ensures Frame(m, OccupyAt(m, r, c).value, {}, {})
  {
    PutSetFrame(m, r, c.fam, Occupy(SetAt(m, r, c.fam), c).value, {});
  }

  lemma ReleaseAtFrame(m: CidrMap, r: Ref, c: Cidr)
    requires ValidMap(m) && c.Valid() && HasSet(m, r, c.fam) && ReleaseAt(m, r, c).Some?
    ensures Frame(m, ReleaseAt(m, r, c).value, {c}, {})
  {
    hide Cidr.Valid;
    var s := SetAt(m, r, c.fam);
    var s' := Release(s, c).value;
    forall i | i in s.marks && i !in s'.marks
      ensures Freed(s.cfg, i, {c})
    {
      assert c in {c} && i in MeetingBlocks(s.cfg, c);
    }
    PutSetFrame(m, r, c.fam, s', {c});
  }

  lemma AssociateFrame(m: CidrMap, r: Ref, node: string)
    requires ValidMap(m) && InMap(m, r)
    ensures Frame(m, Associate(m, r, node), {}, {})
    ensures Frame(m, Dissociate(m, r, node), {}, {node})
  {
  }

  lemma AllocateFrame(m: CidrMap, r: Ref, fam: Family)
    requires ValidMap(m) && HasSet(m, r, fam)
    ensures Frame(m, AllocateCIDR(m, r, fam).m, {}, {})
  {
    hide Frame, SameShape, ValidMap, AllocateFrom;
    AllocateExact(m, r, fam);
    var a, s := AllocateCIDR(m, r, fam), SetAt(m, r, fam);
    var n: nat :| n < s.cfg.Max() && AttemptedTo(m, r, fam, a, n);
    if a.block.None? {
      PutSetFrame(m, r, fam, s.(next := n), {});
    } else {
      var i: nat :| i < s.cfg.Max() && Eligible(m, r, fam, i) && a.block.value == s.cfg.Block(i)
        && a.m == PutSet(m, r, fam, s.(next := n, marks := s.marks + {i}));
      PutSetFrame(m, r, fam, s.(next := n, marks := s.marks + {i}), {});
    }
  }

  // ---------- Composite operations ----------

  lemma TryIPv6Frame(m: CidrMap, r: Ref, cidrs: seq<Cidr>)
    requires ValidMap(m) && HasFamilies(m, r, cidrs)
    ensures Frame(m, TryIPv6(m, r, cidrs).m, {}, {})
  {
    hide Frame, ValidMap, SameShape, AllocateCIDR;
    FrameReflexive(m);
    if At(m, r).v6.Some? {
      AllocateFrame(m, r, V6);
    }
  }

  lemma TryFamiliesFrame(m: CidrMap, r: Ref)
    requires ValidMap(m) && InMap(m, r)
    ensures Frame(m, TryFamilies(m, r).m, {}, {})
  {
    hide Frame, ValidMap, SameShape, AllocateCIDR, TryIPv6;
    if At(m, r).v4.None? {
      TryIPv6Frame(m, r, []);
    } else {
      var a := AllocateCIDR(m, r, V4);
      AllocateFrame(m, r, V4);
      if a.block.Some? {
        ShapeKeeps(m, a.m, r);
        TryIPv6Frame(a.m, r, [a.block.value]);
        FrameTransitive(m, a.m, TryIPv6(a.m, r, [a.block.value]).m, {}, {});
      }
    }
  }

  /** prioritizedCIDRs never removes a mark, on any path. */
  lemma {:induction false} PrioritizedFrame(m: CidrMap, list: seq<Ref>)
    requires ValidMap(m) && InMapAll(m, list)
    ensures Frame(m, PrioritizedCIDRs(m, list).m, {}, {})
    decreases |list|
  {
    hide Frame, ValidMap, TryFamilies;
    FrameReflexive(m);
    if list != [] {
      var a := TryFamilies(m, list[0]);
      TryFamiliesFrame(m, list[0]);
      if a.cidrs.None? {
        PrioritizedFrame(a.m, list[1..]);
        FrameTransitive(m, a.m, PrioritizedCIDRs(a.m, list[1..]).m, {}, {});
      }
    }
  }

  lemma {:induction false} OccupyAllFrame(m: CidrMap, r: Ref, cidrs: seq<Cidr>)
    requires ValidMap(m) && NoNil(m, r, cidrs)
    ensures Frame(m, OccupyAll(m, r, cidrs).m, {}, {})
    decreases |cidrs|
  {
    hide Frame, ValidMap, SameShape, OccupyAt;
    FrameReflexive(m);
    if cidrs != [] {
      var o := OccupyAt(m, r, cidrs[0]);
      if o.Some? {
        OccupyAtFrame(m, r, cidrs[0]);
        NoNilNext(m, r, cidrs);
        OccupyAllFrame(o.value, r, cidrs[1..]);
        FrameTransitive(m, o.value, OccupyAll(o.value, r, cidrs[1..]).m, {}, {});
      }
    }
  }

  ghost function Elements(cidrs: seq<Cidr>): (s: set<Cidr>)
    ensures forall c :: c in s <==> c in cidrs
  {
    set c | c in cidrs
  }

  lemma {:induction false} ReleaseAllFrame(m: CidrMap, r: Ref, cidrs: seq<Cidr>, freed: set<Cidr>)
    requires ValidMap(m) && NoNil(m, r, cidrs) && Elements(cidrs) <= freed
    ensures Frame(m, ReleaseAll(m, r, cidrs).m, freed, {})
    decreases |cidrs|
  {
    hide Frame, ValidMap, SameShape, ReleaseAt;
    FrameSelf(m, freed, {});
    if cidrs != [] {
      var o := ReleaseAt(m, r, cidrs[0]);
      if o.Some? {
        ReleaseAtFrame(m, r, cidrs[0]);
        assert cidrs[0] in Elements(cidrs);
        FrameWeaken(m, o.value, {cidrs[0]}, {}, freed, {});
        NoNilNext(m, r, cidrs);
        assert forall c :: c in cidrs[1..] ==> c in cidrs;
        ReleaseAllFrame(o.value, r, cidrs[1..], freed);
        FrameTransitive(m, o.value, ReleaseAll(o.value, r, cidrs[1..]).m, freed, {});
      }
    }
  }

  lemma {:induction false} OccupyCIDRsFrame(m: CidrMap, list: seq<Ref>, node: string, cidrs: seq<Cidr>)
    requires ValidMap(m) && NoNilList(m, list, cidrs)
    ensures Frame(m, OccupyCIDRs(m, list, node, cidrs).m, {}, {})
    decreases |list|
  {
    hide Frame, ValidMap, SameShape, OccupyAll, Associate;
    FrameReflexive(m);
    if list != [] {
      var o := OccupyAll(m, list[0], cidrs);
      OccupyAllFrame(m, list[0], cidrs);
      ShapeKeeps(m, o.m, list[0]);
      if o.ok {
        AssociateFrame(o.m, list[0], node);
        FrameTransitive(m, o.m, Associate(o.m, list[0], node), {}, {});
      } else {
        NoNilListKept(m, o.m, list[1..], cidrs);
        OccupyCIDRsFrame(o.m, list[1..], node, cidrs);
        FrameTransitive(m, o.m, OccupyCIDRs(o.m, list[1..], node, cidrs).m, {}, {});
      }
    }
  }

  lemma ReleaseCIDRFrame(m: CidrMap, list: seq<Ref>, node: string, cidrs: seq<Cidr>)
    requires ValidMap(m) && NoNilRelease(m, list, node, cidrs)
    ensures Frame(m, ReleaseCIDR(m, list, node, cidrs).m, Elements(cidrs), {node})
  {
    hide Frame, ValidMap, SameShape, ReleaseAll, Dissociate;
    FrameSelf(m, Elements(cidrs), {node});
    var home := AllocatedClusterCIDR(m, list, node);
    if cidrs != [] && home.Some? {
      var o := ReleaseAll(m, home.value, cidrs);
      ReleaseAllFrame(m, home.value, cidrs, Elements(cidrs));
      FrameWeaken(m, o.m, Elements(cidrs), {}, Elements(cidrs), {node});
      if o.ok {
        ShapeKeeps(m, o.m, home.value);
        AssociateFrame(o.m, home.value, node);
        var m' := Dissociate(o.m, home.value, node);
        FrameWeaken(o.m, m', {}, {node}, Elements(cidrs), {node});
        FrameTransitive(m, o.m, m', Elements(cidrs), {node});
      }
    }
  }

  /** An allocation attempt frees at most the blocks it reserved. */
  lemma AllocateNodeFrame(m: CidrMap, list: seq<Ref>, node: string, lister: Lister, patches: seq<Patch>)
    requires ValidMap(m) && InMapAll(m, list) && patches != []
    ensures var a := AllocateNode(m, list, node, lister, patches);
            Frame(m, a.m, if GivesBack(a.outcome) then Elements(a.cidrs) else {}, {})
  {
    hide Frame, ValidMap, SameShape, ReleaseAll, Associate, PrioritizedCIDRs;
    var p := PrioritizedCIDRs(m, list);
    PrioritizedFrame(m, list);
    if p.chosen.Some? && p.cidrs != [] {
      var outcome := UpdateOutcome(p.cidrs, lister, patches);
      if GivesBack(outcome) {
        FamiliesNoNil(p.m, p.chosen.value, p.cidrs);
        ReleaseAllFrame(p.m, p.chosen.value, p.cidrs, Elements(p.cidrs));
        FrameWeaken(m, p.m, {}, {}, Elements(p.cidrs), {});
        FrameTransitive(m, p.m, ReleaseAll(p.m, p.chosen.value, p.cidrs).m, Elements(p.cidrs), {});
      } else if outcome.Assigned? {
        AssociateFrame(p.m, p.chosen.value, node);
        FrameTransitive(m, p.m, Associate(p.m, p.chosen.value, node), {}, {});
      }
    }
  }

  // ---------- Consequences ----------

  /** Where no mark is removed, an overlap stays one. */
  lemma OverlapKept(m: CidrMap, m': CidrMap, c: Cidr)
    requires ValidMap(m) && ValidMap(m') && Frame(m, m', {}, {}) && c.Valid() && OverlapsAllocatedList(m, c)
    ensures OverlapsAllocatedList(m', c)
  {
    hide Bits.Pow2;
    var r :| HasSet(m, r, c.fam) && MeetsMarked(SetAt(m, r, c.fam), c);
    var s := SetAt(m, r, c.fam);
    var i :| i in s.marks && Meets(s.cfg.Block(i), c);
    assert Keeps(At(m, r), At(m', r), {}, {});
    assert HasSet(m', r, c.fam);
    var s' := SetAt(m', r, c.fam);
    assert s'.cfg == s.cfg && i in s'.marks;
    assert MeetsMarked(s', c);
  }
}
