/** allocateCIDR: the search is sound and complete. */
module Allocate {
  import opened Cidrs
  import opened Blocks
  import opened SetSpec
  import opened AllocatorSpec

  lemma PutTwice(m: CidrMap, r: Ref, a: CC, b: CC)
    requires InMap(m, r)
    ensures Put(Put(m, r, a), r, b) == Put(m, r, b)
  {
    assert m[r.key][r.idx := a][r.idx := b] == m[r.key][r.idx := b];
  }

  lemma PutSetTwice(m: CidrMap, r: Ref, fam: Family, s: SetState, t: SetState)
    requires ValidMap(m) && HasSet(m, r, fam) && s.Valid() && t.Valid()
    requires s.cfg == t.cfg == SetAt(m, r, fam).cfg && s.cidrLabel == t.cidrLabel == SetAt(m, r, fam).cidrLabel
    ensures PutSet(PutSet(m, r, fam, s), r, fam, t) == PutSet(m, r, fam, t)
  {
    PutTwice(m, r, At(m, r).With(fam, s), At(m, r).With(fam, t));
  }

  /** A CIDR that is itself an allocated block overlaps one: the fast check never changes an allocation. */
  lemma FastCheckRedundant(m: CidrMap, c: Cidr)
    requires ValidMap(m) && c.Valid() && InAllocatedList(m, c)
    ensures OverlapsAllocatedList(m, c)
  {
    var r :| HasSet(m, r, c.fam) && IsMarked(SetAt(m, r, c.fam), c);
    assert MeetsMarked(SetAt(m, r, c.fam), c);
  }

  /** The block is allocated: marked in the set of its ClusterCIDR. */
  ghost predicate AllocatedBlock(m: CidrMap, r: Ref, fam: Family, i: nat)
    requires ValidMap(m)
  {
    HasSet(m, r, fam) && i in SetAt(m, r, fam).marks
  }

  /** The two lists spelled out: some allocated block of the family in some mapped ClusterCIDR is c, or meets c. */
  lemma AllocatedListsExact(m: CidrMap, c: Cidr)
    requires ValidMap(m) && c.Valid()
    ensures InAllocatedList(m, c) <==>
            exists r, i :: AllocatedBlock(m, r, c.fam, i) && SetAt(m, r, c.fam).cfg.Block(i) == c
    ensures OverlapsAllocatedList(m, c) <==>
            exists r, i :: AllocatedBlock(m, r, c.fam, i) && Meets(SetAt(m, r, c.fam).cfg.Block(i), c)
  {
    hide ValidMap, Bits.Pow2, Meets;
    if InAllocatedList(m, c) {
      var r :| HasSet(m, r, c.fam) && IsMarked(SetAt(m, r, c.fam), c);
      var i :| i in SetAt(m, r, c.fam).marks && SetAt(m, r, c.fam).cfg.Block(i) == c;
      assert AllocatedBlock(m, r, c.fam, i);
    }
    if OverlapsAllocatedList(m, c) {
      var r :| HasSet(m, r, c.fam) && MeetsMarked(SetAt(m, r, c.fam), c);
      var i :| i in SetAt(m, r, c.fam).marks && Meets(SetAt(m, r, c.fam).cfg.Block(i), c);
      assert AllocatedBlock(m, r, c.fam, i);
    }
    if r, i :| AllocatedBlock(m, r, c.fam, i) && SetAt(m, r, c.fam).cfg.Block(i) == c {
      assert IsMarked(SetAt(m, r, c.fam), c);
    }
    if r, i :| AllocatedBlock(m, r, c.fam, i) && Meets(SetAt(m, r, c.fam).cfg.Block(i), c) {
      assert MeetsMarked(SetAt(m, r, c.fam), c);
    }
  }

  /** Moving a cursor does not affect what overlaps. */
  lemma CursorIrrelevant(m: CidrMap, r: Ref, fam: Family, n: nat, c: Cidr)
    requires ValidMap(m) && HasSet(m, r, fam) && n < SetAt(m, r, fam).cfg.Max() && c.Valid()
    ensures OverlapsAllocatedList(PutSet(m, r, fam, SetAt(m, r, fam).(next := n)), c) <==> OverlapsAllocatedList(m, c)
  {
    hide Bits.Pow2, Config.Block, Cidr.Valid, Meets;
    var m' := PutSet(m, r, fam, SetAt(m, r, fam).(next := n));
    forall q
      ensures HasSet(m', q, c.fam) <==> HasSet(m, q, c.fam)
      ensures HasSet(m, q, c.fam) ==> SetAt(m', q, c.fam).marks == SetAt(m, q, c.fam).marks
      ensures HasSet(m, q, c.fam) ==> SetAt(m', q, c.fam).cfg == SetAt(m, q, c.fam).cfg
    {
    }
    if OverlapsAllocatedList(m, c) {
      var q :| HasSet(m, q, c.fam) && MeetsMarked(SetAt(m, q, c.fam), c);
      assert HasSet(m', q, c.fam) && MeetsMarked(SetAt(m', q, c.fam), c);
    }
    if OverlapsAllocatedList(m', c) {
      var q :| HasSet(m', q, c.fam) && MeetsMarked(SetAt(m', q, c.fam), c);
      assert HasSet(m, q, c.fam) && MeetsMarked(SetAt(m, q, c.fam), c);
    }
  }

  /** Some block of the set is disjoint from every allocated block of the family in every mapped ClusterCIDR. */
  ghost predicate HasEligible(m: CidrMap, r: Ref, fam: Family)
    requires ValidMap(m) && HasSet(m, r, fam)
  {
    exists i: nat :: i < SetAt(m, r, fam).cfg.Max() && Eligible(m, r, fam, i)
  }

  ghost predicate Eligible(m: CidrMap, r: Ref, fam: Family, i: nat)
    requires ValidMap(m) && HasSet(m, r, fam) && i < SetAt(m, r, fam).cfg.Max()
  {
    var cfg := SetAt(m, r, fam).cfg;
    BlockValid(cfg, i);
    !OverlapsAllocatedList(m, cfg.Block(i))
  }

  /** Eligible means disjoint from every allocated block of the family in every mapped ClusterCIDR. */
  lemma EligibleExact(m: CidrMap, r: Ref, fam: Family, i: nat)
    requires ValidMap(m) && HasSet(m, r, fam) && i < SetAt(m, r, fam).cfg.Max()
    ensures Eligible(m, r, fam, i) <==>
            forall q, j :: AllocatedBlock(m, q, fam, j) ==>
              !Meets(SetAt(m, q, fam).cfg.Block(j), SetAt(m, r, fam).cfg.Block(i))
  {
    hide ValidMap, Bits.Pow2, Meets;
    BlockValid(SetAt(m, r, fam).cfg, i);
    AllocatedListsExact(m, SetAt(m, r, fam).cfg.Block(i));
  }

  lemma MarkedIneligible(m: CidrMap, r: Ref, fam: Family, i: nat)
    requires ValidMap(m) && HasSet(m, r, fam) && i in SetAt(m, r, fam).marks
    ensures !Eligible(m, r, fam, i)
  {
    var s := SetAt(m, r, fam);
    BlockValid(s.cfg, i);
    assert MeetsMarked(s, s.cfg.Block(i));
  }

  /** What an attempt on one set does: at most its cursor moves, and an eligible block i is marked. */
  ghost predicate Attempted(m: CidrMap, r: Ref, fam: Family, a: Allocation)
    requires ValidMap(m) && HasSet(m, r, fam)
  {
    exists n: nat :: n < SetAt(m, r, fam).cfg.Max() && AttemptedTo(m, r, fam, a, n)
  }

  ghost predicate AttemptedTo(m: CidrMap, r: Ref, fam: Family, a: Allocation, n: nat)
    requires ValidMap(m) && HasSet(m, r, fam) && n < SetAt(m, r, fam).cfg.Max()
  {
    var s := SetAt(m, r, fam);
    if a.block.None? then
      !HasEligible(m, r, fam) && a.m == PutSet(m, r, fam, s.(next := n))
    else
      exists i: nat :: i < s.cfg.Max() && Eligible(m, r, fam, i) && a.block.value == s.cfg.Block(i)
        && a.m == PutSet(m, r, fam, s.(next := n, marks := s.marks + {i}))
  }

  /** The loop, entered after `evaluated` ring positions from `start` were all found ineligible. */
  lemma {:induction false} AllocateFromExact(m: CidrMap, r: Ref, fam: Family, evaluated: nat, start: nat)
    requires ValidMap(m) && HasSet(m, r, fam)
    requires start < SetAt(m, r, fam).cfg.Max()
    requires SetAt(m, r, fam).next == Ring(start, evaluated, SetAt(m, r, fam).cfg.Max())
    requires forall j: nat :: j < evaluated ==> !Eligible(m, r, fam, Ring(start, j, SetAt(m, r, fam).cfg.Max()))
    ensures Attempted(m, r, fam, AllocateFrom(m, r, fam, evaluated))
    decreases SetAt(m, r, fam).cfg.Max() - evaluated
  {
    hide Config.Block, Bits.Pow2, Eligible, Attempted, Put, At, OverlapsAllocatedList, InAllocatedList, Cidr.Valid,
      NextCandidate;
    var s := SetAt(m, r, fam);
    if evaluated >= s.cfg.Max() {
      WholeRing(m, r, fam, evaluated, start);
      AttemptFails(m, r, fam);
    } else if NextCandidate(s).None? {
      AllMarked(m, r, fam);
      AttemptFails(m, r, fam);
    } else {
      var c := NextCandidate(s).value;
      ChecksAgree(m, r, fam, c);
      if Eligible(m, r, fam, c.index) {
        AttemptTakes(m, r, fam, c);
      } else {
        RejectCandidate(m, r, fam, evaluated, start, c);
        AllocateFromExact(PutSet(m, r, fam, c.set'), r, fam, evaluated + c.skipped + 1, start);
        AttemptAfterMove(m, r, fam, c.set'.next, AllocateFrom(m, r, fam, evaluated));
      }
    }
  }

  /** The two checks together ask whether the candidate is eligible. */
  lemma ChecksAgree(m: CidrMap, r: Ref, fam: Family, c: Candidate)
    requires ValidMap(m) && HasSet(m, r, fam) && NextCandidate(SetAt(m, r, fam)) == Some(c)
    ensures var m1, block := PutSet(m, r, fam, c.set'), SetAt(m, r, fam).cfg.Block(c.index);
            && block.Valid()
            && (InAllocatedList(m1, block) || OverlapsAllocatedList(m1, block) <==> !Eligible(m, r, fam, c.index))
  {
    var s := SetAt(m, r, fam);
    BlockValid(s.cfg, c.index);
    var m1, block := PutSet(m, r, fam, c.set'), s.cfg.Block(c.index);
    CursorIrrelevant(m, r, fam, c.set'.next, block);
    if InAllocatedList(m1, block) {
      FastCheckRedundant(m1, block);
    }
  }

  lemma AllMarked(m: CidrMap, r: Ref, fam: Family)
    requires ValidMap(m) && HasSet(m, r, fam) && NextCandidate(SetAt(m, r, fam)).None?
    ensures !HasEligible(m, r, fam)
  {
    forall i: nat | i < SetAt(m, r, fam).cfg.Max()
      ensures !Eligible(m, r, fam, i)
    {
      MarkedIneligible(m, r, fam, i);
    }
  }

  lemma AttemptFails(m: CidrMap, r: Ref, fam: Family)
    requires ValidMap(m) && HasSet(m, r, fam) && !HasEligible(m, r, fam)
    ensures Attempted(m, r, fam, Allocation(m, None))
  {
    SameSet(m, r, fam);
    assert AttemptedTo(m, r, fam, Allocation(m, None), SetAt(m, r, fam).next);
  }

  lemma AttemptTakes(m: CidrMap, r: Ref, fam: Family, c: Candidate)
    requires ValidMap(m) && HasSet(m, r, fam)
    requires NextCandidate(SetAt(m, r, fam)) == Some(c) && Eligible(m, r, fam, c.index)
    ensures var block := SetAt(m, r, fam).cfg.Block(c.index);
            && block.Valid()
            && var occupied := OccupyAt(PutSet(m, r, fam, c.set'), r, block);
            occupied.Some? && Attempted(m, r, fam, Allocation(occupied.value, Some(block)))
  {
    var s := SetAt(m, r, fam);
    var block := s.cfg.Block(c.index);
    BlockMeetsItself(s.cfg, c.index);
    PutSetTwice(m, r, fam, c.set', c.set'.(marks := s.marks + {c.index}));
    var a := Allocation(OccupyAt(PutSet(m, r, fam, c.set'), r, block).value, Some(block));
    assert a.m == PutSet(m, r, fam, s.(next := c.set'.next, marks := s.marks + {c.index}));
    assert AttemptedTo(m, r, fam, a, c.set'.next);
  }

  /** After a rejected candidate, the positions up to and including it are known to be ineligible. */
  lemma RejectCandidate(m: CidrMap, r: Ref, fam: Family, evaluated: nat, start: nat, c: Candidate)
    requires ValidMap(m) && HasSet(m, r, fam) && NextCandidate(SetAt(m, r, fam)) == Some(c)
    requires start < SetAt(m, r, fam).cfg.Max()
    requires SetAt(m, r, fam).next == Ring(start, evaluated, SetAt(m, r, fam).cfg.Max())
    requires forall j: nat :: j < evaluated ==> !Eligible(m, r, fam, Ring(start, j, SetAt(m, r, fam).cfg.Max()))
    requires !Eligible(m, r, fam, c.index)
    ensures var m1, evaluated1 := PutSet(m, r, fam, c.set'), evaluated + c.skipped + 1;
            && c.set'.next == Ring(start, evaluated1, SetAt(m, r, fam).cfg.Max())
            && forall j: nat :: j < evaluated1 ==> !Eligible(m1, r, fam, Ring(start, j, SetAt(m, r, fam).cfg.Max()))
  {
    hide Config.Block, Bits.Pow2, Eligible, Cidr.Valid;
    var max := SetAt(m, r, fam).cfg.Max();
    RingAdd(start, evaluated, c.skipped, max);
    SkippedIneligible(m, r, fam, evaluated, start, c);
    forall j: nat | j < evaluated + c.skipped + 1
      ensures !Eligible(PutSet(m, r, fam, c.set'), r, fam, Ring(start, j, max))
    {
      EligibleAfterMove(m, r, fam, c.set'.next, Ring(start, j, max));
    }
  }

  lemma EligibleAfterMove(m: CidrMap, r: Ref, fam: Family, n: nat, i: nat)
    requires ValidMap(m) && HasSet(m, r, fam) && n < SetAt(m, r, fam).cfg.Max() && i < SetAt(m, r, fam).cfg.Max()
    ensures Eligible(PutSet(m, r, fam, SetAt(m, r, fam).(next := n)), r, fam, i) <==> Eligible(m, r, fam, i)
  {
    var cfg := SetAt(m, r, fam).cfg;
    BlockValid(cfg, i);
    CursorIrrelevant(m, r, fam, n, cfg.Block(i));
  }

  lemma SameSet(m: CidrMap, r: Ref, fam: Family)
    requires ValidMap(m) && HasSet(m, r, fam)
    ensures PutSet(m, r, fam, SetAt(m, r, fam).(next := SetAt(m, r, fam).next)) == m
  {
    assert m[r.key][r.idx := At(m, r)] == m[r.key];
  }

  /** A whole turn of ineligible positions is every block. */
  lemma WholeRing(m: CidrMap, r: Ref, fam: Family, evaluated: nat, start: nat)
    requires ValidMap(m) && HasSet(m, r, fam) && start < SetAt(m, r, fam).cfg.Max() <= evaluated
    requires forall j: nat :: j < evaluated ==> !Eligible(m, r, fam, Ring(start, j, SetAt(m, r, fam).cfg.Max()))
    ensures !HasEligible(m, r, fam)
  {
    var max := SetAt(m, r, fam).cfg.Max();
    forall i: nat | i < max
      ensures !Eligible(m, r, fam, i)
    {
      assert Ring(start, OffsetOf(start, i, max), max) == i;
    }
  }

  /** The positions NextCandidate skipped are marked, hence ineligible. */
  lemma SkippedIneligible(m: CidrMap, r: Ref, fam: Family, evaluated: nat, start: nat, c: Candidate)
    requires ValidMap(m) && HasSet(m, r, fam) && start < SetAt(m, r, fam).cfg.Max()
    requires SetAt(m, r, fam).next == Ring(start, evaluated, SetAt(m, r, fam).cfg.Max())
    requires NextCandidate(SetAt(m, r, fam)) == Some(c)
    ensures forall j: nat :: evaluated <= j < evaluated + c.skipped ==>
              !Eligible(m, r, fam, Ring(start, j, SetAt(m, r, fam).cfg.Max()))
  {
    hide Bits.Pow2, Config.Block, Cidr.Valid, Eligible;
    var s := SetAt(m, r, fam);
    var max := s.cfg.Max();
    forall j: nat | evaluated <= j < evaluated + c.skipped
      ensures !Eligible(m, r, fam, Ring(start, j, max))
    {
      RingAdd(start, evaluated, j - evaluated, max);
      MarkedIneligible(m, r, fam, Ring(s.next, j - evaluated, max));
    }
  }

  /** An attempt made after the cursor moved is an attempt from where it was. */
  lemma AttemptAfterMove(m: CidrMap, r: Ref, fam: Family, n: nat, a: Allocation)
    requires ValidMap(m) && HasSet(m, r, fam) && n < SetAt(m, r, fam).cfg.Max()
    requires Attempted(PutSet(m, r, fam, SetAt(m, r, fam).(next := n)), r, fam, a)
    ensures Attempted(m, r, fam, a)
  {
    hide Bits.Pow2, Config.Block, Cidr.Valid, Eligible;
    var s := SetAt(m, r, fam);
    var m1 := PutSet(m, r, fam, s.(next := n));
    var n': nat :| n' < s.cfg.Max() && AttemptedTo(m1, r, fam, a, n');
    forall i: nat | i < s.cfg.Max()
      ensures Eligible(m1, r, fam, i) <==> Eligible(m, r, fam, i)
    {
      EligibleAfterMove(m, r, fam, n, i);
    }
    if a.block.None? {
      PutSetTwice(m, r, fam, s.(next := n), s.(next := n'));
    } else {
      var i: nat :| i < s.cfg.Max() && Eligible(m1, r, fam, i) && a.block.value == s.cfg.Block(i)
        && a.m == PutSet(m1, r, fam, s.(next := n', marks := s.marks + {i}));
      PutSetTwice(m, r, fam, s.(next := n), s.(next := n', marks := s.marks + {i}));
    }
    assert AttemptedTo(m, r, fam, a, n');
  }

  /** allocateCIDR is sound and complete: it returns a block iff some block of the set is disjoint from
      every allocated block of that family in every mapped ClusterCIDR; the block it returns is such a
      block and becomes marked; nothing else but the set's cursor changes, and on failure only that. */
  lemma AllocateExact(m: CidrMap, r: Ref, fam: Family)
    requires ValidMap(m) && HasSet(m, r, fam)
    ensures Attempted(m, r, fam, AllocateCIDR(m, r, fam))
    ensures AllocateCIDR(m, r, fam).block.Some? <==> HasEligible(m, r, fam)
  {
    AllocateFromExact(m, r, fam, 0, SetAt(m, r, fam).next);
  }

  // ---------- Which block ----------

  /** The k-th position of the ring from `start` is the first one that is eligible. */
  ghost predicate FirstEligible(m: CidrMap, r: Ref, fam: Family, start: nat, k: nat)
    requires ValidMap(m) && HasSet(m, r, fam) && start < SetAt(m, r, fam).cfg.Max()
  {
    var max := SetAt(m, r, fam).cfg.Max();
    Eligible(m, r, fam, Ring(start, k, max)) && forall j: nat :: j < k ==> !Eligible(m, r, fam, Ring(start, j, max))
  }

  /** The block is the one k positions on from `start`, and the cursor stands behind it. */
  ghost predicate TakesPosition(m: CidrMap, r: Ref, fam: Family, start: nat, k: nat, a: Allocation)
    requires ValidMap(m) && HasSet(m, r, fam) && start < SetAt(m, r, fam).cfg.Max() && ValidMap(a.m)
  {
    var s := SetAt(m, r, fam);
    var i := Ring(start, k, s.cfg.Max());
    && FirstEligible(m, r, fam, start, k)
    && a.block == Some(s.cfg.Block(i))
    && HasSet(a.m, r, fam) && SetAt(a.m, r, fam) == s.(next := Succ(i, s.cfg.Max()), marks := s.marks + {i})
  }

  lemma {:induction false} AllocateFromFirst(m: CidrMap, r: Ref, fam: Family, evaluated: nat, start: nat)
    returns (k: nat)
    requires ValidMap(m) && HasSet(m, r, fam)
    requires start < SetAt(m, r, fam).cfg.Max()
    requires SetAt(m, r, fam).next == Ring(start, evaluated, SetAt(m, r, fam).cfg.Max())
    requires forall j: nat :: j < evaluated ==> !Eligible(m, r, fam, Ring(start, j, SetAt(m, r, fam).cfg.Max()))
    ensures var a := AllocateFrom(m, r, fam, evaluated); a.block.Some? ==> TakesPosition(m, r, fam, start, k, a)
    decreases SetAt(m, r, fam).cfg.Max() - evaluated
  {
    hide Config.Block, Bits.Pow2, Eligible, Put, At, OverlapsAllocatedList, InAllocatedList, Cidr.Valid, NextCandidate,
      TakesPosition, OccupyAt, Meets;
    var s := SetAt(m, r, fam);
    k := 0;
    if evaluated < s.cfg.Max() && NextCandidate(s).Some? {
      var c := NextCandidate(s).value;
      ChecksAgree(m, r, fam, c);
      if Eligible(m, r, fam, c.index) {
        k := evaluated + c.skipped;
        TakesCandidate(m, r, fam, evaluated, start, c);
      } else {
        RejectCandidate(m, r, fam, evaluated, start, c);
        k := AllocateFromFirst(PutSet(m, r, fam, c.set'), r, fam, evaluated + c.skipped + 1, start);
        if AllocateFrom(m, r, fam, evaluated).block.Some? {
          PositionAfterMove(m, r, fam, c.set'.next, start, k, AllocateFrom(m, r, fam, evaluated));
        }
      }
    }
  }

  lemma TakesCandidate(m: CidrMap, r: Ref, fam: Family, evaluated: nat, start: nat, c: Candidate)
    requires ValidMap(m) && HasSet(m, r, fam) && start < SetAt(m, r, fam).cfg.Max()
    requires NextCandidate(SetAt(m, r, fam)) == Some(c) && Eligible(m, r, fam, c.index)
    requires SetAt(m, r, fam).next == Ring(start, evaluated, SetAt(m, r, fam).cfg.Max())
    requires forall j: nat :: j < evaluated ==> !Eligible(m, r, fam, Ring(start, j, SetAt(m, r, fam).cfg.Max()))
    ensures var block := SetAt(m, r, fam).cfg.Block(c.index);
            && block.Valid()
            && var occupied := OccupyAt(PutSet(m, r, fam, c.set'), r, block);
            && occupied.Some?
            && TakesPosition(m, r, fam, start, evaluated + c.skipped, Allocation(occupied.value, Some(block)))
  {
    hide Eligible, Bits.Pow2, Config.Block, SameShape, ValidMap, OccupyAt, PutSet;
    OccupiesCandidate(m, r, fam, c);
    RingAdd(start, evaluated, c.skipped, SetAt(m, r, fam).cfg.Max());
    SkippedIneligible(m, r, fam, evaluated, start, c);
  }

  lemma OccupiesCandidate(m: CidrMap, r: Ref, fam: Family, c: Candidate)
    requires ValidMap(m) && HasSet(m, r, fam) && NextCandidate(SetAt(m, r, fam)) == Some(c)
    ensures var s := SetAt(m, r, fam);
            && s.cfg.Block(c.index).Valid()
            && var occupied := OccupyAt(PutSet(m, r, fam, c.set'), r, s.cfg.Block(c.index));
            && occupied.Some? && HasSet(occupied.value, r, fam)
            && SetAt(occupied.value, r, fam) == s.(next := Succ(c.index, s.cfg.Max()), marks := s.marks + {c.index})
  {
    hide Bits.Pow2, Config.Block, SameShape, ValidMap, Meets, Cidr.Valid;
    BlockMeetsItself(SetAt(m, r, fam).cfg, c.index);
  }

  lemma PositionAfterMove(m: CidrMap, r: Ref, fam: Family, n: nat, start: nat, k: nat, a: Allocation)
    requires ValidMap(m) && HasSet(m, r, fam) && n < SetAt(m, r, fam).cfg.Max() && start < SetAt(m, r, fam).cfg.Max()
    requires ValidMap(a.m) && TakesPosition(PutSet(m, r, fam, SetAt(m, r, fam).(next := n)), r, fam, start, k, a)
    ensures TakesPosition(m, r, fam, start, k, a)
  {
    hide Eligible, Bits.Pow2, Config.Block, SameShape, ValidMap;
    forall i: nat | i < SetAt(m, r, fam).cfg.Max()
      ensures Eligible(PutSet(m, r, fam, SetAt(m, r, fam).(next := n)), r, fam, i) <==> Eligible(m, r, fam, i)
    {
      EligibleAfterMove(m, r, fam, n, i);
    }
  }

  /** allocateCIDR takes the first eligible block in ring order from the cursor, which then stands behind it. */
  lemma AllocateFirst(m: CidrMap, r: Ref, fam: Family) returns (k: nat)
    requires ValidMap(m) && HasSet(m, r, fam)
    ensures var a := AllocateCIDR(m, r, fam);
            a.block.Some? ==> TakesPosition(m, r, fam, SetAt(m, r, fam).next, k, a)
  {
    k := AllocateFromFirst(m, r, fam, 0, SetAt(m, r, fam).next);
  }
}
