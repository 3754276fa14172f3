/** The MultiCIDRSet object: a map of allocated blocks, a cached count and a cursor.

`View` gives the abstract value of the object; every method is proved to act on
it as the functions of module `SetSpec` do.
 */
module MultiCidrSets {
  import opened Cidrs
  import opened Blocks
  import Spec = SetSpec

  /** The keys the allocated map holds when the marked blocks are `marks`. */
  ghost function Keys(cfg: Config, marks: set<nat>): (keys: set<Cidr>)
    requires cfg.Valid() && forall i :: i in marks ==> i < cfg.Max()
    ensures forall c :: c in keys <==> exists i :: i in marks && cfg.Block(i) == c
  {
    set i | i in marks :: cfg.Block(i)
  }

  /** Keys and block numbers correspond one to one. */
  lemma KeysMember(cfg: Config, marks: set<nat>, i: nat)
    requires cfg.Valid() && (forall j :: j in marks ==> j < cfg.Max()) && i < cfg.Max()
    ensures cfg.Block(i) in Keys(cfg, marks) <==> i in marks
    ensures Keys(cfg, marks + {i}) == Keys(cfg, marks) + {cfg.Block(i)}
    ensures Keys(cfg, marks - {i}) == Keys(cfg, marks) - {cfg.Block(i)}
  {
    forall j | j in marks
      ensures cfg.Block(j) == cfg.Block(i) <==> j == i
    {
      BlocksDisjoint(cfg, j, i);
    }
    var plus, minus := Keys(cfg, marks + {i}), Keys(cfg, marks - {i});
    forall c
      ensures c in plus <==> c in Keys(cfg, marks) + {cfg.Block(i)}
      ensures c in minus <==> c in Keys(cfg, marks) - {cfg.Block(i)}
    {
      if c in Keys(cfg, marks) {
        var j :| j in marks && cfg.Block(j) == c;
        assert j in marks + {i};
        assert j != i ==> j in marks - {i};
      }
      if c == cfg.Block(i) {
        assert i in marks + {i};
      }
    }
  }

  /** The cached count is the number of keys. */
  lemma {:induction false} KeysSize(cfg: Config, marks: set<nat>)
    requires cfg.Valid() && forall i :: i in marks ==> i < cfg.Max()
    ensures |Keys(cfg, marks)| == |marks|
  {
    if marks != {} {
      var i :| i in marks;
      KeysSize(cfg, marks - {i});
      KeysMember(cfg, marks, i);
    }
  }

  /** The inclusive interval [begin, end]. */
  ghost function Interval(begin: nat, end: int): (r: set<nat>)
    requires begin <= end + 1
    ensures forall i: nat :: i in r <==> begin <= i <= end
    decreases end
  {
    if end < begin then {} else Interval(begin, end - 1) + {end}
  }

  lemma IntervalStep(marks: set<nat>, begin: nat, i: nat)
    requires begin <= i
    ensures marks + Interval(begin, i - 1) + {i} == marks + Interval(begin, i)
    ensures marks - Interval(begin, i - 1) - {i} == marks - Interval(begin, i)
  {
    hide Interval;
  }

  class MultiCIDRSet {
    /** ClusterCIDR, its mask size, and NodeMaskSize. */
    const cfg: Config
    const maxCIDRs: int
    const cidrLabel: string
    const clusterCIDRName: string
    /** The selector key the owning ClusterCIDR is mapped under. */
    ghost const selector: string

    /** The keys of allocatedCIDRMap: the program only ever asks whether a key is present. */
    var allocatedCIDRMap: set<Cidr>
    var allocatedCIDRs: int
    var nextCandidate: nat
    ghost var marks: set<nat>

    ghost predicate Valid()
      reads this
    {
      && cfg.Valid()
      && maxCIDRs == cfg.Max()
      && (forall i :: i in marks ==> i < cfg.Max())
      && allocatedCIDRMap == Keys(cfg, marks)
      && allocatedCIDRs == |marks|
      && nextCandidate < maxCIDRs
    }

    ghost function View(): (s: Spec.SetState)
      reads this
      ensures Valid() ==> s.Valid()
    {
      Spec.SetState(cfg, cidrLabel, marks, nextCandidate)
    }

    /** The cached count is the size of the map, and never exceeds MaxCIDRs. */
    lemma CountIsMapSize()
      requires Valid()
      ensures allocatedCIDRs == |allocatedCIDRMap| <= maxCIDRs
    {
      KeysSize(cfg, marks);
      Spec.Pigeonhole(View());
    }

    /** NewMultiCIDRSet, once the constructor's checks have passed. */
    constructor (name: string, ghost key: string, cidr: Cidr, nodeMaskSize: nat, maxCIDRs: int, text: string)
      requires Config(cidr, nodeMaskSize).Valid() && maxCIDRs == Config(cidr, nodeMaskSize).Max()
      ensures Valid() && View() == Spec.SetState(Config(cidr, nodeMaskSize), text, {}, 0)
      ensures clusterCIDRName == name && selector == key
    {
      this.cfg := Config(cidr, nodeMaskSize);
      this.maxCIDRs := maxCIDRs;
      this.cidrLabel := text;
      this.clusterCIDRName := name;
      this.selector := key;
      this.allocatedCIDRMap := {};
      this.allocatedCIDRs := 0;
      this.nextCandidate := 0;
      this.marks := {};
      new;
      assert Keys(cfg, {}) == {};
    }

    /** indexToCIDRBlock. */
    method BlockAt(index: nat) returns (block: Cidr)
      requires cfg.Valid() && index < cfg.Max()
      ensures block == cfg.Block(index)
    {
      IndexToBlockExact(cfg, index);
      return IndexToCIDRBlock(cfg, index);
    }

    /** getBeginningAndEndIndices. */
    method IndicesOf(cidr: Cidr) returns (r: Indices)
      requires cfg.Valid() && cidr.Valid()
      ensures r.OutOfRange? <==> !Meets(cfg.cluster, cidr)
      ensures r.Indices? ==> r.begin <= r.end < cfg.Max()
      ensures r.Indices? ==> Spec.MeetingBlocks(cfg, cidr) == Interval(r.begin, r.end)
    {
      IndicesExact(cfg, cidr);
      r := GetBeginningAndEndIndices(cfg, cidr);
      if r.Indices? {
        assert Spec.MeetingBlocks(cfg, cidr) == Interval(r.begin, r.end);
      }
    }

    /** The next free block and the number of blocks skipped, or None when the range is exhausted.
        The error return after the scan is never reached: `evaluated` would be MaxCIDRs there. */
    method NextCandidate() returns (candidate: Option<Cidr>, evaluated: int)
      requires Valid()
      modifies this`nextCandidate
      ensures Valid()
      ensures var r := Spec.NextCandidate(old(View()));
              if r.None? then candidate == None && evaluated == 0 && View() == old(View())
              else candidate == Some(cfg.Block(r.value.index)) && evaluated == r.value.skipped && View() == r.value.set'
    {
      hide Bits.Pow2, Config.Block, Cidr.Valid, IndexToCIDRBlock, Keys, Spec.NextCandidate;
      Spec.Pigeonhole(View());
      if allocatedCIDRs == maxCIDRs {
        return None, 0;
      }

      var index := nextCandidate;
      var i := 0;
      while i < maxCIDRs
        invariant 0 <= i <= maxCIDRs && Valid() && View() == old(View())
        invariant index == Spec.Ring(nextCandidate, i, maxCIDRs)
        invariant forall j: nat :: j < i ==> Spec.Ring(nextCandidate, j, maxCIDRs) in marks
      {
        var block := BlockAt(index);
        KeysMember(cfg, marks, index);
        // Check if the candidate is not already allocated.
        if block !in allocatedCIDRMap {
          NextCandidateIs(View(), i);
          nextCandidate := (index + 1) % maxCIDRs;
          return Some(block), i;
        }
        index := (index + 1) % maxCIDRs;
        i := i + 1;
      }

      assert false by {
        NoCandidateLeft(View());
      }
      return None, maxCIDRs;
    }

    /** Counts a block only if it was not marked before. */
    method MarkBlock(i: nat)
      requires Valid() && i < cfg.Max()
      modifies this`allocatedCIDRMap, this`allocatedCIDRs, this`marks
      ensures Valid() && marks == old(marks) + {i}
    {
      var block := BlockAt(i);
      KeysMember(cfg, marks, i);
      if block !in allocatedCIDRMap {
        allocatedCIDRMap := allocatedCIDRMap + {block};
        allocatedCIDRs := allocatedCIDRs + 1;
        marks := marks + {i};
      }
    }

    /** Marks the blocks begin..end. */
    method MarkBlocks(begin: nat, end: nat)
      requires Valid() && begin <= end < cfg.Max()
      modifies this`allocatedCIDRMap, this`allocatedCIDRs, this`marks
      ensures Valid() && marks == old(marks) + Interval(begin, end)
    {
      hide MultiCIDRSet.Valid, Interval, Bits.Pow2;
      var i := begin;
      while i <= end
        invariant begin <= i <= end + 1 && Valid()
        invariant marks == old(marks) + Interval(begin, i - 1)
      {
        MarkBlock(i);
        IntervalStep(old(marks), begin, i);
        i := i + 1;
      }
    }

    /** Counts a block only if it was marked before. */
    method UnmarkBlock(i: nat)
      requires Valid() && i < cfg.Max()
      modifies this`allocatedCIDRMap, this`allocatedCIDRs, this`marks
      ensures Valid() && marks == old(marks) - {i}
    {
      var block := BlockAt(i);
      KeysMember(cfg, marks, i);
      if block in allocatedCIDRMap {
        allocatedCIDRMap := allocatedCIDRMap - {block};
        allocatedCIDRs := allocatedCIDRs - 1;
        marks := marks - {i};
      }
    }

    /** Unmarks the blocks begin..end. */
    method UnmarkBlocks(begin: nat, end: nat)
      requires Valid() && begin <= end < cfg.Max()
      modifies this`allocatedCIDRMap, this`allocatedCIDRs, this`marks
      ensures Valid() && marks == old(marks) - Interval(begin, end)
    {
      hide MultiCIDRSet.Valid, Interval, Bits.Pow2;
      var i := begin;
      while i <= end
        invariant begin <= i <= end + 1 && Valid()
        invariant marks == old(marks) - Interval(begin, i - 1)
      {
        UnmarkBlock(i);
        IntervalStep(old(marks), begin, i);
        i := i + 1;
      }
    }

    /** Marks every block that meets cidr; succeeds even if some were marked before. */
    method Occupy(cidr: Cidr) returns (ok: bool)
      requires Valid() && cidr.Valid()
      modifies this`allocatedCIDRMap, this`allocatedCIDRs, this`marks
      ensures Valid()
      ensures ok <==> Spec.Occupy(old(View()), cidr).Some?
      ensures View() == if ok then Spec.Occupy(old(View()), cidr).value else old(View())
    {
      var indices := IndicesOf(cidr);
      if indices.OutOfRange? {
        return false;
      }
      MarkBlocks(indices.begin, indices.end);
      return true;
    }

    /** Unmarks every block that meets cidr. */
    method Release(cidr: Cidr) returns (ok: bool)
      requires Valid() && cidr.Valid()
      modifies this`allocatedCIDRMap, this`allocatedCIDRs, this`marks
      ensures Valid()
      ensures ok <==> Spec.Release(old(View()), cidr).Some?
      ensures View() == if ok then Spec.Release(old(View()), cidr).value else old(View())
    {
      var indices := IndicesOf(cidr);
      if indices.OutOfRange? {
        return false;
      }
      UnmarkBlocks(indices.begin, indices.end);
      return true;
    }

    /** Whether cidr itself is one of the allocated blocks. */
    method CIDRAllocated(cidr: Cidr) returns (found: bool)
      requires Valid()
      ensures found <==> Spec.IsMarked(View(), cidr)
      ensures found <==> exists i :: i in marks && cfg.Block(i) == cidr
    {
      return cidr in allocatedCIDRMap;
    }

    /** Whether cidr shares an address with an allocated block, by the mask test on each of them. */
    method CIDROverlaps(cidr: Cidr) returns (overlaps: bool)
      requires Valid() && cidr.Valid()
      ensures overlaps <==> Spec.MeetsMarked(View(), cidr)
      ensures overlaps <==> exists i :: i in marks && Meets(cfg.Block(i), cidr)
    {
      var rest := allocatedCIDRMap;
      while rest != {}
        invariant rest <= allocatedCIDRMap
        invariant forall i :: i in marks && cfg.Block(i) !in rest ==> !Meets(cfg.Block(i), cidr)
        decreases |rest|
      {
        var block :| block in rest;
        ghost var i :| i in marks && cfg.Block(i) == block;
        BlockValid(cfg, i);
        OverlapsExact(cidr, block);
        if Overlaps(cidr, block) {
          return true;
        }
        rest := rest - {block};
      }
      return false;
    }
  }

  /** The offset that is free and whose predecessors are all marked is the one NextCandidate finds. */
  lemma NextCandidateIs(s: Spec.SetState, k: nat)
    requires s.Valid() && k < s.cfg.Max()
    requires forall j: nat :: j < k ==> Spec.Ring(s.next, j, s.cfg.Max()) in s.marks
    requires Spec.Ring(s.next, k, s.cfg.Max()) !in s.marks
    ensures var index := Spec.Ring(s.next, k, s.cfg.Max());
            Spec.NextCandidate(s) == Some(Spec.Candidate(s.(next := Spec.Succ(index, s.cfg.Max())), index, k))
  {
    hide Bits.Pow2, Config.Valid;
  }

  /** If every offset was found marked, no candidate is left. */
  lemma NoCandidateLeft(s: Spec.SetState)
    requires s.Valid() && forall j: nat :: j < s.cfg.Max() ==> Spec.Ring(s.next, j, s.cfg.Max()) in s.marks
    ensures Spec.NextCandidate(s).None?
  {
    hide Bits.Pow2, Config.Valid;
  }
}
