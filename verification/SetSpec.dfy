/** What a CIDR set does, as a function on values: a set of marked block numbers and a ring cursor.

The class `MultiCIDRSet` is proved to behave as these functions say.
 */
module SetSpec {
  import opened Cidrs
  import opened Blocks

  datatype SetState = SetState(cfg: Config, cidrLabel: string, marks: set<nat>, next: nat) {
    ghost predicate Valid() {
      && cfg.Valid()
      && (forall i :: i in marks ==> i < cfg.Max())
      && next < cfg.Max()
    }
  }

  /** The blocks of the range that share an address with c. */
  ghost function MeetingBlocks(cfg: Config, c: Cidr): (r: set<nat>)
    requires cfg.Valid() && c.Valid()
    ensures forall i: nat :: i in r <==> i < cfg.Max() && Meets(cfg.Block(i), c)
  {
    set i: nat | i < cfg.Max() && Meets(cfg.Block(i), c)
  }

  /** Occupy: union with the blocks that meet c, an error if c misses the range. */
  ghost function Occupy(s: SetState, c: Cidr): (r: Option<SetState>)
    requires s.Valid() && c.Valid()
    ensures r.Some? ==> r.value.Valid()
  {
    if Meets(s.cfg.cluster, c) then Some(s.(marks := s.marks + MeetingBlocks(s.cfg, c))) else None
  }

  /** Release: difference with the blocks that meet c, an error if c misses the range. */
  ghost function Release(s: SetState, c: Cidr): (r: Option<SetState>)
    requires s.Valid() && c.Valid()
    ensures r.Some? ==> r.value.Valid()
  {
    if Meets(s.cfg.cluster, c) then Some(s.(marks := s.marks - MeetingBlocks(s.cfg, c))) else None
  }

  /** c is itself a marked block. */
  ghost predicate IsMarked(s: SetState, c: Cidr)
    requires s.Valid()
  {
    exists i :: i in s.marks && s.cfg.Block(i) == c
  }

  /** c shares an address with a marked block. */
  ghost predicate MeetsMarked(s: SetState, c: Cidr)
    requires s.Valid() && c.Valid()
  {
    exists i :: i in s.marks && Meets(s.cfg.Block(i), c)
  }

  // ---------- The ring ----------

  /** The next block on a ring: (i + 1) % max. */
  function Succ(i: nat, max: nat): (r: nat)
    requires i < max
    ensures r < max && r == (i + 1) % max
  {
    var r := if i + 1 == max then 0 else i + 1;
    Bits.DivUnique(i + 1, if i + 1 == max then 1 else 0, r, max);
    r
  }

  /** The block k steps after `next` on a ring of `max` blocks. */
  function Ring(next: nat, k: nat, max: nat): (i: nat)
    requires next < max
    ensures i < max
  {
    if k == 0 then next else Succ(Ring(next, k - 1, max), max)
  }

  /** The smallest offset from k on whose block is free, or max. */
  ghost function FirstFree(marks: set<nat>, next: nat, max: nat, k: nat): (r: nat)
    requires next < max && k <= max
    ensures k <= r <= max
    ensures forall j: nat :: k <= j < r ==> Ring(next, j, max) in marks
    ensures r < max ==> Ring(next, r, max) !in marks
    decreases max - k
  {
    if k == max || Ring(next, k, max) !in marks then k else FirstFree(marks, next, max, k + 1)
  }

  datatype Candidate = Candidate(set': SetState, index: nat, skipped: nat)

  /** NextCandidate: the first free block in ring order from the cursor, which moves past it. */
  ghost function NextCandidate(s: SetState): (r: Option<Candidate>)
    requires s.Valid()
    ensures r.None? <==> forall i: nat :: i < s.cfg.Max() ==> i in s.marks
    ensures r.Some? ==>
              && r.value.index == Ring(s.next, r.value.skipped, s.cfg.Max()) && r.value.skipped < s.cfg.Max()
              && r.value.index !in s.marks
              && (forall j: nat :: j < r.value.skipped ==> Ring(s.next, j, s.cfg.Max()) in s.marks)
              && r.value.set' == s.(next := Succ(r.value.index, s.cfg.Max())) && r.value.set'.Valid()
  {
    var max := s.cfg.Max();
    var k := FirstFree(s.marks, s.next, max, 0);
    RingOnto(s, k);
    if k == max then None
    else Some(Candidate(s.(next := Succ(Ring(s.next, k, max), max)), Ring(s.next, k, max), k))
  }

  /** The offset from `next` at which block i comes round. */
  function OffsetOf(next: nat, i: nat, max: nat): (k: nat)
    requires next < max && i < max
    ensures k < max && Ring(next, k, max) == i
  {
    var k := if i >= next then i - next else max - next + i;
    RingValue(next, k, max);
    k
  }

  /** If the scan comes round without finding a free block, there is none. */
  lemma RingOnto(s: SetState, k: nat)
    requires s.Valid() && k == FirstFree(s.marks, s.next, s.cfg.Max(), 0)
    ensures k == s.cfg.Max() <==> forall i: nat :: i < s.cfg.Max() ==> i in s.marks
  {
    var max := s.cfg.Max();
    if k == max {
      forall i: nat | i < max
        ensures i in s.marks
      {
        assert Ring(s.next, OffsetOf(s.next, i, max), max) == i;
      }
    }
  }

  /** One turn of the ring in closed form. */
  lemma {:induction false} RingValue(next: nat, k: nat, max: nat)
    requires next < max && k <= max
    ensures Ring(next, k, max) == if next + k < max then next + k else next + k - max
  {
    if k != 0 {
      RingValue(next, k - 1, max);
    }
  }

  lemma {:induction false} RingAdd(next: nat, k: nat, m: nat, max: nat)
    requires next < max
    ensures Ring(Ring(next, k, max), m, max) == Ring(next, k + m, max)
  {
    if m != 0 {
      RingAdd(next, k, m - 1, max);
    }
  }

  // ---------- Pigeonhole ----------

  ghost function Below(n: nat): (s: set<nat>)
    ensures |s| == n && forall i: nat :: i in s <==> i < n
  {
    if n == 0 then {} else Below(n - 1) + {n - 1}
  }

  lemma SubsetSize(a: set<nat>, b: set<nat>)
    requires a <= b
    ensures |a| <= |b|
    ensures |a| == |b| ==> a == b
  {
    assert b == a + (b - a);
  }

  /** The count reaches MaxCIDRs exactly when every block is marked; so after the count check of
      NextCandidate the scan always finds a block and its final error return is never taken. */
  lemma Pigeonhole(s: SetState)
    requires s.Valid()
    ensures |s.marks| <= s.cfg.Max()
    ensures |s.marks| == s.cfg.Max() <==> NextCandidate(s).None?
  {
    SubsetSize(s.marks, Below(s.cfg.Max()));
    if NextCandidate(s).None? {
      assert s.marks == Below(s.cfg.Max());
    }
  }

  // ---------- Occupy and Release ----------

  /** A block of the set occupies exactly itself. */
  lemma BlockMeetsItself(cfg: Config, i: nat)
    requires cfg.Valid() && i < cfg.Max()
    ensures cfg.Block(i).Valid() && Meets(cfg.cluster, cfg.Block(i))
    ensures MeetingBlocks(cfg, cfg.Block(i)) == {i}
  {
    BlockValid(cfg, i);
    forall j: nat | j < cfg.Max()
      ensures Meets(cfg.Block(j), cfg.Block(i)) <==> j == i
    {
      BlocksDisjoint(cfg, j, i);
    }
  }

  /** Both operations are idempotent, and a release undoes the marks of an occupy of unmarked blocks. */
  lemma OccupyReleaseLaws(s: SetState, c: Cidr)
    requires s.Valid() && c.Valid() && Meets(s.cfg.cluster, c)
    ensures Occupy(Occupy(s, c).value, c) == Occupy(s, c)
    ensures Release(Release(s, c).value, c) == Release(s, c)
    ensures Release(Occupy(s, c).value, c) == Some(s) <==> s.marks !! MeetingBlocks(s.cfg, c)
  {
    var m := MeetingBlocks(s.cfg, c);
    assert s.marks + m + m == s.marks + m;
    assert s.marks - m - m == s.marks - m;
    assert s.marks + m - m == s.marks - m;
    if s.marks - m == s.marks {
      assert s.marks !! m;
    } else {
      assert !(s.marks !! m);
    }
  }

  /** c lies in the range and is made of whole blocks of the set. */
  ghost predicate Suits(cfg: Config, c: Cidr)
    requires cfg.Valid() && c.Valid()
  {
    Inside(c, cfg.cluster) && c.len <= cfg.nodeMask
  }

  /** c lies in the range and every block it touches is marked. */
  ghost predicate Covers(s: SetState, c: Cidr)
    requires s.Valid() && c.Valid()
  {
    Inside(c, s.cfg.cluster) && MeetingBlocks(s.cfg, c) <= s.marks
  }

  /** A covered CIDR is disjoint from everything that avoids the marked blocks. */
  lemma CoveredIsProtected(s: SetState, c: Cidr, d: Cidr)
    requires s.Valid() && c.Valid() && d.Valid() && Covers(s, c)
    requires forall i :: i in s.marks ==> !Meets(s.cfg.Block(i), d)
    ensures !Meets(c, d)
  {
    if Meets(c, d) {
      var ip := if c.base < d.base then d.base else c.base;
      Tiling(s.cfg, ip);
      var i := BlockOf(s.cfg, ip);
      assert i in MeetingBlocks(s.cfg, c);
      assert Meets(s.cfg.Block(i), d);
      assert false;
    }
  }

  /** The address lies in a marked block. */
  ghost predicate InMarkedBlock(s: SetState, ip: nat)
    requires s.Valid()
  {
    exists i :: i in s.marks && s.cfg.Block(i).Has(ip)
  }

  /** After c is occupied every address of c is taken exactly when c lies in the range: a coarser CIDR is occupied as
      well, but its part outside stays free for other ClusterCIDRs. */
  lemma OccupyTakes(s: SetState, c: Cidr)
    requires s.Valid() && c.Valid() && Meets(s.cfg.cluster, c)
    ensures (forall ip: nat :: c.Has(ip) ==> InMarkedBlock(Occupy(s, c).value, ip)) <==> Inside(c, s.cfg.cluster)
  {
    hide Bits.Pow2;
    var s' := Occupy(s, c).value;
    if Inside(c, s.cfg.cluster) {
      forall ip: nat | c.Has(ip)
        ensures InMarkedBlock(s', ip)
      {
        Tiling(s.cfg, ip);
        assert BlockOf(s.cfg, ip) in MeetingBlocks(s.cfg, c);
      }
    } else {
      var ip := if c.base < s.cfg.cluster.base then c.base else c.Last();
      assert c.Has(ip) && !s.cfg.cluster.Has(ip);
      Tiling(s.cfg, ip);
    }
  }

  /** Disjoint CIDRs share no block if one of them is made of whole blocks. */
  lemma WholeBlocksNotShared(cfg: Config, x: Cidr, y: Cidr)
    requires cfg.Valid() && x.Valid() && y.Valid() && !Meets(x, y) && y.len <= cfg.nodeMask
    ensures MeetingBlocks(cfg, x) !! MeetingBlocks(cfg, y)
  {
    forall i | i in MeetingBlocks(cfg, x) && i in MeetingBlocks(cfg, y)
      ensures false
    {
      BlockValid(cfg, i);
      MeetsNested(y, cfg.Block(i));
    }
  }

  /** ... but two CIDRs finer than a block of the range may well share one: releasing either then
      frees the block under the other. */
  lemma FinerCidrsShareBlock(s: SetState, i: nat, x: Cidr, y: Cidr)
    requires s.Valid() && i < s.cfg.Max() && x.Valid() && y.Valid()
    requires Inside(x, s.cfg.Block(i)) && Inside(y, s.cfg.Block(i)) && i in s.marks
    ensures Covers(s, x) && Covers(s, y)
    ensures Release(s, x).Some? && Release(s, x).value.marks == s.marks - {i}
    ensures !Covers(Release(s, x).value, y)
  {
    BlockValid(s.cfg, i);
    FinerMeetsOne(s.cfg, i, x);
    FinerMeetsOne(s.cfg, i, y);
  }

  lemma FinerMeetsOne(cfg: Config, i: nat, x: Cidr)
    requires cfg.Valid() && i < cfg.Max() && x.Valid() && Inside(x, cfg.Block(i))
    ensures MeetingBlocks(cfg, x) == {i}
  {
    forall j: nat | j < cfg.Max() && Meets(cfg.Block(j), x)
      ensures j == i
    {
      BlocksDisjoint(cfg, i, j);
    }
  }

  lemma FinerLiesInOne(cfg: Config, x: Cidr)
    requires cfg.Valid() && x.Valid() && Meets(cfg.cluster, x) && cfg.nodeMask < x.len
    ensures cfg.cluster.Has(x.base)
    ensures var i := BlockOf(cfg, x.base);
            i < cfg.Max() && MeetingBlocks(cfg, x) == {i} && cfg.Block(i).base == Mask(x.base, cfg.nodeMask, cfg.Fam())
  {
    hide Bits.Pow2, Bits.And;
    MeetsNested(cfg.cluster, x);
    Tiling(cfg, x.base);
    var i := BlockOf(cfg, x.base);
    BlockValid(cfg, i);
    MeetsNested(cfg.Block(i), x);
    FinerMeetsOne(cfg, i, x);
    MaskToBlock(cfg, x.base);
  }

  /** Both CIDRs are finer than a block and agree under the node mask. */
  predicate PartsOfOneBlock(cfg: Config, x: Cidr, y: Cidr)
    requires cfg.nodeMask <= cfg.Fam().Width()
  {
    && cfg.nodeMask < x.len && cfg.nodeMask < y.len
    && Mask(x.base, cfg.nodeMask, cfg.Fam()) == Mask(y.base, cfg.nodeMask, cfg.Fam())
  }

  /** Two CIDRs that meet the range have no block in common exactly if they are disjoint and not parts of one block. */
  lemma NoCommonBlock(cfg: Config, x: Cidr, y: Cidr)
    requires cfg.Valid() && x.Valid() && y.Valid() && Meets(cfg.cluster, x) && Meets(cfg.cluster, y)
    ensures MeetingBlocks(cfg, x) !! MeetingBlocks(cfg, y) <==> !Meets(x, y) && !PartsOfOneBlock(cfg, x, y)
  {
    hide Bits.Pow2, Bits.And, Config.Valid, Mask;
    if Meets(x, y) {
      CommonAddressBlock(cfg, x, y);
    } else if x.len <= cfg.nodeMask {
      WholeBlocksNotShared(cfg, y, x);
    } else if y.len <= cfg.nodeMask {
      WholeBlocksNotShared(cfg, x, y);
    } else {
      FinerLiesInOne(cfg, x);
      FinerLiesInOne(cfg, y);
      var i, j := BlockOf(cfg, x.base), BlockOf(cfg, y.base);
      BlocksDisjoint(cfg, i, j);
    }
  }

  lemma CommonAddressBlock(cfg: Config, x: Cidr, y: Cidr)
    requires cfg.Valid() && x.Valid() && y.Valid() && Meets(cfg.cluster, x) && Meets(cfg.cluster, y) && Meets(x, y)
    ensures !(MeetingBlocks(cfg, x) !! MeetingBlocks(cfg, y))
  {
    hide Bits.Pow2;
    var first := if x.base < y.base then y.base else x.base;
    var ip := if first < cfg.cluster.base then cfg.cluster.base else first;
    Tiling(cfg, ip);
    var i := BlockOf(cfg, ip);
    assert i in MeetingBlocks(cfg, x) && i in MeetingBlocks(cfg, y);
  }

  /** Releasing x leaves a covered y covered exactly when the two are disjoint and not parts of one block. */
  lemma ReleaseKeepsCover(s: SetState, x: Cidr, y: Cidr)
    requires s.Valid() && x.Valid() && y.Valid() && Meets(s.cfg.cluster, x) && Covers(s, y)
    ensures Covers(Release(s, x).value, y) <==> !Meets(x, y) && !PartsOfOneBlock(s.cfg, x, y)
  {
    hide Bits.Pow2, Mask;
    NoCommonBlock(s.cfg, x, y);
  }

  // ---------- Round robin over runs ----------

  datatype SetOp = NextOp | OccupyOp(c: Cidr) | ReleaseOp(c: Cidr) {
    predicate Valid() {
      NextOp? || c.Valid()
    }
  }

  /** The state after one call; a failing call changes nothing. */
  ghost function Apply(s: SetState, op: SetOp): (r: SetState)
    requires s.Valid() && op.Valid()
    ensures r.Valid() && r.cfg == s.cfg
  {
    match op
    case NextOp => var c := NextCandidate(s); if c.Some? then c.value.set' else s
    case OccupyOp(c) => var r := Occupy(s, c); if r.Some? then r.value else s
    case ReleaseOp(c) => var r := Release(s, c); if r.Some? then r.value else s
  }

  /** The block a call offers, if any. */
  ghost function Offer(s: SetState, op: SetOp): Option<nat>
    requires s.Valid() && op.Valid()
  {
    if op.NextOp? && NextCandidate(s).Some? then Some(NextCandidate(s).value.index) else None
  }

  /** states[t] is the state before ops[t]. */
  ghost predicate IsSetRun(states: seq<SetState>, ops: seq<SetOp>) {
    && |states| == |ops| + 1
    && (forall t :: 0 <= t < |ops| ==> ops[t].Valid())
    && states[0].Valid()
    && (forall t :: 0 <= t < |ops| && states[t].Valid() ==> states[t + 1] == Apply(states[t], ops[t]))
  }

  lemma {:induction false} RunValid(states: seq<SetState>, ops: seq<SetOp>, t: nat)
    requires IsSetRun(states, ops) && t < |states|
    ensures states[t].Valid() && states[t].cfg == states[0].cfg
  {
    if t != 0 {
      RunValid(states, ops, t - 1);
    }
  }

  /** Block x was marked, or offered, at some call of the run from lo up to hi. */
  ghost predicate Seen(states: seq<SetState>, ops: seq<SetOp>, lo: nat, hi: nat, x: nat)
    requires IsSetRun(states, ops) && hi <= |ops|
  {
    exists t :: lo <= t < hi && states[t].Valid() && (x in states[t].marks || Offer(states[t], ops[t]) == Some(x))
  }

  /** From call lo to call hi the cursor has moved on by some distance; if that brought it past
      block x, then x has been seen. */
  lemma {:induction false} RingProgress(states: seq<SetState>, ops: seq<SetOp>, lo: nat, hi: nat, start: nat, x: nat)
    returns (distance: nat)
    requires IsSetRun(states, ops) && lo <= hi <= |ops|
    requires start < states[0].cfg.Max() && x < states[0].cfg.Max() && states[lo].next == start
    ensures states[hi].next == Ring(start, distance, states[0].cfg.Max())
    ensures OffsetOf(start, x, states[0].cfg.Max()) < distance ==> Seen(states, ops, lo, hi, x)
    ensures lo < hi && states[hi - 1].Valid() && Offer(states[hi - 1], ops[hi - 1]).Some? ==> distance > 0
    decreases hi
  {
    var max := states[0].cfg.Max();
    if lo == hi {
      distance := 0;
    } else {
      var before := RingProgress(states, ops, lo, hi - 1, start, x);
      RunValid(states, ops, hi - 1);
      var moved := CursorStep(states, ops, hi - 1, start, before, x);
      distance := before + moved;
      var e := OffsetOf(start, x, max);
      if e < before {
        assert Seen(states, ops, lo, hi - 1, x);
      }
    }
  }

  /** One call moves the cursor past the blocks it skipped and the one it offered. */
  lemma CursorStep(states: seq<SetState>, ops: seq<SetOp>, t: nat, start: nat, before: nat, x: nat) returns (moved: nat)
    requires IsSetRun(states, ops) && t < |ops| && states[t].Valid()
    requires start < states[t].cfg.Max() && x < states[t].cfg.Max()
    requires states[t].next == Ring(start, before, states[t].cfg.Max())
    ensures states[t + 1].next == Ring(start, before + moved, states[t].cfg.Max())
    ensures Offer(states[t], ops[t]).Some? ==> moved > 0
    ensures before <= OffsetOf(start, x, states[t].cfg.Max()) < before + moved ==>
              x in states[t].marks || Offer(states[t], ops[t]) == Some(x)
  {
    hide Bits.Pow2, Config.Block, MeetingBlocks, Cidr.Valid;
    var max := states[t].cfg.Max();
    var s, op := states[t], ops[t];
    moved := 0;
    if Offer(s, op).Some? {
      var k := NextCandidate(s).value.skipped;
      moved := k + 1;
      RingAdd(start, before, k, max);
      var e := OffsetOf(start, x, max);
      if before <= e {
        RingAdd(start, before, e - before, max);
      }
    }
  }

  /** Round-robin reuse: between two offers of the same block in any run of NextCandidate, Occupy and
      Release calls, every block was offered or was marked at some moment. */
  lemma RoundRobin(states: seq<SetState>, ops: seq<SetOp>, first: nat, second: nat, b: nat, x: nat)
    requires IsSetRun(states, ops) && first < second < |ops|
    requires states[first].Valid() && states[second].Valid()
    requires Offer(states[first], ops[first]) == Offer(states[second], ops[second]) == Some(b)
    requires x < states[0].cfg.Max()
    ensures exists t :: first < t <= second && states[t].Valid() &&
              (x in states[t].marks || Offer(states[t], ops[t]) == Some(x))
  {
    var max := states[0].cfg.Max();
    RunValid(states, ops, first);
    RunValid(states, ops, first + 1);
    RunValid(states, ops, second + 1);
    var start := Succ(b, max);
    var distance := RingProgress(states, ops, first + 1, second + 1, start, x);
    FullCircle(start, distance, max);
    assert Seen(states, ops, first + 1, second + 1, x);
  }

  lemma FullCircle(start: nat, distance: nat, max: nat)
    requires start < max && Ring(start, distance, max) == start
    ensures distance == 0 || distance >= max
  {
    if 0 < distance < max {
      RingValue(start, distance, max);
    }
  }
}
