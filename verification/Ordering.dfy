/** orderedMatchingClusterCIDRs: which ClusterCIDRs are tried for a node, and in which order. */
module Ordering {
  import opened Cidrs
  import opened Blocks
  import opened SetSpec
  import opened Priority
  import opened AllocatorSpec

  /** The answer of matchCIDRLabels for one selector key. */
  datatype Match = NoMatch | Matches(count: nat) | BadSelector

  /** The key of the catch-all selector. */
  const DEFAULT_KEY := "kubernetes.io/clusterCIDR in (default)"

  const MAX_INT: int := 0x7fff_ffff_ffff_ffff

  ghost function MaxCIDRs(s: Option<SetState>): int
    requires s.Some? ==> s.value.Valid()
  {
    if s.None? then MAX_INT else s.value.cfg.Max()
  }

  /** maxAllocatable. */
  ghost function MaxAllocatable(cc: CC): int
    requires cc.Valid()
  {
    if MaxCIDRs(cc.v4) < MaxCIDRs(cc.v6) then MaxCIDRs(cc.v4) else MaxCIDRs(cc.v6)
  }

  /** The set nodeMaskSize and cidrLabel look at: IPv4 if configured, else IPv6. */
  function LeadSet(cc: CC): SetState
    requires cc.v4.Some? || cc.v6.Some?
  {
    if cc.v4.Some? then cc.v4.value else cc.v6.value
  }

  ghost function KeyOf(cc: CC, selector: string, count: int): Key
    requires cc.Valid()
  {
    Key(count, MaxAllocatable(cc), LeadSet(cc).cfg.nodeMask, selector, LeadSet(cc).cidrLabel)
  }

  type Matcher = string -> Match

  /** Terminating ClusterCIDRs are only queued for a release. */
  ghost predicate Queued(m: CidrMap, matcher: Matcher, occupy: bool, r: Ref) {
    InMap(m, r) && matcher(r.key).Matches? && (occupy ==> !At(m, r).terminating)
  }

  ghost function RefKey(m: CidrMap, matcher: Matcher, occupy: bool, r: Ref): Key
    requires ValidMap(m) && Queued(m, matcher, occupy, r)
  {
    KeyOf(At(m, r), r.key, matcher(r.key).count)
  }

  predicate Distinct<T(==)>(s: seq<T>) {
    forall i, j :: 0 <= i < j < |s| ==> s[i] != s[j]
  }

  /** Queued ClusterCIDRs, each at most once, in order of priority. */
  ghost predicate SortedRefs(m: CidrMap, matcher: Matcher, occupy: bool, part: seq<Ref>)
    requires ValidMap(m)
  {
    && (forall r :: r in part ==> Queued(m, matcher, occupy, r))
    && Distinct(part)
    && (forall i, j :: 0 <= i < j < |part| ==>
          NotAfter(RefKey(m, matcher, occupy, part[i]), RefKey(m, matcher, occupy, part[j])))
  }

  /** The queue's part of the list: every queued ClusterCIDR once, in order of priority. */
  ghost predicate SortedPart(m: CidrMap, matcher: Matcher, occupy: bool, part: seq<Ref>)
    requires ValidMap(m)
  {
    SortedRefs(m, matcher, occupy, part) && forall r :: Queued(m, matcher, occupy, r) ==> r in part
  }

  /** The catch-all ClusterCIDRs, appended whatever their state. */
  function DefaultRefs(m: CidrMap): (list: seq<Ref>)
    ensures forall r :: r in list <==> InMap(m, r) && r.key == DEFAULT_KEY
  {
    if DEFAULT_KEY in m then
      var list := seq(|m[DEFAULT_KEY]|, (i: nat) => Ref(DEFAULT_KEY, i));
      assert forall r :: InMap(m, r) && r.key == DEFAULT_KEY ==> list[r.idx] == r;
      list
    else []
  }

  ghost predicate IsOrdering(m: CidrMap, matcher: Matcher, occupy: bool, list: seq<Ref>)
    requires ValidMap(m)
  {
    exists n :: 0 <= n <= |list| && SortedPart(m, matcher, occupy, list[..n]) && list[n..] == DefaultRefs(m)
  }

  /** The list holds exactly the catch-all ClusterCIDRs and those whose selector matches, but terminating ones of the
      latter only if it is made for a release. */
  lemma OrderingMembers(m: CidrMap, matcher: Matcher, occupy: bool, list: seq<Ref>)
    requires ValidMap(m) && IsOrdering(m, matcher, occupy, list)
    ensures InMapAll(m, list)
    ensures forall r :: r in list <==>
              && InMap(m, r)
              && (r.key == DEFAULT_KEY || (matcher(r.key).Matches? && (occupy ==> !At(m, r).terminating)))
  {
    hide ValidMap, SortedPart, Queued, DefaultRefs;
    var n :| 0 <= n <= |list| && SortedPart(m, matcher, occupy, list[..n]) && list[n..] == DefaultRefs(m);
    QueuedMembers(m, matcher, occupy, list[..n]);
    QueuedMeans(m, matcher, occupy);
    assert list == list[..n] + DefaultRefs(m);
    assert forall j :: 0 <= j < |list| ==> list[j] in list;
  }

  lemma QueuedMeans(m: CidrMap, matcher: Matcher, occupy: bool)
    ensures forall r :: Queued(m, matcher, occupy, r) <==>
              InMap(m, r) && matcher(r.key).Matches? && (occupy ==> !At(m, r).terminating)
  {
  }

  // ---------- What the priority means ----------

  /** The smallest number of blocks among the configured families. */
  ghost function FewestBlocks(cc: CC): (n: nat)
    requires cc.Valid()
    ensures exists fam :: cc.SetFor(fam).Some? && n == cc.SetFor(fam).value.cfg.Max()
    ensures forall fam :: cc.SetFor(fam).Some? ==> n <= cc.SetFor(fam).value.cfg.Max()
  {
    hide Bits.Pow2;
    assert cc.v4.Some? ==> cc.SetFor(V4) == cc.v4;
    assert cc.v6.Some? ==> cc.SetFor(V6) == cc.v6;
    if cc.v4.None? then cc.v6.value.cfg.Max()
    else if cc.v6.None? then cc.v4.value.cfg.Max()
    else if cc.v4.value.cfg.Max() < cc.v6.value.cfg.Max() then cc.v4.value.cfg.Max()
    else cc.v6.value.cfg.Max()
  }

  lemma MaxAllocatableIsFewest(cc: CC)
    requires cc.Valid()
    ensures MaxAllocatable(cc) == FewestBlocks(cc)
  {
    hide Bits.Pow2;
    if cc.v4.Some? {
      BelowMaxInt(cc.v4.value.cfg);
    }
    if cc.v6.Some? {
      BelowMaxInt(cc.v6.value.cfg);
    }
  }

  lemma BelowMaxInt(cfg: Config)
    requires cfg.Valid()
    ensures cfg.Max() < MAX_INT
  {
    hide Bits.Pow2;
    Pow2Increasing(cfg.nodeMask - cfg.cluster.len, 32);
    Pow2Of32();
  }

  /** Why r is tried before q: more matching labels; then fewer blocks in its scarcest family; then blocks of fewer
      addresses; then a selector, and last a range, that is earlier in the dictionary. Mask and range are those of
      IPv4 if that is configured. */
  ghost predicate TriedBefore(m: CidrMap, matcher: Matcher, r: Ref, q: Ref)
    requires ValidMap(m) && InMap(m, r) && InMap(m, q) && matcher(r.key).Matches? && matcher(q.key).Matches?
  {
    var a, b := At(m, r), At(m, q);
    var blocksA, blocksB := FewestBlocks(a), FewestBlocks(b);
    var setA := if a.v4.Some? then a.v4.value else a.v6.value;
    var setB := if b.v4.Some? then b.v4.value else b.v6.value;
    && matcher(r.key).count >= matcher(q.key).count
    && (matcher(r.key).count == matcher(q.key).count ==>
          && blocksA <= blocksB
          && (blocksA == blocksB ==>
                && setA.cfg.nodeMask >= setB.cfg.nodeMask
                && (setA.cfg.nodeMask == setB.cfg.nodeMask ==>
                      && (r.key == q.key || DictionaryBefore(r.key, q.key))
                      && (r.key == q.key ==>
                            setA.cidrLabel == setB.cidrLabel || DictionaryBefore(setA.cidrLabel, setB.cidrLabel)))))
  }

  lemma KeyOrderMeans(m: CidrMap, matcher: Matcher, occupy: bool, r: Ref, q: Ref)
    requires ValidMap(m) && Queued(m, matcher, occupy, r) && Queued(m, matcher, occupy, q)
    requires NotAfter(RefKey(m, matcher, occupy, r), RefKey(m, matcher, occupy, q))
    ensures TriedBefore(m, matcher, r, q)
  {
    hide Bits.Pow2, DictionaryBefore, StringLess, FewestBlocks, MaxAllocatable, CC.Valid;
    assert At(m, r).Valid() && At(m, q).Valid();
    ConfiguredSet(At(m, r));
    ConfiguredSet(At(m, q));
    MaxAllocatableIsFewest(At(m, r));
    MaxAllocatableIsFewest(At(m, q));
    var a, b := RefKey(m, matcher, occupy, r), RefKey(m, matcher, occupy, q);
    if a.selector != b.selector {
      StringLessTotal(a.selector, b.selector);
      StringLessExact(a.selector, b.selector);
    } else if a.cidr != b.cidr {
      StringLessTotal(a.cidr, b.cidr);
      StringLessExact(a.cidr, b.cidr);
    }
  }

  lemma ConfiguredSet(cc: CC)
    requires cc.Valid()
    ensures cc.v4.Some? || cc.v6.Some?
  {
  }

  /** The list, without reference to how the queue compares: its first n entries are the matching ClusterCIDRs (not the
      terminating ones, for occupying), each once, none before one that `TriedBefore` puts ahead of it; the rest is the
      catch-all list in the order of the map. */
  lemma OrderingByPriority(m: CidrMap, matcher: Matcher, occupy: bool, list: seq<Ref>) returns (n: nat)
    requires ValidMap(m) && IsOrdering(m, matcher, occupy, list)
    ensures n <= |list|
    ensures forall r :: r in list[..n] <==>
              InMap(m, r) && matcher(r.key).Matches? && (occupy ==> !At(m, r).terminating)
    ensures forall i, j :: 0 <= i < j < n ==>
              && list[i] in list[..n] && list[j] in list[..n]
              && list[i] != list[j] && TriedBefore(m, matcher, list[i], list[j])
    ensures |list| - n == if DEFAULT_KEY in m then |m[DEFAULT_KEY]| else 0
    ensures forall i :: n <= i < |list| ==> list[i] == Ref(DEFAULT_KEY, i - n)
  {
    hide ValidMap, RefKey, NotAfter, TriedBefore, Queued, SortedPart, DefaultRefs, IsOrdering;
    n := SplitAt(m, matcher, occupy, list);
    QueuedMembers(m, matcher, occupy, list[..n]);
    QueuedMeans(m, matcher, occupy);
    DefaultsAt(m);
    forall i, j | 0 <= i < j < n
      ensures list[i] in list[..n] && list[j] in list[..n]
      ensures list[i] != list[j] && TriedBefore(m, matcher, list[i], list[j])
    {
      SortedPair(m, matcher, occupy, list[..n], i, j);
    }
    forall i | n <= i < |list|
      ensures list[i] == Ref(DEFAULT_KEY, i - n)
    {
      assert list[i] == list[n..][i - n];
    }
  }

  lemma SplitAt(m: CidrMap, matcher: Matcher, occupy: bool, list: seq<Ref>) returns (n: nat)
    requires ValidMap(m) && IsOrdering(m, matcher, occupy, list)
    ensures n <= |list| && SortedPart(m, matcher, occupy, list[..n]) && list[n..] == DefaultRefs(m)
  {
    hide ValidMap, SortedPart, DefaultRefs;
    n :| 0 <= n <= |list| && SortedPart(m, matcher, occupy, list[..n]) && list[n..] == DefaultRefs(m);
  }

  lemma DefaultsAt(m: CidrMap)
    ensures |DefaultRefs(m)| == if DEFAULT_KEY in m then |m[DEFAULT_KEY]| else 0
    ensures forall i :: 0 <= i < |DefaultRefs(m)| ==> DefaultRefs(m)[i] == Ref(DEFAULT_KEY, i)
  {
  }

  lemma SortedPair(m: CidrMap, matcher: Matcher, occupy: bool, part: seq<Ref>, i: nat, j: nat)
    requires ValidMap(m) && SortedPart(m, matcher, occupy, part) && i < j < |part|
    ensures part[i] in part && part[j] in part && part[i] != part[j]
    ensures Queued(m, matcher, occupy, part[i]) && Queued(m, matcher, occupy, part[j])
    ensures TriedBefore(m, matcher, part[i], part[j])
  {
    hide ValidMap, RefKey, NotAfter, TriedBefore;
    KeyOrderMeans(m, matcher, occupy, part[i], part[j]);
  }

  /** The queue does not order ClusterCIDRs with different keys by accident: two lists made from the same
      state in any order of map iteration are equal when the keys of the queued ClusterCIDRs differ. */
  lemma OrderingUnique(m: CidrMap, matcher: Matcher, occupy: bool, list: seq<Ref>, list': seq<Ref>)
    requires ValidMap(m) && IsOrdering(m, matcher, occupy, list) && IsOrdering(m, matcher, occupy, list')
    requires forall r, q :: Queued(m, matcher, occupy, r) && Queued(m, matcher, occupy, q) && r != q ==>
               RefKey(m, matcher, occupy, r) != RefKey(m, matcher, occupy, q)
    ensures list == list'
  {
    hide ValidMap, SortedRefs, RefKey, Queued, DefaultRefs, IsOrdering;
    var part := QueuePart(m, matcher, occupy, list);
    var part' := QueuePart(m, matcher, occupy, list');
    SortedUnique(m, matcher, occupy, part, part');
  }

  /** The part of the list that came out of the queue. */
  lemma QueuePart(m: CidrMap, matcher: Matcher, occupy: bool, list: seq<Ref>) returns (part: seq<Ref>)
    requires ValidMap(m) && IsOrdering(m, matcher, occupy, list)
    ensures list == part + DefaultRefs(m) && SortedRefs(m, matcher, occupy, part)
    ensures forall r :: r in part <==> Queued(m, matcher, occupy, r)
  {
    hide ValidMap, SortedRefs, RefKey, Queued, DefaultRefs;
    var n :| 0 <= n <= |list| && SortedPart(m, matcher, occupy, list[..n]) && list[n..] == DefaultRefs(m);
    part := list[..n];
    QueuedMembers(m, matcher, occupy, part);
  }

  lemma QueuedMembers(m: CidrMap, matcher: Matcher, occupy: bool, part: seq<Ref>)
    requires ValidMap(m) && SortedPart(m, matcher, occupy, part)
    ensures forall r :: r in part <==> Queued(m, matcher, occupy, r)
  {
  }

  lemma {:induction false} SortedUnique(m: CidrMap, matcher: Matcher, occupy: bool, s: seq<Ref>, t: seq<Ref>)
    requires ValidMap(m) && SortedRefs(m, matcher, occupy, s) && SortedRefs(m, matcher, occupy, t)
    requires forall r :: r in s <==> r in t
    requires forall r, q :: Queued(m, matcher, occupy, r) && Queued(m, matcher, occupy, q) && r != q ==>
               RefKey(m, matcher, occupy, r) != RefKey(m, matcher, occupy, q)
    ensures s == t
    decreases |s|
  {
    hide ValidMap, RefKey, NotAfter;
    assert s != [] ==> s[0] in s;
    assert t != [] ==> t[0] in t;
    if s != [] && t != [] {
      SameHead(m, matcher, occupy, s, t);
      forall r
        ensures r in s[1..] <==> r in t[1..]
      {
        TailMember(s, r);
        TailMember(t, r);
      }
      SortedTail(m, matcher, occupy, s);
      SortedTail(m, matcher, occupy, t);
      SortedUnique(m, matcher, occupy, s[1..], t[1..]);
      assert s == [s[0]] + s[1..] && t == [t[0]] + t[1..];
    }
  }

  lemma SortedTail(m: CidrMap, matcher: Matcher, occupy: bool, s: seq<Ref>)
    requires ValidMap(m) && SortedRefs(m, matcher, occupy, s) && s != []
    ensures SortedRefs(m, matcher, occupy, s[1..])
  {
    hide ValidMap, RefKey, NotAfter;
    assert forall i :: 0 <= i < |s| - 1 ==> s[1..][i] == s[i + 1];
  }

  lemma TailMember(s: seq<Ref>, r: Ref)
    requires s != [] && Distinct(s)
    ensures r in s[1..] <==> r in s && r != s[0]
  {
    if r in s && r != s[0] {
      var i :| 0 <= i < |s| && s[i] == r;
      assert s[1..][i - 1] == r;
    }
  }

  lemma SameHead(m: CidrMap, matcher: Matcher, occupy: bool, s: seq<Ref>, t: seq<Ref>)
    requires ValidMap(m) && SortedRefs(m, matcher, occupy, s) && SortedRefs(m, matcher, occupy, t)
    requires s != [] && t != [] && forall r :: r in s <==> r in t
    requires forall r, q :: Queued(m, matcher, occupy, r) && Queued(m, matcher, occupy, q) && r != q ==>
               RefKey(m, matcher, occupy, r) != RefKey(m, matcher, occupy, q)
    ensures s[0] == t[0]
  {
    hide ValidMap, RefKey, NotAfter;
    assert s[0] in t && t[0] in s;
    var i :| 0 <= i < |t| && t[i] == s[0];
    var j :| 0 <= j < |s| && s[j] == t[0];
    var a, b := RefKey(m, matcher, occupy, s[0]), RefKey(m, matcher, occupy, t[0]);
    NotAfterOrder(a, b, a);
    assert i != 0 ==> NotAfter(b, a);
    assert j != 0 ==> NotAfter(a, b);
  }

  // ---------- Marks and nodes do not matter ----------

  lemma SameDefaults(m: CidrMap, m': CidrMap)
    requires SameShape(m, m')
    ensures DefaultRefs(m') == DefaultRefs(m)
  {
    if DEFAULT_KEY in m {
      assert InMap(m, Ref(DEFAULT_KEY, |m'[DEFAULT_KEY]|)) <==> InMap(m', Ref(DEFAULT_KEY, |m'[DEFAULT_KEY]|));
      assert InMap(m, Ref(DEFAULT_KEY, |m[DEFAULT_KEY]|)) <==> InMap(m', Ref(DEFAULT_KEY, |m[DEFAULT_KEY]|));
    }
  }

  lemma SameKey(m: CidrMap, m': CidrMap, matcher: Matcher, occupy: bool, r: Ref)
    requires ValidMap(m) && ValidMap(m') && SameShape(m, m')
    ensures Queued(m', matcher, occupy, r) <==> Queued(m, matcher, occupy, r)
    ensures Queued(m, matcher, occupy, r) ==> RefKey(m', matcher, occupy, r) == RefKey(m, matcher, occupy, r)
  {
    hide Bits.Pow2;
    if InMap(m, r) {
      ShapeKeeps(m, m', r);
    }
  }

  /** The order in which ClusterCIDRs are tried does not depend on marks, cursors and associated nodes. */
  lemma OrderingKept(m: CidrMap, m': CidrMap, matcher: Matcher, occupy: bool, list: seq<Ref>)
    requires ValidMap(m) && ValidMap(m') && SameShape(m, m') && IsOrdering(m, matcher, occupy, list)
    ensures IsOrdering(m', matcher, occupy, list)
  {
    hide ValidMap, SameShape, DefaultRefs, Queued, RefKey;
    var n :| 0 <= n <= |list| && SortedPart(m, matcher, occupy, list[..n]) && list[n..] == DefaultRefs(m);
    SameDefaults(m, m');
    forall r
      ensures Queued(m', matcher, occupy, r) <==> Queued(m, matcher, occupy, r)
      ensures Queued(m, matcher, occupy, r) ==> RefKey(m', matcher, occupy, r) == RefKey(m, matcher, occupy, r)
    {
      SameKey(m, m', matcher, occupy, r);
    }
    assert SortedPart(m', matcher, occupy, list[..n]);
  }
}
