/** The priority queue of ClusterCIDRs: a binary heap whose items know their positions. */
module PriorityQueues {
  import opened Priority
  import opened ClusterCidrs
  import Spec = AllocatorSpec
  import Order = Ordering

  class PriorityQueueItem {
    const clusterCIDR: ClusterCIDR
    const labelMatchCount: nat
    const selectorString: string
    /** Where the ClusterCIDR stands in the allocator's map. */
    ghost const ref: Spec.Ref
    /** The item's position in the heap, -1 once popped. */
    var index: int

    constructor (clusterCIDR: ClusterCIDR, labelMatchCount: nat, selectorString: string, ghost ref: Spec.Ref)
      ensures this.clusterCIDR == clusterCIDR && this.labelMatchCount == labelMatchCount
      ensures this.selectorString == selectorString && this.ref == ref
    {
      this.clusterCIDR := clusterCIDR;
      this.labelMatchCount := labelMatchCount;
      this.selectorString := selectorString;
      this.ref := ref;
      this.index := 0;
    }

    /** At least one family is configured, so that nodeMaskSize and cidrLabel find a set. */
    predicate HasSet() {
      clusterCIDR.ipv4CIDRSet != null || clusterCIDR.ipv6CIDRSet != null
    }

    function MaxAllocatable(): int {
      var v4 := if clusterCIDR.ipv4CIDRSet != null then clusterCIDR.ipv4CIDRSet.maxCIDRs else Order.MAX_INT;
      var v6 := if clusterCIDR.ipv6CIDRSet != null then clusterCIDR.ipv6CIDRSet.maxCIDRs else Order.MAX_INT;
      if v4 < v6 then v4 else v6
    }

    function NodeMaskSize(): int
      requires HasSet()
    {
      if clusterCIDR.ipv4CIDRSet != null then clusterCIDR.ipv4CIDRSet.cfg.nodeMask
      else clusterCIDR.ipv6CIDRSet.cfg.nodeMask
    }

    function CidrLabel(): string
      requires HasSet()
    {
      if clusterCIDR.ipv4CIDRSet != null then clusterCIDR.ipv4CIDRSet.cidrLabel else clusterCIDR.ipv6CIDRSet.cidrLabel
    }

    function Key(): Key
      requires HasSet()
    {
      Priority.Key(labelMatchCount, MaxAllocatable(), NodeMaskSize(), selectorString, CidrLabel())
    }
  }

  // ---------- Heaps of keys ----------

  function Parent(j: nat): nat
    requires j >= 1
  {
    (j - 1) / 2
  }

  /** The first n keys form a heap. */
  ghost predicate IsHeap(ks: seq<Key>, n: nat)
    requires n <= |ks|
  {
    forall j: nat :: 1 <= j < n ==> NotAfter(ks[Parent(j)], ks[j])
  }

  /** A heap, except that the key at j may have to move up. */
  ghost predicate HeapUpTo(ks: seq<Key>, j: nat)
    requires j < |ks|
  {
    && (forall k: nat :: 1 <= k < |ks| && k != j ==> NotAfter(ks[Parent(k)], ks[k]))
    && (forall k: nat :: 1 <= k < |ks| && Parent(k) == j && j >= 1 ==> NotAfter(ks[Parent(j)], ks[k]))
  }

  /** The first n keys form a heap, except that the key at i may have to move down. */
  ghost predicate HeapDownFrom(ks: seq<Key>, n: nat, i: nat)
    requires n <= |ks|
  {
    && (forall k: nat :: 1 <= k < n && Parent(k) != i ==> NotAfter(ks[Parent(k)], ks[k]))
    && (forall k: nat :: 1 <= k < n && Parent(k) == i && i >= 1 ==> NotAfter(ks[Parent(i)], ks[k]))
  }

  function Swapped<T>(s: seq<T>, i: nat, j: nat): seq<T>
    requires i < |s| && j < |s|
  {
    s[i := s[j]][j := s[i]]
  }

  lemma UpStep(ks: seq<Key>, j: nat)
    requires 1 <= j < |ks| && HeapUpTo(ks, j) && Less(ks[j], ks[Parent(j)])
    ensures HeapUpTo(Swapped(ks, j, Parent(j)), Parent(j))
  {
    hide Less;
    var i := Parent(j);
    var ks' := Swapped(ks, j, i);
    LessNotAfter(ks[j], ks[i]);
    forall k: nat | 1 <= k < |ks| && k != i
      ensures NotAfter(ks'[Parent(k)], ks'[k])
    {
      NotAfterOrder(ks[j], ks[i], ks[k]);
      if Parent(k) == j && k != j {
        assert NotAfter(ks[i], ks[k]);
      }
    }
    forall k: nat | 1 <= k < |ks| && Parent(k) == i && i >= 1
      ensures NotAfter(ks'[Parent(i)], ks'[k])
    {
      NotAfterOrder(ks[Parent(i)], ks[i], ks[k]);
    }
  }

  lemma LessNotAfter(a: Key, b: Key)
    requires Less(a, b)
    ensures NotAfter(a, b)
  {
    LessStrictOrder(a, b, a);
  }

  lemma UpDone(ks: seq<Key>, j: nat)
    requires j < |ks| && HeapUpTo(ks, j) && (j == 0 || !Less(ks[j], ks[Parent(j)]))
    ensures IsHeap(ks, |ks|)
  {
  }

  /** The child that Down picks, if any child precedes the key at i. */
  lemma DownStep(ks: seq<Key>, n: nat, i: nat, j: nat)
    requires i < j < n <= |ks| && Parent(j) == i && HeapDownFrom(ks, n, i) && Less(ks[j], ks[i])
    requires forall k: nat :: 1 <= k < n && Parent(k) == i ==> NotAfter(ks[j], ks[k])
    ensures HeapDownFrom(Swapped(ks, i, j), n, j)
  {
    hide Less;
    var ks' := Swapped(ks, i, j);
    LessNotAfter(ks[j], ks[i]);
    forall k: nat | 1 <= k < n && Parent(k) != j
      ensures NotAfter(ks'[Parent(k)], ks'[k])
    {
    }
    forall k: nat | 1 <= k < n && Parent(k) == j
      ensures NotAfter(ks'[Parent(j)], ks'[k])
    {
    }
  }

  lemma DownDone(ks: seq<Key>, n: nat, i: nat)
    requires n <= |ks| && HeapDownFrom(ks, n, i) && i < |ks|
    requires forall k: nat :: 1 <= k < n && Parent(k) == i ==> !Less(ks[k], ks[i])
    ensures IsHeap(ks, n)
  {
  }

  /** The root of a heap has the highest priority. */
  lemma {:induction false} RootFirst(ks: seq<Key>, n: nat, j: nat)
    requires n <= |ks| && IsHeap(ks, n) && j < n
    ensures NotAfter(ks[0], ks[j])
  {
    NotAfterOrder(ks[0], ks[0], ks[0]);
    if j != 0 {
      RootFirst(ks, n, Parent(j));
      NotAfterOrder(ks[0], ks[Parent(j)], ks[j]);
    }
  }

  // ---------- The queue ----------

  ghost function Elements(items: seq<PriorityQueueItem>): (s: set<PriorityQueueItem>)
    ensures forall i :: 0 <= i < |items| ==> items[i] in s
  {
    set x | x in items
  }

  ghost predicate HaveSets(items: seq<PriorityQueueItem>) {
    forall i :: 0 <= i < |items| ==> items[i].HasSet()
  }

  ghost function KeysOf(items: seq<PriorityQueueItem>): (ks: seq<Key>)
    requires HaveSets(items)
    ensures |ks| == |items| && forall i :: 0 <= i < |items| ==> ks[i] == items[i].Key()
  {
    seq(|items|, i requires 0 <= i < |items| => items[i].Key())
  }

  class PriorityQueue {
    var items: seq<PriorityQueueItem>

    /** Every queued item knows its position, so the items are distinct objects. */
    ghost predicate Valid()
      reads this, items
    {
      HaveSets(items) && forall i :: 0 <= i < |items| ==> items[i].index == i
    }

    ghost predicate Heap()
      requires HaveSets(items)
      reads this
    {
      IsHeap(KeysOf(items), |items|)
    }

    constructor ()
      ensures items == [] && Valid() && Heap()
    {
      items := [];
    }

    method Swap(i: nat, j: nat)
      requires Valid() && i < |items| && j < |items|
      modifies this, items[i], items[j]
      ensures Valid()
      ensures items == Swapped(old(items), i, j) && Elements(items) == Elements(old(items))
      ensures KeysOf(items) == Swapped(KeysOf(old(items)), i, j)
    {
      items := items[i := items[j]][j := items[i]];
      items[i].index := i;
      items[j].index := j;
      SwappedElements(old(items), i, j);
    }

    /** heap.up: an item moves up past every item it precedes. */
    method Up(j0: nat)
      requires Valid() && j0 < |items| && HeapUpTo(KeysOf(items), j0)
      modifies this, items
      ensures Valid() && Heap() && Elements(items) == Elements(old(items)) && |items| == |old(items)|
    {
      var j: nat := j0;
      while j > 0 && Less(items[j].Key(), items[(j - 1) / 2].Key())
        invariant Valid() && j < |items| == |old(items)| && Elements(items) == Elements(old(items))
        invariant HeapUpTo(KeysOf(items), j)
        decreases j
      {
        UpStep(KeysOf(items), j);
        assert items[j] in Elements(items) && items[(j - 1) / 2] in Elements(items);
        Swap(j, (j - 1) / 2);
        j := (j - 1) / 2;
      }
      UpDone(KeysOf(items), j);
    }

    /** heap.down on the first n items. */
    method Down(n: nat)
      requires Valid() && n <= |items| && HeapDownFrom(KeysOf(items), n, 0) && 0 < |items|
      modifies this, items
      ensures Valid() && |items| == |old(items)| && IsHeap(KeysOf(items), n)
      ensures items[n..] == old(items)[n..] && Elements(items) == Elements(old(items))
    {
      hide Less, NotAfter, HeapDownFrom, IsHeap, PriorityQueueItem.Key, KeysOf, PriorityQueueItem.HasSet;
      var i := 0;
      while 2 * i + 1 < n
        invariant Valid() && i < |items| == |old(items)| && (i == 0 || i < n)
        invariant items[n..] == old(items)[n..] && Elements(items) == Elements(old(items))
        invariant HeapDownFrom(KeysOf(items), n, i)
        decreases n - i
      {
        var j := 2 * i + 1;
        if j + 1 < n && Less(items[j + 1].Key(), items[j].Key()) {
          j := j + 1;
        }
        SmallerChild(KeysOf(items), n, i, j);
        if !Less(items[j].Key(), items[i].Key()) {
          NoSmallerChild(KeysOf(items), n, i, j);
          DownDone(KeysOf(items), n, i);
          return;
        }
        DownStep(KeysOf(items), n, i, j);
        assert items[j] in Elements(items) && items[i] in Elements(items);
        Swap(i, j);
        i := j;
      }
      DownDone(KeysOf(items), n, i);
    }

    /** heap.Push. */
    method HeapPush(item: PriorityQueueItem)
      requires Valid() && Heap() && item !in items && item.HasSet()
      modifies this, items, item
      ensures Valid() && Heap() && Elements(items) == Elements(old(items)) + {item}
      ensures |items| == |old(items)| + 1
    {
      item.index := |items|;
      items := items + [item];
      assert Elements(items) == Elements(old(items)) + {item};
      PushedHeap(KeysOf(old(items)), item.Key());
      assert KeysOf(items) == KeysOf(old(items)) + [item.Key()];
      Up(|items| - 1);
    }

    /** heap.Pop: the item of highest priority, marked as queued no more. */
    method HeapPop() returns (item: PriorityQueueItem)
      requires Valid() && Heap() && |items| > 0
      modifies this, items
      ensures Valid() && Heap() && item.index == -1
      ensures item in old(items) && item.HasSet() && item !in items && Elements(items) == Elements(old(items)) - {item}
      ensures forall x :: x in old(items) ==> Precedes(item, x)
      ensures |items| == |old(items)| - 1
    {
      hide Less, NotAfter, HeapDownFrom, IsHeap, PriorityQueueItem.Key;
      var n := |items| - 1;
      HighestFirst(items);
      PoppedHeap(KeysOf(items));
      assert items[0] in Elements(items) && items[n] in Elements(items);
      Swap(0, n);
      Down(n);
      item := items[n];
      assert item == old(items)[0];
      item.index := -1;
      LastRemoved(items);
      PrefixHeap(KeysOf(items), n);
      assert KeysOf(items[..n]) == KeysOf(items)[..n];
      items := items[..n];
    }

    /** Popping until the queue is empty sorts its items by priority. */
    method PopAll() returns (popped: seq<PriorityQueueItem>)
      requires Valid() && Heap()
      modifies this, items
      ensures items == [] && InOrder(popped) && Elements(popped) == Elements(old(items))
    {
      popped := [];
      while |items| > 0
        invariant Valid() && Heap() && InOrder(popped)
        invariant Elements(items) <= Elements(old(items))
        invariant Elements(popped) == Elements(old(items)) - Elements(items)
        invariant forall i, x :: 0 <= i < |popped| && x in Elements(items) ==> Precedes(popped[i], x)
        decreases |items|
      {
        var item := HeapPop();
        AppendedElements(popped, item);
        popped := popped + [item];
      }
    }
  }

  ghost predicate Precedes(a: PriorityQueueItem, b: PriorityQueueItem) {
    a.HasSet() && b.HasSet() && NotAfter(a.Key(), b.Key())
  }

  /** Distinct items in order of priority. */
  ghost predicate InOrder(items: seq<PriorityQueueItem>) {
    HaveSets(items) && forall i, j :: 0 <= i < j < |items| ==> items[i] != items[j] && Precedes(items[i], items[j])
  }

  lemma SwappedElements(items: seq<PriorityQueueItem>, i: nat, j: nat)
    requires i < |items| && j < |items|
    ensures Elements(Swapped(items, i, j)) == Elements(items)
  {
    var items' := Swapped(items, i, j);
    forall x
      ensures x in items <==> x in items'
    {
      if x in items {
        var k :| 0 <= k < |items| && items[k] == x;
        assert items'[if k == i then j else if k == j then i else k] == x;
      }
    }
  }

  lemma SmallerChild(ks: seq<Key>, n: nat, i: nat, j: nat)
    requires n <= |ks| && 2 * i + 1 < n
    requires j == if 2 * i + 2 < n && Less(ks[2 * i + 2], ks[2 * i + 1]) then 2 * i + 2 else 2 * i + 1
    ensures i < j < n && Parent(j) == i
    ensures forall k: nat :: 1 <= k < n && Parent(k) == i ==> NotAfter(ks[j], ks[k])
  {
    forall k: nat | 1 <= k < n && Parent(k) == i
      ensures NotAfter(ks[j], ks[k])
    {
      assert k == 2 * i + 1 || k == 2 * i + 2;
      LessStrictOrder(ks[j], ks[k], ks[j]);
    }
  }

  lemma NoSmallerChild(ks: seq<Key>, n: nat, i: nat, j: nat)
    requires i < j < n <= |ks| && !Less(ks[j], ks[i])
    requires forall k: nat :: 1 <= k < n && Parent(k) == i ==> NotAfter(ks[j], ks[k])
    ensures forall k: nat :: 1 <= k < n && Parent(k) == i ==> !Less(ks[k], ks[i])
  {
    forall k: nat | 1 <= k < n && Parent(k) == i
      ensures !Less(ks[k], ks[i])
    {
      NotAfterOrder(ks[i], ks[j], ks[k]);
    }
  }

  lemma PushedHeap(ks: seq<Key>, key: Key)
    requires IsHeap(ks, |ks|)
    ensures HeapUpTo(ks + [key], |ks|)
  {
  }

  lemma PoppedHeap(ks: seq<Key>)
    requires |ks| > 0 && IsHeap(ks, |ks|)
    ensures HeapDownFrom(Swapped(ks, 0, |ks| - 1), |ks| - 1, 0)
  {
  }

  lemma PrefixHeap(ks: seq<Key>, n: nat)
    requires n <= |ks| && IsHeap(ks, n)
    ensures IsHeap(ks[..n], n)
  {
  }

  lemma HighestFirst(items: seq<PriorityQueueItem>)
    requires |items| > 0 && HaveSets(items) && IsHeap(KeysOf(items), |items|)
    ensures forall x :: x in items ==> Precedes(items[0], x)
  {
    forall x | x in items
      ensures Precedes(items[0], x)
    {
      var j :| 0 <= j < |items| && items[j] == x;
      RootFirst(KeysOf(items), |items|, j);
    }
  }

  lemma AppendedElements(items: seq<PriorityQueueItem>, x: PriorityQueueItem)
    ensures Elements(items + [x]) == Elements(items) + {x}
  {
  }

  lemma LastRemoved(items: seq<PriorityQueueItem>)
    requires |items| > 0 && forall i :: 0 <= i < |items| - 1 ==> items[i] != items[|items| - 1]
    ensures Elements(items[..|items| - 1]) == Elements(items) - {items[|items| - 1]}
  {
    var n := |items| - 1;
    forall x
      ensures x in items[..n] <==> x in items && x != items[n]
    {
    }
  }
}
