/** The five-level priority of ClusterCIDRs. */
module Priority {

  /** What Less looks at: matching labels, maxAllocatable, nodeMaskSize, selectorString, cidrLabel. */
  datatype Key = Key(matches: int, allocatable: int, nodeMask: int, selector: string, cidr: string)

  /** Lexicographic comparison of strings. */
  predicate StringLess(a: string, b: string) {
    if b == [] then false
    else if a == [] then true
    else a[0] < b[0] || (a[0] == b[0] && StringLess(a[1..], b[1..]))
  }

  /** a comes before b in a dictionary: it is a proper prefix, or has the smaller character where they first differ. */
  ghost predicate DictionaryBefore(a: string, b: string) {
    exists i :: 0 <= i <= |a| && i <= |b| && DiffersAt(a, b, i)
  }

  ghost predicate DiffersAt(a: string, b: string, i: nat)
    requires i <= |a| && i <= |b|
  {
    a[..i] == b[..i] && i < |b| && (i < |a| ==> a[i] < b[i])
  }

  lemma DiffersTail(a: string, b: string, i: nat)
    requires a != [] && b != [] && a[0] == b[0] && i < |a| && i < |b|
    ensures DiffersAt(a, b, i + 1) <==> DiffersAt(a[1..], b[1..], i)
  {
    assert a[..i + 1] == [a[0]] + a[1..][..i];
    assert b[..i + 1] == [b[0]] + b[1..][..i];
    assert a[..i + 1][1..] == a[1..][..i] && b[..i + 1][1..] == b[1..][..i];
  }

  lemma {:induction false} StringLessExact(a: string, b: string)
    ensures StringLess(a, b) <==> DictionaryBefore(a, b)
  {
    hide DiffersAt;
    if a == [] || b == [] || a[0] != b[0] {
      FirstCharacters(a, b);
    } else {
      StringLessExact(a[1..], b[1..]);
      if DictionaryBefore(a, b) {
        var i :| 0 <= i <= |a| && i <= |b| && DiffersAt(a, b, i);
        SamePrefix(a, b, i);
        DiffersTail(a, b, i - 1);
      }
      if DictionaryBefore(a[1..], b[1..]) {
        var i :| 0 <= i <= |a| - 1 && i <= |b| - 1 && DiffersAt(a[1..], b[1..], i);
        DiffersTail(a, b, i);
      }
    }
  }

  lemma SamePrefix(a: string, b: string, i: nat)
    requires a != [] && b != [] && a[0] == b[0] && i <= |a| && i <= |b| && DiffersAt(a, b, i)
    ensures i > 0
  {
  }

  /** Where one string is empty or the first characters differ. */
  lemma FirstCharacters(a: string, b: string)
    requires a == [] || b == [] || a[0] != b[0]
    ensures StringLess(a, b) <==> DictionaryBefore(a, b)
  {
    if StringLess(a, b) {
      assert DiffersAt(a, b, 0);
    }
    forall i: nat | 0 < i <= |a| && i <= |b|
      ensures a[..i] != b[..i]
    {
      assert a[..i][0] != b[..i][0];
    }
  }

  /** a has higher priority than b. */
  predicate Less(a: Key, b: Key) {
    if a.matches != b.matches then a.matches > b.matches
    else if a.allocatable != b.allocatable then a.allocatable < b.allocatable
    else if a.nodeMask != b.nodeMask then a.nodeMask > b.nodeMask
    else if a.selector != b.selector then StringLess(a.selector, b.selector)
    else StringLess(a.cidr, b.cidr)
  }

  lemma {:induction false} StringLessIrreflexive(a: string)
    ensures !StringLess(a, a)
  {
    if a != [] {
      StringLessIrreflexive(a[1..]);
    }
  }

  lemma {:induction false} StringLessTransitive(a: string, b: string, c: string)
    requires StringLess(a, b) && StringLess(b, c)
    ensures StringLess(a, c)
  {
    if a != [] && a[0] == b[0] == c[0] {
      StringLessTransitive(a[1..], b[1..], c[1..]);
    }
  }

  lemma {:induction false} StringLessTotal(a: string, b: string)
    requires a != b
    ensures StringLess(a, b) || StringLess(b, a)
  {
    if a != [] && b != [] && a[0] == b[0] {
      assert a == [a[0]] + a[1..] && b == [b[0]] + b[1..];
      StringLessTotal(a[1..], b[1..]);
    }
  }

  /** Less is a strict weak order on queue items; keys it does not separate are equal. The first level at which two keys
      differ decides: more matching labels, fewer allocatable blocks, a longer node mask, an earlier selector, an
      earlier CIDR. */
  lemma LessStrictOrder(a: Key, b: Key, c: Key)
    ensures a.matches > b.matches ==> Less(a, b)
    ensures a.matches == b.matches && a.allocatable < b.allocatable ==> Less(a, b)
    ensures a.matches == b.matches && a.allocatable == b.allocatable && a.nodeMask > b.nodeMask ==> Less(a, b)
    ensures a.(selector := b.selector, cidr := b.cidr) == b && DictionaryBefore(a.selector, b.selector) ==> Less(a, b)
    ensures a.(cidr := b.cidr) == b && DictionaryBefore(a.cidr, b.cidr) ==> Less(a, b)
    ensures !Less(a, a)
    ensures Less(a, b) && Less(b, c) ==> Less(a, c)
    ensures !Less(a, b) && !Less(b, a) <==> a == b
  {
    hide DictionaryBefore;
    StringLessExact(a.selector, b.selector);
    StringLessExact(a.cidr, b.cidr);
    StringLessIrreflexive(a.selector);
    StringLessIrreflexive(a.cidr);
    if Less(a, b) && Less(b, c) {
      LessTransitive(a, b, c);
    }
    if a.selector != b.selector {
      StringLessTotal(a.selector, b.selector);
    } else if a.cidr != b.cidr {
      StringLessTotal(a.cidr, b.cidr);
    }
  }

  lemma LessTransitive(a: Key, b: Key, c: Key)
    requires Less(a, b) && Less(b, c)
    ensures Less(a, c)
  {
    if a.matches == b.matches == c.matches && a.allocatable == b.allocatable == c.allocatable
       && a.nodeMask == b.nodeMask == c.nodeMask {
      if a.selector != b.selector && b.selector != c.selector {
        StringLessTransitive(a.selector, b.selector, c.selector);
        if a.selector == c.selector {
          StringLessIrreflexive(a.selector);
        }
      } else if a.selector == b.selector == c.selector {
        StringLessTransitive(a.cidr, b.cidr, c.cidr);
      }
    }
  }

  /** The order in which the heap hands out keys: nothing later has higher priority. */
  predicate NotAfter(a: Key, b: Key) {
    !Less(b, a)
  }

  lemma NotAfterOrder(a: Key, b: Key, c: Key)
    ensures NotAfter(a, a)
    ensures NotAfter(a, b) || NotAfter(b, a)
    ensures NotAfter(a, b) && NotAfter(b, a) ==> a == b
    ensures NotAfter(a, b) && NotAfter(b, c) ==> NotAfter(a, c)
  {
    LessStrictOrder(a, b, a);
    LessStrictOrder(b, a, c);
    LessStrictOrder(b, c, a);
    LessStrictOrder(c, a, b);
    LessStrictOrder(c, b, a);
  }
}
