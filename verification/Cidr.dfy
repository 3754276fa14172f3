/** CIDR prefixes as address ranges, and the mask arithmetic the program uses on them.

A `Cidr` is a canonical network (family, first address, prefix length). Its
meaning is the interval of addresses `Has` describes; `Contains` and `Overlaps`
are the mask tests of Go's net package as the program combines them.
 */
module Cidrs {
  import opened Bits

  datatype Family = V4 | V6 {
    function Width(): nat {
      if V4? then 32 else 128
    }
  }

  const MAPPED_BASE: nat := 0xffff_0000_0000

  /** An IPv6 address that To4() takes for IPv4: ::ffff:0:0/96. */
  predicate IsMapped(ip: nat) {
    MAPPED_BASE <= ip < MAPPED_BASE + 0x1_0000_0000
  }

  datatype Cidr = Cidr(fam: Family, base: nat, len: nat) {
    function HostBits(): nat
      requires len <= fam.Width()
    {
      fam.Width() - len
    }

    function Size(): (n: nat)
      requires len <= fam.Width()
      ensures n >= 1
    {
      Pow2(HostBits())
    }

    /** A network number with no host bit set, that the net package classifies by its own family. */
    predicate Valid() {
      && len <= fam.Width()
      && base < Pow2(fam.Width())
      && base % Size() == 0
      && (fam.V6? ==> !IsMapped(base))
    }

    predicate Has(ip: nat)
      requires len <= fam.Width()
    {
      base <= ip < base + Size()
    }

    function Last(): nat
      requires len <= fam.Width()
    {
      base + Size() - 1
    }
  }

  /** The two ranges share an address. */
  predicate Meets(c: Cidr, d: Cidr)
    requires c.len <= c.fam.Width() && d.len <= d.fam.Width()
  {
    c.fam == d.fam && c.base < d.base + d.Size() && d.base < c.base + c.Size()
  }

  /** Every address of d is one of c. */
  predicate Inside(d: Cidr, c: Cidr)
    requires c.len <= c.fam.Width() && d.len <= d.fam.Width()
  {
    c.fam == d.fam && c.base <= d.base && d.base + d.Size() <= c.base + c.Size()
  }

  function Mask(ip: nat, len: nat, fam: Family): nat
    requires len <= fam.Width()
  {
    And(ip, NetMask(len, fam.Width()))
  }

  /** IPNet.Contains: addresses of the other family have another length and are never contained. */
  predicate Contains(c: Cidr, fam: Family, ip: nat)
    requires c.len <= c.fam.Width()
  {
    c.fam == fam && Mask(c.base, c.len, c.fam) == Mask(ip, c.len, c.fam)
  }

  /** The test written as "c contains d's address under c's mask, or the other way round". */
  predicate Overlaps(c: Cidr, d: Cidr)
    requires c.len <= c.fam.Width() && d.len <= d.fam.Width()
  {
    c.fam == d.fam &&
    (Contains(c, d.fam, Mask(d.base, c.len, c.fam)) || Contains(d, c.fam, Mask(c.base, d.len, d.fam)))
  }

  // ---------- Properties ----------

  lemma MeetsIffShared(c: Cidr, d: Cidr)
    requires c.Valid() && d.Valid()
    ensures Meets(c, d) <==> c.fam == d.fam && exists ip: nat :: c.Has(ip) && d.Has(ip)
  {
    if Meets(c, d) {
      var ip := if c.base < d.base then d.base else c.base;
      assert c.Has(ip) && d.Has(ip);
    }
  }

  lemma InsideIffSubset(d: Cidr, c: Cidr)
    requires c.Valid() && d.Valid() && c.fam == d.fam
    ensures Inside(d, c) <==> forall ip: nat :: d.Has(ip) ==> c.Has(ip)
  {
    assert d.Has(d.base) && d.Has(d.Last());
  }

  lemma InsideMeets(x: Cidr, y: Cidr, c: Cidr)
    requires x.Valid() && y.Valid() && c.Valid() && Inside(x, y) && Inside(y, c)
    ensures Meets(x, c)
  {
  }

  lemma MaskValue(ip: nat, len: nat, fam: Family)
    requires len <= fam.Width() && ip < Pow2(fam.Width())
    ensures Mask(ip, len, fam) == ip - ip % Pow2(fam.Width() - len)
    ensures Mask(ip, len, fam) % Pow2(fam.Width() - len) == 0
  {
    var s := Pow2(fam.Width() - len);
    AndNetMask(ip, len, fam.Width());
    DivMul(ip, s);
    DivOfMul(ip / s, s, 0);
  }

  /** Contains, applied to a masked address, asks whether the address lies in the range. */
  lemma ContainsMasked(c: Cidr, fam: Family, ip: nat)
    requires c.Valid() && ip < Pow2(fam.Width())
    requires c.fam == fam
    ensures Contains(c, fam, Mask(ip, c.len, c.fam)) <==> c.Has(ip)
  {
    var s := c.Size();
    MaskValue(c.base, c.len, fam);
    MaskValue(ip, c.len, fam);
    var m := Mask(ip, c.len, fam);
    MaskValue(m, c.len, fam);
    if c.Has(ip) {
      DivMul(c.base, s);
      DivUnique(ip, c.base / s, ip - c.base, s);
    }
  }

  /** The mask-based overlap test is true exactly when the two address ranges intersect. */
  lemma OverlapsExact(c: Cidr, d: Cidr)
    requires c.Valid() && d.Valid()
    ensures Overlaps(c, d) <==> Meets(c, d)
  {
    if c.fam == d.fam {
      ContainsMasked(c, d.fam, d.base);
      ContainsMasked(d, c.fam, c.base);
    }
  }

  /** Multiples of m lie at least m apart. */
  lemma AlignedGap(x: nat, y: nat, m: nat)
    requires m > 0 && x % m == 0 && y % m == 0 && x < y
    ensures x + m <= y
  {
    DivMul(x, m);
    DivMul(y, m);
    if x / m >= y / m {
      MulLe(y / m, x / m, m);
    } else {
      MulLt(x / m, y / m, m);
    }
  }

  /** CIDRs are nested or disjoint: one that meets a longer prefix contains it. */
  lemma MeetsNested(c: Cidr, d: Cidr)
    requires c.Valid() && d.Valid() && Meets(c, d) && c.len <= d.len
    ensures Inside(d, c)
  {
    var w, s := c.fam.Width(), d.Size();
    CoarserAligned(c.base, c.HostBits(), d.HostBits());
    Pow2Split(c.HostBits(), d.HostBits());
    if d.base < c.base {
      AlignedGap(d.base, c.base, s);
    }
    var end := c.base + c.Size();
    AddAligned(c.base, c.Size(), s);
    AlignedGap(d.base, end, s);
  }

  lemma AddAligned(x: nat, y: nat, m: nat)
    requires m > 0 && x % m == 0 && y % m == 0
    ensures (x + y) % m == 0
  {
    DivMul(x, m);
    DivMul(y, m);
    MulDistribute(x / m, y / m, m);
    DivUnique(x + y, x / m + y / m, 0, m);
  }

  /** Prefixes stay below the end of the address space. */
  lemma RangeFits(c: Cidr)
    requires c.Valid()
    ensures c.base + c.Size() <= Pow2(c.fam.Width())
  {
    Pow2Split(c.fam.Width(), c.HostBits());
    AlignedGap(c.base, Pow2(c.fam.Width()), c.Size());
  }
}
