/** The word-level computations of multi_cidr_set.go, generic in the word width.

IPv4 addresses are one word; IPv6 addresses are two big-endian halves of `half`
bits each. Each computation is proved equal to plain arithmetic on the address.
 */
module Words {
  import opened Bits

  function Left(ip: nat, half: nat): nat { Quotient(ip, Pow2(half)) }

  function Right(ip: nat, half: nat): nat { ip % Pow2(half) }

  /** Two halves put back together. */
  function Join(left: nat, right: nat, half: nat): nat { left * Pow2(half) + right }

  /** The complement of a word. */
  function Not(x: nat, width: nat): nat
    requires x < Pow2(width)
  {
    Pow2(width) - 1 - x
  }

  /** The first address of block `index`, on a single word. */
  function IndexToWord(base: nat, nodeMask: nat, index: nat, width: nat): nat
    requires nodeMask <= width
  {
    Or(base, ShiftLeft(Truncate(index, width), width - nodeMask, width))
  }

  /** The first address of block `index`, on two halves. */
  function IndexToHalves(base: nat, clusterMask: nat, nodeMask: nat, index: nat, half: nat): nat
    requires nodeMask <= 2 * half
  {
    var left := Left(base, half);
    var right := Right(base, half);
    var word := Truncate(index, half);
    if nodeMask <= half then
      // Only the left half is affected.
      Join(Or(left, ShiftLeft(word, half - nodeMask, half)), right, half)
    else
      // How many bits of the index reach the left half.
      var btl := nodeMask - half;
      var left' := if clusterMask < half && BitLength(word) > btl then Or(left, ShiftRight(word, btl)) else left;
      Join(left', Or(right, ShiftLeft(word, 2 * half - nodeMask, half)), half)
  }

  /** The last address of a prefix, on a single word. */
  function LastWord(base: nat, len: nat, width: nat): nat
    requires len <= width
  {
    MaskBound(len, width);
    Or(base, Not(NetMask(len, width), width))
  }

  /** The last address of a prefix, on two halves. */
  function LastHalves(base: nat, len: nat, half: nat): nat
    requires len <= 2 * half
  {
    MaskHalves(len, half);
    var mask := NetMask(len, 2 * half);
    Join(Or(Left(base, half), Not(Left(mask, half), half)), Or(Right(base, half), Not(Right(mask, half), half)), half)
  }

  // ---------- Masks ----------

  lemma MaskBound(len: nat, width: nat)
    requires len <= width
    ensures NetMask(len, width) == Pow2(width) - Pow2(width - len)
    ensures NetMask(len, width) < Pow2(width)
  {
    Pow2Add(len, width - len);
    MulDistribute(Pow2(len), -1, Pow2(width - len));
  }

  lemma MaskHalves(len: nat, half: nat)
    requires len <= 2 * half
    ensures Left(NetMask(len, 2 * half), half) < Pow2(half) && Right(NetMask(len, 2 * half), half) < Pow2(half)
    ensures len <= half ==>
              && Left(NetMask(len, 2 * half), half) == Pow2(half) - Pow2(half - len)
              && Right(NetMask(len, 2 * half), half) == 0
    ensures len > half ==>
              Left(NetMask(len, 2 * half), half) == Pow2(half) - 1 &&
              Right(NetMask(len, 2 * half), half) == Pow2(half) - Pow2(2 * half - len)
  {
    MaskBound(len, 2 * half);
    Pow2Add(half, half);
    if len <= half {
      Pow2Split(half, half - len);
      Pow2Add(half - len, half);
      SplitTopAligned(Pow2(half), Pow2(half - len));
    } else {
      Pow2Split(half, 2 * half - len);
      SplitTop(Pow2(half), Pow2(2 * half - len));
    }
  }

  lemma SplitTopAligned(h: nat, p: nat)
    requires 0 < p <= h
    ensures h * h - p * h >= 0 && (h * h - p * h) / h == h - p && (h * h - p * h) % h == 0
  {
    assert (h - p) * h == h * h - p * h;
    DivOfMul(h - p, h, 0);
  }

  lemma SplitTop(h: nat, p: nat)
    requires 0 < p <= h
    ensures h * h - p >= 0 && (h * h - p) / h == h - 1 && (h * h - p) % h == h - p
  {
    assert (h - 1) * h == h * h - h;
    DivOfMul(h - 1, h, h - p);
  }

  // ---------- Halves of aligned addresses ----------

  lemma HalvesJoin(ip: nat, half: nat)
    ensures Join(Left(ip, half), Right(ip, half), half) == ip
  {
    DivMul(ip, Pow2(half));
  }

  /** An address that ends in at least `half` zeros. */
  lemma LeftAligned(ip: nat, bits: nat, half: nat)
    requires bits >= half && ip % Pow2(bits) == 0
    ensures Right(ip, half) == 0 && Left(ip, half) % Pow2(bits - half) == 0
  {
    var q, p, h := ip / Pow2(bits), Pow2(bits - half), Pow2(half);
    DivMul(ip, Pow2(bits));
    Pow2Add(bits - half, half);
    MulAssoc(q, p, h);
    DivUnique(ip, q * p, 0, h);
    DivOfMul(q, p, 0);
  }

  /** An address that ends in at most `half` zeros. */
  lemma RightAligned(ip: nat, bits: nat, half: nat)
    requires bits <= half && ip % Pow2(bits) == 0
    ensures Right(ip, half) % Pow2(bits) == 0
  {
    Pow2Add(half - bits, bits);
    ModAligned(ip, Pow2(half - bits), Pow2(bits));
  }

  lemma ModAligned(x: nat, k: nat, p: nat)
    requires k > 0 && p > 0 && x % p == 0
    ensures k * p > 0 && (x % (k * p)) % p == 0
  {
    MulLe(1, k, p);
    var q, r := x / (k * p), x % (k * p);
    DivMul(x, k * p);
    MulAssoc(q, k, p);
    SubAligned(x, q * k, r, p);
  }

  lemma SubAligned(x: nat, q: nat, r: nat, m: nat)
    requires m > 0 && x % m == 0 && x == q * m + r
    ensures r % m == 0
  {
    DivMul(x, m);
    DivMul(r, m);
    MulDistribute(q, r / m, m);
    DivUnique(x, q + r / m, r % m, m);
  }

  // ---------- Last address ----------

  lemma LastWordExact(base: nat, len: nat, width: nat)
    requires len <= width && base % Pow2(width - len) == 0
    ensures LastWord(base, len, width) == base + Pow2(width - len) - 1
  {
    MaskBound(len, width);
    OrAligned(base, width - len, Pow2(width - len) - 1);
  }

  /** Or-ing the complemented mask half by half yields the last address, across the boundary too. */
  lemma LastHalvesExact(base: nat, len: nat, half: nat)
    requires len <= 2 * half && base % Pow2(2 * half - len) == 0
    ensures LastHalves(base, len, half) == base + Pow2(2 * half - len) - 1
  {
    var bits, left, right, h := 2 * half - len, Left(base, half), Right(base, half), Pow2(half);
    MaskHalves(len, half);
    HalvesJoin(base, half);
    if len <= half {
      var p := Pow2(bits - half);
      LeftAligned(base, bits, half);
      OrAligned(left, bits - half, p - 1);
      Pow2Add(bits - half, half);
      MulDistribute(left, p - 1, h);
      MulDistribute(p, -1, h);
    } else {
      RightAligned(base, bits, half);
      OrAligned(right, bits, Pow2(bits) - 1);
    }
  }

  // ---------- Index to first address ----------

  lemma TruncateSmall(x: nat, bits: nat, width: nat)
    requires x < Pow2(bits) && bits <= width
    ensures Truncate(x, width) == x
  {
    Pow2Split(width, bits);
    DivUnique(x, 0, x, Pow2(width));
  }

  /** Or-ing a shifted index into a word that ends in enough zeros adds it, without overflow. */
  lemma OrShifted(x: nat, index: nat, bits: nat, shift: nat, width: nat)
    requires index < Pow2(bits) && bits + shift <= width && x % Pow2(bits + shift) == 0
    ensures Or(x, ShiftLeft(index, shift, width)) == x + index * Pow2(shift)
  {
    Pow2Add(bits, shift);
    MulLt(index, Pow2(bits), Pow2(shift));
    TruncateSmall(index * Pow2(shift), bits + shift, width);
    OrAligned(x, bits + shift, index * Pow2(shift));
  }

  lemma IndexToWordExact(base: nat, clusterMask: nat, nodeMask: nat, index: nat, width: nat)
    requires clusterMask <= nodeMask <= width && index < Pow2(nodeMask - clusterMask)
    requires base % Pow2(width - clusterMask) == 0
    ensures IndexToWord(base, nodeMask, index, width) == base + index * Pow2(width - nodeMask)
  {
    TruncateSmall(index, nodeMask - clusterMask, width);
    OrShifted(base, index, nodeMask - clusterMask, width - nodeMask, width);
  }

  /** Blocks of at least a half: the index lies in the left half. */
  lemma IndexToHalvesShort(base: nat, clusterMask: nat, nodeMask: nat, index: nat, half: nat)
    requires clusterMask <= nodeMask <= half && index < Pow2(nodeMask - clusterMask)
    requires base % Pow2(2 * half - clusterMask) == 0
    ensures IndexToHalves(base, clusterMask, nodeMask, index, half) == base + index * Pow2(2 * half - nodeMask)
  {
    var left, p, h := Left(base, half), Pow2(half - nodeMask), Pow2(half);
    TruncateSmall(index, nodeMask - clusterMask, half);
    LeftAligned(base, 2 * half - clusterMask, half);
    HalvesJoin(base, half);
    OrShifted(left, index, nodeMask - clusterMask, half - nodeMask, half);
    MulDistribute(left, index * p, h);
    Pow2Add(half - nodeMask, half);
    MulAssoc(index, p, h);
  }

  /** A range inside one left half: the index lies in the right half. */
  lemma IndexToHalvesRight(base: nat, clusterMask: nat, nodeMask: nat, index: nat, half: nat)
    requires half <= clusterMask <= nodeMask <= 2 * half && half < nodeMask && index < Pow2(nodeMask - clusterMask)
    requires base % Pow2(2 * half - clusterMask) == 0
    ensures IndexToHalves(base, clusterMask, nodeMask, index, half) == base + index * Pow2(2 * half - nodeMask)
  {
    TruncateSmall(index, nodeMask - clusterMask, half);
    RightAligned(base, 2 * half - clusterMask, half);
    HalvesJoin(base, half);
    OrShifted(Right(base, half), index, nodeMask - clusterMask, 2 * half - nodeMask, half);
  }

  /** A range that begins left of the boundary, cut into blocks that end right of it. */
  lemma IndexToHalvesBoth(base: nat, clusterMask: nat, nodeMask: nat, index: nat, half: nat)
    requires clusterMask < half < nodeMask <= 2 * half && index < Pow2(nodeMask - clusterMask)
    requires nodeMask - clusterMask <= half
    requires base % Pow2(2 * half - clusterMask) == 0
    ensures IndexToHalves(base, clusterMask, nodeMask, index, half) == base + index * Pow2(2 * half - nodeMask)
  {
    var btl, left := nodeMask - half, Left(base, half);
    TruncateSmall(index, nodeMask - clusterMask, half);
    LeftAligned(base, 2 * half - clusterMask, half);
    HalvesJoin(base, half);
    GuardHarmless(left, index, half - clusterMask, btl);
    TruncateShifted(index, btl, half);
    var p, s := Pow2(btl), Pow2(2 * half - nodeMask);
    Pow2Add(btl, 2 * half - nodeMask);
    DivMul(index, p);
    JoinSplit(left, index / p, index % p, p, s);
  }

  /** The guard skips the or only where there is nothing to or in. */
  lemma GuardHarmless(left: nat, index: nat, bits: nat, btl: nat)
    requires index < Pow2(bits + btl) && left % Pow2(bits) == 0
    ensures (if BitLength(index) > btl then Or(left, ShiftRight(index, btl)) else left) == left + index / Pow2(btl)
  {
    BitLengthBound(index, btl);
    if BitLength(index) > btl {
      Pow2Add(bits, btl);
      DivLess(index, Pow2(bits), Pow2(btl));
      OrAligned(left, bits, index / Pow2(btl));
    } else {
      DivUnique(index, 0, index, Pow2(btl));
    }
  }

  lemma JoinSplit(left: nat, high: nat, low: nat, p: nat, s: nat)
    ensures (left + high) * (p * s) + low * s == left * (p * s) + (high * p + low) * s
  {
    MulDistribute(left, high, p * s);
    MulAssoc(high, p, s);
    MulDistribute(high * p, low, s);
  }

  /** The two-half construction equals arithmetic on the whole address: no bit is lost at the
      boundary and the bit-length guard never changes the result. */
  lemma IndexToHalvesExact(base: nat, clusterMask: nat, nodeMask: nat, index: nat, half: nat)
    requires clusterMask <= nodeMask <= 2 * half && index < Pow2(nodeMask - clusterMask)
    requires nodeMask - clusterMask <= half
    requires base % Pow2(2 * half - clusterMask) == 0
    ensures IndexToHalves(base, clusterMask, nodeMask, index, half) == base + index * Pow2(2 * half - nodeMask)
  {
    if nodeMask <= half {
      IndexToHalvesShort(base, clusterMask, nodeMask, index, half);
    } else if half <= clusterMask {
      IndexToHalvesRight(base, clusterMask, nodeMask, index, half);
    } else {
      IndexToHalvesBoth(base, clusterMask, nodeMask, index, half);
    }
  }
}
