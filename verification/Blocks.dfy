/** Cutting a cluster range into per-node blocks: index to block, block to index.

`IndexToCIDRBlock`, `GetIndexForIP` and `GetBeginningAndEndIndices` follow the
word arithmetic of multi_cidr_set.go; `Config.Block` and `Meets` are the meaning
they are proved against.
 */
module Blocks {
  import opened Bits
  import opened Cidrs
  import opened Words

  datatype Option<+T> = None | Some(value: T)

  const CLUSTER_SUBNET_MAX_DIFF := 16
  const MIN_PER_NODE_HOST_BITS := 4

  /** The shape of a CIDR set: the cluster range and the prefix length of its blocks. */
  datatype Config = Config(cluster: Cidr, nodeMask: nat) {
    function Fam(): Family {
      cluster.fam
    }

    function BlockBits(): nat
      requires nodeMask <= Fam().Width()
    {
      Fam().Width() - nodeMask
    }

    function BlockSize(): (n: nat)
      requires nodeMask <= Fam().Width()
      ensures n >= 1
    {
      Pow2(BlockBits())
    }

    /** MaxCIDRs. */
    function Max(): (n: nat)
      requires cluster.len <= nodeMask
      ensures n >= 1
    {
      Pow2(nodeMask - cluster.len)
    }

    /** What an accepted, validated spec gives; see `NewSetAccepts`. */
    ghost predicate Valid() {
      && cluster.Valid()
      && cluster.len <= nodeMask <= Fam().Width()
      && nodeMask - cluster.len < 32
      && (Fam().V6? ==> nodeMask - cluster.len <= CLUSTER_SUBNET_MAX_DIFF)
      && (Fam().V6? ==> forall ip: nat :: cluster.Has(ip) ==> !IsMapped(ip))
    }

    /** Block number `index` of the range, by plain arithmetic. */
    function Block(index: nat): Cidr
      requires nodeMask <= Fam().Width()
    {
      Cidr(Fam(), cluster.base + index * BlockSize(), nodeMask)
    }
  }

  // ---------- The program's arithmetic ----------

  /** getMaxCIDRs on 64-bit ints: the shift count is the difference converted to uint32. */
  function GetMaxCIDRs(subNetMaskSize: int, clusterMaskSize: int): int {
    var shift: nat := (subNetMaskSize - clusterMaskSize) % 0x1_0000_0000;
    if shift > 63 then 0
    else if shift == 63 then -0x8000_0000_0000_0000
    else Pow2(shift)
  }

  datatype SetParams = SetParams(nodeMaskSize: int, maxCIDRs: int)

  /** NewMultiCIDRSet: None stands for CIDRSetSubNetTooBigErr. */
  function NewMultiCIDRSet(cidr: Cidr, perNodeHostBits: int): Option<SetParams> {
    var subNetMaskSize := cidr.fam.Width() - perNodeHostBits;
    if cidr.fam.V6? && subNetMaskSize - cidr.len > CLUSTER_SUBNET_MAX_DIFF then None
    else Some(SetParams(subNetMaskSize, GetMaxCIDRs(subNetMaskSize, cidr.len)))
  }

  /** indexToCIDRBlock. */
  function IndexToCIDRBlock(cfg: Config, index: nat): Cidr
    requires cfg.nodeMask <= cfg.Fam().Width()
  {
    var ip := match cfg.Fam()
      case V4 => IndexToWord(cfg.cluster.base, cfg.nodeMask, index, 32)
      case V6 => IndexToHalves(cfg.cluster.base, cfg.cluster.len, cfg.nodeMask, index, 64);
    Cidr(cfg.Fam(), ip, cfg.nodeMask)
  }

  /** Xor, shift, truncate to a word, and compare with MaxCIDRs truncated to the same word. */
  function IndexOfWord(base: nat, ip: nat, shift: nat, max: nat, width: nat): Option<nat> {
    var index := Truncate(ShiftRight(Xor(base, ip), shift), width);
    if index >= Truncate(max, width) then None else Some(index)
  }

  /** uint32(32 - NodeMaskSize), which wraps around when the mask is longer than 32 bits. */
  function ShiftCount32(nodeMask: nat): nat
    requires nodeMask <= 128
  {
    if nodeMask <= 32 then 32 - nodeMask else 0x1_0000_0000 + 32 - nodeMask
  }

  /** getIndexForIP on an address of the set's family: addresses that To4() accepts take the 32-bit path. */
  function GetIndexForIP(cfg: Config, ip: nat): Option<nat>
    requires cfg.cluster.len <= cfg.nodeMask <= cfg.Fam().Width()
  {
    match cfg.Fam()
    case V4 => IndexOfWord(cfg.cluster.base, ip, ShiftCount32(cfg.nodeMask), cfg.Max(), 32)
    case V6 =>
      if IsMapped(ip) then
        IndexOfWord(ShiftRight(cfg.cluster.base, 96), ip - MAPPED_BASE, ShiftCount32(cfg.nodeMask), cfg.Max(), 32)
      else
        IndexOfWord(cfg.cluster.base, ip, 128 - cfg.nodeMask, cfg.Max(), 64)
  }

  /** The last address of a CIDR, as the program computes it. */
  function LastIP(c: Cidr): nat
    requires c.len <= c.fam.Width()
  {
    match c.fam
    case V4 => LastWord(c.base, c.len, 32)
    case V6 => LastHalves(c.base, c.len, 64)
  }

  datatype Indices = OutOfRange | Indices(begin: nat, end: nat)

  /** getBeginningAndEndIndices. */
  function GetBeginningAndEndIndices(cfg: Config, c: Cidr): Indices
    requires cfg.Valid() && c.Valid()
  {
    if !Overlaps(cfg.cluster, c) then OutOfRange
    else if cfg.cluster.len < c.len then
      var begin := GetIndexForIP(cfg, Mask(c.base, cfg.nodeMask, cfg.Fam()));
      if begin.None? then OutOfRange else
      var end := GetIndexForIP(cfg, Mask(LastIP(c), cfg.nodeMask, cfg.Fam()));
      if end.None? then OutOfRange else
      Indices(begin.value, end.value)
    else Indices(0, cfg.Max() - 1)
  }

  // ---------- Index to block ----------

  lemma LastIPExact(c: Cidr)
    requires c.Valid()
    ensures LastIP(c) == c.Last()
  {
    match c.fam
    case V4 => LastWordExact(c.base, c.len, 32);
    case V6 => LastHalvesExact(c.base, c.len, 64);
  }

  /** Index times block size stays below the size of the range, and the base is aligned to the latter. */
  lemma OffsetBound(cfg: Config, index: nat)
    requires cfg.Valid() && index < cfg.Max()
    ensures cfg.Max() * cfg.BlockSize() == cfg.cluster.Size()
    ensures index * cfg.BlockSize() + cfg.BlockSize() <= cfg.cluster.Size()
    ensures cfg.cluster.base % cfg.BlockSize() == 0
  {
    Pow2Add(cfg.nodeMask - cfg.cluster.len, cfg.BlockBits());
    MulLt(index, cfg.Max(), cfg.BlockSize());
    CoarserAligned(cfg.cluster.base, cfg.cluster.HostBits(), cfg.BlockBits());
  }

  /** indexToCIDRBlock equals base + index * blocksize in both families, whatever the two mask
      lengths: nothing is lost across the 64-bit boundary and the indexMaxBit guard is harmless. */
  lemma IndexToBlockExact(cfg: Config, index: nat)
    requires cfg.Valid() && index < cfg.Max()
    ensures IndexToCIDRBlock(cfg, index) == cfg.Block(index)
  {
    hide Or, Pow2;
    match cfg.Fam()
    case V4 => IndexToWordExact(cfg.cluster.base, cfg.cluster.len, cfg.nodeMask, index, 32);
    case V6 => IndexToHalvesExact(cfg.cluster.base, cfg.cluster.len, cfg.nodeMask, index, 64);
  }

  // ---------- Tiling ----------

  lemma BlockValid(cfg: Config, index: nat)
    requires cfg.Valid() && index < cfg.Max()
    ensures cfg.Block(index).Valid()
    ensures Inside(cfg.Block(index), cfg.cluster)
  {
    hide Pow2;
    var b := cfg.Block(index);
    OffsetBound(cfg, index);
    RangeFits(cfg.cluster);
    DivOfMul(index, cfg.BlockSize(), 0);
    AddAligned(cfg.cluster.base, index * cfg.BlockSize(), cfg.BlockSize());
    assert cfg.cluster.Has(b.base);
  }

  /** The number of the block an address of the range falls into. */
  function BlockOf(cfg: Config, ip: nat): nat
    requires cfg.Valid() && cfg.cluster.Has(ip)
  {
    Quotient(ip - cfg.cluster.base, cfg.BlockSize())
  }

  /** The blocks partition the range: each address lies in exactly one of the MaxCIDRs blocks. */
  lemma Tiling(cfg: Config, ip: nat)
    requires cfg.Valid()
    ensures forall i: nat :: i < cfg.Max() && cfg.Block(i).Has(ip) ==> cfg.cluster.Has(ip) && i == BlockOf(cfg, ip)
    ensures cfg.cluster.Has(ip) ==> BlockOf(cfg, ip) < cfg.Max() && cfg.Block(BlockOf(cfg, ip)).Has(ip)
  {
    hide Pow2;
    var bs := cfg.BlockSize();
    forall i: nat | i < cfg.Max() && cfg.Block(i).Has(ip)
      ensures cfg.cluster.Has(ip) && i == BlockOf(cfg, ip)
    {
      OffsetBound(cfg, i);
      DivUnique(ip - cfg.cluster.base, i, ip - cfg.cluster.base - i * bs, bs);
    }
    if cfg.cluster.Has(ip) {
      OffsetBound(cfg, 0);
      DivLess(ip - cfg.cluster.base, cfg.Max(), bs);
      DivMul(ip - cfg.cluster.base, bs);
    }
  }

  lemma BlocksDisjoint(cfg: Config, i: nat, j: nat)
    requires cfg.Valid() && i < cfg.Max() && j < cfg.Max()
    ensures Meets(cfg.Block(i), cfg.Block(j)) <==> i == j
    ensures cfg.Block(i) == cfg.Block(j) <==> i == j
  {
    var bs := cfg.BlockSize();
    if i < j {
      MulLt(i, j, bs);
    } else if j < i {
      MulLt(j, i, bs);
    }
  }

  // ---------- Block to index ----------

  /** XOR-then-shift is division: any address of the range maps to the number of its block. */
  lemma XorShiftIsDivision(cfg: Config, ip: nat)
    requires cfg.Valid() && cfg.cluster.Has(ip)
    ensures ShiftRight(Xor(cfg.cluster.base, ip), cfg.BlockBits()) == BlockOf(cfg, ip) < cfg.Max()
  {
    XorAligned(cfg.cluster.base, cfg.cluster.HostBits(), ip - cfg.cluster.base);
    Tiling(cfg, ip);
  }

  /** getIndexForIP finds the block of every address of the range; the truncations lose nothing. */
  lemma GetIndexExact(cfg: Config, ip: nat)
    requires cfg.Valid() && cfg.cluster.Has(ip)
    ensures GetIndexForIP(cfg, ip) == Some(BlockOf(cfg, ip))
  {
    match cfg.Fam()
    case V4 => IndexOfWordExact(cfg, ip, 32);
    case V6 => IndexOfWordExact(cfg, ip, 64);
  }

  lemma IndexOfWordExact(cfg: Config, ip: nat, width: nat)
    requires cfg.Valid() && cfg.cluster.Has(ip) && width >= 32
    ensures IndexOfWord(cfg.cluster.base, ip, cfg.BlockBits(), cfg.Max(), width) == Some(BlockOf(cfg, ip))
  {
    hide Xor, Pow2, Config.Block;
    XorShiftIsDivision(cfg, ip);
    Pow2Increasing(cfg.nodeMask - cfg.cluster.len, width);
    DivUnique(cfg.Max(), 0, cfg.Max(), Pow2(width));
    TruncateSmall(BlockOf(cfg, ip), cfg.nodeMask - cfg.cluster.len, width);
  }

  /** Masking an address of the range to the node mask gives the first address of its block. */
  lemma MaskToBlock(cfg: Config, ip: nat)
    requires cfg.Valid() && cfg.cluster.Has(ip)
    ensures Mask(ip, cfg.nodeMask, cfg.Fam()) == cfg.Block(BlockOf(cfg, ip)).base
  {
    OffsetBound(cfg, 0);
    RangeFits(cfg.cluster);
    MaskValue(ip, cfg.nodeMask, cfg.Fam());
    RoundDown(cfg.cluster.base, ip, cfg.BlockSize());
  }

  lemma BlockOfFirst(cfg: Config, i: nat)
    requires cfg.Valid() && i < cfg.Max()
    ensures cfg.cluster.Has(cfg.Block(i).base)
    ensures BlockOf(cfg, cfg.Block(i).base) == i
  {
    OffsetBound(cfg, i);
    DivOfMul(i, cfg.BlockSize(), 0);
  }

  /** Rounding down to a multiple of m, measured from another multiple of m. */
  lemma RoundDown(base: nat, ip: nat, m: nat)
    requires m > 0 && base % m == 0 && base <= ip
    ensures ip - ip % m == base + (ip - base) / m * m
  {
    var q, r := (ip - base) / m, (ip - base) % m;
    DivMul(base, m);
    DivMul(ip - base, m);
    MulDistribute(base / m, q, m);
    DivUnique(ip, base / m + q, r, m);
  }

  /** Round trip: the index of any address of block i, masked to the node mask, is i. */
  lemma IndexOfBlock(cfg: Config, index: nat, ip: nat)
    requires cfg.Valid() && index < cfg.Max() && IndexToCIDRBlock(cfg, index).Has(ip)
    ensures cfg.cluster.Has(ip)
    ensures GetIndexForIP(cfg, ip) == Some(index)
    ensures GetIndexForIP(cfg, Mask(ip, cfg.nodeMask, cfg.Fam())) == Some(index)
  {
    IndexToBlockExact(cfg, index);
    Tiling(cfg, ip);
    GetIndexExact(cfg, ip);
    EndIndex(cfg, ip);
  }

  /** Block i of the range intersects c exactly when i lies between the blocks of c's ends. */
  lemma BlockMeetsBetween(cfg: Config, c: Cidr, i: nat)
    requires cfg.Valid() && c.Valid() && Inside(c, cfg.cluster) && i < cfg.Max()
    ensures Meets(cfg.Block(i), c) <==> BlockOf(cfg, c.base) <= i <= BlockOf(cfg, c.Last())
  {
    hide Pow2;
    var bs, base := cfg.BlockSize(), cfg.cluster.base;
    var first, last := c.base - base, c.Last() - base;
    DivLess(first, i + 1, bs);
    DivLess(last, i, bs);
    MulDistribute(i, 1, bs);
  }

  /** getBeginningAndEndIndices is exact: it errs iff the CIDR misses the range, and otherwise the
      inclusive interval holds precisely the blocks that intersect the CIDR - for CIDRs coarser than
      the range, between the two masks, and finer than a block. */
  lemma IndicesExact(cfg: Config, c: Cidr)
    requires cfg.Valid() && c.Valid()
    ensures var r := GetBeginningAndEndIndices(cfg, c);
            && (r.OutOfRange? <==> !Meets(cfg.cluster, c))
            && (r.Indices? ==>
                  && r.begin <= r.end < cfg.Max()
                  && forall i: nat :: i < cfg.Max() ==> (r.begin <= i <= r.end <==> Meets(cfg.Block(i), c)))
  {
    hide Xor, And, Or, Pow2, LastIP, GetIndexForIP, Overlaps;
    OverlapsExact(cfg.cluster, c);
    if Meets(cfg.cluster, c) {
      if cfg.cluster.len < c.len {
        MeetsNested(cfg.cluster, c);
        LastIPExact(c);
        EndIndex(cfg, c.base);
        EndIndex(cfg, c.Last());
        Tiling(cfg, c.base);
        Tiling(cfg, c.Last());
        DivMonotone(c.base - cfg.cluster.base, c.Last() - cfg.cluster.base, cfg.BlockSize());
        forall i: nat | i < cfg.Max()
          ensures Meets(cfg.Block(i), c) <==> BlockOf(cfg, c.base) <= i <= BlockOf(cfg, c.Last())
        {
          BlockMeetsBetween(cfg, c, i);
        }
      } else {
        MeetsNested(c, cfg.cluster);
        forall i: nat | i < cfg.Max()
          ensures Meets(cfg.Block(i), c)
        {
          BlockValid(cfg, i);
        }
      }
    }
  }

  lemma DivMonotone(x: nat, y: nat, m: nat)
    requires x <= y && m > 0
    ensures x / m <= y / m
  {
    DivLess(x, y / m + 1, m);
    DivLess(y, y / m + 1, m);
  }

  lemma EndIndex(cfg: Config, ip: nat)
    requires cfg.Valid() && cfg.cluster.Has(ip)
    ensures GetIndexForIP(cfg, Mask(ip, cfg.nodeMask, cfg.Fam())) == Some(BlockOf(cfg, ip))
  {
    var i := BlockOf(cfg, ip);
    Tiling(cfg, ip);
    BlockOfFirst(cfg, i);
    MaskToBlock(cfg, ip);
    GetIndexExact(cfg, cfg.Block(i).base);
  }

  // ---------- The constructor ----------

  /** The bounds of validateCIDRConfig on a spec. */
  predicate Validated(cidr: Cidr, perNodeHostBits: int) {
    cidr.Valid() && MIN_PER_NODE_HOST_BITS <= perNodeHostBits <= cidr.fam.Width() - cidr.len
  }

  /** Every validated spec the constructor accepts (and that keeps clear of ::ffff:0:0/96) has a valid shape;
      it is refused exactly when an IPv6 range would have more than 2^16 blocks. */
  lemma NewSetAccepts(cidr: Cidr, perNodeHostBits: int)
    requires Validated(cidr, perNodeHostBits)
    requires cidr.fam.V6? ==> forall ip: nat :: cidr.Has(ip) ==> !IsMapped(ip)
    ensures var cfg := Config(cidr, cidr.fam.Width() - perNodeHostBits);
            var r := NewMultiCIDRSet(cidr, perNodeHostBits);
            && (r.None? <==> cidr.fam.V6? && cfg.Max() > 65536)
            && (r.Some? ==>
                  && cfg.Valid() && r.value == SetParams(cfg.nodeMask, cfg.Max())
                  && cfg.BlockSize() == Pow2(perNodeHostBits))
  {
    hide Pow2, GetMaxCIDRs;
    var subNetMaskSize := cidr.fam.Width() - perNodeHostBits;
    AtMost65536(subNetMaskSize - cidr.len);
    if subNetMaskSize - cidr.len < 63 {
      SmallShift(subNetMaskSize, cidr.len);
    }
  }

  lemma SmallShift(subNetMaskSize: int, clusterMaskSize: int)
    requires 0 <= subNetMaskSize - clusterMaskSize < 63
    ensures GetMaxCIDRs(subNetMaskSize, clusterMaskSize) == Pow2(subNetMaskSize - clusterMaskSize)
  {
    hide Pow2;
  }

  lemma AtMost65536(d: nat)
    ensures Pow2(d) > 65536 <==> d > CLUSTER_SUBNET_MAX_DIFF
  {
    Pow2Of16();
    if d < 16 {
      Pow2Increasing(d, 16);
    } else if d > 16 {
      Pow2Increasing(16, d);
    }
  }

  lemma Pow2Of16()
    ensures Pow2(16) == 65536
  {
    Pow2Add(8, 8);
    Pow2Add(4, 4);
    assert Pow2(4) == 16;
  }

  lemma Pow2Increasing(a: nat, b: nat)
    requires a < b
    ensures Pow2(a) < Pow2(b)
  {
    Pow2Split(b, a);
    Pow2Split(b - a, 1);
    MulLe(2, Pow2(b - a), Pow2(a));
  }

  // ---------- Where the arithmetic needs its bounds ----------

  /** The constructor does not enforce the validation bounds. For any value of the spec's int32 field, a spec is
      accepted without any block exactly when it asks for more host bits than the range has, or, in IPv4, for so few
      that the shift leaves the positive ints. */
  lemma AcceptedWithoutBlocks(cidr: Cidr, perNodeHostBits: int)
    requires cidr.Valid() && -0x8000_0000 <= perNodeHostBits < 0x8000_0000
    ensures var r := NewMultiCIDRSet(cidr, perNodeHostBits);
            r.Some? && r.value.maxCIDRs <= 0 <==>
            perNodeHostBits > cidr.HostBits() || (cidr.fam.V4? && perNodeHostBits + 63 <= cidr.HostBits())
  {
    hide Pow2;
    var diff := cidr.HostBits() - perNodeHostBits;
    if diff < 0 {
      WrappedDifference(diff);
    } else if diff < 63 {
      SmallShift(cidr.fam.Width() - perNodeHostBits, cidr.len);
    }
  }

  /** A negative difference becomes a huge shift count. */
  lemma WrappedDifference(diff: int)
    requires -0x1_0000_0000 <= diff < 0
    ensures diff % 0x1_0000_0000 == diff + 0x1_0000_0000
  {
  }

  /** With a single host address per block of the whole IPv4 space, MaxCIDRs is 2^32 and its 32-bit
      truncation zero: getIndexForIP then refuses every address. In every smaller set it refuses none. */
  lemma FullIPv4SpaceHasNoIndex(cfg: Config, ip: nat)
    requires cfg.Fam().V4? && cfg.cluster.Valid() && cfg.cluster.len <= cfg.nodeMask <= 32 && cfg.cluster.Has(ip)
    ensures GetIndexForIP(cfg, ip).None? <==> cfg.cluster.len == 0 && cfg.nodeMask == 32
  {
    if cfg.nodeMask - cfg.cluster.len < 32 {
      GetIndexExact(cfg, ip);
    } else {
      ModSelf(cfg.Max());
    }
  }

  lemma ModSelf(x: nat)
    requires x > 0
    ensures x % x == 0
  {
    DivUnique(x, 1, 0, x);
  }

  lemma {:induction false} XorBound(a: nat, b: nat, k: nat)
    requires a < Pow2(k) && b < Pow2(k)
    ensures Xor(a, b) < Pow2(k)
  {
    if a != 0 && b != 0 {
      XorBound(a / 2, b / 2, k - 1);
    }
  }

  /** The To4() test sends IPv4-mapped addresses down the 32-bit path, which answers block 0
      whatever the block i is: the index is right for no mapped block but the first of its range. */
  lemma MappedAddressIndex(cfg: Config, i: nat)
    requires cfg.Fam().V6? && cfg.cluster.Valid() && cfg.cluster.len <= cfg.nodeMask <= 128
    requires cfg.nodeMask - cfg.cluster.len <= CLUSTER_SUBNET_MAX_DIFF && i < cfg.Max()
    requires IsMapped(cfg.Block(i).base)
    ensures GetIndexForIP(cfg, cfg.Block(i).base) == Some(0)
  {
    hide Xor, Pow2;
    MappedBlocksAreLong(cfg, i);
    HighWord(cfg.cluster.base);
    Pow2Of32();
    FarShift(ShiftRight(cfg.cluster.base, 96), cfg.Block(i).base - MAPPED_BASE,
             ShiftCount32(cfg.nodeMask), cfg.Max(), cfg.nodeMask - cfg.cluster.len);
  }

  lemma HighWord(base: nat)
    requires base < Pow2(128)
    ensures ShiftRight(base, 96) < Pow2(32)
  {
    Pow2Add(32, 96);
    DivLess(base, Pow2(32), Pow2(96));
  }

  lemma Pow2Of32()
    ensures Pow2(32) == 0x1_0000_0000
  {
    Pow2Of16();
    Pow2Add(16, 16);
  }

  /** A first address in ::ffff:0:0/96 is not a multiple of 2^96. */
  lemma MappedBlocksAreLong(cfg: Config, i: nat)
    requires cfg.Fam().V6? && cfg.cluster.Valid() && cfg.cluster.len <= cfg.nodeMask <= 128
    requires i < cfg.Max() && IsMapped(cfg.Block(i).base)
    ensures cfg.nodeMask > 32
  {
    if cfg.nodeMask <= 32 {
      var ip := cfg.Block(i).base;
      CoarserAligned(cfg.cluster.base, cfg.cluster.HostBits(), cfg.BlockBits());
      DivOfMul(i, cfg.BlockSize(), 0);
      AddAligned(cfg.cluster.base, i * cfg.BlockSize(), cfg.BlockSize());
      CoarserAligned(ip, cfg.BlockBits(), 48);
      Pow2Of48();
      DivUnique(ip, 0, ip, Pow2(48));
      assert false;
    }
  }

  lemma Pow2Of48()
    ensures Pow2(48) == 0x1_0000_0000_0000
  {
    Pow2Of16();
    Pow2Of32();
    Pow2Add(32, 16);
  }

  lemma FarShift(base: nat, ip: nat, shift: nat, max: nat, bits: nat)
    requires base < Pow2(32) && ip < Pow2(32) && shift > 32 && max == Pow2(bits) && bits < 32
    ensures IndexOfWord(base, ip, shift, max, 32) == Some(0)
  {
    XorBound(base, ip, 32);
    Pow2Increasing(32, shift);
    DivUnique(Xor(base, ip), 0, Xor(base, ip), Pow2(shift));
    Pow2Increasing(bits, 32);
    DivUnique(max, 0, max, Pow2(32));
    DivUnique(0, 0, 0, Pow2(32));
  }
}
