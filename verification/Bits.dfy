/** Unsigned machine arithmetic on natural numbers.

Bitwise operators are defined bit by bit, so that the word operations of the
program (on 32-bit words, on 64-bit halves and on 128-bit big integers) all
read the same way; the word width appears only where a result is truncated.
 */
module Bits {

  function Pow2(n: nat): (r: nat)
    ensures r >= 1
  {
    if n == 0 then 1 else 2 * Pow2(n - 1)
  }

  function And(a: nat, b: nat): nat {
    if a == 0 || b == 0 then 0 else (a % 2) * (b % 2) + 2 * And(a / 2, b / 2)
  }

  function Or(a: nat, b: nat): nat {
    if a == 0 then b
    else if b == 0 then a
    else (if a % 2 == 1 || b % 2 == 1 then 1 else 0) + 2 * Or(a / 2, b / 2)
  }

  function Xor(a: nat, b: nat): nat
    decreases a + b
  {
    if a == 0 then b
    else if b == 0 then a
    else (if a % 2 != b % 2 then 1 else 0) + 2 * Xor(a / 2, b / 2)
  }

  /** Keep the low `width` bits, as a conversion to an unsigned word does. */
  function Truncate(x: nat, width: nat): nat {
    x % Pow2(width)
  }

  /** `x << count` on words of `width` bits. */
  function ShiftLeft(x: nat, count: nat, width: nat): nat {
    Truncate(x * Pow2(count), width)
  }

  /** `x >> count`: zero once the count reaches the width of x. */
  function ShiftRight(x: nat, count: nat): nat {
    Quotient(x, Pow2(count))
  }

  function Quotient(x: nat, m: nat): nat
    requires m > 0
  {
    x / m
  }

  /** The number of bits needed to write x: 64 - LeadingZeros64(x). */
  function BitLength(x: nat): nat {
    if x == 0 then 0 else 1 + BitLength(x / 2)
  }

  /** A network mask of `width` bits whose first `ones` bits are set. */
  function NetMask(ones: nat, width: nat): nat
    requires ones <= width
  {
    (Pow2(ones) - 1) * Pow2(width - ones)
  }

  // ---------- Powers of two ----------

  lemma {:induction false} Pow2Add(a: nat, b: nat)
    ensures Pow2(a + b) == Pow2(a) * Pow2(b)
  {
    if a != 0 {
      Pow2Add(a - 1, b);
      assert 2 * (Pow2(a - 1) * Pow2(b)) == (2 * Pow2(a - 1)) * Pow2(b);
    }
  }

  /** Splitting a power of two at b <= a. */
  lemma Pow2Split(a: nat, b: nat)
    requires b <= a
    ensures Pow2(a) == Pow2(a - b) * Pow2(b)
    ensures Pow2(b) <= Pow2(a)
    ensures Pow2(a) % Pow2(b) == 0
  {
    Pow2Add(a - b, b);
    MulLe(1, Pow2(a - b), Pow2(b));
    DivOfMul(Pow2(a - b), Pow2(b), 0);
  }

  // ---------- Division facts used all over ----------

  lemma MulLe(a: nat, b: nat, m: nat)
    requires a <= b
    ensures a * m <= b * m
  {
  }

  lemma MulLt(a: nat, b: nat, m: nat)
    requires a < b && m > 0
    ensures a * m < b * m
    ensures a * m + m <= b * m
  {
    MulLe(a + 1, b, m);
    assert (a + 1) * m == a * m + m;
  }

  lemma MulAssoc(a: int, b: int, c: int)
    ensures a * (b * c) == (a * b) * c
  {
  }

  lemma MulDistribute(a: int, b: int, c: int)
    ensures (a + b) * c == a * c + b * c
  {
  }

  lemma DivUnique(x: nat, q: nat, r: nat, m: nat)
    requires m > 0 && r < m && x == q * m + r
    ensures x / m == q && x % m == r
  {
    var d := x / m - q;
    assert x == (x / m) * m + x % m;
    assert (x / m) * m == q * m + d * m;
    if d > 0 {
      MulLe(1, d, m);
    } else if d < 0 {
      assert (-d) * m == -(d * m);
      MulLe(1, -d, m);
    }
  }

  lemma DivOfMul(q: nat, m: nat, r: nat)
    requires r < m
    ensures (q * m + r) / m == q && (q * m + r) % m == r
  {
    DivUnique(q * m + r, q, r, m);
  }

  lemma DivMul(x: nat, m: nat)
    requires m > 0
    ensures (x / m) * m + x % m == x
    ensures x % m == 0 ==> (x / m) * m == x
  {
  }

  /** x < q * m exactly when x / m < q. */
  lemma DivLess(x: nat, q: nat, m: nat)
    requires m > 0
    ensures x / m < q <==> x < q * m
  {
    DivMul(x, m);
    if x / m < q {
      MulLt(x / m, q, m);
    } else {
      MulLe(q, x / m, m);
    }
  }

  /** A multiple of a larger power of two is a multiple of a smaller one. */
  lemma CoarserAligned(x: nat, a: nat, b: nat)
    requires b <= a && x % Pow2(a) == 0
    ensures x % Pow2(b) == 0
  {
    var q := x / Pow2(a);
    DivMul(x, Pow2(a));
    Pow2Add(a - b, b);
    MulAssoc(q, Pow2(a - b), Pow2(b));
    DivUnique(x, q * Pow2(a - b), 0, Pow2(b));
  }

  // ---------- Bitwise operators as arithmetic ----------

  /** Or-ing a word that ends in k zeros with a k-bit word is addition. */
  lemma {:induction false} OrDisjoint(a: nat, k: nat, low: nat)
    requires low < Pow2(k)
    ensures Or(a * Pow2(k), low) == a * Pow2(k) + low
  {
    if k != 0 && a != 0 && low != 0 {
      var high := a * Pow2(k - 1);
      assert a * Pow2(k) == 2 * high by {
        assert a * (2 * Pow2(k - 1)) == 2 * (a * Pow2(k - 1));
      }
      OrDisjoint(a, k - 1, low / 2);
      MulLe(1, a, Pow2(k - 1));
      assert Or(2 * high, low) == low % 2 + 2 * Or(high, low / 2);
    }
  }

  lemma OrAligned(x: nat, k: nat, low: nat)
    requires x % Pow2(k) == 0 && low < Pow2(k)
    ensures Or(x, low) == x + low
  {
    DivMul(x, Pow2(k));
    OrDisjoint(x / Pow2(k), k, low);
  }

  lemma {:induction false} XorSelf(a: nat)
    ensures Xor(a, a) == 0
  {
    if a != 0 {
      XorSelf(a / 2);
    }
  }

  /** Words that agree above bit k, one of them ending in k zeros, differ by the low bits. */
  lemma {:induction false} XorLow(a: nat, k: nat, low: nat)
    requires low < Pow2(k)
    ensures Xor(a * Pow2(k), a * Pow2(k) + low) == low
  {
    if k == 0 {
      XorSelf(a);
    } else if a != 0 {
      var high := a * Pow2(k - 1);
      assert a * Pow2(k) == 2 * high by {
        assert a * (2 * Pow2(k - 1)) == 2 * (a * Pow2(k - 1));
      }
      MulLe(1, a, Pow2(k - 1));
      XorLow(a, k - 1, low / 2);
      assert (2 * high + low) / 2 == high + low / 2;
      assert Xor(2 * high, 2 * high + low) == low % 2 + 2 * Xor(high, high + low / 2);
    }
  }

  lemma XorAligned(x: nat, k: nat, low: nat)
    requires x % Pow2(k) == 0 && low < Pow2(k)
    ensures Xor(x, x + low) == low
  {
    DivMul(x, Pow2(k));
    XorLow(x / Pow2(k), k, low);
  }

  lemma {:induction false} AndAllOnes(a: nat, width: nat)
    requires a < Pow2(width)
    ensures And(a, Pow2(width) - 1) == a
  {
    if a != 0 {
      AndAllOnes(a / 2, width - 1);
      assert (Pow2(width) - 1) / 2 == Pow2(width - 1) - 1;
    }
  }

  /** Masking clears the low bits: it rounds down to a multiple of the block size. */
  lemma {:induction false} AndNetMask(a: nat, ones: nat, width: nat)
    requires ones <= width && a < Pow2(width)
    ensures And(a, NetMask(ones, width)) == a - a % Pow2(width - ones)
  {
    if ones == width {
      AndAllOnes(a, width);
    } else {
      var m := NetMask(ones, width - 1);
      assert NetMask(ones, width) == 2 * m by {
        assert (Pow2(ones) - 1) * (2 * Pow2(width - ones - 1)) == 2 * ((Pow2(ones) - 1) * Pow2(width - ones - 1));
      }
      AndNetMask(a / 2, ones, width - 1);
      AndDouble(a, m);
      ModDouble(a, Pow2(width - ones - 1));
    }
  }

  lemma AndDouble(a: nat, m: nat)
    ensures And(a, 2 * m) == 2 * And(a / 2, m)
  {
  }

  lemma ModDouble(a: nat, p: nat)
    requires p > 0
    ensures a % (2 * p) == 2 * (a / 2 % p) + a % 2
  {
    var h := a / 2;
    DivMul(h, p);
    assert (h / p) * (2 * p) == 2 * ((h / p) * p);
    DivUnique(a, h / p, 2 * (h % p) + a % 2, 2 * p);
  }

  /** BitLength is the position of the highest set bit. */
  lemma {:induction false} BitLengthBound(x: nat, k: nat)
    ensures BitLength(x) <= k <==> x < Pow2(k)
  {
    if x != 0 && k != 0 {
      BitLengthBound(x / 2, k - 1);
    }
  }

  /** Multiplying before truncating to a word drops exactly the bits that do not fit. */
  lemma TruncateShifted(x: nat, low: nat, width: nat)
    requires low <= width
    ensures Truncate(x * Pow2(width - low), width) == (x % Pow2(low)) * Pow2(width - low)
  {
    Pow2Add(low, width - low);
    ModOfMul(x, Pow2(low), Pow2(width - low));
  }

  lemma ModOfMul(x: nat, p: nat, s: nat)
    requires p > 0 && s > 0
    ensures p * s > 0 && (x * s) % (p * s) == (x % p) * s
  {
    var q, r := x / p, x % p;
    MulLt(r, p, s);
    calc {
      x * s;
      { DivMul(x, p); }
      (q * p + r) * s;
      { MulDistribute(q * p, r, s); }
      (q * p) * s + r * s;
      { MulAssoc(q, p, s); }
      q * (p * s) + r * s;
    }
    DivUnique(x * s, q, r * s, p * s);
  }
}
