/** Bit operations of C's unsigned integers, written over `nat`. */
module Bits {
  const TWO_TO_THE_32 := 0x1_0000_0000
  const TWO_TO_THE_64 := 0x1_0000_0000_0000_0000

  /** An unsigned char and an unsigned 32-bit int. */
  type Byte = n: int | 0 <= n < 256
  type U32 = n: int | 0 <= n < TWO_TO_THE_32

  function Pow2(k: nat): (p: nat)
    ensures p >= 1
  {
    if k == 0 then 1 else 2 * Pow2(k - 1)
  }

  /** `a >> k` */
  function Shr(a: nat, k: nat): nat {
    if k == 0 then a else Shr(a / 2, k - 1)
  }

  /** `a << k`, before any truncation */
  function Shl(a: nat, k: nat): nat {
    a * Pow2(k)
  }

  /** `a & b` */
  function And(a: nat, b: nat): nat
    decreases a
  {
    if a == 0 || b == 0 then 0
    else 2 * And(a / 2, b / 2) + (if a % 2 == 1 && b % 2 == 1 then 1 else 0)
  }

  /** `a | b` */
  function Or(a: nat, b: nat): nat
    decreases a + b
  {
    if a == 0 then b
    else if b == 0 then a
    else 2 * Or(a / 2, b / 2) + (if a % 2 == 1 || b % 2 == 1 then 1 else 0)
  }

  /** Halving both sides of a division by an even number. */
  lemma ModHalf(a: nat, p: nat)
    requires p >= 1
    ensures a % (2 * p) == 2 * (a / 2 % p) + a % 2
    ensures a / (2 * p) == a / 2 / p
  {
    var q, r := a / 2 / p, a / 2 % p;
    assert a == 2 * (q * p + r) + a % 2;
    assert a == q * (2 * p) + (2 * r + a % 2);
    ModUnique(a, 2 * p, q, 2 * r + a % 2);
  }

  lemma ModUnique(a: int, m: nat, q: int, r: nat)
    requires a == q * m + r && r < m
    ensures a % m == r && a / m == q
  {
    var q', r' := a / m, a % m;
    assert a == q' * m + r';
    var d := q' - q;
    assert d * m == r - r' by {
      assert (q' - q) * m == q' * m - q * m;
    }
    if d >= 1 {
      MulLe(1, d, m);
    } else if d <= -1 {
      MulLe(1, -d, m);
    }
  }

  lemma MulLe(a: int, b: int, m: nat)
    requires a <= b
    ensures a * m <= b * m
  {
    assert (b - a) * m >= 0;
    assert (b - a) * m == b * m - a * m;
  }

  lemma AndStep(a: nat, m: nat)
    ensures And(a, 2 * m + 1) == 2 * And(a / 2, m) + a % 2
  {
    assert (2 * m + 1) / 2 == m && (2 * m + 1) % 2 == 1;
  }

  /** Masking with 2^k - 1 is the remainder modulo 2^k. */
  lemma {:induction false} AndMask(a: nat, k: nat)
    ensures And(a, Pow2(k) - 1) == a % Pow2(k)
    decreases k
  {
    hide And;
    if k == 0 {
      AndNothing(a);
    } else {
      var h := Pow2(k - 1);
      AndMask(a / 2, k - 1);
      AndStep(a, h - 1);
      ModHalf(a, h);
    }
  }

  lemma AndNothing(a: nat)
    ensures And(a, 0) == 0
  {
  }

  /** Shifting right by k is division by 2^k. */
  lemma {:induction false} ShrIsDiv(a: nat, k: nat)
    ensures Shr(a, k) == a / Pow2(k)
    decreases k
  {
    if k > 0 {
      ShrIsDiv(a / 2, k - 1);
      ModHalf(a, Pow2(k - 1));
    }
  }

  lemma OrStep(a: nat, b: nat)
    ensures Or(a, 2 * b) == 2 * Or(a / 2, b) + a % 2
  {
    assert (2 * b) / 2 == b && (2 * b) % 2 == 0;
    if a == 0 {
      assert Or(0, b) == b && Or(0, 2 * b) == 2 * b;
    } else if b == 0 {
      assert Or(a, 0) == a && Or(a / 2, 0) == a / 2;
    }
  }

  lemma ShlStep(b: nat, k: nat)
    ensures Shl(b, k + 1) == 2 * Shl(b, k)
  {
    assert b * (2 * Pow2(k)) == 2 * (b * Pow2(k));
  }

  /** An `|` whose operands occupy different bits is a sum. */
  lemma {:induction false} OrDisjoint(a: nat, b: nat, k: nat)
    requires a < Pow2(k)
    ensures Or(a, Shl(b, k)) == a + Shl(b, k)
    decreases k
  {
    hide Shl;
    if k > 0 {
      ShlStep(b, k - 1);
      OrStep(a, Shl(b, k - 1));
      OrDisjoint(a / 2, b, k - 1);
    }
  }
}
