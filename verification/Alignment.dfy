/** Addresses: the word size, stretches of memory, and rounding up to an alignment. */
module Alignment {

  const USIZE_MAX: nat := 0xffff_ffff  // the guest's addresses have 32 bits

  /** Two stretches of memory do not overlap. */
  predicate RangesApart(p: nat, n: nat, q: nat, m: nat) { p + n <= q || q + m <= p }

  /** The least multiple of `a` that is at least `x`; for powers of two, the masked sum the sources compute. */
  function AlignUp(x: nat, a: nat): (r: nat)
    requires a > 0
    ensures x <= r < x + a
  {
    if x % a == 0 then x else x + a - x % a
  }

  lemma AlignUpIsAligned(x: nat, a: nat)
    requires a > 0
    ensures AlignUp(x, a) % a == 0
  {
    if x % a != 0 {
      ModOfMultiple(x / a + 1, a);
      assert AlignUp(x, a) == (x / a + 1) * a by {
        assert (x / a + 1) * a == (x / a) * a + a;
      }
    }
  }

  lemma ModOfMultiple(k: nat, a: nat)
    requires a > 0
    ensures (k * a) % a == 0
  {
    var q, r := (k * a) / a, (k * a) % a;
    MulBeyond(k - q, a);
    assert (k - q) * a == k * a - q * a == r;
  }

  lemma MulBeyond(d: int, a: nat)
    ensures d >= 1 ==> d * a >= a
    ensures d <= -1 ==> d * a <= 0 - a
  {
    if d >= 1 {
      assert d * a == a + (d - 1) * a;
    } else if d <= -1 {
      assert d * a == (d + 1) * a - a;
      assert (d + 1) * a <= 0;
    }
  }

  /** No multiple lies between a number and the one it is rounded up to. */
  lemma AlignUpIsLeast(x: nat, a: nat, p: nat)
    requires a > 0 && x <= p && p % a == 0
    ensures AlignUp(x, a) <= p
  {
    AlignUpIsAligned(x, a);
    var up := AlignUp(x, a);
    MulBeyond(up / a - p / a, a);
    assert (up / a - p / a) * a == up - p by {
      assert (up / a) * a == up && (p / a) * a == p;
    }
  }

  /** What may be asked for as an alignment. */
  predicate IsPowerOfTwo(a: nat) { a == 1 || (a > 0 && a % 2 == 0 && IsPowerOfTwo(a / 2)) }

  /** Alignments divide the larger ones: here, those of a word. */
  lemma PowersOfTwo(a: nat)
    requires IsPowerOfTwo(a)
    ensures a == 1 || a == 2 || a % 4 == 0
  {
    assert IsPowerOfTwo(a / 2) || a == 1;
    assert a > 2 ==> a / 2 % 2 == 0;
  }

  /** A multiple of a multiple. */
  lemma MultipleOfMultiple(x: nat, a: nat, b: nat)
    requires a > 0 && b > 0 && x % a == 0 && a % b == 0
    ensures x % b == 0
  {
    assert x == (x / a) * a && a == (a / b) * b;
    assert x == ((x / a) * (a / b)) * b;
    ModOfMultiple((x / a) * (a / b), b);
  }
}
