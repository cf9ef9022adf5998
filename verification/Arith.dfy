/** Division with remainder, and the padding that brings a position to an alignment. */
module Arith {

  lemma MulMonotone(a: int, b: int, m: int)
    requires a <= b && m >= 0
    ensures a * m <= b * m
  {
  }

  lemma MulSucc(a: int, m: int)
    ensures (a + 1) * m == a * m + m
  {
  }

  /** Quotient and remainder are determined by the division equation. */
  lemma DivModUnique(x: int, m: int, q: int, r: int)
    requires m > 0 && x == q * m + r && 0 <= r < m
    ensures x / m == q && x % m == r
  {
    var k := x / m;
    assert x == k * m + x % m;
    if k < q {
      MulMonotone(k + 1, q, m);
      MulSucc(k, m);
    } else if q < k {
      MulMonotone(q + 1, k, m);
      MulSucc(q, m);
    }
  }

  /** Adding a multiple of the modulus changes nothing. */
  lemma ModShift(x: int, k: int, m: int)
    requires m > 0
    ensures (x + k * m) % m == x % m
  {
    var q := x / m;
    assert x == q * m + x % m;
    assert x + k * m == (q + k) * m + x % m;
    DivModUnique(x + k * m, m, q + k, x % m);
  }

  lemma ModOfSmall(x: int, m: int)
    requires 0 <= x < m
    ensures x % m == x
  {
    DivModUnique(x, m, 0, x);
  }

  /** Bytes to skip so that pos becomes congruent to target modulo align. */
  function Gap(pos: nat, target: nat, align: nat): (g: nat)
    requires align > 0
    ensures g < align
    ensures (pos + g) % align == target % align
  {
    GapFacts(pos, target, align);
    (align + target % align - pos % align) % align
  }

  lemma GapFacts(pos: nat, target: nat, align: nat)
    requires align > 0
    ensures var g := (align + target % align - pos % align) % align;
            g < align && (pos + g) % align == target % align
  {
    var a, t := pos % align, target % align;
    var q := pos / align;
    assert pos == q * align + a;
    if a <= t {
      assert align + t - a == (t - a) + 1 * align;
      ModShift(t - a, 1, align);
      ModOfSmall(t - a, align);
      DivModUnique(pos + (t - a), align, q, t);
    } else {
      ModOfSmall(align + t - a, align);
      MulSucc(q, align);
      DivModUnique(pos + (align + t - a), align, q + 1, t);
    }
  }

  /** Padding of a position to the next multiple of align; alignments 0 and 1 need none. */
  function Pad(pos: nat, align: nat): (p: nat)
    ensures align > 0 ==> p < align && (pos + p) % align == 0
    ensures align == 0 ==> p == 0
  {
    if align == 0 then 0 else PadFacts(pos, align); (align - pos % align) % align
  }

  lemma PadFacts(pos: nat, align: nat)
    requires align > 0
    ensures var p := (align - pos % align) % align; p < align && (pos + p) % align == 0
  {
    GapFacts(pos, 0, align);
    ModOfSmall(0, align);
  }
}
