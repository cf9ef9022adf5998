/** Bitwise operators on unsigned words, and what a mask or an exclusive-or does to their digits. */
module Words {

  const TWO32: nat := 0x1_0000_0000
  const TWO28: nat := 0x1000_0000

  type WordOp = (nat, nat) -> nat
  type BitOp = (bool, bool) -> bool

  const BOTH: BitOp := (p: bool, q: bool) => p && q
  const DIFFER: BitOp := (p: bool, q: bool) => p != q

  /** op works on the last bits of its operands by `bit`, and on the rest by itself. */
  predicate Law(op: WordOp, bit: BitOp, a: nat, b: nat, c: nat, d: nat) {
    c < 2 && d < 2 ==> op(2 * a + c, 2 * b + d) == 2 * op(a, b) + (if bit(c == 1, d == 1) then 1 else 0)
  }

  ghost predicate Bitwise(op: WordOp, bit: BitOp) {
    op(0, 0) == 0 && forall a: nat, b: nat, c: nat, d: nat :: Law(op, bit, a, b, c, d)
  }

  function Pow2(k: nat): (p: nat)
    ensures p > 0
  {
    if k == 0 then 1 else 2 * Pow2(k - 1)
  }

  /** a shifted left by k bits. */
  function Shl(k: nat, a: nat): nat {
    if k == 0 then a else 2 * Shl(k - 1, a)
  }

  lemma ShlFour(k: nat, a: nat)
    ensures Shl(k + 4, a) == 16 * Shl(k, a)
    ensures Pow2(k + 4) == 16 * Pow2(k)
  {
    assert Shl(k + 1, a) == 2 * Shl(k, a) && Pow2(k + 1) == 2 * Pow2(k);
    assert Shl(k + 2, a) == 2 * Shl(k + 1, a) && Pow2(k + 2) == 2 * Pow2(k + 1);
    assert Shl(k + 3, a) == 2 * Shl(k + 2, a) && Pow2(k + 3) == 2 * Pow2(k + 2);
    assert Shl(k + 4, a) == 2 * Shl(k + 3, a) && Pow2(k + 4) == 2 * Pow2(k + 3);
  }

  lemma Shl4(a: nat)
    ensures Shl(4, a) == 16 * a && Pow2(4) == 16
  {
    ShlFour(0, a);
  }

  lemma Shl8(a: nat)
    ensures Shl(8, a) == 256 * a && Pow2(8) == 256
  {
    Shl4(a);
    ShlFour(4, a);
  }

  lemma Shl28(a: nat)
    ensures Shl(28, a) == TWO28 * a && Pow2(28) == TWO28
  {
    Shl8(a);
    ShlFour(8, a);
    ShlFour(12, a);
    ShlFour(16, a);
    ShlFour(20, a);
    ShlFour(24, a);
  }

  /** A bitwise operator works separately on the low k bits and on the rest. */
  lemma {:induction false} SplitWords(op: WordOp, bit: BitOp, k: nat, a: nat, b: nat, x: nat, y: nat)
    requires Bitwise(op, bit) && x < Pow2(k) && y < Pow2(k)
    ensures op(Shl(k, a) + x, Shl(k, b) + y) == Shl(k, op(a, b)) + op(x, y)
  {
    if k > 0 {
      SplitWords(op, bit, k - 1, a, b, x / 2, y / 2);
      var p, q := Shl(k - 1, a) + x / 2, Shl(k - 1, b) + y / 2;
      assert Shl(k, a) + x == 2 * p + x % 2 && Shl(k, b) + y == 2 * q + y % 2;
      assert x == 2 * (x / 2) + x % 2 && y == 2 * (y / 2) + y % 2;
      assert Law(op, bit, p, q, x % 2, y % 2);
      assert Law(op, bit, x / 2, y / 2, x % 2, y % 2);
    }
  }

  ghost predicate IsAnd(op: WordOp) {
    Bitwise(op, BOTH)
  }

  ghost predicate IsXor(op: WordOp) {
    Bitwise(op, DIFFER)
  }

  lemma {:induction false} AndZero(and: WordOp, x: nat)
    requires IsAnd(and)
    ensures and(x, 0) == 0
    decreases x
  {
    if x > 0 {
      AndZero(and, x / 2);
      assert Law(and, BOTH, x / 2, 0, x % 2, 0);
    }
  }

  lemma {:induction false} XorZero(xor: WordOp, x: nat)
    requires IsXor(xor)
    ensures xor(x, 0) == x
    decreases x
  {
    if x > 0 {
      XorZero(xor, x / 2);
      assert Law(xor, DIFFER, x / 2, 0, x % 2, 0);
    }
  }

  lemma {:induction false} AndOnes(and: WordOp, k: nat, x: nat)
    requires IsAnd(and) && x < Pow2(k)
    ensures and(x, Pow2(k) - 1) == x
  {
    if k > 0 {
      AndOnes(and, k - 1, x / 2);
      assert Pow2(k) - 1 == 2 * (Pow2(k - 1) - 1) + 1 && x == 2 * (x / 2) + x % 2;
      assert Law(and, BOTH, x / 2, Pow2(k - 1) - 1, x % 2, 1);
    }
  }

  /** A word shares no bit with its complement. */
  lemma {:induction false} AndComplement(and: WordOp, k: nat, x: nat)
    requires IsAnd(and) && x < Pow2(k)
    ensures and(x, Pow2(k) - 1 - x) == 0
  {
    if k > 0 {
      var y := Pow2(k - 1) - 1 - x / 2;
      AndComplement(and, k - 1, x / 2);
      assert Pow2(k) - 1 - x == 2 * y + (1 - x % 2) && x == 2 * (x / 2) + x % 2;
      assert Law(and, BOTH, x / 2, y, x % 2, 1 - x % 2);
    }
  }

  lemma {:induction false} XorBound(xor: WordOp, k: nat, x: nat, y: nat)
    requires IsXor(xor) && x < Pow2(k) && y < Pow2(k)
    ensures xor(x, y) < Pow2(k)
  {
    if k > 0 {
      XorBound(xor, k - 1, x / 2, y / 2);
      assert x == 2 * (x / 2) + x % 2 && y == 2 * (y / 2) + y % 2;
      assert Law(xor, DIFFER, x / 2, y / 2, x % 2, y % 2);
    }
  }

  /** Masking with 0xf0000000 keeps the top nibble n. */
  lemma TopNibble(and: WordOp, n: nat, low: nat)
    requires IsAnd(and) && n < 16 && low < TWO28
    ensures and(TWO28 * n + low, 0xF000_0000) == TWO28 * n
  {
    Shl28(n);
    Shl28(15);
    SplitWords(and, BOTH, 28, n, 15, low, 0);
    Shl4(0);
    AndOnes(and, 4, n);
    AndZero(and, low);
  }

  /** Masking with the complement of the top nibble drops it. */
  lemma DropNibble(and: WordOp, n: nat, low: nat)
    requires IsAnd(and) && n < 16 && low < TWO28
    ensures and(TWO28 * n + low, TWO32 - 1 - TWO28 * n) == low
  {
    Shl28(n);
    Shl28(15 - n);
    SplitWords(and, BOTH, 28, n, 15 - n, low, TWO28 - 1);
    Shl28(0);
    Shl4(0);
    AndComplement(and, 4, n);
    AndOnes(and, 28, low);
  }

  /** Exclusive-or with a nibble in bits 4 to 7 touches only that nibble. */
  lemma XorSecondNibble(xor: WordOp, a: nat, b: nat, d: nat, g: nat)
    requires IsXor(xor) && b < 16 && d < 16 && g < 16
    ensures xor(256 * a + 16 * b + d, 16 * g) == 256 * a + 16 * xor(b, g) + d
  {
    Shl8(a);
    Shl8(0);
    SplitWords(xor, DIFFER, 8, a, 0, 16 * b + d, 16 * g);
    XorZero(xor, a);
    Shl4(b);
    Shl4(g);
    Shl4(xor(b, g));
    SplitWords(xor, DIFFER, 4, b, g, d, 0);
    XorZero(xor, d);
  }

  /** Four bits, the highest first. */
  function Nibble(bits: seq<bool>): (v: nat)
    requires |bits| == 4
    ensures v < 16
  {
    (if bits[0] then 8 else 0) + (if bits[1] then 4 else 0) + (if bits[2] then 2 else 0) + if bits[3] then 1 else 0
  }

  lemma XorNibbles(xor: WordOp, p: seq<bool>, q: seq<bool>)
    requires IsXor(xor) && |p| == |q| == 4
    ensures xor(Nibble(p), Nibble(q)) == Nibble([p[0] != q[0], p[1] != q[1], p[2] != q[2], p[3] != q[3]])
  {
    var a, b, x := XorBit(xor, 0, 0, 0, p[0], q[0]);
    a, b, x := XorBit(xor, a, b, x, p[1], q[1]);
    a, b, x := XorBit(xor, a, b, x, p[2], q[2]);
    a, b, x := XorBit(xor, a, b, x, p[3], q[3]);
  }

  /** One more bit at the end of both operands. */
  lemma XorBit(xor: WordOp, a: nat, b: nat, x: nat, p: bool, q: bool) returns (a': nat, b': nat, x': nat)
    requires IsXor(xor) && xor(a, b) == x
    ensures a' == 2 * a + (if p then 1 else 0) && b' == 2 * b + (if q then 1 else 0)
    ensures x' == 2 * x + (if p != q then 1 else 0) && xor(a', b') == x'
  {
    a', b' := 2 * a + (if p then 1 else 0), 2 * b + (if q then 1 else 0);
    x' := 2 * x + (if p != q then 1 else 0);
    assert Law(xor, DIFFER, a, b, if p then 1 else 0, if q then 1 else 0);
  }

  /** The masks, shifts and the conditional exclusive-or of one turn of the hash loop, on a sum with
      the digits n (top nibble), a, b (bits 4 to 7) and d. */
  lemma TurnOnDigits(and: WordOp, xor: WordOp, n: nat, a: nat, b: nat, d: nat, t: nat, u: nat)
    requires IsAnd(and) && IsXor(xor)
    requires n < 16 && a < 0x10_0000 && b < 16 && d < 16
    requires t == TWO28 * n + 256 * a + 16 * b + d
    requires u == if n != 0 then xor(t, 16 * n) else t
    ensures and(t, 0xF000_0000) == TWO28 * n
    ensures xor(b, n) < 16
    ensures and(u, TWO32 - 1 - TWO28 * n) == 256 * a + 16 * xor(b, n) + d
  {
    TopNibble(and, n, 256 * a + 16 * b + d);
    var x := xor(b, n);
    assert x < 16 by {
      Shl4(0);
      XorBound(xor, 4, b, n);
    }
    assert u == TWO28 * n + (256 * a + 16 * x + d) by {
      if n == 0 {
        XorZero(xor, b);
      } else {
        XorSecondNibble(xor, 0x10_0000 * n + a, b, d, n);
        assert t == 256 * (0x10_0000 * n + a) + 16 * b + d;
      }
    }
    DropNibble(and, n, 256 * a + 16 * x + d);
  }
}
