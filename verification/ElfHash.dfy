/** `elf_hash` of elfio_utils.hpp: the System V hash of a name, on 32-bit words. */
module ElfHash {
  import opened Bytes
  import opened Words

  // ----- the operators of the source

  function And(a: nat, b: nat): nat
    decreases a
  {
    if a == 0 then 0 else (if a % 2 == 1 && b % 2 == 1 then 1 else 0) + 2 * And(a / 2, b / 2)
  }

  function Xor(a: nat, b: nat): nat
    decreases a
  {
    if a == 0 then b else (if a % 2 != b % 2 then 1 else 0) + 2 * Xor(a / 2, b / 2)
  }

  const AND: WordOp := (a: nat, b: nat) => And(a, b)
  const XOR: WordOp := (a: nat, b: nat) => Xor(a, b)

  lemma OperatorsAreBitwise()
    ensures IsAnd(AND) && IsXor(XOR)
  {
    forall a: nat, b: nat, c: nat, d: nat
      ensures Law(AND, BOTH, a, b, c, d)
    {
      LastBits(a, b, c, d);
    }
    forall a: nat, b: nat, c: nat, d: nat
      ensures Law(XOR, DIFFER, a, b, c, d)
    {
      LastBits(a, b, c, d);
    }
  }

  lemma LastBits(a: nat, b: nat, c: nat, d: nat)
    ensures c < 2 ==> (2 * a + c) / 2 == a && (2 * a + c) % 2 == c
    ensures d < 2 ==> (2 * b + d) / 2 == b && (2 * b + d) % 2 == d
  {
  }

  // ----- the hash

  /** The name a C string pointer denotes: everything before the first NUL. */
  function CString(bs: seq<byte>): (s: seq<byte>)
    ensures |s| <= |bs| && s == bs[..|s|]
    ensures 0 !in s
    ensures |s| < |bs| ==> bs[|s|] == 0
  {
    if bs == [] || bs[0] == 0 then [] else [bs[0]] + CString(bs[1..])
  }

  lemma {:induction false} CStringOf(s: seq<byte>, rest: seq<byte>)
    requires 0 !in s
    ensures CString(s + [0] + rest) == s
  {
    var bs := s + [0] + rest;
    if s != [] {
      assert bs[1..] == s[1..] + [0] + rest;
      CStringOf(s[1..], rest);
    }
  }

  /** One character of the specification: 16 h + c modulo 2^32, keep the low 28 bits, and
      exclusive-or the top nibble into bits 4 to 7. No mask, no complement, no branch. */
  function Fold(h: nat, c: byte): nat {
    var t := (16 * h + c) % TWO32;
    var low := t % TWO28;
    256 * (low / 256) + 16 * XOR(low / 16 % 16, t / TWO28) + low % 16
  }

  /** The hash of a name, one character at a time from the left. */
  function Hash(name: seq<byte>): nat {
    if name == [] then 0 else Fold(Hash(name[..|name| - 1]), name[|name| - 1])
  }

  lemma Digits(t: nat)
    requires t < TWO32
    ensures t == TWO28 * (t / TWO28) + 256 * (t % TWO28 / 256) + 16 * (t % TWO28 / 16 % 16) + t % TWO28 % 16
    ensures t / TWO28 < 16 && t % TWO28 / 256 < 0x10_0000
    ensures (TWO28 * (t / TWO28)) / 0x100_0000 == 16 * (t / TWO28)
  {
  }

  /** The masks, shifts and the conditional exclusive-or of one loop turn compute `Fold`, and leave a
      word below 2^28, even when the addition wraps. */
  lemma TurnIsFold(h: nat, c: byte, t: nat, g: nat, u: nat)
    requires t == (16 * h + c) % TWO32
    requires g == AND(t, 0xF000_0000)
    requires u == if g != 0 then XOR(t, g / 0x100_0000) else t
    ensures g < TWO32 && AND(u, TWO32 - 1 - g) == Fold(h, c) < TWO28
  {
    OperatorsAreBitwise();
    Digits(t);
    var n := t / TWO28;
    TurnOnDigits(AND, XOR, n, t % TWO28 / 256, t % TWO28 / 16 % 16, t % TWO28 % 16, t,
                 if n != 0 then XOR(t, 16 * n) else t);
  }

  /** Every name hashes below 2^28, so the next shift loses no bit; the sum still may wrap. */
  lemma HashIsShort(name: seq<byte>)
    ensures Hash(name) < TWO28
  {
    if name != [] {
      var h, c := Hash(name[..|name| - 1]), name[|name| - 1];
      var t := (16 * h + c) % TWO32;
      var g := AND(t, 0xF000_0000);
      TurnIsFold(h, c, t, g, if g != 0 then XOR(t, g / 0x100_0000) else t);
    }
  }

  /** The bytes of a name as digits to the base 16, the carries included. */
  function Base16(name: seq<byte>): nat {
    if name == [] then 0 else 16 * Base16(name[..|name| - 1]) + name[|name| - 1]
  }

  /** As long as nothing reaches bit 28, the hash is that sum: so it is for every name of up to five bytes. */
  lemma {:induction false} ShortNames(name: seq<byte>)
    ensures Base16(name) < 0x1000_0000 ==> Hash(name) == Base16(name)
    ensures |name| <= 5 ==> Base16(name) < 0x1000_0000
  {
    ShortSum(name);
    if name != [] && Base16(name) < 0x1000_0000 {
      ShortNames(name[..|name| - 1]);
      hide Fold;
      FoldSmall(Base16(name[..|name| - 1]), name[|name| - 1]);
    }
  }

  lemma FoldSmall(h: nat, c: byte)
    requires 16 * h + c < 0x1000_0000
    ensures Fold(h, c) == 16 * h + c
  {
    hide Fold, XOR;
    var t := 16 * h + c;
    SmallDigits(t);
    FoldDigits(h, c, 0, t / 256, t / 16 % 16, t % 16);
    XorNothing(t / 16 % 16);
  }

  lemma SmallDigits(t: nat)
    requires t < 0x1000_0000
    ensures t == 256 * (t / 256) + 16 * (t / 16 % 16) + t % 16 && t / 256 < 0x10_0000
    ensures t % 0x1_0000_0000 == t
  {
  }

  lemma XorNothing(a: nat)
    ensures XOR(a, 0) == a
  {
    OperatorsAreBitwise();
    XorZero(XOR, a);
  }

  lemma {:induction false} ShortSum(name: seq<byte>)
    ensures |name| <= 1 ==> Base16(name) <= 0xFF
    ensures |name| <= 2 ==> Base16(name) <= 0x10EF
    ensures |name| <= 3 ==> Base16(name) <= 0x1_0FEF
    ensures |name| <= 4 ==> Base16(name) <= 0x10_FFEF
    ensures |name| <= 5 ==> Base16(name) <= 0x10F_FFEF
  {
    if name != [] {
      ShortSum(name[..|name| - 1]);
    }
  }

  /** A turn on a sum with the digits n (the top nibble), m, y (bits 4 to 7) and z. */
  lemma FoldDigits(h: nat, c: byte, n: nat, m: nat, y: nat, z: nat)
    requires n < 16 && m < 0x10_0000 && y < 16 && z < 16
    requires (16 * h + c) % 0x1_0000_0000 == 0x1000_0000 * n + 256 * m + 16 * y + z
    ensures Fold(h, c) == 256 * m + 16 * XOR(y, n) + z
  {
    hide XOR;
    var t := 0x1000_0000 * n + 256 * m + 16 * y + z;
    Parts(n, m, y, z, t);
  }

  lemma Parts(n: nat, m: nat, y: nat, z: nat, t: nat)
    requires n < 16 && m < 0x10_0000 && y < 16 && z < 16 && t == 0x1000_0000 * n + 256 * m + 16 * y + z
    ensures t / TWO28 == n && t % TWO28 / 256 == m && t % TWO28 / 16 % 16 == y && t % TWO28 % 16 == z
  {
    assert t % TWO28 == 256 * m + (16 * y + z);
    assert t % TWO28 / 16 == 16 * m + y;
  }

  /** One more character, bit by bit: it is shifted in on 32 bits; then the top four bits are cleared and
      turn over bits 4 to 7. */
  lemma HashGrows(name: seq<byte>, c: byte, n: seq<bool>, m: nat, y: seq<bool>, z: nat)
    requires |n| == |y| == 4 && m < 0x10_0000 && z < 16
    requires (16 * Hash(name) + c) % 0x1_0000_0000 == 0x1000_0000 * Nibble(n) + 256 * m + 16 * Nibble(y) + z
    ensures Hash(name + [c]) ==
            256 * m + 16 * Nibble([y[0] != n[0], y[1] != n[1], y[2] != n[2], y[3] != n[3]]) + z
  {
    assert (name + [c])[..|name|] == name;
    FoldDigits(Hash(name), c, Nibble(n), m, Nibble(y), z);
    OperatorsAreBitwise();
    hide XOR;
    XorNibbles(XOR, y, n);
  }

  /** The loop of the source over a NUL-terminated buffer. */
  method ElfHash(name: seq<byte>) returns (h: nat)
    requires 0 in name
    ensures h == Hash(CString(name))
  {
    h := 0;
    var i := 0;
    ghost var s := CString(name);
    while name[i] != 0
      invariant 0 <= i <= |s| && i < |name|
      invariant h == Hash(s[..i])
      decreases |s| - i
    {
      assert s[..i + 1][..i] == s[..i];
      ghost var before := h;
      h := (16 * h + name[i]) % TWO32;
      ghost var t := h;
      i := i + 1;
      var g := AND(h, 0xF000_0000);
      if g != 0 {
        h := XOR(h, g / 0x100_0000);
      }
      TurnIsFold(before, name[i - 1], t, g, h);
      h := AND(h, TWO32 - 1 - g);
    }
    assert s[..i] == s;
  }
}
