/** Bytes, byte orders, and fixed-width unsigned words laid out in memory. */
module Bytes {

  type byte = x: int | 0 <= x < 256

  datatype Order = Little | Big {
    function Opposite(): Order {
      if Little? then Big else Little
    }
  }

  /** 256 to the power n: the number of values an n-byte word can hold. */
  function Pow256(n: nat): (p: nat)
    ensures p > 0
  {
    if n == 0 then 1 else 256 * Pow256(n - 1)
  }

  lemma Pow256Values()
    ensures Pow256(1) == 0x100
    ensures Pow256(2) == 0x1_0000
    ensures Pow256(4) == 0x1_0000_0000
    ensures Pow256(8) == 0x1_0000_0000_0000_0000
  {
    assert Pow256(2) == 256 * Pow256(1);
    assert Pow256(3) == 256 * Pow256(2);
    assert Pow256(4) == 256 * Pow256(3);
    assert Pow256(5) == 256 * Pow256(4);
    assert Pow256(6) == 256 * Pow256(5);
    assert Pow256(7) == 256 * Pow256(6);
    assert Pow256(8) == 256 * Pow256(7);
  }

  /** The low n bytes of v, least significant first. */
  function ToLittle(n: nat, v: nat): (bs: seq<byte>)
    ensures |bs| == n
  {
    if n == 0 then [] else [v % 256] + ToLittle(n - 1, v / 256)
  }

  function FromLittle(bs: seq<byte>): (v: nat)
    ensures v < Pow256(|bs|)
  {
    if bs == [] then 0 else bs[0] + 256 * FromLittle(bs[1..])
  }

  function Reverse(bs: seq<byte>): (r: seq<byte>)
    ensures |r| == |bs|
    ensures forall i :: 0 <= i < |bs| ==> r[i] == bs[|bs| - 1 - i]
  {
    if bs == [] then [] else Reverse(bs[1..]) + [bs[0]]
  }

  lemma ReverseTwice(bs: seq<byte>)
    ensures Reverse(Reverse(bs)) == bs
  {
  }

  /** The n bytes of the word v as a machine of byte order `order` stores them. */
  function Store(order: Order, n: nat, v: nat): (bs: seq<byte>)
    ensures |bs| == n
  {
    if order.Little? then ToLittle(n, v) else Reverse(ToLittle(n, v))
  }

  /** The word a machine of byte order `order` reads from these bytes. */
  function Load(order: Order, bs: seq<byte>): (v: nat)
    ensures v < Pow256(|bs|)
  {
    if order.Little? then FromLittle(bs) else FromLittle(Reverse(bs))
  }

  lemma {:induction false} LittleRoundTrip(n: nat, v: nat)
    requires v < Pow256(n)
    ensures FromLittle(ToLittle(n, v)) == v
  {
    if n > 0 {
      LittleRoundTrip(n - 1, v / 256);
      assert ToLittle(n, v)[1..] == ToLittle(n - 1, v / 256);
    }
  }

  /** Two words that agree modulo 256^n have the same n bytes. */
  lemma {:induction false} LittleInjective(bs: seq<byte>)
    ensures ToLittle(|bs|, FromLittle(bs)) == bs
  {
    if bs != [] {
      LittleInjective(bs[1..]);
      assert bs == [bs[0]] + bs[1..];
    }
  }

  /** Reading back what was stored gives the word, for either byte order. */
  lemma StoreLoad(order: Order, n: nat, v: nat)
    requires v < Pow256(n)
    ensures Load(order, Store(order, n, v)) == v
  {
    LittleRoundTrip(n, v);
    ReverseTwice(ToLittle(n, v));
  }

  lemma LoadStore(order: Order, bs: seq<byte>)
    ensures Store(order, |bs|, Load(order, bs)) == bs
  {
    if order.Little? {
      LittleInjective(bs);
    } else {
      LittleInjective(Reverse(bs));
      ReverseTwice(bs);
    }
  }
}
