/** C structs of unsigned words, laid out without padding, in a chosen byte order. */
module Records {
  import opened Bytes

  function Total(widths: seq<nat>): nat {
    if widths == [] then 0 else widths[0] + Total(widths[1..])
  }

  /** Up to thirteen fields, summed out. */
  lemma TotalUnrolled(w: seq<nat>)
    requires |w| <= 13
    ensures Total(w) == At(w, 0) + At(w, 1) + At(w, 2) + At(w, 3) + At(w, 4) + At(w, 5) + At(w, 6) +
                        At(w, 7) + At(w, 8) + At(w, 9) + At(w, 10) + At(w, 11) + At(w, 12)
  {
    if w != [] {
      TotalUnrolled(w[1..]);
      assert forall k: nat :: At(w[1..], k) == At(w, k + 1);
    }
  }

  function At(w: seq<nat>, k: nat): nat {
    if k < |w| then w[k] else 0
  }

  /** Every field value can be held in its width. */
  predicate Fit(widths: seq<nat>, values: seq<nat>) {
    |widths| == |values| && forall i :: 0 <= i < |widths| ==> values[i] < Pow256(widths[i])
  }

  function Pack(order: Order, widths: seq<nat>, values: seq<nat>): (bs: seq<byte>)
    requires |widths| == |values|
    ensures |bs| == Total(widths)
  {
    if widths == [] then [] else Store(order, widths[0], values[0]) + Pack(order, widths[1..], values[1..])
  }

  function Unpack(order: Order, widths: seq<nat>, bs: seq<byte>): (values: seq<nat>)
    requires |bs| == Total(widths)
    ensures |values| == |widths|
  {
    if widths == [] then []
    else [Load(order, bs[..widths[0]])] + Unpack(order, widths[1..], bs[widths[0]..])
  }

  lemma {:induction false} UnpackFits(order: Order, widths: seq<nat>, bs: seq<byte>)
    requires |bs| == Total(widths)
    ensures Fit(widths, Unpack(order, widths, bs))
  {
    if widths != [] {
      UnpackFits(order, widths[1..], bs[widths[0]..]);
    }
  }

  lemma {:induction false} PackUnpack(order: Order, widths: seq<nat>, values: seq<nat>)
    requires Fit(widths, values)
    ensures Unpack(order, widths, Pack(order, widths, values)) == values
  {
    if widths != [] {
      var head, tail := Store(order, widths[0], values[0]), Pack(order, widths[1..], values[1..]);
      assert (head + tail)[..widths[0]] == head && (head + tail)[widths[0]..] == tail;
      StoreLoad(order, widths[0], values[0]);
      PackUnpack(order, widths[1..], values[1..]);
    }
  }

  /** Where field i begins. */
  function Start(widths: seq<nat>, i: nat): nat
    requires i <= |widths|
  {
    if i == 0 then 0 else widths[0] + Start(widths[1..], i - 1)
  }

  /** Field i is the word in the bytes from its start on, whatever the bytes are. */
  lemma {:induction false} UnpackAt(order: Order, widths: seq<nat>, bs: seq<byte>, i: nat)
    requires |bs| == Total(widths) && i < |widths|
    ensures var at := Start(widths, i);
            at + widths[i] <= |bs| && Unpack(order, widths, bs)[i] == Load(order, bs[at..at + widths[i]])
  {
    hide Load;
    if i > 0 {
      var first, rest, w := widths[0], widths[1..], widths[i];
      assert rest[i - 1] == w;
      UnpackAt(order, rest, bs[first..], i - 1);
      var at := Start(rest, i - 1);
      SliceBehind(bs, first, at, w);
      assert Unpack(order, widths, bs)[i] == Unpack(order, rest, bs[first..])[i - 1];
    }
  }

  lemma SliceBehind(bs: seq<byte>, first: nat, at: nat, w: nat)
    requires first + at + w <= |bs|
    ensures bs[first..][at..at + w] == bs[first + at..first + at + w]
  {
  }

  lemma {:induction false} StartStep(widths: seq<nat>, i: nat)
    requires i < |widths|
    ensures Start(widths, i + 1) == Start(widths, i) + widths[i]
  {
    if i > 0 {
      StartStep(widths[1..], i - 1);
    }
  }
}
