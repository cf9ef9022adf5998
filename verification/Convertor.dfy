/** `endianess_convertor` of elfio_utils.hpp: the byte swap applied to every multi-byte field. */
module Convertor {
  import opened Bytes

  const ELFDATA2LSB: nat := 1
  const ELFDATA2MSB: nat := 2

  /** The convertor of a machine of byte order `host`, set up for one file encoding. */
  datatype Conv = Conv(host: Order, needConversion: bool) {

    /** The byte order the file's words end up in. */
    function FileOrder(): Order {
      if needConversion then host.Opposite() else host
    }

    /** operator() on an n-byte unsigned word. */
    function Apply(n: nat, v: nat): (r: nat)
      ensures v < Pow256(n) ==> r < Pow256(n)
    {
      if needConversion then FromLittle(Reverse(ToLittle(n, v))) else v
    }
  }

  function HostEncoding(host: Order): nat {
    if host.Little? then ELFDATA2LSB else ELFDATA2MSB
  }

  function Setup(host: Order, encoding: nat): Conv {
    Conv(host, encoding != HostEncoding(host))
  }

  /** A file has the byte order its EI_DATA names, 1 or 2, whatever machine reads it; one that names neither is
      taken for a file of the other order than the machine's. */
  lemma SetupFollowsEncoding(host: Order, encoding: nat)
    ensures Setup(host, encoding).FileOrder() ==
            match encoding
            case 1 => Little
            case 2 => Big
            case _ => if host == Little then Big else Little
  {
  }

  /** Converting twice gives the word back: setters and getters use the same operator. */
  lemma ApplyTwice(c: Conv, n: nat, v: nat)
    requires v < Pow256(n)
    ensures c.Apply(n, c.Apply(n, v)) == v
  {
    if c.needConversion {
      var bs := ToLittle(n, v);
      LittleInjective(Reverse(bs));
      ReverseTwice(bs);
      LittleRoundTrip(n, v);
    }
  }

  /** Storing a converted word in the machine's own order lays the word out in the file's order. */
  lemma ConvertedStore(c: Conv, n: nat, v: nat)
    requires v < Pow256(n)
    ensures Store(c.host, n, c.Apply(n, v)) == Store(c.FileOrder(), n, v)
  {
    if c.needConversion {
      LittleInjective(Reverse(ToLittle(n, v)));
      ReverseTwice(ToLittle(n, v));
    }
  }

  /** Converting a word read in the machine's order gives the word the file means. */
  lemma ConvertedLoad(c: Conv, bs: seq<byte>)
    ensures c.Apply(|bs|, Load(c.host, bs)) == Load(c.FileOrder(), bs)
  {
    if c.needConversion {
      LoadStore(c.host, bs);
      if c.host.Little? {
        LittleInjective(bs);
      } else {
        LittleInjective(Reverse(bs));
        ReverseTwice(bs);
      }
    }
  }

  // ----- the mask-and-shift operators themselves

  function Swap16(v: bv16): bv16 {
    ((v & 0x00FF) << 8) | ((v & 0xFF00) >> 8)
  }

  function Swap32(v: bv32): bv32 {
    ((v & 0x0000_00FF) << 24) | ((v & 0x0000_FF00) << 8) |
    ((v & 0x00FF_0000) >> 8) | ((v & 0xFF00_0000) >> 24)
  }

  function Swap64(v: bv64): bv64 {
    ((v & 0x0000_0000_0000_00FF) << 56) | ((v & 0x0000_0000_0000_FF00) << 40) |
    ((v & 0x0000_0000_00FF_0000) << 24) | ((v & 0x0000_0000_FF00_0000) << 8) |
    ((v & 0x0000_00FF_0000_0000) >> 8) | ((v & 0x0000_FF00_0000_0000) >> 24) |
    ((v & 0x00FF_0000_0000_0000) >> 40) | ((v & 0xFF00_0000_0000_0000) >> 56)
  }

  /** The bytes of a word as the machine sees them, least significant first. */
  function Bytes16(v: bv16): (bs: seq<byte>)
    ensures |bs| == 2
  {
    [Octet(v as bv64), Octet((v >> 8) as bv64)]
  }

  function Bytes32(v: bv32): (bs: seq<byte>)
    ensures |bs| == 4
  {
    [Octet(v as bv64), Octet((v >> 8) as bv64), Octet((v >> 16) as bv64), Octet((v >> 24) as bv64)]
  }

  function Bytes64(v: bv64): (bs: seq<byte>)
    ensures |bs| == 8
  {
    [Octet(v), Octet(v >> 8), Octet(v >> 16), Octet(v >> 24),
     Octet(v >> 32), Octet(v >> 40), Octet(v >> 48), Octet(v >> 56)]
  }

  function Octet(v: bv64): byte {
    (v & 0xFF) as bv8 as int
  }

  lemma Octets16(v: bv16)
    ensures Swap16(v) & 0xFF == v >> 8
    ensures Swap16(v) >> 8 == v & 0xFF
  {
  }

  lemma Octets32(v: bv32)
    ensures Swap32(v) & 0xFF == (v >> 24) & 0xFF
    ensures (Swap32(v) >> 8) & 0xFF == (v >> 16) & 0xFF
    ensures (Swap32(v) >> 16) & 0xFF == (v >> 8) & 0xFF
    ensures (Swap32(v) >> 24) & 0xFF == v & 0xFF
  {
  }

  lemma Octets64(v: bv64)
    ensures Swap64(v) & 0xFF == (v >> 56) & 0xFF
    ensures (Swap64(v) >> 8) & 0xFF == (v >> 48) & 0xFF
    ensures (Swap64(v) >> 16) & 0xFF == (v >> 40) & 0xFF
    ensures (Swap64(v) >> 24) & 0xFF == (v >> 32) & 0xFF
    ensures (Swap64(v) >> 32) & 0xFF == (v >> 24) & 0xFF
    ensures (Swap64(v) >> 40) & 0xFF == (v >> 16) & 0xFF
    ensures (Swap64(v) >> 48) & 0xFF == (v >> 8) & 0xFF
    ensures (Swap64(v) >> 56) & 0xFF == v & 0xFF
  {
  }

  lemma Swap16Reverses(v: bv16)
    ensures Bytes16(Swap16(v)) == Reverse(Bytes16(v))
  {
    Octets16(v);
  }

  lemma Swap32Reverses(v: bv32)
    ensures Bytes32(Swap32(v)) == Reverse(Bytes32(v))
  {
    Octets32(v);
  }

  lemma ReverseOfEight(bs: seq<byte>)
    requires |bs| == 8
    ensures Reverse(bs) == [bs[7], bs[6], bs[5], bs[4], bs[3], bs[2], bs[1], bs[0]]
  {
  }

  lemma OctetsReversed64(v: bv64, s: bv64)
    requires s & 0xFF == (v >> 56) & 0xFF
    requires (s >> 8) & 0xFF == (v >> 48) & 0xFF
    requires (s >> 16) & 0xFF == (v >> 40) & 0xFF
    requires (s >> 24) & 0xFF == (v >> 32) & 0xFF
    requires (s >> 32) & 0xFF == (v >> 24) & 0xFF
    requires (s >> 40) & 0xFF == (v >> 16) & 0xFF
    requires (s >> 48) & 0xFF == (v >> 8) & 0xFF
    requires (s >> 56) & 0xFF == v & 0xFF
    ensures Bytes64(s) == Reverse(Bytes64(v))
  {
    ReverseOfEight(Bytes64(v));
  }

  lemma Swap64Reverses(v: bv64)
    ensures Bytes64(Swap64(v)) == Reverse(Bytes64(v))
  {
    Octets64(v);
    OctetsReversed64(v, Swap64(v));
  }

  /** At each width, the mask-and-shift operator computes `Apply` of a convertor that must swap. */
  lemma SwapsAreApply(host: Order, v16: bv16, v32: bv32, v64: bv64)
    ensures FromLittle(Bytes16(Swap16(v16))) == Conv(host, true).Apply(2, FromLittle(Bytes16(v16)))
    ensures FromLittle(Bytes32(Swap32(v32))) == Conv(host, true).Apply(4, FromLittle(Bytes32(v32)))
    ensures FromLittle(Bytes64(Swap64(v64))) == Conv(host, true).Apply(8, FromLittle(Bytes64(v64)))
  {
    Swap16Reverses(v16);
    LittleInjective(Bytes16(v16));
    Swap32Reverses(v32);
    LittleInjective(Bytes32(v32));
    Swap64Reverses(v64);
    LittleInjective(Bytes64(v64));
  }
}
