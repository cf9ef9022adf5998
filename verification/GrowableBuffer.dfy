/** What `section_impl::append_data` does to a section's buffer, and what a run of it costs. */
module GrowableBuffer {
  import opened Bytes

  /** A buffer of `cap` bytes of which the first |bytes| are used; `copied` counts the bytes that
      reallocations have moved so far. */
  datatype Buffer = Buffer(bytes: seq<byte>, cap: nat, copied: nat) {
    /** Used bytes fit, at most three quarters of the room is unused, and moving was paid for by room. */
    predicate Sound() {
      |bytes| <= cap <= 4 * |bytes| && copied <= cap
    }
  }

  function Append(b: Buffer, raw: seq<byte>): Buffer {
    if |b.bytes| + |raw| < b.cap then b.(bytes := b.bytes + raw)
    else Buffer(b.bytes + raw, 2 * (b.cap + |raw|), b.copied + |b.bytes|)
  }

  function AppendAll(b: Buffer, chunks: seq<seq<byte>>): Buffer {
    if chunks == [] then b else Append(AppendAll(b, chunks[..|chunks| - 1]), chunks[|chunks| - 1])
  }

  function Concat(chunks: seq<seq<byte>>): seq<byte> {
    if chunks == [] then [] else Concat(chunks[..|chunks| - 1]) + chunks[|chunks| - 1]
  }

  /** Any run of appends adds up to one concatenation, in linear total cost. */
  lemma {:induction false} AppendsConcatenate(b: Buffer, chunks: seq<seq<byte>>)
    requires b.Sound()
    ensures var r := AppendAll(b, chunks);
            r.bytes == b.bytes + Concat(chunks) && r.Sound()
  {
    if chunks == [] {
      assert b.bytes + [] == b.bytes;
    } else {
      var before := AppendAll(b, chunks[..|chunks| - 1]);
      AppendsConcatenate(b, chunks[..|chunks| - 1]);
      assert before.bytes + chunks[|chunks| - 1] == b.bytes + (Concat(chunks[..|chunks| - 1]) + chunks[|chunks| - 1]);
    }
  }

  /** As long as the contents stay below 2^29 bytes, the 32-bit capacity of the source does not wrap. */
  lemma SmallContentsDoNotWrap(b: Buffer, raw: seq<byte>)
    requires b.Sound() && |b.bytes| + |raw| < 0x2000_0000
    ensures 2 * (b.cap + |raw|) < 0x1_0000_0000
    ensures Append(b, raw).cap < 0x1_0000_0000
  {
  }
}
