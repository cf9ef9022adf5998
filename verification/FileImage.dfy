/** Files as byte sequences: seek-and-write on the way out, a failing input stream on the way in. */
module FileImage {
  import opened Bytes

  // ----- writing

  function Zeros(n: nat): (z: seq<byte>)
    ensures |z| == n && forall i :: 0 <= i < n ==> z[i] == 0
  {
    seq(n, _ => 0)
  }

  /** seekp followed by write: a gap behind the end of the file reads as zeros. */
  function WriteAt(file: seq<byte>, offset: nat, bs: seq<byte>): (r: seq<byte>)
    ensures |r| == if bs == [] || offset + |bs| <= |file| then |file| else offset + |bs|
  {
    if bs == [] then file
    else
      var padded := if offset + |bs| <= |file| then file else file + Zeros(offset + |bs| - |file|);
      padded[..offset] + bs + padded[offset + |bs|..]
  }

  /** The file has these bytes at this offset. */
  predicate Holds(file: seq<byte>, offset: nat, bs: seq<byte>) {
    offset + |bs| <= |file| && file[offset..offset + |bs|] == bs
  }

  /** Byte by byte: the written ones, the old ones elsewhere, and zeros in a gap. */
  lemma BytesWritten(file: seq<byte>, offset: nat, bs: seq<byte>, k: nat)
    requires k < |WriteAt(file, offset, bs)|
    ensures WriteAt(file, offset, bs)[k] ==
            if offset <= k < offset + |bs| then bs[k - offset] else if k < |file| then file[k] else 0
  {
  }

  lemma WriteHolds(file: seq<byte>, offset: nat, bs: seq<byte>)
    requires bs != []
    ensures Holds(WriteAt(file, offset, bs), offset, bs)
  {
  }

  /** It then has any part of them at the corresponding place. */
  lemma HoldsPart(file: seq<byte>, offset: nat, bs: seq<byte>, i: nat, j: nat)
    requires Holds(file, offset, bs) && i <= j <= |bs|
    ensures file[offset + i..offset + j] == bs[i..j]
  {
    forall k | i <= k < j
      ensures file[offset + k] == bs[k]
    {
      assert file[offset..offset + |bs|][k] == bs[k];
    }
  }

  /** Two ranges of a file without a common byte. */
  predicate Clear(start: nat, len: nat, start': nat, len': nat) {
    start + len <= start' || start' + len' <= start
  }

  /** Writing elsewhere leaves what the file holds. */
  lemma WriteKeeps(file: seq<byte>, offset: nat, bs: seq<byte>, kept: nat, held: seq<byte>)
    requires Holds(file, kept, held) && Clear(offset, |bs|, kept, |held|)
    ensures Holds(WriteAt(file, offset, bs), kept, held)
  {
    var r := WriteAt(file, offset, bs);
    forall i | 0 <= i < |held|
      ensures r[kept + i] == held[i]
    {
      assert file[kept..kept + |held|][i] == held[i];
    }
  }

  // ----- reading

  /** An input stream: seeking and reading do nothing once a read has come up short. */
  datatype Stream = Stream(bytes: seq<byte>, pos: nat, ok: bool) {
    function Seek(p: nat): Stream {
      if ok then this.(pos := p) else this
    }

    /** The bytes read, at most n, and the stream afterwards. */
    function Read(n: nat): (r: (seq<byte>, Stream))
      ensures |r.0| <= n && r.1.bytes == bytes
      ensures r.1.ok ==> ok && |r.0| == n
    {
      if !ok then ([], this)
      else if pos + n <= |bytes| then (bytes[pos..pos + n], this.(pos := pos + n))
      else if pos <= |bytes| then (bytes[pos..], this.(pos := |bytes|, ok := false))
      else ([], this.(ok := false))
    }
  }

  function Open(bytes: seq<byte>): Stream {
    Stream(bytes, 0, true)
  }

  /** Reading at a place the file holds gives what it holds. */
  lemma ReadHeld(s: Stream, offset: nat, bs: seq<byte>)
    requires s.ok && Holds(s.bytes, offset, bs)
    ensures s.Seek(offset).Read(|bs|) == (bs, s.(pos := offset + |bs|))
  {
  }

  /** Reads record i and leaves the stream somewhere. */
  type Reader<T> = (Stream, nat) -> (T, Stream)

  /** Records 0 to n - 1 in turn. */
  function ReadAll<T>(read: Reader<T>, s: Stream, n: nat): (r: (seq<T>, Stream))
    ensures |r.0| == n
  {
    if n == 0 then ([], s)
    else
      var (records, s1) := ReadAll(read, s, n - 1);
      var (record, s2) := read(s1, n - 1);
      (records + [record], s2)
  }

  /** Reading never repairs a failed stream. */
  ghost predicate Failing<T(!new)>(read: Reader<T>) {
    forall s: Stream, i: nat :: read(s, i).1.ok ==> s.ok
  }

  lemma {:induction false} ReadAllFails<T(!new)>(read: Reader<T>, s: Stream, n: nat)
    requires Failing(read)
    ensures ReadAll(read, s, n).1.ok ==> s.ok
  {
    if n > 0 {
      ReadAllFails(read, s, n - 1);
      var s1 := ReadAll(read, s, n - 1).1;
      assert read(s1, n - 1).1.ok ==> s1.ok;
    }
  }

  /** From any position of the file, reading record i gives `want` and the stream is not failed. */
  ghost predicate Readable<T(!new)>(read: Reader<T>, file: seq<byte>, i: nat, want: T) {
    forall p: nat ::
      var (record, s') := read(Stream(file, p, true), i);
      record == want && s'.ok && s'.bytes == file
  }

  lemma {:induction false} ReadAllBack<T(!new)>(read: Reader<T>, s: Stream, want: seq<T>, n: nat)
    requires s.ok && n <= |want| && forall i :: 0 <= i < |want| ==> Readable(read, s.bytes, i, want[i])
    ensures var (records, s') := ReadAll(read, s, n);
            records == want[..n] && s'.ok && s'.bytes == s.bytes
  {
    if n > 0 {
      ReadAllBack(read, s, want, n - 1);
      var s1 := ReadAll(read, s, n - 1).1;
      assert Readable(read, s.bytes, n - 1, want[n - 1]) && s1 == Stream(s.bytes, s1.pos, true);
      assert want[..n] == want[..n - 1] + [want[n - 1]];
    }
  }
}
