/** `firehose_program`: an image is sent in chunks of whole sectors, padded with zeros or cut off. */
module Streaming {
  import opened Bytes
  import opened FlashTarget
  import Arith

  /** n bytes of a file from some position on, continued with zeros behind its end. */
  function Window(file: seq<byte>, start: nat, n: nat): (w: seq<byte>)
    ensures |w| == n
  {
    seq(n, k requires 0 <= k => if start + k < |file| then file[start + k] else 0)
  }

  /** The window is the file's bytes from there on, as far as they go, and zeros. */
  lemma WindowIsFileThenZeros(file: seq<byte>, start: nat, n: nat)
    ensures start + n <= |file| ==> Window(file, start, n) == file[start..start + n]
    ensures start <= |file| < start + n ==> Window(file, start, n) == file[start..] + seq(start + n - |file|, _ => 0)
    ensures |file| <= start ==> Window(file, start, n) == seq(n, _ => 0)
  {
  }

  /** Sectors that hold the whole file, cut off at the partition's size if it has one. */
  function SectorsOf(p: Program, file: seq<byte>): nat
    requires p.sectorSize > 0
  {
    var needed := (|file| + p.sectorSize - 1) / p.sectorSize;
    if p.numSectors != 0 && needed > p.numSectors then p.numSectors else needed
  }

  /** The announced sectors are the fewest that hold the file, or all there are if these are not enough. */
  lemma SectorsAreFewest(p: Program, file: seq<byte>)
    requires p.sectorSize > 0
    ensures var n := SectorsOf(p, file);
            if p.numSectors != 0 && p.numSectors * p.sectorSize < |file| then n == p.numSectors
            else |file| <= n * p.sectorSize < |file| + p.sectorSize
  {
    var needed := (|file| + p.sectorSize - 1) / p.sectorSize;
    assert |file| + p.sectorSize - 1 == needed * p.sectorSize + (|file| + p.sectorSize - 1) % p.sectorSize;
    if p.numSectors < needed {
      Arith.MulMonotone(p.numSectors, needed - 1, p.sectorSize);
      Arith.MulSucc(needed - 1, p.sectorSize);
    } else {
      Arith.MulMonotone(needed, p.numSectors, p.sectorSize);
    }
  }

  function Concat(chunks: seq<seq<byte>>): seq<byte> {
    if chunks == [] then [] else Concat(chunks[..|chunks| - 1]) + chunks[|chunks| - 1]
  }

  function DataOf(chunks: seq<seq<byte>>): (d: seq<Command>)
    ensures |d| == |chunks| && forall i :: 0 <= i < |chunks| ==> d[i] == Data(chunks[i])
  {
    seq(|chunks|, i requires 0 <= i < |chunks| => Data(chunks[i]))
  }

  /** The commands that write an image: the program command, the chunks, and the wait for the reply. */
  function ScriptOf(p: Program, sectors: nat, chunks: seq<seq<byte>>): seq<Command> {
    [BeginProgram(p, sectors)] + DataOf(chunks) + [Await]
  }

  predicate AllFull(chunks: seq<seq<byte>>, n: nat) {
    forall i :: 0 <= i < |chunks| ==> |chunks[i]| == n
  }

  /** Each chunk is a positive number of whole sectors within the payload limit, and each but the last is
      as long as the limit allows. */
  predicate WholeSectors(chunks: seq<seq<byte>>, sectorSize: nat, maxPayload: nat)
    requires sectorSize > 0
  {
    && (forall i :: 0 <= i < |chunks| ==> |chunks[i]| % sectorSize == 0 && 0 < |chunks[i]| <= maxPayload)
    && (chunks != [] ==> AllFull(chunks[..|chunks| - 1], maxPayload / sectorSize * sectorSize))
  }

  /** The chunks carry the image: the file from its offset, to exactly the announced number of sectors. */
  predicate Carries(p: Program, file: seq<byte>, maxPayload: nat, chunks: seq<seq<byte>>)
    requires p.sectorSize > 0
  {
    && WholeSectors(chunks, p.sectorSize, maxPayload)
    && Concat(chunks) == Window(file, p.fileOffset * p.sectorSize, SectorsOf(p, file) * p.sectorSize)
  }

  /** What one read at a file position finds: everything up to n bytes, less at the end of the file. */
  function ReadAt(file: seq<byte>, pos: nat, n: nat): (bs: seq<byte>)
    ensures |bs| <= n
  {
    if pos >= |file| then [] else if pos + n <= |file| then file[pos..pos + n] else file[pos..]
  }

  /** The buffer after a read is the next part of the window, zeros included. */
  lemma ReadIsWindow(file: seq<byte>, start: nat, pos: nat, done: nat, n: nat, bs: seq<byte>)
    requires pos == PositionAfter(file, start, done)
    requires |bs| == n && ReadAt(file, pos, n) <= bs
    requires forall k :: |ReadAt(file, pos, n)| <= k < n ==> bs[k] == 0
    ensures Window(file, start, done) + bs == Window(file, start, done + n)
  {
    var w := Window(file, start, done + n);
    forall k | 0 <= k < n
      ensures bs[k] == w[done + k]
    {
    }
  }

  lemma ConcatMore(chunks: seq<seq<byte>>, c: seq<byte>)
    ensures Concat(chunks + [c]) == Concat(chunks) + c
  {
    assert (chunks + [c])[..|chunks|] == chunks;
  }

  /** Fills the buffer from the file, with zeros behind what was read. */
  method FillBuffer(buf: array<byte>, read: seq<byte>)
    requires |read| <= buf.Length
    modifies buf
    ensures read <= buf[..] && forall k :: |read| <= k < buf.Length ==> buf[k] == 0
  {
    forall k | 0 <= k < buf.Length {
      buf[k] := if k < |read| then read[k] else 0;
    }
  }

  /** Where the file position is after `done` bytes of the window have been sent. */
  function PositionAfter(file: seq<byte>, start: nat, done: nat): nat {
    if start + done <= |file| then start + done else if start <= |file| then |file| else start
  }

  /** Reads, pads and sends n bytes. */
  method SendChunk(target: Target, buf: array<byte>, file: seq<byte>, pos: nat, n: nat, ghost start: nat,
      ghost done: nat)
    returns (pos': nat, ghost bs: seq<byte>)
    requires n <= buf.Length && pos == PositionAfter(file, start, done)
    modifies target`trace, buf
    ensures target.trace == old(target.trace) + [Data(bs)]
    ensures |bs| == n && Window(file, start, done) + bs == Window(file, start, done + n)
    ensures pos' == PositionAfter(file, start, done + n)
  {
    var read := ReadAt(file, pos, n);
    FillBuffer(buf, read);
    bs := buf[..n];
    ReadIsWindow(file, start, pos, done, n, bs);
    var _ := target.Send(Data(buf[..n]));
    pos' := pos + |read|;
  }

  /** Sends the chunks. A sector is no larger than the payload, so every turn makes progress. */
  method SendChunks(target: Target, file: seq<byte>, start: nat, sectorSize: nat, sectors: nat, maxPayload: nat)
    returns (ghost chunks: seq<seq<byte>>)
    requires 0 < sectorSize <= maxPayload
    modifies target`trace
    ensures target.trace == old(target.trace) + DataOf(chunks)
    ensures WholeSectors(chunks, sectorSize, maxPayload)
    ensures Concat(chunks) == Window(file, start, sectors * sectorSize)
  {
    var buf := new byte[maxPayload];
    var pos: nat := start;
    var left: nat := sectors;
    chunks := [];
    ghost var done: nat := 0;
    assert Concat(chunks) == Window(file, start, 0) && pos == PositionAfter(file, start, 0);
    hide Concat, Window, PositionAfter;
    while left > 0
      invariant left <= sectors && done == (sectors - left) * sectorSize
      invariant target.trace == old(target.trace) + DataOf(chunks)
      invariant WholeSectors(chunks, sectorSize, maxPayload)
      invariant left > 0 ==> AllFull(chunks, maxPayload / sectorSize * sectorSize)
      invariant Concat(chunks) == Window(file, start, done) && pos == PositionAfter(file, start, done)
    {
      var chunkSize := if maxPayload / sectorSize < left then maxPayload / sectorSize else left;
      ChunkFits(maxPayload, sectorSize, maxPayload / sectorSize, chunkSize);
      Progress(sectors, left, chunkSize, sectorSize);
      ghost var bs;
      pos, bs := SendChunk(target, buf, file, pos, chunkSize * sectorSize, start, done);
      ConcatMore(chunks, bs);
      assert (chunks + [bs])[..|chunks|] == chunks;
      assert DataOf(chunks + [bs]) == DataOf(chunks) + [Data(bs)];
      chunks := chunks + [bs];
      done := done + chunkSize * sectorSize;
      left := left - chunkSize;
    }
  }

  lemma ChunkFits(maxPayload: nat, sectorSize: nat, whole: nat, chunkSize: nat)
    requires 0 < sectorSize <= maxPayload && whole == maxPayload / sectorSize && chunkSize <= whole
    ensures whole > 0 && chunkSize * sectorSize <= maxPayload && (chunkSize * sectorSize) % sectorSize == 0
    ensures chunkSize > 0 ==> chunkSize * sectorSize > 0
  {
    assert maxPayload == whole * sectorSize + maxPayload % sectorSize;
    Arith.MulMonotone(chunkSize, whole, sectorSize);
    Arith.DivModUnique(chunkSize * sectorSize, sectorSize, chunkSize, 0);
  }

  lemma Progress(sectors: nat, left: nat, chunkSize: nat, sectorSize: nat)
    requires chunkSize <= left <= sectors
    ensures (sectors - (left - chunkSize)) * sectorSize == (sectors - left) * sectorSize + chunkSize * sectorSize
    ensures (sectors - left) * sectorSize >= 0
  {
    Arith.MulMonotone(0, sectors - left, sectorSize);
  }

  /** Announces the image, sends it if the target agrees, and waits for the result. */
  method ProgramImage(target: Target, p: Program, file: seq<byte>, maxPayload: nat)
    returns (ret: int, ghost chunks: seq<seq<byte>>)
    requires 0 < p.sectorSize <= maxPayload
    modifies target`trace
    ensures Carries(p, file, maxPayload, chunks)
    ensures Outcome(target.trace, ret) ==
            Exec(target.replies, old(target.trace), ScriptOf(p, SectorsOf(p, file), chunks))
  {
    var sectors := SectorsOf(p, file);
    ret := target.Send(BeginProgram(p, sectors));
    ghost var before := old(target.trace);
    if ret != 0 {
      chunks := ChunksFor(p, file, maxPayload);
      Refused(target.replies, before, BeginProgram(p, sectors), DataOf(chunks) + [Await]);
      assert ScriptOf(p, sectors, chunks) == [BeginProgram(p, sectors)] + (DataOf(chunks) + [Await]);
    } else {
      chunks := SendChunks(target, file, p.fileOffset * p.sectorSize, p.sectorSize, sectors, maxPayload);
      ret := target.Send(Await);
      AllSent(target.replies, before, BeginProgram(p, sectors), chunks);
    }
  }

  /** A refused first command ends the script. */
  lemma Refused(replies: Replies, trace: seq<Command>, c: Command, rest: seq<Command>)
    requires Replied(c) && replies(trace + [c]) != 0
    ensures Exec(replies, trace, [c] + rest) == Outcome(trace + [c], replies(trace + [c]))
  {
    ExecConcat(replies, trace, [c], rest);
    assert Exec(replies, trace, []).trace == trace;
  }

  lemma {:induction false} DataIsSent(replies: Replies, trace: seq<Command>, chunks: seq<seq<byte>>)
    ensures Exec(replies, trace, DataOf(chunks)) == Outcome(trace + DataOf(chunks), 0)
  {
    if chunks != [] {
      var init := chunks[..|chunks| - 1];
      assert DataOf(chunks) == DataOf(init) + [Data(chunks[|chunks| - 1])];
      DataIsSent(replies, trace, init);
    }
  }

  lemma AllSent(replies: Replies, trace: seq<Command>, c: Command, chunks: seq<seq<byte>>)
    requires Replied(c) && replies(trace + [c]) == 0
    ensures var sent := trace + [c] + DataOf(chunks) + [Await];
            Exec(replies, trace, [c] + DataOf(chunks) + [Await]) == Outcome(sent, replies(sent))
  {
    ExecConcat(replies, trace, [c], DataOf(chunks));
    DataIsSent(replies, trace + [c], chunks);
    ExecConcat(replies, trace, [c] + DataOf(chunks), [Await]);
    assert Exec(replies, trace, []).trace == trace;
  }

  /** The chunks the transfer would consist of. */
  ghost function ChunksFor(p: Program, file: seq<byte>, maxPayload: nat): (chunks: seq<seq<byte>>)
    requires 0 < p.sectorSize <= maxPayload
    ensures Carries(p, file, maxPayload, chunks)
  {
    SplitExists(file, p.fileOffset * p.sectorSize, p.sectorSize, SectorsOf(p, file), maxPayload);
    var chunks :| WholeSectors(chunks, p.sectorSize, maxPayload) &&
                  Concat(chunks) == Window(file, p.fileOffset * p.sectorSize, SectorsOf(p, file) * p.sectorSize);
    chunks
  }

  lemma {:induction false} FullChunks(file: seq<byte>, start: nat, sectorSize: nat, n: nat, maxPayload: nat)
    returns (chunks: seq<seq<byte>>)
    requires 0 < sectorSize <= maxPayload
    ensures WholeSectors(chunks, sectorSize, maxPayload) && AllFull(chunks, maxPayload / sectorSize * sectorSize)
    ensures var full := maxPayload / sectorSize * sectorSize;
            n * full >= 0 && Concat(chunks) == Window(file, start, n * full)
  {
    if n == 0 {
      chunks := [];
    } else {
      var full := maxPayload / sectorSize * sectorSize;
      ChunkFits(maxPayload, sectorSize, maxPayload / sectorSize, maxPayload / sectorSize);
      chunks := FullChunks(file, start, sectorSize, n - 1, maxPayload);
      Arith.MulSucc(n - 1, full);
      chunks := Appended(file, start, sectorSize, (n - 1) * full, full, chunks, maxPayload);
    }
  }

  lemma Appended(file: seq<byte>, start: nat, sectorSize: nat, done: nat, n: nat, chunks: seq<seq<byte>>,
                 maxPayload: nat)
    returns (all: seq<seq<byte>>)
    requires 0 < sectorSize <= maxPayload && n % sectorSize == 0 && 0 < n <= maxPayload
    requires WholeSectors(chunks, sectorSize, maxPayload) && AllFull(chunks, maxPayload / sectorSize * sectorSize)
    requires Concat(chunks) == Window(file, start, done)
    ensures WholeSectors(all, sectorSize, maxPayload) && Concat(all) == Window(file, start, done + n)
    ensures n == maxPayload / sectorSize * sectorSize ==> AllFull(all, n)
  {
    var c := Window(file, start + done, n);
    all := chunks + [c];
    ConcatMore(chunks, c);
  }

  lemma SplitExists(file: seq<byte>, start: nat, sectorSize: nat, sectors: nat, maxPayload: nat)
    requires 0 < sectorSize <= maxPayload
    ensures exists chunks :: WholeSectors(chunks, sectorSize, maxPayload) &&
                             Concat(chunks) == Window(file, start, sectors * sectorSize)
  {
    var whole := maxPayload / sectorSize;
    var full, n, rest := whole * sectorSize, sectors / whole, sectors % whole;
    ChunkFits(maxPayload, sectorSize, whole, whole);
    ChunkFits(maxPayload, sectorSize, whole, rest);
    var chunks := FullChunks(file, start, sectorSize, n, maxPayload);
    SplitSectors(sectors, sectorSize, whole);
    if rest > 0 {
      chunks := Appended(file, start, sectorSize, n * full, rest * sectorSize, chunks, maxPayload);
    }
    assert WholeSectors(chunks, sectorSize, maxPayload);
  }

  lemma SplitSectors(sectors: nat, sectorSize: nat, whole: nat)
    requires whole > 0
    ensures sectors * sectorSize ==
            sectors / whole * (whole * sectorSize) + sectors % whole * sectorSize
  {
    var n, rest := sectors / whole, sectors % whole;
    assert sectors == n * whole + rest;
    assert (n * whole + rest) * sectorSize == n * whole * sectorSize + rest * sectorSize;
    assert n * whole * sectorSize == n * (whole * sectorSize);
  }

  // ----- what every byte of a transfer is

  /** Byte j of chunk i is the file's byte as far behind the offset as all sent before it, or zero behind
      the end of the file; every chunk is as long as the payload limit allows, and the last one brings the
      transfer to the announced number of sectors. */
  lemma EveryByte(p: Program, file: seq<byte>, maxPayload: nat, chunks: seq<seq<byte>>, i: nat, j: nat)
    requires 0 < p.sectorSize <= maxPayload && Carries(p, file, maxPayload, chunks)
    requires i < |chunks| && j < |chunks[i]|
    ensures var full := maxPayload / p.sectorSize * p.sectorSize;
            var at := p.fileOffset * p.sectorSize + i * full + j;
            && at >= 0 && chunks[i][j] == (if at < |file| then file[at] else 0)
            && (i < |chunks| - 1 ==> |chunks[i]| == full)
            && (i == |chunks| - 1 ==> i * full + |chunks[i]| == SectorsOf(p, file) * p.sectorSize)
  {
    var full := maxPayload / p.sectorSize * p.sectorSize;
    ConcatAt(chunks, full, i, j);
    ConcatLength(chunks, full);
  }

  lemma {:induction false} ConcatLength(chunks: seq<seq<byte>>, full: nat)
    requires chunks != [] && AllFull(chunks[..|chunks| - 1], full)
    ensures |Concat(chunks)| == (|chunks| - 1) * full + |chunks[|chunks| - 1]|
  {
    var init := chunks[..|chunks| - 1];
    if init != [] {
      ConcatLength(init, full);
      Arith.MulSucc(|init| - 1, full);
    }
  }

  lemma {:induction false} ConcatAt(chunks: seq<seq<byte>>, full: nat, i: nat, j: nat)
    requires i < |chunks| && j < |chunks[i]| && AllFull(chunks[..|chunks| - 1], full)
    ensures 0 <= i * full + j < |Concat(chunks)| && Concat(chunks)[i * full + j] == chunks[i][j]
  {
    var init := chunks[..|chunks| - 1];
    if i < |init| {
      ConcatAt(init, full, i, j);
    } else if init != [] {
      ConcatLength(init, full);
      Arith.MulSucc(|init| - 1, full);
    }
  }

  /** The commands of an image: one that announces it, its chunks in order, one that waits for the result. */
  lemma ImageCommands(p: Program, file: seq<byte>, chunks: seq<seq<byte>>)
    requires p.sectorSize > 0
    ensures var s := ScriptOf(p, SectorsOf(p, file), chunks);
            && |s| == |chunks| + 2 && s[0] == BeginProgram(p, SectorsOf(p, file)) && s[|chunks| + 1] == Await
            && forall i :: 0 <= i < |chunks| ==> s[1 + i] == Data(chunks[i])
  {
  }
}
