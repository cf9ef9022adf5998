/** Which bytes of a section hold which part of a note: what is written, and what is read of any bytes. */
module NoteLayout {
  import opened Bytes
  import opened Notes
  import RecordFields

  /** The next multiple of four. */
  function UpToWord(n: nat): nat {
    (n + 3) / 4 * 4
  }

  /** A note as it is written: three words with the length of the name and its NUL, that of the
      description and the type; the name, its NUL and zeros up to the next word; the description, and
      zeros up to the next word. */
  predicate WrittenAs(order: Order, bs: seq<byte>, n: Note) {
    var desc := 12 + UpToWord(|n.name| + 1);
    && |bs| == desc + UpToWord(|n.desc|)
    && RecordFields.Word(order, bs, 0, 4) == |n.name| + 1
    && RecordFields.Word(order, bs, 4, 8) == |n.desc|
    && RecordFields.Word(order, bs, 8, 12) == n.typ
    && 12 + |n.name| < desc && bs[12..12 + |n.name|] == n.name
    && desc + |n.desc| <= |bs| && bs[desc..desc + |n.desc|] == n.desc
    && (forall k :: 12 + |n.name| <= k < desc ==> bs[k] == 0)
    && forall k :: desc + |n.desc| <= k < |bs| ==> bs[k] == 0
  }

  lemma NoteIsWritten(order: Order, n: Note)
    requires Fits(n)
    ensures WrittenAs(order, Encode(order, n), n)
  {
    hide WrittenAs, PartsAt, UpToWord, RoundUp, Assembled;
    var bs := Encode(order, n);
    HoldsItself(order, n);
    HasParts(order, bs, 0, n);
    PartsSay(order, bs, 0, n);
    PadsAreZero(HeadOf(order, n), n);
    Gathered(order, bs, n, HeadOf(order, n));
  }

  lemma Gathered(order: Order, bs: seq<byte>, n: Note, h: Head)
    requires Fits(n) && PartsAt(bs, 0, h, n)
    requires Word(order, bs, 0) == |n.name| + 1 && Word(order, bs, 4) == |n.desc| && Word(order, bs, 8) == n.typ
    requires ZeroPads(bs, n)
    ensures WrittenAs(order, bs, n)
  {
    hide Load;
    Rounded(|n.name| + 1);
    Rounded(|n.desc|);
  }

  lemma HoldsItself(order: Order, n: Note)
    ensures HasNote(order, Encode(order, n), 0, n)
  {
    hide Encode;
    var bs := Encode(order, n);
    assert bs[0..0 + |bs|] == bs;
  }

  lemma Rounded(v: nat)
    requires v + 3 < 0x1_0000_0000
    ensures RoundUp(v) == UpToWord(v)
  {
  }

  predicate ZeroPads(bs: seq<byte>, n: Note) {
    var desc := 12 + UpToWord(|n.name| + 1);
    && |bs| == desc + UpToWord(|n.desc|)
    && (forall k :: 12 + |n.name| <= k < desc ==> bs[k] == 0)
    && forall k :: desc + |n.desc| <= k < |bs| ==> bs[k] == 0
  }

  lemma PadsAreZero(h: Head, n: Note)
    requires |h.namesz| == |h.descsz| == |h.typ| == 4
    ensures ZeroPads(Assembled(h, n), n)
  {
    PaddedLength(|n.name| + 1);
    PaddedLength(|n.desc|);
    hide Padding, UpToWord;
    var words, name := h.namesz + h.descsz + h.typ, n.name + [0] + Padding(|n.name| + 1);
    var desc := if n.desc == [] then [] else n.desc + Padding(|n.desc|);
    var bs := words + name + desc;
    assert bs == Assembled(h, n);
    forall k | 12 + |n.name| <= k < 12 + |name|
      ensures bs[k] == 0
    {
      assert bs[k] == name[k - 12];
    }
    forall k | 12 + |name| + |n.desc| <= k < |bs|
      ensures bs[k] == 0
    {
      assert bs[k] == desc[k - 12 - |name|];
    }
  }

  lemma PaddedLength(v: nat)
    ensures v + |Padding(v)| == UpToWord(v) && forall k :: 0 <= k < |Padding(v)| ==> Padding(v)[k] == 0
    ensures v == 0 ==> UpToWord(v) == 0
  {
  }

  /** Of any bytes: the lengths are the first two words; a note is found exactly if the name has at least
      its NUL and neither length, the name nor the description leads past the end of the section. */
  lemma NoteIsRead(order: Order, data: seq<byte>, at: nat)
    requires at + 12 <= |data| < 0x1_0000_0000
    ensures var namesz, descsz := RecordFields.Word(order, data, at, at + 4),
                RecordFields.Word(order, data, at + 4, at + 8);
            var desc := at + 12 + (namesz + 3) % 0x1_0000_0000 / 4 * 4;
            && (NoteAt(order, data, at).Some? <==>
                  && namesz > 0 && (namesz + descsz) % 0x1_0000_0000 <= |data| - at
                  && at + 12 + namesz <= |data| && desc + descsz <= |data|)
            && (NoteAt(order, data, at).Some? ==>
                  var n := NoteAt(order, data, at).value;
                  && n.typ == RecordFields.Word(order, data, at + 8, at + 12)
                  && n.name == data[at + 12..at + 12 + namesz - 1] && n.desc == data[desc..desc + descsz])
            && Next(order, data, at) == desc + (descsz + 3) % 0x1_0000_0000 / 4 * 4
  {
    hide Load;
    assert (|data| - at) % 0x1_0000_0000 == |data| - at;
  }
}
