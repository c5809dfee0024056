/**
 * Well-formed XTC files, built frame by frame, and what the walk reports on
 * them.  A frame is written as its header (bytes 0..87 free, bytes 88..91 the
 * payload byte count as an XDR unsigned integer), then the payload as an XDR
 * opaque: the bytes, then zero bytes up to a multiple of 4 (RFC 4506 section
 * 4.10).  With the intended padding the walk finds every frame, also when an
 * interrupted write left part of a header at the end; with the source's mask
 * it can miss frames.
 */
module Trajectory {
  import opened Xdr
  import opened Padding
  import opened FrameWalk

  // The walk over a file cut into chunks, for any skip rule.

  /**
   * `chunk` begins with a header, and the skip rule applied to the payload
   * size in that header steps exactly to the end of the chunk.
   */
  predicate Spans(chunk: seq<Byte>, skip: Word -> nat)
  {
    |chunk| >= HeaderSize && HeaderSize + skip(U4FromBuffer(chunk[SizeOffset .. HeaderSize])) == |chunk|
  }

  function Concat(cs: seq<seq<Byte>>): (b: seq<Byte>)
  {
    if cs == [] then [] else cs[0] + Concat(cs[1..])
  }

  /** Where each chunk of `cs` starts when the first starts at `base`. */
  function ChunkOffsets(cs: seq<seq<Byte>>, base: nat): (offsets: seq<nat>)
    ensures |offsets| == |cs|
  {
    if cs == [] then [] else [base] + ChunkOffsets(cs[1..], base + |cs[0]|)
  }

  /** From the start of a chunk that spans, one step of the walk lands at its end. */
  lemma SpanStep(prefix: seq<Byte>, chunk: seq<Byte>, rest: seq<Byte>, skip: Word -> nat)
    requires Spans(chunk, skip)
    ensures var file := prefix + chunk + rest;
      HeaderFits(file, |prefix|) && NextHeader(file, |prefix|, skip) == |prefix| + |chunk|
  {
    var file := prefix + chunk + rest;
    assert file[|prefix| + SizeOffset .. |prefix| + HeaderSize] == chunk[SizeOffset .. HeaderSize];
  }

  /**
   * When every chunk spans under `skip` and fewer than 92 bytes follow them,
   * the walk with `skip` visits the start of every chunk and nothing else.
   */
  lemma {:induction false} WalkFindsChunks(prefix: seq<Byte>, cs: seq<seq<Byte>>, tail: seq<Byte>, skip: Word -> nat)
    requires forall i :: 0 <= i < |cs| ==> Spans(cs[i], skip)
    requires |tail| < HeaderSize
    ensures HeaderChain(prefix + Concat(cs) + tail, |prefix|, skip) == ChunkOffsets(cs, |prefix|)
    decreases |cs|
  {
    if cs == [] {
      ConcatNone(prefix, cs, tail);
      ShortTailStops(prefix + tail, |prefix|, skip);
    } else {
      var prefix' := prefix + cs[0];
      ConcatCons(prefix, cs, tail);
      SpanStep(prefix, cs[0], Concat(cs[1..]) + tail, skip);
      WalkFindsChunks(prefix', cs[1..], tail, skip);
      ChainStep(prefix + Concat(cs) + tail, |prefix|, skip, |prefix'|);
      OffsetsCons(cs, |prefix|, |prefix'|);
    }
  }

  lemma OffsetsCons(cs: seq<seq<Byte>>, base: nat, next: nat)
    requires cs != [] && next == base + |cs[0]|
    ensures ChunkOffsets(cs, base) == [base] + ChunkOffsets(cs[1..], next)
  {
  }

  lemma ConcatNone(prefix: seq<Byte>, cs: seq<seq<Byte>>, tail: seq<Byte>)
    requires cs == []
    ensures prefix + Concat(cs) + tail == prefix + tail
  {
  }

  lemma ConcatCons(prefix: seq<Byte>, cs: seq<seq<Byte>>, tail: seq<Byte>)
    requires cs != []
    ensures prefix + Concat(cs) + tail == prefix + cs[0] + (Concat(cs[1..]) + tail)
    ensures prefix + Concat(cs) + tail == (prefix + cs[0]) + Concat(cs[1..]) + tail
  {
  }

  lemma ShortTailStops(file: seq<Byte>, pos: nat, skip: Word -> nat)
    requires |file| < pos + HeaderSize
    ensures HeaderChain(file, pos, skip) == []
  {
  }

  // Frames as a writer lays them out.

  /**
   * A frame as written: its header up to the payload byte count, the count
   * as a 32-bit word, and the payload.
   */
  datatype Frame = Frame(head: seq<Byte>, size: Word, payload: seq<Byte>)

  /** The header has its 88 bytes and the size word counts the payload's bytes. */
  predicate WellFormed(f: Frame)
  {
    |f.head| == SizeOffset && Value(f.size) == |f.payload|
  }

  predicate AllWellFormed(fs: seq<Frame>)
  {
    forall i :: 0 <= i < |fs| ==> WellFormed(fs[i])
  }

  function Zeros(n: nat): (z: seq<Byte>)
    ensures |z| == n
  {
    seq(n, _ => 0)
  }

  /** The bytes of one frame: header, size word, payload, zero padding. */
  function EncodeFrame(f: Frame): (b: seq<Byte>)
    requires WellFormed(f)
    ensures |b| == HeaderSize + RoundUp4(|f.payload|)
  {
    f.head + U4ToBuffer(f.size) + f.payload + Zeros(RoundUp4(|f.payload|) - |f.payload|)
  }

  /** The bytes of each frame of `fs`, in order. */
  function Chunks(fs: seq<Frame>): (cs: seq<seq<Byte>>)
    requires AllWellFormed(fs)
    ensures |cs| == |fs|
  {
    seq(|fs|, i requires 0 <= i < |fs| => EncodeFrame(fs[i]))
  }

  /** The bytes of a file holding the frames `fs` in order. */
  function EncodeFrames(fs: seq<Frame>): seq<Byte>
    requires AllWellFormed(fs)
  {
    Concat(Chunks(fs))
  }

  /** The payload size in an encoded frame's header is the payload's length. */
  lemma {:induction false} EncodedPayloadSize(f: Frame)
    requires WellFormed(f)
    ensures |EncodeFrame(f)| >= HeaderSize
    ensures U4FromBuffer(EncodeFrame(f)[SizeOffset .. HeaderSize]) == f.size
  {
    assert EncodeFrame(f)[SizeOffset .. HeaderSize] == U4ToBuffer(f.size);
    DecodeEncode(f.size);
  }

  /** With the intended padding, the walk steps over an encoded frame exactly. */
  lemma {:induction false} EncodedFrameSpans(f: Frame)
    requires WellFormed(f)
    ensures Spans(EncodeFrame(f), IntendedSkip)
  {
    EncodedPayloadSize(f);
    SpansIff(EncodeFrame(f), IntendedSkip, f.size, RoundUp4(|f.payload|));
  }

  /** The source's mask steps over an encoded frame exactly when its payload size is 5 modulo 8. */
  lemma {:induction false} EncodedFrameSpansAsWritten(f: Frame)
    requires WellFormed(f)
    ensures Spans(EncodeFrame(f), AsWrittenSkip) <==> |f.payload| % 8 == 5 && |f.payload| + 3 < WordModulus
  {
    EncodedPayloadSize(f);
    SpansIff(EncodeFrame(f), AsWrittenSkip, f.size, IntendedSkip(f.size));
    AsWrittenSkipAgreesIff(f.size);
  }

  lemma SpansIff(chunk: seq<Byte>, skip: Word -> nat, size: Word, len: nat)
    requires |chunk| == HeaderSize + len
    requires U4FromBuffer(chunk[SizeOffset .. HeaderSize]) == size
    ensures Spans(chunk, skip) <==> skip(size) == len
  {
  }

  lemma ChunksSpanIntended(fs: seq<Frame>)
    requires AllWellFormed(fs)
    ensures forall i :: 0 <= i < |Chunks(fs)| ==> Spans(Chunks(fs)[i], IntendedSkip)
  {
    forall i | 0 <= i < |fs|
      ensures Spans(Chunks(fs)[i], IntendedSkip)
    {
      EncodedFrameSpans(fs[i]);
    }
  }

  lemma ChunksSpanAsWritten(fs: seq<Frame>)
    requires AllWellFormed(fs)
    requires forall i :: 0 <= i < |fs| ==> |fs[i].payload| % 8 == 5 && |fs[i].payload| + 3 < WordModulus
    ensures forall i :: 0 <= i < |Chunks(fs)| ==> Spans(Chunks(fs)[i], AsWrittenSkip)
  {
    forall i | 0 <= i < |fs|
      ensures Spans(Chunks(fs)[i], AsWrittenSkip)
    {
      EncodedFrameSpansAsWritten(fs[i]);
    }
  }

  lemma NoPrefix(b: seq<Byte>, tail: seq<Byte>)
    ensures [] + b + tail == b + tail
  {
  }

  /**
   * On a file of n well-formed frames, possibly cut short in the middle of a
   * further header, the walk with the intended padding visits the start of
   * every frame, so counts n frames.
   */
  lemma {:induction false} IntendedWalkFindsFrames(fs: seq<Frame>, tail: seq<Byte>)
    requires AllWellFormed(fs)
    requires |tail| < HeaderSize
    ensures HeaderChain(EncodeFrames(fs) + tail, 0, IntendedSkip) == ChunkOffsets(Chunks(fs), 0)
    ensures |HeaderChain(EncodeFrames(fs) + tail, 0, IntendedSkip)| == |fs|
  {
    ChunksSpanIntended(fs);
    WalkFindsChunks([], Chunks(fs), tail, IntendedSkip);
    NoPrefix(EncodeFrames(fs), tail);
  }

  /** On a file of well-formed frames, the atom count the walker reports is that of the first frame. */
  lemma {:induction false} ReportedAtomCount(fs: seq<Frame>, tail: seq<Byte>)
    requires AllWellFormed(fs) && fs != []
    ensures HeaderFits(EncodeFrames(fs) + tail, 0)
    ensures AtomCountAt(EncodeFrames(fs) + tail, 0) == U4FromBuffer(fs[0].head[AtomsOffset .. AtomsOffset + 4])
  {
    FirstFrameHead(fs, tail);
  }

  lemma FirstFrameHead(fs: seq<Frame>, tail: seq<Byte>)
    requires AllWellFormed(fs) && fs != []
    ensures var file := EncodeFrames(fs) + tail;
      |file| >= HeaderSize && file[AtomsOffset .. AtomsOffset + 4] == fs[0].head[AtomsOffset .. AtomsOffset + 4]
  {
    var cs := Chunks(fs);
    ConcatFirst(cs, tail);
    EncodedHead(fs[0]);
    HeadSlice(cs[0], Concat(cs[1..]) + tail, fs[0].head);
  }

  /** Without tail bytes: the file begins with the first frame's bytes. */
  lemma ConcatFirst(cs: seq<seq<Byte>>, tail: seq<Byte>)
    requires cs != []
    ensures Concat(cs) + tail == cs[0] + (Concat(cs[1..]) + tail)
  {
  }

  lemma EncodedHead(f: Frame)
    requires WellFormed(f)
    ensures |EncodeFrame(f)| >= HeaderSize && EncodeFrame(f)[..SizeOffset] == f.head
  {
  }

  lemma HeadSlice(chunk: seq<Byte>, rest: seq<Byte>, head: seq<Byte>)
    requires |chunk| >= HeaderSize && |head| == SizeOffset && chunk[..SizeOffset] == head
    ensures |chunk + rest| >= HeaderSize
    ensures (chunk + rest)[AtomsOffset .. AtomsOffset + 4] == head[AtomsOffset .. AtomsOffset + 4]
  {
    assert (chunk + rest)[AtomsOffset .. AtomsOffset + 4] == chunk[..SizeOffset][AtomsOffset .. AtomsOffset + 4];
  }

  /**
   * With the source's mask, a file whose every payload size is 5 modulo 8 is
   * still walked frame by frame.
   */
  lemma {:induction false} AsWrittenWalkFindsFramesWhen(fs: seq<Frame>, tail: seq<Byte>)
    requires AllWellFormed(fs)
    requires forall i :: 0 <= i < |fs| ==> |fs[i].payload| % 8 == 5 && |fs[i].payload| + 3 < WordModulus
    requires |tail| < HeaderSize
    ensures HeaderChain(EncodeFrames(fs) + tail, 0, AsWrittenSkip) == ChunkOffsets(Chunks(fs), 0)
  {
    ChunksSpanAsWritten(fs);
    WalkFindsChunks([], Chunks(fs), tail, AsWrittenSkip);
    NoPrefix(EncodeFrames(fs), tail);
  }

  /** Two frames: one with an 8-byte payload, then one with none. */
  function TwoFrames(): (fs: seq<Frame>)
    ensures AllWellFormed(fs) && |fs| == 2
  {
    SmallWord(8);
    SmallWord(0);
    [Frame(Zeros(SizeOffset), 8, Zeros(8)), Frame(Zeros(SizeOffset), 0, [])]
  }

  /**
   * The source's mask skips 11 bytes past an 8-byte payload instead of 8,
   * lands beyond the second header and counts one frame where the file holds
   * two.
   */
  lemma AsWrittenWalkMissesFrame()
    ensures |HeaderChain(EncodeFrames(TwoFrames()), 0, AsWrittenSkip)| == 1
    ensures |HeaderChain(EncodeFrames(TwoFrames()), 0, IntendedSkip)| == 2
  {
    var file := EncodeFrames(TwoFrames());
    NoTail(file);
    IntendedWalkFindsFrames(TwoFrames(), []);
    TwoFramesLength();
    FirstPayloadSize(TwoFrames(), []);
    SkipTable();
    ChainStep(file, 0, AsWrittenSkip, 103);
    ShortTailStops(file, 103, AsWrittenSkip);
  }

  lemma NoTail(b: seq<Byte>)
    ensures b + [] == b
  {
  }

  lemma TwoFramesLength()
    ensures |EncodeFrames(TwoFrames())| == 192
  {
    var fs := TwoFrames();
    var cs := Chunks(fs);
    ConcatFirst(cs, []);
    ConcatFirst(cs[1..], []);
    assert cs[1..][1..] == [];
    FrameLength(fs[0], 100);
    FrameLength(fs[1], 92);
  }

  lemma FrameLength(f: Frame, n: nat)
    requires WellFormed(f) && n == HeaderSize + RoundUp4(|f.payload|)
    ensures |EncodeFrame(f)| == n
  {
  }

  /** The payload size in the first header of an encoded file is the first payload's length. */
  lemma FirstPayloadSize(fs: seq<Frame>, tail: seq<Byte>)
    requires AllWellFormed(fs) && fs != []
    ensures HeaderFits(EncodeFrames(fs) + tail, 0)
    ensures PayloadSizeAt(EncodeFrames(fs) + tail, 0) == fs[0].size
  {
    var cs := Chunks(fs);
    assert EncodeFrames(fs) + tail == cs[0] + (Concat(cs[1..]) + tail);
    EncodedPayloadSize(fs[0]);
    SpanStepAt(cs[0], Concat(cs[1..]) + tail);
  }

  lemma SpanStepAt(chunk: seq<Byte>, rest: seq<Byte>)
    requires |chunk| >= HeaderSize
    ensures var file := chunk + rest;
      HeaderFits(file, 0) && PayloadSizeAt(file, 0) == U4FromBuffer(chunk[SizeOffset .. HeaderSize])
  {
    assert (chunk + rest)[SizeOffset .. HeaderSize] == chunk[SizeOffset .. HeaderSize];
  }
}
