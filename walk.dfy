/**
 * The frame walker of xtc-length.c (`get_xtc_num_frames`).
 *
 * An XTC file is a chain of frames: a fixed 92-byte header whose bytes
 * 88..91 hold the payload's byte count, then the payload.  The walker reads
 * a header, seeks past the payload and reads the next header, until a full
 * header can no longer be read.  The file is a byte sequence and the stream
 * position a number that may run past its end: a seek past the end succeeds
 * and the next read fails.
 *
 * The walk is parameterised by the skip rule, the number of bytes sought past
 * a payload of a given byte count.  The source's rule is
 * `Padding.AsWrittenSkip`; the one its comment describes is
 * `Padding.IntendedSkip`.
 */
module FrameWalk {
  import opened Xdr

  /** Bytes in a frame header (`uint8_t header[92]`). */
  const HeaderSize: nat := 92

  /** Offset in the header of the atom count. */
  const AtomsOffset: nat := 4

  /** Offset in the header of the payload byte count. */
  const SizeOffset: nat := 88

  /** A whole header can be read at `pos`. */
  predicate HeaderFits(file: seq<Byte>, pos: nat)
  {
    pos + HeaderSize <= |file|
  }

  /** The payload byte count in the header that starts at `pos`. */
  function PayloadSizeAt(file: seq<Byte>, pos: nat): Word
    requires HeaderFits(file, pos)
  {
    U4FromBuffer(file[pos + SizeOffset .. pos + HeaderSize])
  }

  /** The atom count in the header that starts at `pos`. */
  function AtomCountAt(file: seq<Byte>, pos: nat): Word
    requires HeaderFits(file, pos)
  {
    U4FromBuffer(file[pos + AtomsOffset .. pos + AtomsOffset + 4])
  }

  /** Where the header after the one at `pos` starts: past the header and the skipped payload. */
  function NextHeader(file: seq<Byte>, pos: nat, skip: Word -> nat): nat
    requires HeaderFits(file, pos)
  {
    pos + HeaderSize + skip(PayloadSizeAt(file, pos))
  }

  /**
   * The start of every header the walk reads from `pos` on, in order.  The
   * walk ends at the first position where fewer than 92 bytes remain.
   */
  function HeaderChain(file: seq<Byte>, pos: nat, skip: Word -> nat): (chain: seq<nat>)
    ensures chain == [] <==> !HeaderFits(file, pos)
    ensures chain != [] ==> chain[0] == pos
    ensures forall i :: 0 <= i < |chain| ==> pos <= chain[i] && HeaderFits(file, chain[i])
    ensures pos <= |file| ==> |chain| * HeaderSize <= |file| - pos
    decreases |file| - pos
  {
    if !HeaderFits(file, pos) then []
    else [pos] + HeaderChain(file, NextHeader(file, pos, skip), skip)
  }

  /** Unfolds one step of the walk from a header that fits. */
  lemma ChainStep(file: seq<Byte>, pos: nat, skip: Word -> nat, next: nat)
    requires HeaderFits(file, pos) && next == NextHeader(file, pos, skip)
    ensures HeaderChain(file, pos, skip) == [pos] + HeaderChain(file, next, skip)
  {
  }

  /** Consecutive headers of the chain are linked by the payload size of the first. */
  lemma {:induction false} ChainLinks(file: seq<Byte>, pos: nat, skip: Word -> nat, k: nat)
    requires k + 1 < |HeaderChain(file, pos, skip)|
    ensures var chain := HeaderChain(file, pos, skip);
      chain[k + 1] == NextHeader(file, chain[k], skip)
    decreases k
  {
    if k > 0 {
      ChainLinks(file, NextHeader(file, pos, skip), skip, k - 1);
    }
  }

  /** The chain stops because the header after its last one does not fit. */
  lemma {:induction false} ChainEnds(file: seq<Byte>, pos: nat, skip: Word -> nat)
    requires HeaderChain(file, pos, skip) != []
    ensures var chain := HeaderChain(file, pos, skip);
      !HeaderFits(file, NextHeader(file, chain[|chain| - 1], skip))
    decreases |file| - pos
  {
    var next := NextHeader(file, pos, skip);
    if HeaderFits(file, next) {
      ChainEnds(file, next, skip);
    }
  }

  /** Headers of the chain are in increasing order and never overlap. */
  lemma {:induction false} ChainIncreasing(file: seq<Byte>, pos: nat, skip: Word -> nat, i: nat, j: nat)
    requires i < j < |HeaderChain(file, pos, skip)|
    ensures var chain := HeaderChain(file, pos, skip);
      chain[i] + HeaderSize <= chain[j]
    decreases i
  {
    var next := NextHeader(file, pos, skip);
    if i > 0 {
      ChainIncreasing(file, next, skip, i - 1, j - 1);
    }
  }

  /**
   * A description of the walk that does not run it: `chain` lists header
   * positions starting at 0, each header fits, each is followed by the one its
   * payload size points to, and the header after the last does not fit.
   */
  ghost predicate IsHeaderChain(file: seq<Byte>, skip: Word -> nat, chain: seq<nat>)
  {
    && (chain == [] ==> !HeaderFits(file, 0))
    && (chain != [] ==> chain[0] == 0)
    && (forall i :: 0 <= i < |chain| ==> HeaderFits(file, chain[i]))
    && (forall i :: 0 <= i < |chain| - 1 ==>
          HeaderFits(file, chain[i]) && chain[i + 1] == NextHeader(file, chain[i], skip))
    && (chain != [] ==>
          HeaderFits(file, chain[|chain| - 1]) && !HeaderFits(file, NextHeader(file, chain[|chain| - 1], skip)))
  }

  lemma {:induction false} ChainFrom(file: seq<Byte>, skip: Word -> nat, chain: seq<nat>, k: nat)
    requires IsHeaderChain(file, skip, chain)
    requires k < |chain|
    ensures HeaderChain(file, chain[k], skip) == chain[k..]
    decreases |chain| - k
  {
    if k + 1 < |chain| {
      ChainFrom(file, skip, chain, k + 1);
      assert chain[k..] == [chain[k]] + chain[k + 1..];
    } else {
      assert chain[k..] == [chain[k]];
    }
  }

  /** HeaderChain is the one and only sequence that IsHeaderChain describes. */
  lemma {:induction false} HeaderChainCharacterised(file: seq<Byte>, skip: Word -> nat, chain: seq<nat>)
    ensures IsHeaderChain(file, skip, chain) <==> chain == HeaderChain(file, 0, skip)
  {
    var walk := HeaderChain(file, 0, skip);
    if IsHeaderChain(file, skip, chain) && chain != [] {
      ChainFrom(file, skip, chain, 0);
      assert chain[0..] == chain;
    }
    if walk != [] {
      forall i | 0 <= i < |walk| - 1
        ensures HeaderFits(file, walk[i]) && walk[i + 1] == NextHeader(file, walk[i], skip)
      {
        ChainLinks(file, 0, skip, i);
      }
      ChainEnds(file, 0, skip);
    }
  }

  /**
   * The walk reads only the payload byte counts of the headers it visits:
   * two files of the same length that agree on those four bytes of every
   * header have the same chain, whatever their other bytes (atom counts,
   * simulation times, payloads) hold.
   */
  lemma {:induction false} ChainReadsOnlySizes(f: seq<Byte>, g: seq<Byte>, pos: nat, skip: Word -> nat)
    requires |f| == |g|
    requires forall p :: p in HeaderChain(f, pos, skip) ==>
      f[p + SizeOffset .. p + HeaderSize] == g[p + SizeOffset .. p + HeaderSize]
    ensures HeaderChain(f, pos, skip) == HeaderChain(g, pos, skip)
    decreases |f| - pos
  {
    if HeaderFits(f, pos) {
      assert pos in HeaderChain(f, pos, skip);
      assert PayloadSizeAt(f, pos) == PayloadSizeAt(g, pos);
      var next := NextHeader(f, pos, skip);
      assert next == NextHeader(g, pos, skip);
      assert forall p :: p in HeaderChain(f, next, skip) ==> p in HeaderChain(f, pos, skip);
      ChainReadsOnlySizes(f, g, next, skip);
    }
  }

  /**
   * `fread(header, 92, 1, xtc)` at stream position `pos`: copies the bytes
   * that are there into `header` and succeeds only when all 92 were there.
   * The stream position moves past what was read.
   */
  method ReadHeader(header: array<Byte>, file: seq<Byte>, pos: nat) returns (ok: bool, newPos: nat)
    requires header.Length == HeaderSize
    modifies header
    ensures ok <==> HeaderFits(file, pos)
    ensures forall i :: 0 <= i < HeaderSize ==>
      header[i] == if pos + i < |file| then file[pos + i] else old(header[i])
    ensures ok ==> header[..] == file[pos .. pos + HeaderSize]
    ensures newPos == if ok then pos + HeaderSize else if pos < |file| then |file| else pos
  {
    forall i | 0 <= i < HeaderSize && pos + i < |file| {
      header[i] := file[pos + i];
    }
    ok := HeaderFits(file, pos);
    newPos := if ok then pos + HeaderSize else if pos < |file| then |file| else pos;
  }

  /** The fields of a header read into a buffer are those of the header in the file. */
  lemma HeaderFields(header: seq<Byte>, file: seq<Byte>, pos: nat)
    requires HeaderFits(file, pos) && header == file[pos .. pos + HeaderSize]
    ensures U4FromBuffer(header[AtomsOffset .. AtomsOffset + 4]) == AtomCountAt(file, pos)
    ensures U4FromBuffer(header[SizeOffset .. HeaderSize]) == PayloadSizeAt(file, pos)
  {
    assert header[AtomsOffset .. AtomsOffset + 4] == file[pos + AtomsOffset .. pos + AtomsOffset + 4];
    assert header[SizeOffset .. HeaderSize] == file[pos + SizeOffset .. pos + HeaderSize];
  }

  /**
   * `get_xtc_num_frames`.  `fopenSucceeds` says whether `fopen` succeeded;
   * `nframesIn` and `natomsIn` are what `*nframes` and `*natoms` held before
   * the call, returned unchanged when the function fails before writing them.
   *
   * Returns -1 when the file cannot be opened or holds less than one whole
   * header.  Otherwise returns 0, the atom count of the FIRST header, and the
   * number of headers the walk reads.
   */
  method GetXtcNumFrames(fopenSucceeds: bool, file: seq<Byte>, skip: Word -> nat, nframesIn: int, natomsIn: Word)
    returns (status: int, nframes: int, natoms: Word)
    ensures status == 0 || status == -1
    ensures status == -1 <==> !fopenSucceeds || !HeaderFits(file, 0)
    ensures status == -1 ==> nframes == nframesIn && natoms == natomsIn
    ensures status == 0 ==> natoms == AtomCountAt(file, 0)
    ensures status == 0 ==> nframes == |HeaderChain(file, 0, skip)|
    ensures status == 0 ==> 1 <= nframes && nframes * HeaderSize <= |file|
  {
    nframes, natoms := nframesIn, natomsIn;
    if !fopenSucceeds {
      return -1, nframes, natoms;
    }
    var header := new Byte[HeaderSize];
    var ok, pos := ReadHeader(header, file, 0);
    if !ok {
      return -1, nframes, natoms;
    }
    HeaderFields(header[..], file, 0);
    natoms := U4FromBuffer(header[AtomsOffset .. AtomsOffset + 4]);
    var frameSize := U4FromBuffer(header[SizeOffset .. HeaderSize]);
    nframes := 1;
    ghost var start: nat := 0;
    while true
      invariant HeaderFits(file, start) && pos == start + HeaderSize
      invariant frameSize == PayloadSizeAt(file, start)
      invariant 1 <= nframes
      invariant nframes + |HeaderChain(file, NextHeader(file, start, skip), skip)| == |HeaderChain(file, 0, skip)|
      decreases |file| - pos
    {
      pos := pos + skip(frameSize);
      ghost var next := pos;
      assert next == NextHeader(file, start, skip);
      ok, pos := ReadHeader(header, file, pos);
      if !ok {
        break;
      }
      HeaderFields(header[..], file, next);
      frameSize := U4FromBuffer(header[SizeOffset .. HeaderSize]);
      ChainStep(file, next, skip, NextHeader(file, next, skip));
      nframes := nframes + 1;
      start := next;
    }
    status := 0;
  }
}
