/**
 * How far the walker seeks past a frame's payload.
 *
 * In XDR a variable-length opaque is followed by zero bytes up to the next
 * multiple of four (RFC 4506 section 4.10), so the payload of an XTC frame
 * with byte count `n` occupies RoundUp4(n) bytes.  xtc-length.c computes the
 * skip as `(frame_size + 3) & ~4` on `uint32_t`.  That mask clears bit 2
 * only, so the result is not a round-up: `MaskSkip` is the expression as
 * written, `RoundUp4` the round-up its comment describes, and the lemmas
 * below say exactly where the two agree.
 */
module Padding {
  import opened Xdr

  /** The skip expression of the source, on 32-bit words: `(frame_size + 3) & ~4`. */
  function MaskSkip(frameSize: Word): Word
  {
    (frameSize + 3) & !(4 as Word)
  }

  /** The number of bytes the source seeks past a payload of `frameSize` bytes. */
  function AsWrittenSkip(frameSize: Word): nat
  {
    Value(MaskSkip(frameSize))
  }

  /** Round `n` up to the next multiple of 4 (a multiple of 4 stays as it is). */
  function RoundUp4(n: nat): (r: nat)
    ensures r % 4 == 0
    ensures n <= r < n + 4
    ensures n % 4 == 0 ==> r == n
  {
    n + (4 - n % 4) % 4
  }

  /** RoundUp4(n) is the least multiple of 4 that is at least `n`. */
  lemma RoundUp4IsLeast(n: nat, m: nat)
    requires m % 4 == 0 && n <= m
    ensures RoundUp4(n) <= m
  {
  }

  /** The bytes an XDR opaque of `frameSize` bytes occupies: the skip the source means to take. */
  function IntendedSkip(frameSize: Word): nat
  {
    RoundUp4(Value(frameSize))
  }

  /** The skip of the intended padding: a multiple of 4 covering the payload and fewer than 4 bytes more. */
  lemma IntendedSkipCoversPayload(frameSize: Word)
    ensures IntendedSkip(frameSize) % 4 == 0
    ensures Value(frameSize) <= IntendedSkip(frameSize) < Value(frameSize) + 4
  {
  }

  // Clearing bit 2 of a word, byte by byte: only the least significant byte changes.

  lemma ClearBit2Bytes(y: Word)
    ensures Octet(y & !(4 as Word), 0) == Octet(y, 0)
    ensures Octet(y & !(4 as Word), 1) == Octet(y, 1)
    ensures Octet(y & !(4 as Word), 2) == Octet(y, 2)
    ensures Octet(y & !(4 as Word), 3) == Octet(y, 3) & !(4 as Byte)
  {
  }

  lemma ClearBit2Byte(a: Byte)
    ensures (a & !(4 as Byte)) as int == if a as int / 4 % 2 == 1 then a as int - 4 else a as int
  {
  }

  lemma ClearBit2Arith(v: nat, w: nat, high: nat, low: nat, cleared: nat)
    requires low < 0x100
    requires v == 0x100 * high + low && w == 0x100 * high + cleared
    requires cleared == if low / 4 % 2 == 1 then low - 4 else low
    ensures w == if v / 4 % 2 == 1 then v - 4 else v
  {
    var q := 0x40 * high + low / 4;
    QuotientOf4(v, q, low % 4);
    ParityAfterEven(0x20 * high, low / 4);
  }

  lemma QuotientOf4(a: int, q: int, r: int)
    requires a == 4 * q + r && 0 <= r < 4
    ensures a / 4 == q
  {
  }

  lemma ParityAfterEven(k: nat, m: nat)
    ensures (2 * k + m) % 2 == m % 2
  {
  }

  /** The bytes of `y` above the least significant one, as a number. */
  function High(y: Word): nat
  {
    Octet(y, 0) as int * 0x1_0000 + Octet(y, 1) as int * 0x100 + Octet(y, 2) as int
  }

  lemma ValueSplit(y: Word)
    ensures Value(y) == 0x100 * High(y) + Octet(y, 3) as int
  {
  }

  /** Clearing bit 2 subtracts 4 when that bit is set and changes nothing otherwise. */
  lemma {:induction false} ClearBit2Value(y: Word)
    ensures Value(y & !(4 as Word)) == if Value(y) / 4 % 2 == 1 then Value(y) - 4 else Value(y)
  {
    ClearBit2Steps(y, y & !(4 as Word));
  }

  lemma ClearBit2Steps(y: Word, z: Word)
    requires z == y & !(4 as Word)
    ensures Value(z) == if Value(y) / 4 % 2 == 1 then Value(y) - 4 else Value(y)
  {
    ClearBit2Low(y, z);
    ValueSplit(y);
    ValueSplit(z);
    ClearBit2Arith(Value(y), Value(z), High(y), Octet(y, 3) as int, Octet(z, 3) as int);
  }

  lemma ClearBit2Low(y: Word, z: Word)
    requires z == y & !(4 as Word)
    ensures High(z) == High(y)
    ensures var low := Octet(y, 3) as int;
      Octet(z, 3) as int == if low / 4 % 2 == 1 then low - 4 else low
  {
    ClearBit2Bytes(y);
    ClearBit2Byte(Octet(y, 3));
  }

  lemma MaskSteps(s: Word, y: Word, z: Word)
    requires y == s + 3 && z == y & !(4 as Word)
    ensures var x := (Value(s) + 3) % WordModulus;
      Value(z) == if x / 4 % 2 == 1 then x - 4 else x
  {
    ValueAdd3(s);
    ClearBit2Value(y);
  }

  /**
   * What the source's skip is, in numbers: `frame_size + 3` wrapped to 32
   * bits, less 4 exactly when bit 2 of that sum is set.
   */
  lemma {:induction false} AsWrittenSkipValue(frameSize: Word)
    ensures var x := (Value(frameSize) + 3) % WordModulus;
      AsWrittenSkip(frameSize) == if x / 4 % 2 == 1 then x - 4 else x
  {
    MaskSteps(frameSize, frameSize + 3, MaskSkip(frameSize));
  }

  lemma MaskAgainstRoundUp(v: nat)
    requires v + 3 < WordModulus
    ensures var x := v + 3;
      (if x / 4 % 2 == 1 then x - 4 else x) == RoundUp4(v) <==> v % 8 == 5
  {
    var q, r := v / 8, v % 8;
    assert v == 8 * q + r;
    assert (v + 3) / 4 == 2 * q + (r + 3) / 4;
    assert (v + 3) / 4 % 2 == (r + 3) / 4 % 2;
    assert v % 4 == r % 4;
  }

  /**
   * The source's skip equals the intended round-up exactly for payload sizes
   * that are 5 modulo 8 and do not wrap when 3 is added; for every other
   * size the walker seeks to the wrong place.
   */
  lemma {:induction false} AsWrittenSkipAgreesIff(frameSize: Word)
    ensures AsWrittenSkip(frameSize) == IntendedSkip(frameSize)
        <==> Value(frameSize) % 8 == 5 && Value(frameSize) + 3 < WordModulus
  {
    AsWrittenSkipValue(frameSize);
    MaskAgreesArith(Value(frameSize), AsWrittenSkip(frameSize));
  }

  lemma MaskAgreesArith(v: nat, s: nat)
    requires v < WordModulus
    requires var x := (v + 3) % WordModulus;
      s == if x / 4 % 2 == 1 then x - 4 else x
    ensures s == RoundUp4(v) <==> v % 8 == 5 && v + 3 < WordModulus
  {
    if v + 3 < WordModulus {
      ModOfSmall(v + 3);
      MaskAgainstRoundUp(v);
    } else {
      ModOfWrapped(v + 3);
    }
  }

  /**
   * Unless the payload size is 1 modulo 4, the source's skip is not a
   * multiple of 4, so the next header it reads is not word-aligned.
   */
  lemma {:induction false} AsWrittenSkipAlignment(frameSize: Word)
    ensures AsWrittenSkip(frameSize) % 4 == (Value(frameSize) + 3) % 4
  {
    var v, s := Value(frameSize), AsWrittenSkip(frameSize);
    var x := (v + 3) % WordModulus;
    assert s == if x / 4 % 2 == 1 then x - 4 else x by {
      AsWrittenSkipValue(frameSize);
    }
    AlignmentArith(v, s);
  }

  lemma AlignmentArith(v: nat, s: nat)
    requires v < WordModulus
    requires var x := (v + 3) % WordModulus;
      s == if x / 4 % 2 == 1 then x - 4 else x
    ensures s % 4 == (v + 3) % 4
  {
    ClearBit2Mod4((v + 3) % WordModulus);
    WrapKeepsMod4(v + 3);
  }

  /** Reducing modulo 2^32 keeps the residue modulo 4, since 4 divides 2^32. */
  lemma WrapKeepsMod4(n: nat)
    ensures n % WordModulus % 4 == n % 4
  {
    var q, r := n / WordModulus, n % WordModulus;
    assert n == 4 * (0x4000_0000 * q) + r;
    Mod4OfMultiplePlus(0x4000_0000 * q, r);
  }

  lemma Mod4OfMultiplePlus(k: int, r: int)
    ensures (4 * k + r) % 4 == r % 4
  {
  }

  lemma ClearBit2Mod4(x: nat)
    ensures (if x / 4 % 2 == 1 then x - 4 else x) % 4 == x % 4
  {
  }

  /** The sizes of the padding table: the source's skip against the intended one. */
  lemma SkipTable()
    ensures AsWrittenSkip(0) == 3 && IntendedSkip(0) == 0
    ensures AsWrittenSkip(1) == 0 && IntendedSkip(1) == 4
    ensures AsWrittenSkip(2) == 1 && IntendedSkip(2) == 4
    ensures AsWrittenSkip(3) == 2 && IntendedSkip(3) == 4
    ensures AsWrittenSkip(4) == 3 && IntendedSkip(4) == 4
    ensures AsWrittenSkip(5) == 8 && IntendedSkip(5) == 8
    ensures AsWrittenSkip(8) == 11 && IntendedSkip(8) == 8
  {
    SkipAt(0, 3, 0);
    SkipAt(1, 0, 4);
    SkipAt(2, 1, 4);
    SkipAt(3, 2, 4);
    SkipAt(4, 3, 4);
    SkipAt(5, 8, 8);
    SkipAt(8, 11, 8);
  }

  lemma SkipAt(n: Word, asWritten: Word, intended: nat)
    requires n < 0x100 && asWritten < 0x100
    requires MaskSkip(n) == asWritten && intended == RoundUp4(Octet(n, 3) as int)
    ensures AsWrittenSkip(n) == Octet(asWritten, 3) as int && IntendedSkip(n) == intended
  {
    SmallWord(n);
    SmallWord(asWritten);
  }

  lemma SmallWord(x: Word)
    requires x < 0x100
    ensures Value(x) == Octet(x, 3) as int
  {
    assert Octet(x, 0) == 0 && Octet(x, 1) == 0 && Octet(x, 2) == 0;
  }
}
