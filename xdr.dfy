/**
 * XDR unsigned integers (RFC 4506 section 4.2): a 32-bit word stored as four
 * bytes, most significant byte first.  This is how every integer field of an
 * XTC frame header is laid out, and `u4_from_buffer` in xtc-length.c is its
 * decoder.
 *
 * Words are `bv32`, so `+` on them wraps modulo 2^32 exactly as `uint32_t`
 * arithmetic does in C.  The number a word stands for is `Value`, read off
 * its four bytes; all reasoning between words and integers goes byte by byte.
 */
module Xdr {

  /** A byte of the file (`uint8_t`). */
  type Byte = bv8

  /** An unsigned 32-bit word (`uint32_t`). */
  type Word = bv32

  const WordModulus: nat := 0x1_0000_0000

  /** Byte `k` of `x` in big-endian order: byte 0 is the most significant. */
  function Octet(x: Word, k: nat): Byte
    requires k < 4
  {
    if k == 0 then ((x >> 24) & 0xff) as Byte
    else if k == 1 then ((x >> 16) & 0xff) as Byte
    else if k == 2 then ((x >> 8) & 0xff) as Byte
    else (x & 0xff) as Byte
  }

  /** The unsigned integer that four bytes denote, most significant first. */
  function BigEndian(b0: Byte, b1: Byte, b2: Byte, b3: Byte): nat
  {
    b0 as int * 0x100_0000 + b1 as int * 0x1_0000 + b2 as int * 0x100 + b3 as int
  }

  /** The unsigned integer that the word `x` stands for. */
  function Value(x: Word): (n: nat)
    ensures n < WordModulus
  {
    ByteBound(Octet(x, 0));
    ByteBound(Octet(x, 1));
    ByteBound(Octet(x, 2));
    ByteBound(Octet(x, 3));
    BigEndian(Octet(x, 0), Octet(x, 1), Octet(x, 2), Octet(x, 3))
  }

  lemma ByteBound(a: Byte)
    ensures a as int < 0x100
  {
  }

  /** `u4_from_buffer`: the word held big-endian in `b[0..4]`, built with shifts and ors. */
  function U4FromBuffer(b: seq<Byte>): Word
    requires |b| >= 4
  {
    ((b[0] as Word) << 24) | ((b[1] as Word) << 16) | ((b[2] as Word) << 8) | ((b[3] as Word) << 0)
  }

  /**
   * The decoded word is the big-endian reading of the four bytes: the shifted
   * bytes never overlap, so or-ing them is adding them.  Its value is below
   * 2^32 by construction.
   */
  lemma U4FromBufferValue(b: seq<Byte>)
    requires |b| >= 4
    ensures Value(U4FromBuffer(b)) == b[0] as int * 0x100_0000 + b[1] as int * 0x1_0000 + b[2] as int * 0x100 + b[3] as int
    ensures U4FromBuffer(b) == U4FromBuffer(b[..4])
  {
    U4FromBufferOctets(b);
  }

  lemma U4FromBufferOctets(b: seq<Byte>)
    requires |b| >= 4
    ensures var r := U4FromBuffer(b);
      Octet(r, 0) == b[0] && Octet(r, 1) == b[1] && Octet(r, 2) == b[2] && Octet(r, 3) == b[3]
  {
  }

  /** The XDR encoding of a word: its four bytes, most significant first. */
  function U4ToBuffer(x: Word): (b: seq<Byte>)
    ensures |b| == 4
    ensures BigEndian(b[0], b[1], b[2], b[3]) == Value(x)
  {
    [Octet(x, 0), Octet(x, 1), Octet(x, 2), Octet(x, 3)]
  }

  /** Decoding the encoding of a word gives the word back. */
  lemma DecodeEncode(x: Word)
    ensures U4FromBuffer(U4ToBuffer(x)) == x
  {
  }

  /** Encoding a decoded word gives back exactly the four bytes it was read from. */
  lemma EncodeDecode(b: seq<Byte>)
    requires |b| >= 4
    ensures U4ToBuffer(U4FromBuffer(b)) == b[..4]
  {
    U4FromBufferOctets(b);
  }

  /** The decoded word depends on the first four bytes of the buffer and nothing else. */
  lemma U4FromBufferReadsFourBytes(b: seq<Byte>, c: seq<Byte>)
    requires |b| >= 4 && |c| >= 4
    ensures U4FromBuffer(b) == U4FromBuffer(c) <==> b[..4] == c[..4]
  {
    if U4FromBuffer(b) == U4FromBuffer(c) {
      EncodeDecode(b);
      EncodeDecode(c);
    }
  }

  // Adding one to a word, byte by byte: the carry runs through the bytes
  // that are 0xff.  Each case is its own lemma to keep the proofs small.

  lemma IncBytes(x: Word)
    ensures Octet(x, 3) != 0xff ==>
      Octet(x + 1, 0) == Octet(x, 0) && Octet(x + 1, 1) == Octet(x, 1) && Octet(x + 1, 2) == Octet(x, 2) && Octet(x + 1, 3) == Octet(x, 3) + 1
    ensures Octet(x, 3) == 0xff && Octet(x, 2) != 0xff ==>
      Octet(x + 1, 0) == Octet(x, 0) && Octet(x + 1, 1) == Octet(x, 1) && Octet(x + 1, 2) == Octet(x, 2) + 1 && Octet(x + 1, 3) == 0
    ensures Octet(x, 3) == 0xff && Octet(x, 2) == 0xff && Octet(x, 1) != 0xff ==>
      Octet(x + 1, 0) == Octet(x, 0) && Octet(x + 1, 1) == Octet(x, 1) + 1 && Octet(x + 1, 2) == 0 && Octet(x + 1, 3) == 0
    ensures Octet(x, 3) == 0xff && Octet(x, 2) == 0xff && Octet(x, 1) == 0xff && Octet(x, 0) != 0xff ==>
      Octet(x + 1, 0) == Octet(x, 0) + 1 && Octet(x + 1, 1) == 0 && Octet(x + 1, 2) == 0 && Octet(x + 1, 3) == 0
    ensures Octet(x, 3) == 0xff && Octet(x, 2) == 0xff && Octet(x, 1) == 0xff && Octet(x, 0) == 0xff ==>
      x == 0xffff_ffff && x + 1 == 0
  {
  }

  lemma ByteInc(a: Byte)
    requires a != 0xff
    ensures (a + 1) as int == a as int + 1
  {
  }

  lemma ByteFull(a: Byte)
    requires a == 0xff
    ensures a as int == 0xff
  {
  }

  lemma IncNoCarry(x: Word)
    requires Octet(x, 3) != 0xff
    ensures Value(x + 1) == Value(x) + 1
  {
    IncBytes(x);
    ByteInc(Octet(x, 3));
  }

  lemma IncCarry1(x: Word)
    requires Octet(x, 3) == 0xff && Octet(x, 2) != 0xff
    ensures Value(x + 1) == Value(x) + 1
  {
    IncBytes(x);
    ByteFull(Octet(x, 3));
    ByteInc(Octet(x, 2));
  }

  lemma IncCarry2(x: Word)
    requires Octet(x, 3) == 0xff && Octet(x, 2) == 0xff && Octet(x, 1) != 0xff
    ensures Value(x + 1) == Value(x) + 1
  {
    IncBytes(x);
    ByteFull(Octet(x, 3));
    ByteFull(Octet(x, 2));
    ByteInc(Octet(x, 1));
  }

  lemma IncCarry3(x: Word)
    requires Octet(x, 3) == 0xff && Octet(x, 2) == 0xff && Octet(x, 1) == 0xff && Octet(x, 0) != 0xff
    ensures Value(x + 1) == Value(x) + 1
  {
    IncBytes(x);
    ByteFull(Octet(x, 3));
    ByteFull(Octet(x, 2));
    ByteFull(Octet(x, 1));
    ByteInc(Octet(x, 0));
  }

  /** Below the largest word, `uint32_t` increment adds one to the value. */
  lemma {:induction false} ValueInc(x: Word)
    requires x != 0xffff_ffff
    ensures Value(x + 1) == Value(x) + 1
  {
    IncBytes(x);
    if Octet(x, 3) != 0xff {
      IncNoCarry(x);
    } else if Octet(x, 2) != 0xff {
      IncCarry1(x);
    } else if Octet(x, 1) != 0xff {
      IncCarry2(x);
    } else {
      IncCarry3(x);
    }
  }

  lemma IncThrice(x: Word)
    requires x < 0xffff_fffd
    ensures Value(x + 3) == Value(x) + 3
  {
    IncSteps(x, x + 1, x + 2, x + 3);
  }

  lemma IncSteps(x: Word, y: Word, z: Word, w: Word)
    requires y == x + 1 && z == y + 1 && w == z + 1
    requires x != 0xffff_ffff && y != 0xffff_ffff && z != 0xffff_ffff
    ensures Value(w) == Value(x) + 3
  {
    ValueInc(x);
    ValueInc(y);
    ValueInc(z);
  }

  lemma ModOfSmall(n: int)
    requires 0 <= n < WordModulus
    ensures n % WordModulus == n
  {
  }

  lemma ModOfWrapped(n: int)
    requires WordModulus <= n < 2 * WordModulus
    ensures n % WordModulus == n - WordModulus
  {
  }

  lemma Add3NoWrap(x: Word)
    requires x < 0xffff_fffd
    ensures Value(x + 3) == (Value(x) + 3) % WordModulus
  {
    IncThrice(x);
    SumBelowModulus(Value(x), Value(x + 3));
  }

  lemma SumBelowModulus(a: nat, b: nat)
    requires b == a + 3 && b < WordModulus
    ensures b == (a + 3) % WordModulus
  {
  }

  lemma Add3Wrap(x: Word)
    requires x >= 0xffff_fffd
    ensures Value(x + 3) == (Value(x) + 3) % WordModulus
  {
    var r := x + 3;
    assert r == x - 0xffff_fffd;
    assert Value(x) == WordModulus - 3 + Value(r) by {
      if x == 0xffff_fffd {
        assert r == 0;
      } else if x == 0xffff_fffe {
        assert r == 1;
      } else {
        assert r == 2;
      }
    }
    ModOfWrapped(Value(x) + 3);
  }

  /** `uint32_t` addition of 3, as `frame_size + 3` does, wraps modulo 2^32. */
  lemma {:induction false} ValueAdd3(x: Word)
    ensures Value(x + 3) == (Value(x) + 3) % WordModulus
  {
    if x < 0xffff_fffd {
      Add3NoWrap(x);
    } else {
      Add3Wrap(x);
    }
  }
}
