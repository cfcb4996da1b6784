/** The 64-bit register reader of the decompressor and its view as a bit sequence with a position. */
module BitReader {
  import opened Bits
  import opened Bytes
  import opened Words
  import opened Golomb

  datatype BitStatus = Overflow | EndOfBuffer | AllReadIn | Unfinished

  function ZeroBytes(n: nat): (z: seq<byte>)
    ensures |z| == n && forall i :: 0 <= i < n ==> z[i] == 0
  {
    seq(n, i => 0)
  }

  lemma {:induction false} ZeroBytesBits(n: nat)
    ensures BytesBits(ZeroBytes(n)) == Zeros(8 * n)
  {
    if n > 0 {
      ZeroBytesBits(n - 1);
      assert ZeroBytes(n)[1..] == ZeroBytes(n - 1);
      ToBitsZero(8);
      assert Zeros(8 * n) == Zeros(8) + Zeros(8 * (n - 1));
    } else {
      assert Zeros(0) == [];
    }
  }

  /** A buffer shorter than the register, filled up with leading zero bytes. */
  function Padded(buf: seq<byte>): (p: seq<byte>)
    ensures |p| >= 8 && |p| >= |buf|
  {
    if |buf| >= 8 then buf else ZeroBytes(8 - |buf|) + buf
  }

  /** The register after the consumed bits were shifted out; the count is masked. */
  function Shifted(container: nat, consumed: nat): (b: seq<bool>)
    ensures |b| == 64
  {
    ToBits(Shl64(container, consumed % 64), 64)
  }

  /** The top nbBits bits of the shifted register. */
  function Peek(container: nat, consumed: nat, nbBits: nat): (v: nat)
    requires 1 <= nbBits <= 57
  {
    Shr(Shl64(container, consumed % 64), 64 - nbBits)
  }

  /** struct bit_decoder */
  class BitDecoder {
    var bitContainer: nat
    var bitsConsumed: nat
    var cursor: nat
    const limit: nat
    const buf: seq<byte>

    ghost predicate Valid()
      reads this`cursor, this`bitContainer
    {
      && cursor <= limit == |Padded(buf)| - 8
      && bitContainer < W64
      && ToBits(bitContainer, 64) == BytesBits(Padded(buf)[cursor..cursor + 8])
    }

    /** All bits, with the leading zeros of a short buffer. */
    ghost function Stream(): (b: seq<bool>)
      ensures |b| == 8 * |Padded(buf)|
    {
      BytesBits(Padded(buf))
    }

    /** The absolute position in Stream(). */
    function Pos(): nat
      reads this
    {
      8 * cursor + bitsConsumed
    }

    /** The bits that are not read yet. */
    ghost function Rest(): (b: seq<bool>)
      reads this
    {
      if Pos() <= |Stream()| then Stream()[Pos()..] else []
    }

    /** The register holds at least 57 unread bits, or all that are left. */
    ghost predicate Filled()
      reads this
    {
      Valid() && bitsConsumed <= 64 && (cursor == limit || bitsConsumed <= 7)
    }

    /** bit_init_decoder */
    constructor (b: seq<byte>)
      ensures Filled() && buf == b && Rest() == BytesBits(b)
    {
      buf := b;
      cursor := 0;
      if |b| < 1 {
        bitsConsumed := 64;
        bitContainer := 0;
        limit := 0;
        EmptyRegister(b);
      } else if |b| >= 8 {
        bitsConsumed := 0;
        bitContainer := Read64Be(b, 0);
        limit := |b| - 8;
        Read64Bits(b, 0);
      } else {
        bitsConsumed := (8 - |b|) * 8;
        bitContainer := ShortRegister(b);
        limit := 0;
        ShortRegisterBits(b);
      }
    }

    /** bit_peek_bits */
    function PeekBits(nbBits: nat): (v: nat)
      requires 1 <= nbBits <= 57
      reads this
    {
      Peek(bitContainer, bitsConsumed, nbBits)
    }

    /** bit_peek_leading_ones; the count of a register full of ones is 64. */
    function PeekLeadingOnes(): (n: nat)
      reads this
      ensures n == LeadingOnes(Shifted(bitContainer, bitsConsumed)) <= 64
    {
      var remainingFlip := NotBits(Shifted(bitContainer, bitsConsumed));
      NotNot(Shifted(bitContainer, bitsConsumed));
      LeadingZeros(remainingFlip)
    }

    /** bit_consume_bits */
    method ConsumeBits(nbBits: nat)
      modifies this`bitsConsumed
      ensures bitsConsumed == old(bitsConsumed) + nbBits
    {
      bitsConsumed := bitsConsumed + nbBits;
    }

    /** bit_read_bits32 */
    method ReadBits32(nbBits: nat) returns (v: word32)
      requires 1 <= nbBits <= 32
      modifies this`bitsConsumed
      ensures v == old(PeekBits(nbBits))
      ensures bitsConsumed == old(bitsConsumed) + nbBits
    {
      PeekFits(Shl64(bitContainer, bitsConsumed % 64), nbBits);
      v := PeekBits(nbBits);
      ConsumeBits(nbBits);
    }

    /** bit_read_bits32_sub_1 */
    method ReadBits32Sub1(nbBits: nat) returns (v: word32)
      requires 1 <= nbBits <= 32
      modifies this`bitsConsumed
      ensures v == Sub1(old(bitContainer), old(bitsConsumed), nbBits)
      ensures bitsConsumed == old(bitsConsumed) + nbBits
    {
      v := Sub1(bitContainer, bitsConsumed, nbBits);
      ConsumeBits(nbBits);
    }

    /** bit_refill: the position never moves, and afterwards the register is filled
        unless more was consumed than it held, in which case nothing changes. */
    method Refill() returns (status: BitStatus)
      requires Valid()
      modifies this
      ensures Valid() && Pos() == old(Pos()) && Rest() == old(Rest())
      ensures status == Overflow <==> old(bitsConsumed) > 64
      ensures status == Overflow ==> bitsConsumed == old(bitsConsumed) && cursor == old(cursor)
      ensures status != Overflow ==> Filled()
      ensures status == Unfinished ==> 64 - bitsConsumed >= 57 && Pos() + 64 < |Stream()| + bitsConsumed
      ensures status == AllReadIn <==> old(bitsConsumed) <= 64 && Pos() == |Stream()|
      ensures status == EndOfBuffer ==> cursor == limit && Pos() < |Stream()|
    {
      hide BytesBits, ToBits, Read64Be;
      var bytesConsumed := bitsConsumed / 8;
      if bitsConsumed > 64 { return Overflow; }
      if cursor + bytesConsumed < limit {
        cursor := cursor + bytesConsumed;
        bitContainer := Read64Be(buf, cursor);
        bitsConsumed := bitsConsumed % 8;
        Read64Bits(buf, cursor);
        return Unfinished;
      }
      if cursor == limit {
        if bitsConsumed == 64 { return AllReadIn; }
        return EndOfBuffer;
      }
      bitsConsumed := bitsConsumed - (limit - cursor) * 8;
      cursor := limit;
      bitContainer := Read64Be(buf, cursor);
      Read64Bits(buf, cursor);
      return EndOfBuffer;
    }

    /** The unread register bits are the front of the unread bits. */
    lemma {:induction false} RegisterIsRest()
      requires Valid() && bitsConsumed <= 64
      ensures 64 - bitsConsumed <= |Rest()|
      ensures ToBits(bitContainer, 64)[bitsConsumed..] == Rest()[..64 - bitsConsumed]
      ensures Filled() ==> 64 - bitsConsumed >= 57 || 64 - bitsConsumed == |Rest()|
    {
      BytesBitsSlice(Padded(buf), cursor, cursor + 8);
    }

    lemma {:induction false} RestIsSuffix()
      requires Filled()
      ensures Pos() <= |Stream()| && Rest() == Stream()[Pos()..]
    {
    }

    /** After j more consumed bits, shifting shows the following unread bits. */
    lemma {:induction false} ShiftedIsRest(j: nat, n: nat)
      requires Valid() && 1 <= n && bitsConsumed + j + n <= 64
      ensures j + n <= |Rest()|
      ensures Shifted(bitContainer, bitsConsumed + j)[..n] == Rest()[j..j + n]
    {
      RegisterIsRest();
      hide ToBits, BytesBits, Valid, Rest, Shifted;
      var c, reg := bitsConsumed + j, ToBits(bitContainer, 64);
      ShiftedBits(bitContainer, c, n);
      SliceOfPrefix(reg[bitsConsumed..], Rest(), 64 - bitsConsumed, j, j + n);
      assert reg[bitsConsumed..][j..j + n] == reg[c..c + n];
    }

    /** Peeking gives the next bits as a number. */
    lemma {:induction false} PeekIsNext(j: nat, n: nat)
      requires Valid() && 1 <= n <= 57 && bitsConsumed + j + n <= 64
      ensures j + n <= |Rest()| && Peek(bitContainer, bitsConsumed + j, n) == Val(Rest()[j..j + n])
    {
      hide *;
      ShiftedIsRest(j, n);
      PeekValue(bitContainer, bitsConsumed + j, n);
    }

    /** Peeking one bit past the register still gives the bits before it. */
    lemma {:induction false} PeekHalf(j: nat, n: nat)
      requires Valid() && 1 <= n <= 56 && bitsConsumed + j + n <= 64
      ensures j + n <= |Rest()| && Peek(bitContainer, bitsConsumed + j, n + 1) / 2 == Val(Rest()[j..j + n])
    {
      hide *;
      ShiftedIsRest(j, n);
      PeekValue(bitContainer, bitsConsumed + j, n + 1);
      HalfVal(Shifted(bitContainer, bitsConsumed + j), n);
    }
  }

  //// Register lemmas

  lemma {:induction false} ShiftedBits(container: nat, c: nat, n: nat)
    requires c < 64 && c + n <= 64
    ensures Shifted(container, c)[..n] == ToBits(container, 64)[c..c + n]
  {
    hide ToBits;
    assert c % 64 == c && Shl64(container, c) == Shl(container, c, 64);
    ShlBits(container, c, 64);
  }

  lemma {:induction false} SliceOfPrefix(a: seq<bool>, b: seq<bool>, n: nat, i: nat, j: nat)
    requires i <= j <= n <= |b| && a == b[..n]
    ensures a[i..j] == b[i..j]
  {
  }

  lemma {:induction false} HalfVal(b: seq<bool>, n: nat)
    requires n + 1 <= |b|
    ensures Val(b[..n + 1]) / 2 == Val(b[..n])
  {
    assert b[..n + 1][..n] == b[..n];
  }

  function Read64Be(buf: seq<byte>, at: nat): (v: nat)
    requires at + 8 <= |buf|
    ensures v < W64
  {
    Pow2Values();
    BigEndian(buf[at..at + 8])
  }

  lemma {:induction false} Read64Bits(buf: seq<byte>, at: nat)
    requires at + 8 <= |buf|
    ensures ToBits(Read64Be(buf, at), 64) == BytesBits(buf[at..at + 8])
  {
    ToBitsBigEndian(buf[at..at + 8]);
  }

  lemma {:induction false} NotNot(b: seq<bool>)
    ensures NotBits(NotBits(b)) == b
  {
  }

  lemma {:induction false} EmptyRegister(b: seq<byte>)
    requires b == []
    ensures ToBits(0, 64) == BytesBits(Padded(b)[0..8]) && BytesBits(Padded(b))[64..] == BytesBits(b)
  {
    assert Padded(b) == Padded(b)[0..8] == ZeroBytes(8);
    ZeroBytesBits(8);
    ToBitsZero(64);
  }

  /** The top n bits of a 64-bit word. */
  lemma {:induction false} TopBits(x: nat, n: nat)
    requires x < W64 && n <= 64
    ensures Shr(x, 64 - n) == Val(ToBits(x, 64)[..n])
  {
    Pow2Values();
    ShrBound(x, 64 - n, 64);
    hide Pow2, Shr, ToBits;
    ToBitsSplit(x, n, 64 - n);
    ValToBits(Shr(x, 64 - n), n);
    SmallMod(Shr(x, 64 - n), Pow2(n));
  }

  lemma {:induction false} PeekValue(container: nat, consumed: nat, n: nat)
    requires 1 <= n <= 57
    ensures Peek(container, consumed, n) == Val(Shifted(container, consumed)[..n])
  {
    hide Shl64, ToBits, Shr;
    TopBits(Shl64(container, consumed % 64), n);
  }

  lemma {:induction false} PeekFits(x: nat, n: nat)
    requires x < W64 && n <= 32
    ensures Shr(x, 64 - n) < W32
  {
    Pow2Values();
    ShrBound(x, 64 - n, 64);
    Pow2Mono(n, 32);
  }

  /** bit_read_bits32_sub_1 on the register: the shift count is masked and the
      result is reduced to the read width after the subtraction. */
  function Sub1(container: nat, consumed: nat, nbBits: nat): (v: word32)
    requires 1 <= nbBits <= 32
  {
    var shiftBits := (64 - consumed - nbBits) % 64;
    DivModParts(Shr(container, shiftBits), W32);
    var bitsUnmask: word32 := Shr(container, shiftBits) % W32;
    LowMaskFits(nbBits);
    And32(Sub32(bitsUnmask, 1), Pow2(nbBits) - 1)
  }

  lemma {:induction false} LowMaskFits(n: nat)
    requires n <= 32
    ensures Pow2(n) <= W32
  {
    Pow2Mono(n, 32);
    Pow2Values();
  }

  //// The register of a short buffer

  function U64(x: byte): nat { x }

  /** The bytes in the top of the register, in the order of the fall-through
      switch, then shifted down behind the consumed bits. */
  function ShortRegister(b: seq<byte>): (v: nat)
    requires 1 <= |b| < 8
  {
    var c := U64(b[0]) * 0x100_0000_0000_0000
      + (if |b| >= 7 then U64(b[6]) * 0x100 else 0)
      + (if |b| >= 6 then U64(b[5]) * 0x1_0000 else 0)
      + (if |b| >= 5 then U64(b[4]) * 0x100_0000 else 0)
      + (if |b| >= 4 then U64(b[3]) * 0x1_0000_0000 else 0)
      + (if |b| >= 3 then U64(b[2]) * 0x100_0000_0000 else 0)
      + (if |b| >= 2 then U64(b[1]) * 0x1_0000_0000_0000 else 0);
    Shr(c, (8 - |b|) * 8)
  }

  /** One more byte at the end. */
  lemma {:induction false} BigEndianStep(s: seq<byte>)
    requires s != []
    ensures BigEndian(s) == BigEndian(s[..|s| - 1]) * 256 + s[|s| - 1]
  {
    var a, z := s[..|s| - 1], [s[|s| - 1]];
    assert s == a + z;
    BytesBitsConcat(a, z);
    ValConcat(BytesBits(a), BytesBits(z));
    assert z[1..] == [];
    assert BytesBits(z) == ToBits(s[|s| - 1], 8);
    ValToBits(s[|s| - 1], 8);
    Pow2Values();
    SmallMod(s[|s| - 1], 256);
  }

  lemma {:induction false} BigEndian8(s: seq<byte>)
    requires |s| == 8
    ensures BigEndian(s) == U64(s[0]) * 0x100_0000_0000_0000 + U64(s[1]) * 0x1_0000_0000_0000
      + U64(s[2]) * 0x100_0000_0000 + U64(s[3]) * 0x1_0000_0000 + U64(s[4]) * 0x100_0000 + U64(s[5]) * 0x1_0000
      + U64(s[6]) * 0x100 + s[7]
  {
    hide BigEndian;
    BigEndian4(s[..4]);
    BigEndianStep(s);
    BigEndianStep(s[..7]);
    BigEndianStep(s[..6]);
    BigEndianStep(s[..5]);
    assert s[..7][..6] == s[..6] && s[..6][..5] == s[..5] && s[..5][..4] == s[..4];
  }

  lemma {:induction false} BigEndian4(s: seq<byte>)
    requires |s| == 4
    ensures BigEndian(s) == U64(s[0]) * 0x100_0000 + U64(s[1]) * 0x1_0000 + U64(s[2]) * 0x100 + s[3]
  {
    assert BigEndian([]) == 0;
    hide BigEndian;
    BigEndianStep(s);
    BigEndianStep(s[..3]);
    BigEndianStep(s[..2]);
    BigEndianStep(s[..1]);
    assert s[..3][..2] == s[..2] && s[..2][..1] == s[..1] && s[..1][..0] == [];
  }

  lemma {:induction false} ShortRegisterBits(b: seq<byte>)
    requires 1 <= |b| < 8
    ensures ShortRegister(b) < W64
    ensures ToBits(ShortRegister(b), 64) == BytesBits(Padded(b)[0..8])
    ensures BytesBits(Padded(b))[8 * (8 - |b|)..] == BytesBits(b)
  {
    hide BigEndian, ToBits, Pow2, Shr, BytesBits;
    var gap := 8 - |b|;
    var x := b + ZeroBytes(gap);
    BigEndian8(x);
    assert ShortRegister(b) == Shr(BigEndian(x), 8 * gap);
    ToBitsBigEndian(x);
    BytesBitsConcat(b, ZeroBytes(gap));
    ZeroBytesBits(gap);
    BytesBitsConcat(ZeroBytes(gap), b);
    Pow2Values();
    ShrBits(BigEndian(x), 8 * gap, 64);
    ShrBound(BigEndian(x), 8 * gap, 64);
    LowMaskFits64(64 - 8 * gap);
    assert Padded(b)[0..8] == Padded(b);
  }

  lemma {:induction false} LowMaskFits64(n: nat)
    requires n <= 64
    ensures Pow2(n) <= W64
  {
    Pow2Mono(n, 64);
    Pow2Values();
  }
}
