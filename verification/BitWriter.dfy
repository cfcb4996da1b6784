/** The big-endian bitstream writer: bits are put into memory one 32-bit word at a time. */
module BitWriter {
  import opened Bits
  import opened Bytes
  import opened Words
  import opened Golomb
  import opened Errors

  //// What a write may do to memory

  /** Bytes wholly before bit lo and bytes wholly after bit hi are the same. */
  ghost predicate SameOutside(before: seq<byte>, after: seq<byte>, lo: nat, hi: nat)
  {
    |after| == |before|
    && forall i :: 0 <= i < |before| && (8 * i + 8 <= lo || hi <= 8 * i) ==> after[i] == before[i]
  }

  /** Writing bits at bit offset start either fits below bit max, and then memory
      holds exactly these bits there, or it fails and disturbs nothing outside. */
  ghost predicate Wrote(before: seq<byte>, after: seq<byte>, start: nat, bits: seq<bool>, max: nat, r: Outcome<nat>)
  {
    if start + |bits| <= max then
      max <= 8 * |before| && after == PutBits(before, start, bits) && r == Ok(start + |bits|)
    else
      SameOutside(before, after, start, max) && r == Err(SmallBuffer)
  }

  lemma {:induction false} PutBitsSameOutside(mem: seq<byte>, off: nat, bits: seq<bool>, lo: nat, hi: nat)
    requires off + |bits| <= 8 * |mem| && lo <= off && off + |bits| <= hi
    ensures SameOutside(mem, PutBits(mem, off, bits), lo, hi)
  {
    var after := PutBits(mem, off, bits);
    forall i | 0 <= i < |mem| && (8 * i + 8 <= lo || hi <= 8 * i)
      ensures after[i] == mem[i]
    {
      PutBitsFrame(mem, off, bits, i, i + 1);
      assert after[i] == after[i..i + 1][0];
    }
  }

  /** A write that follows a successful one. */
  lemma {:induction false} WroteThen(m0: seq<byte>, m1: seq<byte>, m2: seq<byte>, start: nat,
    a: seq<bool>, b: seq<bool>, max: nat, r: Outcome<nat>)
    requires Wrote(m0, m1, start, a, max, Ok(start + |a|))
    requires Wrote(m1, m2, start + |a|, b, max, r)
    ensures Wrote(m0, m2, start, a + b, max, r)
  {
    if start + |a + b| <= max {
      PutBitsCompose(m0, start, a, b);
    } else {
      PutBitsSameOutside(m0, start, a, start, max);
    }
  }

  //// One word

  /** The word with the n low bits of value put in after its first left bits. */
  function FirstWord(w: word32, value: word32, n: nat, left: nat): word32
    requires 1 <= n <= 32 && left < 32
  {
    var shiftLeft := 32 - n;
    var mask := ShrWord(Shl32(0xFFFF_FFFF, shiftLeft), left);
    Or32(And32(w, Not32(mask)), ShrWord(Shl32(value, shiftLeft), left))
  }

  /** The word after it, which takes the bits that did not fit. */
  function SecondWord(w: word32, value: word32, bitsRight: nat): word32
    requires bitsRight < 32
  {
    var mask := Shl32(0xFFFF_FFFF, bitsRight);
    Or32(And32(w, Not32(mask)), Shl32(value, bitsRight))
  }

  function ShrWord(x: word32, k: nat): word32
  {
    ShrLe(x, k);
    Shr(x, k)
  }

  /** The n low bits of x, moved left bits to the right, in a 32-bit word. */
  function Placed(b: seq<bool>, left: nat): (p: seq<bool>)
    requires 1 <= |b| <= 32 && left < 32
    ensures |p| == 32
  {
    Zeros(left) + (b + Zeros(32 - |b|))[..32 - left]
  }

  lemma {:induction false} PlacedBits(x: word32, n: nat, left: nat)
    requires 1 <= n <= 32 && left < 32
    ensures ToBits(ShrWord(Shl32(x, 32 - n), left), 32) == Placed(ToBits(x, n), left)
  {
    hide Pow2, Shr, Shl, ToBits;
    Pow2Values();
    assert Shl32(x, 32 - n) == Shl(x, 32 - n, 32);
    ShlBits(x, 32 - n, 32);
    ToBitsSplit(x, 32 - n, n);
    ShrBits(Shl32(x, 32 - n), left, 32);
  }

  lemma {:induction false} AllOnes(n: nat)
    requires n <= 32
    ensures ToBits(0xFFFF_FFFF, n) == Ones(n)
  {
    Pow2Values();
    hide Pow2, ToBits;
    ToBitsOnes(32);
    ToBitsSplit(0xFFFF_FFFF, 32 - n, n);
    assert Ones(32)[32 - n..] == Ones(n);
  }

  lemma {:induction false} FirstWordBits(w: word32, value: word32, n: nat, left: nat)
    requires 1 <= n <= 32 && left < 32
    ensures var t := if left + n <= 32 then n else 32 - left;
      ToBits(FirstWord(w, value, n, left), 32)
      == ToBits(w, 32)[..left] + ToBits(value, n)[..t] + ToBits(w, 32)[left + t..]
  {
    hide Pow2, Shl32, ShrWord, ToBits;
    PlacedBits(0xFFFF_FFFF, n, left);
    PlacedBits(value, n, left);
    AllOnes(n);
  }

  lemma {:induction false} SecondWordBits(w: word32, value: word32, n: nat, s: nat)
    requires 1 <= s <= n <= 32
    ensures ToBits(SecondWord(w, value, 32 - s), 32) == ToBits(value, n)[n - s..] + ToBits(w, 32)[s..]
  {
    hide Pow2, Shl, ToBits;
    assert Shl32(value, 32 - s) == Shl(value, 32 - s, 32);
    assert Shl32(0xFFFF_FFFF, 32 - s) == Shl(0xFFFF_FFFF, 32 - s, 32);
    ShlBits(value, 32 - s, 32);
    ShlBits(0xFFFF_FFFF, 32 - s, 32);
    AllOnes(32);
    ToBitsSplit(value, 32 - s, s);
    ToBitsSplit(value, n - s, s);
  }

  //// One word in memory

  function LoadBe32(mem: seq<byte>, at: nat): word32
    requires at + 4 <= |mem|
  {
    Pow2Values();
    BigEndian(mem[at..at + 4])
  }

  lemma {:induction false} LoadBits(mem: seq<byte>, at: nat)
    requires at + 4 <= |mem|
    ensures ToBits(LoadBe32(mem, at), 32) == BytesBits(mem)[8 * at..8 * at + 32]
  {
    ToBitsBigEndian(mem[at..at + 4]);
    BytesBitsSlice(mem, at, at + 4);
  }

  /** Storing a word is a write of 32 bits. */
  method StoreBe32(dst: array<byte>, at: nat, w: word32)
    requires at + 4 <= dst.Length
    modifies dst
    ensures dst[..] == PutBits(old(dst[..]), 8 * at, ToBits(w, 32))
  {
    var s := ToBigEndian(w, 4);
    PutBytes(dst[..], at, s);
    CopyBytes(dst, at, s);
  }

  /** Replacing some bits of a stored word writes only these bits. */
  lemma {:induction false} PartOfWord(mem: seq<byte>, at: nat, left: nat, part: seq<bool>, word: seq<bool>)
    requires at + 4 <= |mem| && left + |part| <= 32
    requires word == BytesBits(mem)[8 * at..8 * at + 32][..left] + part
                   + BytesBits(mem)[8 * at..8 * at + 32][left + |part|..]
    ensures PutBits(mem, 8 * at, word) == PutBits(mem, 8 * at + left, part)
  {
    var b := BytesBits(mem);
    var after := PutBits(mem, 8 * at, word);
    assert BytesBits(after) == b[..8 * at + left] + part + b[8 * at + left + |part|..];
    PutBitsUnique(mem, 8 * at + left, part, after);
  }

  //// The writer

  lemma {:induction false} WroteNothing(mem: seq<byte>, start: nat, bits: seq<bool>, max: nat)
    requires start + |bits| > max
    ensures Wrote(mem, mem, start, bits, max, Err(SmallBuffer))
  {
  }

  lemma {:induction false} WroteAll(mem: seq<byte>, start: nat, bits: seq<bool>, max: nat)
    requires start + |bits| <= max <= 8 * |mem|
    ensures Wrote(mem, PutBits(mem, start, bits), start, bits, max, Ok(start + |bits|))
  {
  }

  /** put_n_bits32 */
  method PutNBits32(value: word32, nBits: nat, bitOffset: nat, dst: array?<byte>, maxStreamLen: nat)
    returns (r: Outcome<nat>)
    requires bitOffset + nBits < W32
    requires dst != null ==> maxStreamLen % 32 == 0 && maxStreamLen <= 8 * dst.Length
    modifies dst
    ensures nBits > 32 ==> r == Err(IntDecoder)
    ensures nBits == 0 || (dst == null && nBits <= 32) ==> r == Ok(bitOffset + nBits)
    ensures dst != null && (nBits == 0 || r.Err?) ==> dst[..] == old(dst[..])
    ensures dst != null && 1 <= nBits <= 32 ==>
      Wrote(old(dst[..]), dst[..], bitOffset, ToBits(value, nBits), maxStreamLen, r)
  {
    hide PutBits, FirstWord, SecondWord, LoadBe32, ToBits, BytesBits, Wrote;
    if nBits > 32 { return Err(IntDecoder); }
    var bitsLeft := bitOffset % 32;
    var bitsRight := 64 - bitsLeft - nBits;
    var streamLen := nBits + bitOffset;
    if nBits == 0 { return Ok(streamLen); }
    if dst == null { return Ok(streamLen); }
    if streamLen > maxStreamLen {
      WroteNothing(dst[..], bitOffset, ToBits(value, nBits), maxStreamLen);
      return Err(SmallBuffer);
    }
    var at := bitOffset / 32 * 4;
    ghost var mem := dst[..];
    assert 8 * at + bitsLeft == bitOffset && at + 4 <= dst.Length;
    var word := FirstWord(LoadBe32(dst[..], at), value, nBits, bitsLeft);
    StoreBe32(dst, at, word);
    if bitsRight < 32 {
      TwoWords(mem, at, bitsLeft, value, nBits);
      at := at + 4;
      word := SecondWord(LoadBe32(dst[..], at), value, bitsRight);
      StoreBe32(dst, at, word);
    } else {
      FirstPart(mem, at, bitsLeft, value, nBits);
      assert ToBits(value, nBits)[..nBits] == ToBits(value, nBits);
    }
    WroteAll(mem, bitOffset, ToBits(value, nBits), maxStreamLen);
    return Ok(streamLen);
  }

  /** Both words together hold the n bits. */
  lemma {:induction false} TwoWords(mem: seq<byte>, at: nat, left: nat, value: word32, n: nat)
    requires left < 32 && 1 <= n <= 32 && left + n > 32 && at + 8 <= |mem|
    ensures var m1 := PutBits(mem, 8 * at, ToBits(FirstWord(LoadBe32(mem, at), value, n, left), 32));
      PutBits(m1, 8 * (at + 4), ToBits(SecondWord(LoadBe32(m1, at + 4), value, 64 - left - n), 32))
      == PutBits(mem, 8 * at + left, ToBits(value, n))
  {
    hide *;
    var t := 32 - left;
    var bits := ToBits(value, n);
    FirstPart(mem, at, left, value, n);
    SecondPart(PutBits(mem, 8 * at + left, bits[..t]), at + 4, value, n, n - t);
    PutBitsCompose(mem, 8 * at + left, bits[..t], bits[t..]);
    assert bits[..t] + bits[t..] == bits;
  }

  lemma {:induction false} FirstPart(mem: seq<byte>, at: nat, left: nat, value: word32, n: nat)
    requires at + 4 <= |mem| && left < 32 && 1 <= n <= 32
    ensures var t := if left + n <= 32 then n else 32 - left;
      PutBits(mem, 8 * at, ToBits(FirstWord(LoadBe32(mem, at), value, n, left), 32))
      == PutBits(mem, 8 * at + left, ToBits(value, n)[..t])
  {
    hide FirstWord, LoadBe32, ToBits, PutBits;
    var t := if left + n <= 32 then n else 32 - left;
    LoadBits(mem, at);
    FirstWordBits(LoadBe32(mem, at), value, n, left);
    PartOfWord(mem, at, left, ToBits(value, n)[..t], ToBits(FirstWord(LoadBe32(mem, at), value, n, left), 32));
  }

  lemma {:induction false} SecondPart(mem: seq<byte>, at: nat, value: word32, n: nat, s: nat)
    requires at + 4 <= |mem| && 1 <= s <= n <= 32
    ensures PutBits(mem, 8 * at, ToBits(SecondWord(LoadBe32(mem, at), value, 32 - s), 32))
      == PutBits(mem, 8 * at, ToBits(value, n)[n - s..])
  {
    hide SecondWord, LoadBe32, ToBits, PutBits;
    LoadBits(mem, at);
    SecondWordBits(LoadBe32(mem, at), value, n, s);
    PartOfWord(mem, at, 0, ToBits(value, n)[n - s..], ToBits(SecondWord(LoadBe32(mem, at), value, 32 - s), 32));
  }

  //// Limits and padding

  /** cmp_stream_size_to_bits: whole 32-bit words only. */
  function StreamSizeToBits(streamSize: nat): (bits: nat)
    ensures bits % 32 == 0 && bits <= 8 * streamSize < bits + 32
  {
    streamSize / 4 * 4 * 8
  }

  /** cmp_bit_to_byte */
  function BitToByte(bits: nat): nat { (bits + 7) / 8 }

  /** pad_bitstream, outside raw mode: zeros up to the next word boundary; never fails
      behind a stream that fits. */
  method PadBitstream(dst: array?<byte>, streamSize: nat, cmpSize: nat) returns (r: Outcome<nat>)
    requires cmpSize + 32 < W32
    requires dst != null ==> streamSize <= dst.Length && cmpSize <= StreamSizeToBits(streamSize)
    modifies dst
    ensures r == Ok(cmpSize)
    ensures dst != null ==> cmpSize + PadLen(cmpSize, 32) <= StreamSizeToBits(streamSize)
    ensures dst != null ==>
      dst[..] == PutBits(old(dst[..]), cmpSize, Zeros(PadLen(cmpSize, 32)))
  {
    if dst == null { return Ok(cmpSize); }
    var outputBufLenBits := StreamSizeToBits(streamSize);
    var nPadBits := 32 - cmpSize % 32;
    if nPadBits < 32 {
      ToBitsZero(nPadBits);
      var put := PutNBits32(0, nPadBits, cmpSize, dst, outputBufLenBits);
      if put.Err? { return put; }
    } else {
      PutBitsEmpty(dst[..], cmpSize);
      assert Zeros(0) == [];
    }
    return Ok(cmpSize);
  }
}
