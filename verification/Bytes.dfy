/** Byte memory and its view as one long bit sequence. */
module Bytes {
  import opened Bits

  type byte = x: nat | x < 256

  /** The bits of a byte sequence, byte by byte. */
  function BytesBits(s: seq<byte>): (b: seq<bool>)
    ensures |b| == 8 * |s|
  {
    if s == [] then [] else ToBits(s[0], 8) + BytesBits(s[1..])
  }

  /** The inverse of BytesBits. */
  function FromBits(b: seq<bool>): (s: seq<byte>)
    requires |b| % 8 == 0
    ensures 8 * |s| == |b|
  {
    if b == [] then []
    else
      ValBound(b[..8]);
      Pow2Values();
      [Val(b[..8])] + FromBits(b[8..])
  }

  lemma {:induction false} FromBytesBits(s: seq<byte>)
    ensures FromBits(BytesBits(s)) == s
  {
    if s != [] {
      var b := BytesBits(s);
      assert b[..8] == ToBits(s[0], 8) && b[8..] == BytesBits(s[1..]);
      assert Val(b[..8]) == s[0] by {
        ValToBits(s[0], 8);
        Pow2Values();
        SmallMod(s[0], Pow2(8));
      }
      FromBytesBits(s[1..]);
    }
  }

  lemma {:induction false} BytesFromBits(b: seq<bool>)
    requires |b| % 8 == 0
    ensures BytesBits(FromBits(b)) == b
  {
    if b != [] {
      ToBitsVal(b[..8]);
      BytesFromBits(b[8..]);
      assert b == b[..8] + b[8..];
      assert FromBits(b)[1..] == FromBits(b[8..]);
    }
  }

  lemma {:induction false} BytesBitsConcat(a: seq<byte>, b: seq<byte>)
    ensures BytesBits(a + b) == BytesBits(a) + BytesBits(b)
  {
    if a == [] {
      assert a + b == b;
    } else {
      BytesBitsConcat(a[1..], b);
      assert (a + b)[1..] == a[1..] + b;
    }
  }

  /** The bits of a slice are a slice of the bits. */
  lemma {:induction false} BytesBitsSlice(s: seq<byte>, i: nat, j: nat)
    requires i <= j <= |s|
    ensures BytesBits(s[i..j]) == BytesBits(s)[8 * i..8 * j]
  {
    assert s == s[..i] + s[i..j] + s[j..];
    BytesBitsConcat(s[..i] + s[i..j], s[j..]);
    BytesBitsConcat(s[..i], s[i..j]);
  }

  lemma {:induction false} BytesBitsPrefix(s: seq<byte>, j: nat)
    requires j <= |s|
    ensures BytesBits(s[..j]) == BytesBits(s)[..8 * j]
  {
    BytesBitsSlice(s, 0, j);
    assert s[..j] == s[0..j];
  }

  lemma {:induction false} BytesBitsSuffix(s: seq<byte>, i: nat)
    requires i <= |s|
    ensures BytesBits(s[i..]) == BytesBits(s)[8 * i..]
  {
    BytesBitsSlice(s, i, |s|);
    assert s[i..] == s[i..|s|];
  }

  /** Equal bits over a byte range mean equal bytes. */
  lemma {:induction false} SameBits(s: seq<byte>, t: seq<byte>, i: nat, j: nat)
    requires i <= j <= |s| && j <= |t|
    requires BytesBits(s)[8 * i..8 * j] == BytesBits(t)[8 * i..8 * j]
    ensures s[i..j] == t[i..j]
  {
    BytesBitsSlice(s, i, j);
    BytesBitsSlice(t, i, j);
    FromBytesBits(s[i..j]);
    FromBytesBits(t[i..j]);
  }

  //// Replacing bytes

  /** mem with the bytes at offset at replaced by s. */
  function Splice(mem: seq<byte>, at: nat, s: seq<byte>): (after: seq<byte>)
    requires at + |s| <= |mem|
    ensures |after| == |mem|
  {
    mem[..at] + s + mem[at + |s|..]
  }

  lemma {:induction false} SpliceThen(mem: seq<byte>, at: nat, a: seq<byte>, b: seq<byte>)
    requires at + |a| + |b| <= |mem|
    ensures Splice(Splice(mem, at, a), at + |a|, b) == Splice(mem, at, a + b)
  {
  }

  lemma {:induction false} SpliceNothing(mem: seq<byte>, at: nat)
    requires at <= |mem|
    ensures Splice(mem, at, []) == mem
  {
  }

  /** A slice behind the replaced bytes. */
  lemma {:induction false} SpliceAfter(mem: seq<byte>, at: nat, s: seq<byte>, i: nat, j: nat)
    requires at + |s| <= i <= j <= |mem|
    ensures Splice(mem, at, s)[i..j] == mem[i..j]
  {
  }

  lemma {:induction false} ArraySlice(a: array<byte>, i: nat, j: nat)
    requires i <= j <= a.Length
    ensures a[i..j] == a[..][i..j]
  {
  }

  lemma {:induction false} SliceOfSlice(s: seq<byte>, i: nat, j: nat, a: nat, b: nat)
    requires i <= j <= |s| && a <= b <= j - i
    ensures s[i..j][a..b] == s[i + a..i + b]
  {
    var t, l, r := s[i..j], s[i..j][a..b], s[i + a..i + b];
    forall k | 0 <= k < b - a
      ensures l[k] == r[k]
    {
      assert l[k] == t[a + k] && r[k] == s[i + a + k];
    }
    assert l == r;
  }

  lemma {:induction false} LaterBytes(a: seq<byte>, b: seq<byte>, i: nat, j: nat)
    requires i <= j <= |b|
    ensures (a + b)[|a| + i..|a| + j] == b[i..j]
  {
  }

  lemma {:induction false} SplicedPart(before: seq<byte>, at: nat, s: seq<byte>, i: nat, j: nat)
    requires at + |s| <= |before| && i <= j <= |s|
    ensures Splice(before, at, s)[at + i..at + j] == s[i..j]
  {
  }

  /** memcpy */
  method CopyBytes(dst: array<byte>, at: nat, s: seq<byte>)
    requires at + |s| <= dst.Length
    modifies dst
    ensures dst[..] == Splice(old(dst[..]), at, s)
  {
    forall i | 0 <= i < |s| {
      dst[at + i] := s[i];
    }
  }

  //// Packing a bit sequence into whole bytes

  /** The zero bits needed to fill n bits up to a multiple of unit. */
  function PadLen(n: nat, unit: nat): (p: nat)
    requires unit > 0
    ensures p < unit && (n + p) % unit == 0
  {
    DivModParts(n, unit);
    if n % unit == 0 then 0
    else
      DivModUnique(n + (unit - n % unit), unit, n / unit + 1, 0);
      unit - n % unit
  }

  /** bits, followed by zeros up to the next byte boundary, as bytes. */
  function PackBits(bits: seq<bool>): (s: seq<byte>)
    ensures |s| == (|bits| + 7) / 8
    ensures BytesBits(s) == bits + Zeros(PadLen(|bits|, 8))
  {
    var padded := bits + Zeros(PadLen(|bits|, 8));
    BytesFromBits(padded);
    FromBits(padded)
  }

  //// Writing bits into memory

  /** mem after bits were written at bit offset off; all other bits keep their value. */
  function PutBits(mem: seq<byte>, off: nat, bits: seq<bool>): (after: seq<byte>)
    requires off + |bits| <= 8 * |mem|
    ensures |after| == |mem|
    ensures BytesBits(after) == BytesBits(mem)[..off] + bits + BytesBits(mem)[off + |bits|..]
  {
    var b := BytesBits(mem);
    var c := b[..off] + bits + b[off + |bits|..];
    BytesFromBits(c);
    FromBits(c)
  }

  /** PutBits is the only memory with those bits. */
  lemma {:induction false} PutBitsUnique(mem: seq<byte>, off: nat, bits: seq<bool>, after: seq<byte>)
    requires off + |bits| <= 8 * |mem|
    requires BytesBits(after) == BytesBits(mem)[..off] + bits + BytesBits(mem)[off + |bits|..]
    ensures after == PutBits(mem, off, bits)
  {
    FromBytesBits(after);
    FromBytesBits(PutBits(mem, off, bits));
  }

  /** Two adjacent writes are one write. */
  lemma {:induction false} PutBitsCompose(mem: seq<byte>, off: nat, a: seq<bool>, b: seq<bool>)
    requires off + |a| + |b| <= 8 * |mem|
    ensures PutBits(PutBits(mem, off, a), off + |a|, b) == PutBits(mem, off, a + b)
  {
    var m1 := PutBits(mem, off, a);
    var m2 := PutBits(m1, off + |a|, b);
    var o := BytesBits(mem);
    var c1 := BytesBits(m1);
    assert c1[..off + |a|] == o[..off] + a;
    assert c1[off + |a| + |b|..] == o[off + |a| + |b|..];
    assert BytesBits(m2) == o[..off] + (a + b) + o[off + |a + b|..];
    PutBitsUnique(mem, off, a + b, m2);
  }

  lemma {:induction false} PutBitsEmpty(mem: seq<byte>, off: nat)
    requires off <= 8 * |mem|
    ensures PutBits(mem, off, []) == mem
  {
    assert BytesBits(mem) == BytesBits(mem)[..off] + [] + BytesBits(mem)[off..];
    PutBitsUnique(mem, off, [], mem);
  }

  lemma {:induction false} SameInPrefix(a: seq<bool>, b: seq<bool>, k: nat, i: nat, j: nat)
    requires |a| == |b| && i <= j <= k <= |a| && a[..k] == b[..k]
    ensures a[i..j] == b[i..j]
  {
    forall t | i <= t < j
      ensures a[t] == b[t]
    {
      assert a[..k][t] == b[..k][t];
    }
  }

  lemma {:induction false} SameInSuffix(a: seq<bool>, b: seq<bool>, k: nat, i: nat, j: nat)
    requires |a| == |b| && k <= i <= j <= |a| && a[k..] == b[k..]
    ensures a[i..j] == b[i..j]
  {
    forall t | i <= t < j
      ensures a[t] == b[t]
    {
      assert a[k..][t - k] == b[k..][t - k];
    }
  }

  /** Whole bytes outside the written range keep their value. */
  lemma {:induction false} PutBitsFrame(mem: seq<byte>, off: nat, bits: seq<bool>, i: nat, j: nat)
    requires off + |bits| <= 8 * |mem|
    requires i <= j <= |mem|
    requires 8 * j <= off || off + |bits| <= 8 * i
    ensures PutBits(mem, off, bits)[i..j] == mem[i..j]
  {
    var after := PutBits(mem, off, bits);
    var a, m, k := BytesBits(after), BytesBits(mem), off + |bits|;
    assert a[..off] == m[..off] && a[k..] == m[k..];
    hide PutBits, BytesBits;
    if 8 * j <= off {
      SameInPrefix(a, m, off, 8 * i, 8 * j);
    } else {
      SameInSuffix(a, m, k, 8 * i, 8 * j);
    }
    SameBits(after, mem, i, j);
  }

  /** A write of whole bytes at a byte offset. */
  lemma {:induction false} PutBytes(mem: seq<byte>, at: nat, s: seq<byte>)
    requires at + |s| <= |mem|
    ensures PutBits(mem, 8 * at, BytesBits(s)) == Splice(mem, at, s)
  {
    var lo, hi := mem[..at], mem[at + |s|..];
    BytesBitsConcat(lo + s, hi);
    BytesBitsConcat(lo, s);
    BytesBitsPrefix(mem, at);
    BytesBitsSuffix(mem, at + |s|);
    PutBitsUnique(mem, 8 * at, BytesBits(s), lo + s + hi);
  }

  //// Big-endian and little-endian numbers

  /** The big-endian value of s. */
  function BigEndian(s: seq<byte>): (v: nat)
    ensures v < Pow2(8 * |s|)
  {
    ValBound(BytesBits(s));
    Val(BytesBits(s))
  }

  /** The n-byte big-endian form of v. */
  function ToBigEndian(v: nat, n: nat): (s: seq<byte>)
    ensures |s| == n
    ensures BytesBits(s) == ToBits(v, 8 * n)
  {
    BytesFromBits(ToBits(v, 8 * n));
    FromBits(ToBits(v, 8 * n))
  }

  lemma {:induction false} BigEndianRoundTrip(v: nat, n: nat)
    requires v < Pow2(8 * n)
    ensures BigEndian(ToBigEndian(v, n)) == v
  {
    ValToBits(v, 8 * n);
    SmallMod(v, Pow2(8 * n));
  }

  lemma {:induction false} ToBitsBigEndian(s: seq<byte>)
    ensures ToBits(BigEndian(s), 8 * |s|) == BytesBits(s)
    ensures ToBigEndian(BigEndian(s), |s|) == s
  {
    ToBitsVal(BytesBits(s));
    FromBytesBits(s);
  }

  function Reversed(s: seq<byte>): (r: seq<byte>)
    ensures |r| == |s|
    ensures forall i :: 0 <= i < |s| ==> r[i] == s[|s| - 1 - i]
  {
    if s == [] then [] else Reversed(s[1..]) + [s[0]]
  }

  lemma ReversedTwice(s: seq<byte>)
    ensures Reversed(Reversed(s)) == s
  {
  }

  /** The value of a CPU-endian (little-endian) field. */
  function LittleEndian(s: seq<byte>): (v: nat)
    ensures v < Pow2(8 * |s|)
  {
    BigEndian(Reversed(s))
  }

  function ToLittleEndian(v: nat, n: nat): (s: seq<byte>)
    ensures |s| == n
  {
    Reversed(ToBigEndian(v, n))
  }

  lemma {:induction false} LittleEndianRoundTrip(v: nat, n: nat)
    requires v < Pow2(8 * n)
    ensures LittleEndian(ToLittleEndian(v, n)) == v
  {
    ReversedTwice(ToBigEndian(v, n));
    BigEndianRoundTrip(v, n);
  }

  lemma {:induction false} ToLittleEndianValue(s: seq<byte>)
    ensures ToLittleEndian(LittleEndian(s), |s|) == s
  {
    ToBitsBigEndian(Reversed(s));
    ReversedTwice(s);
  }

  /** The last byte of a big-endian number is the lowest. */
  lemma {:induction false} BigEndianDigits(s: seq<byte>)
    requires s != []
    ensures BigEndian(s) == 256 * BigEndian(s[..|s| - 1]) + s[|s| - 1]
  {
    hide *;
    var n := |s| - 1;
    BytesBitsConcat(s[..n], [s[n]]);
    assert s == s[..n] + [s[n]];
    ByteBits(s[n]);
    Pow2Values();
    BigEndianIs(s);
    BigEndianIs(s[..n]);
    ValConcat(BytesBits(s[..n]), BytesBits([s[n]]));
  }

  lemma {:induction false} BigEndianIs(s: seq<byte>)
    ensures BigEndian(s) == Val(BytesBits(s))
  {
  }

  lemma {:induction false} ByteBits(x: byte)
    ensures |BytesBits([x])| == 8 && Val(BytesBits([x])) == x
  {
    assert [x][1..] == [] && [x][0] == x;
    assert BytesBits([x]) == ToBits(x, 8) + BytesBits([]);
    assert ToBits(x, 8) + [] == ToBits(x, 8);
    Pow2Values();
    hide Pow2, BytesBits, Val, ToBits;
    ValToBits(x, 8);
    SmallMod(x, 256);
  }

  /** The first byte of a little-endian number is the lowest. */
  lemma {:induction false} LittleEndianDigits(s: seq<byte>)
    requires s != []
    ensures LittleEndian(s) == s[0] + 256 * LittleEndian(s[1..])
  {
    BigEndianDigits(Reversed(s));
    assert Reversed(s)[..|s| - 1] == Reversed(s[1..]);
  }
}
