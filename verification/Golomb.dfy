/** Rice and Golomb code words: the compressor's group form against the
    quotient-and-remainder form that the decompressor reads. */
module Golomb {
  import opened Bits
  import opened Words

  datatype Option<+T> = None | Some(value: T)

  /** The code words of the format have at most 32 bits. */
  const MAX_CW_BITS: nat := 32

  //// The code

  /** How many remainders have the shorter code. */
  function Cutoff(m: word32): (c: nat)
    requires m > 0
    ensures 1 <= c <= m && c <= Pow2(ILog2(m)) && c + m == Pow2(ILog2(m) + 1)
  {
    ILog2Bounds(m);
    Pow2(ILog2(m) + 1) - m
  }

  /** The truncated binary code of a remainder r < m. */
  function TruncBin(r: nat, m: word32): (b: seq<bool>)
    requires r < m
  {
    var k := ILog2(m);
    if r < Cutoff(m) then ToBits(r, k) else ToBits(r + Cutoff(m), k + 1)
  }

  function Quot(v: nat, m: nat): (q: nat)
    requires m > 0
    ensures q == v / m
  {
    DivModParts(v, m);
    v / m
  }

  function Rem(v: nat, m: nat): (r: nat)
    requires m > 0
    ensures r == v % m && r < m && v == Quot(v, m) * m + r
  {
    DivModParts(v, m);
    v % m
  }

  /** Unary quotient, a zero, and the truncated binary remainder. */
  function GolombCode(v: nat, m: word32): (b: seq<bool>)
    requires m > 0
    ensures |b| >= 1
  {
    Ones(Quot(v, m)) + [false] + TruncBin(Rem(v, m), m)
  }

  /** The value with quotient q and remainder r. */
  function Compose(q: nat, r: nat, m: nat): (v: nat)
    ensures v == q * m + r
  {
    MulNonneg(q, m);
    q * m + r
  }

  /** The remainder at the front of b, and the length of its code. */
  function ReadTruncBin(b: seq<bool>, m: word32): (r: Option<(nat, nat)>)
    requires m > 0
    ensures r.Some? ==> r.value.1 <= |b| && r.value.1 <= ILog2(m) + 1
  {
    var k, c := ILog2(m), Cutoff(m);
    if k > |b| then None
    else if Val(b[..k]) < c then Some((Val(b[..k]), k))
    else if k + 1 > |b| then None
    else
      LongerRemainder(b, k, c);
      Some((Val(b[..k + 1]) - c, k + 1))
  }

  /** Reads one code word from the front of b: its value and its length. */
  function ReadGolomb(b: seq<bool>, m: word32): (r: Option<(nat, nat)>)
    requires m > 0
    ensures r.Some? ==> 1 <= r.value.1 <= |b|
  {
    var q := LeadingOnes(b);
    if q == |b| then None
    else
      match ReadTruncBin(b[q + 1..], m)
      case None => None
      case Some((r, len)) => Some((Compose(q, r, m), q + 1 + len))
  }

  lemma {:induction false} MulNonneg(a: nat, b: nat)
    ensures a * b >= 0
  {
  }

  /** One more bit at least doubles the remainder, so the cutoff can be taken off. */
  lemma {:induction false} LongerRemainder(b: seq<bool>, k: nat, c: nat)
    requires k + 1 <= |b| && Val(b[..k]) >= c
    ensures Val(b[..k + 1]) >= c
  {
    assert b[..k + 1][..k] == b[..k];
  }

  //// The reference decoder inverts the code

  lemma {:induction false} GolombLength(v: nat, m: word32)
    requires m > 0
    ensures |GolombCode(v, m)| == Quot(v, m) + 1 + ILog2(m) + (if Rem(v, m) < Cutoff(m) then 0 else 1)
  {
  }

  /** Reading a code word followed by anything gives back the value and stops at its end. */
  lemma {:induction false} ReadGolombInverts(v: nat, m: word32, rest: seq<bool>)
    requires m > 0
    ensures ReadGolomb(GolombCode(v, m) + rest, m) == Some((v, |GolombCode(v, m)|))
  {
    hide ReadGolomb, TruncBin, ILog2, Pow2, Quot, Rem, Ones;
    ReadParts(Quot(v, m), Rem(v, m), m, rest);
  }

  lemma {:induction false} ReadParts(q: nat, r: nat, m: word32, rest: seq<bool>)
    requires r < m
    ensures ReadGolomb(Ones(q) + [false] + TruncBin(r, m) + rest, m)
         == Some((q * m + r, q + 1 + |TruncBin(r, m)|))
  {
    hide ILog2, Pow2, TruncBin, ReadTruncBin;
    var t := TruncBin(r, m) + rest;
    var b := Ones(q) + [false] + TruncBin(r, m) + rest;
    assert b == Ones(q) + [false] + t;
    LeadingOnesIs(b, q);
    assert b[q + 1..] == t;
    ReadTruncBinInverts(r, m, rest);
  }

  lemma {:induction false} ReadShortRemainder(r: nat, m: word32, rest: seq<bool>)
    requires m > 0 && r < Cutoff(m)
    ensures ReadTruncBin(ToBits(r, ILog2(m)) + rest, m) == Some((r, ILog2(m)))
  {
    hide ILog2, Pow2, Cutoff, ToBits;
    var k: nat := ILog2(m);
    assert (ToBits(r, k) + rest)[..k] == ToBits(r, k);
    ValToBits(r, k);
    SmallMod(r, Pow2(k));
  }

  lemma {:induction false} ReadLongRemainder(r: nat, m: word32, rest: seq<bool>)
    requires m > 0 && Cutoff(m) <= r < m
    ensures ReadTruncBin(ToBits(r + Cutoff(m), ILog2(m) + 1) + rest, m) == Some((r, ILog2(m) + 1))
  {
    hide ILog2, Pow2, Cutoff, ToBits;
    var k: nat, x: nat := ILog2(m), r + Cutoff(m);
    var t := ToBits(x, k + 1);
    assert (t + rest)[..k + 1] == t && (t + rest)[..k] == t[..k];
    ValToBits(x, k + 1);
    SmallMod(x, Pow2(k + 1));
    LongTruncBin(r, m);
  }

  lemma {:induction false} ReadTruncBinInverts(r: nat, m: word32, rest: seq<bool>)
    requires r < m
    ensures ReadTruncBin(TruncBin(r, m) + rest, m) == Some((r, |TruncBin(r, m)|))
  {
    hide ReadTruncBin, Cutoff, ToBits, ILog2;
    if r < Cutoff(m) { ReadShortRemainder(r, m, rest); } else { ReadLongRemainder(r, m, rest); }
  }

  /** The first k bits of a longer remainder code tell that it is longer. */
  lemma {:induction false} LongTruncBin(r: nat, m: word32)
    requires m > 0 && Cutoff(m) <= r < m
    ensures Val(ToBits(r + Cutoff(m), ILog2(m) + 1)[..ILog2(m)]) >= Cutoff(m)
  {
    var k := ILog2(m);
    var x := r + Cutoff(m);
    assert ToBits(x, k + 1)[..k] == ToBits(x / 2, k);
    ValToBits(x / 2, k);
    SmallMod(x / 2, Pow2(k));
  }

  /** A remainder that is read is one, and took as many bits as its code. */
  lemma {:induction false} ReadTruncBinExact(b: seq<bool>, m: word32)
    requires m > 0 && ReadTruncBin(b, m).Some?
    ensures var (r, len) := ReadTruncBin(b, m).value;
      r < m && len == ILog2(m) + (if r < Cutoff(m) then 0 else 1) && b[..len] == TruncBin(r, m)
  {
    var k: nat, c: nat := ILog2(m), Cutoff(m);
    ToBitsVal(b[..k]);
    if Val(b[..k]) >= c {
      ToBitsVal(b[..k + 1]);
      assert b[..k + 1][..k] == b[..k];
      assert Val(b[..k + 1]) >= 2 * Val(b[..k]);
      ValBound(b[..k + 1]);
    }
    hide ILog2, Pow2;
  }

  /** Whatever is read is a code word at the front. */
  lemma {:induction false} ReadGolombExact(b: seq<bool>, m: word32)
    requires m > 0 && ReadGolomb(b, m).Some?
    ensures var (v, len) := ReadGolomb(b, m).value; len == |GolombCode(v, m)| && b[..len] == GolombCode(v, m)
  {
    hide ReadTruncBin, TruncBin, ILog2, Cutoff, GolombCode, LeadingOnes;
    var q := LeadingOnes(b);
    var (r, n) := ReadTruncBin(b[q + 1..], m).value;
    ReadTruncBinExact(b[q + 1..], m);
    DivModUnique(q * m + r, m, q, r);
    GolombLength(q * m + r, m);
    CodeOfParts(q * m + r, m, q, r);
    assert b[..q] == Ones(q) && !b[q];
    assert b[..q + 1 + n] == b[..q] + [false] + b[q + 1..][..n];
  }

  /** No code word is a prefix of another one. */
  lemma {:induction false} GolombPrefixFree(v: nat, w: nat, m: word32)
    requires m > 0 && GolombCode(v, m) <= GolombCode(w, m)
    ensures v == w
  {
    var a, b := GolombCode(v, m), GolombCode(w, m);
    ReadGolombInverts(v, m, b[|a|..]);
    ReadGolombInverts(w, m, []);
    assert a + b[|a|..] == b;
    assert b + [] == b;
  }

  //// The compressor's encoders

  /** A code word and its length, as a number and as the bits of the format.
      A length above 32 tells that the number is not valid. */
  predicate IsCodeWord(cw: (word32, nat), v: nat, m: word32)
    requires m > 0
  {
    cw.1 == |GolombCode(v, m)| && (cw.1 <= MAX_CW_BITS ==> ToBits(cw.0, cw.1) == GolombCode(v, m))
  }

  /** rice_encoder: the code word and its length; invalid above 32 bits. */
  function RiceEncoder(value: word32, m: word32, log2M: nat): (r: (word32, nat))
  {
    var q := Shr(value, log2M);
    var qc := Sub32(Shl32(1, q), 1);
    var rem := And32(value, Sub32(m, 1));
    var rl := log2M + 1;
    (Or32(Shl32(qc, rl % 32), rem), rl + q)
  }

  /** golomb_encoder: code words of one length form a group. */
  function GolombEncoder(value: word32, m: word32, log2M: nat): (r: (word32, nat))
    requires m > 0
  {
    var len := log2M + 1;
    var cutoff := Sub32(Shl32(2, log2M), m);
    if value < cutoff then (value, len)
    else
      var g := Quot(value - cutoff, m);
      var member := Rem(value - cutoff, m);
      var gc := Sub32(Shl32(1, g % 32), 1);
      var base := Shl32(cutoff, 1);
      (Add32(Shl32(gc, (len + 1) % 32), Add32(base, member)), len + 1 + g)
  }

  lemma {:induction false} FalseInFront(t: nat, n: nat)
    requires t < Pow2(n)
    ensures ToBits(t, n + 1) == [false] + ToBits(t, n)
  {
    hide ToBits, Pow2;
    ToBitsConcat(0, t, 1, n);
    ToBitsZero(1);
    assert Zeros(1) == [false];
  }

  /** q ones, a zero and the n low bits of t, as one number. */
  lemma {:induction false} UnaryBits(q: nat, t: nat, n: nat)
    requires t < Pow2(n)
    ensures ToBits((Pow2(q) - 1) * Pow2(n + 1) + t, q + 1 + n) == Ones(q) + [false] + ToBits(t, n)
  {
    assert t < Pow2(n + 1);
    FalseInFront(t, n);
    hide Pow2, ToBits;
    ToBitsConcat(Pow2(q) - 1, t, q, n + 1);
    ToBitsOnes(q);
    assert q + 1 + n == q + (n + 1);
    assert Ones(q) + ([false] + ToBits(t, n)) == Ones(q) + [false] + ToBits(t, n);
  }

  /** Group 0 of the compressor: the code word is the value itself. */
  lemma {:induction false} GroupZero(v: nat, m: word32)
    requires m > 0 && v < Cutoff(m)
    ensures GolombCode(v, m) == ToBits(v, ILog2(m) + 1)
  {
    var k := ILog2(m);
    DivModUnique(v, m, 0, v);
    UnaryBits(0, v, k);
    assert Ones(0) == [];
    MulNonneg(0, Pow2(k + 1));
  }

  /** The value of the code word of member r of group g. */
  function GroupWord(g: nat, r: nat, m: word32): nat
    requires m > 0
  {
    MulNonneg(Pow2(g) - 1, Pow2(ILog2(m) + 2));
    (Pow2(g) - 1) * Pow2(ILog2(m) + 2) + 2 * Cutoff(m) + r
  }

  /** The code word of a value given by its quotient and remainder. */
  lemma {:induction false} CodeOfParts(v: nat, m: word32, q: nat, r: nat)
    requires r < m && v == q * m + r
    ensures GolombCode(v, m) == Ones(q) + [false] + TruncBin(r, m)
  {
    DivModUnique(v, m, q, r);
  }

  lemma {:induction false} NextMultiple(g: nat, m: nat)
    ensures (g + 1) * m == g * m + m
  {
  }

  /** A group member with a long remainder, as bits. */
  lemma {:induction false} GroupLong(g: nat, r: nat, m: word32)
    requires m > 0 && r + Cutoff(m) < m
    ensures ToBits(GroupWord(g, r, m), ILog2(m) + 2 + g) == Ones(g) + [false] + ToBits(r + 2 * Cutoff(m), ILog2(m) + 1)
  {
    hide ILog2, Pow2, ToBits;
    var k: nat := ILog2(m);
    UnaryBits(g, r + 2 * Cutoff(m), k + 1);
    assert g + 1 + (k + 1) == k + 2 + g;
  }

  /** A group member that carries into the next quotient and has a short remainder. */
  lemma {:induction false} GroupShort(g: nat, r: nat, m: word32)
    requires r < m <= r + Cutoff(m)
    ensures ToBits(GroupWord(g, r, m), ILog2(m) + 2 + g) == Ones(g + 1) + [false] + ToBits(r + Cutoff(m) - m, ILog2(m))
  {
    hide ILog2, Pow2, ToBits;
    var k: nat := ILog2(m);
    UnaryBits(g + 1, r + Cutoff(m) - m, k);
    GroupWordCarry(g, k);
    assert g + 1 + 1 + k == k + 2 + g;
  }

  /** The group form and the quotient-and-remainder form are the same code. */
  lemma {:induction false} GroupForm(v: nat, m: word32, g: nat, r: nat)
    requires r < m && v == Cutoff(m) + g * m + r
    ensures GolombCode(v, m) == ToBits(GroupWord(g, r, m), ILog2(m) + 2 + g)
  {
    hide ILog2, Pow2, ToBits, GroupWord, GolombCode, Cutoff;
    var c: nat := Cutoff(m);
    if r + c < m {
      CodeOfParts(v, m, g, r + c);
      GroupLong(g, r, m);
    } else {
      NextMultiple(g, m);
      CodeOfParts(v, m, g + 1, r + c - m);
      GroupShort(g, r, m);
    }
  }

  lemma {:induction false} GroupWordCarry(g: nat, k: nat)
    ensures (Pow2(g + 1) - 1) * Pow2(k + 1) == (Pow2(g) - 1) * Pow2(k + 2) + Pow2(k + 1)
  {
    var p := Pow2(k + 1);
    assert Pow2(k + 2) == 2 * p && Pow2(g + 1) == 2 * Pow2(g);
    calc {
      (2 * Pow2(g) - 1) * p;
      2 * Pow2(g) * p - p;
      (Pow2(g) - 1) * (2 * p) + p;
    }
  }

  /** The compressor's cutoff, computed with 32-bit wrap-around. */
  lemma {:induction false} CutoffWord(m: word32)
    requires m > 0
    ensures Sub32(Shl32(2, ILog2(m)), m) == Cutoff(m)
  {
    var k := ILog2(m);
    ILog2Bounds(m);
    Pow2Values();
    if k == 31 {
      DivModUnique(2 * Pow2(31), Pow2(32), 1, 0);
    } else {
      Pow2Mono(k + 1, 31);
      SmallMod(2 * Pow2(k), Pow2(32));
    }
  }

  /** x << n without loss. */
  lemma {:induction false} ShlExact(x: nat, n: nat)
    requires x * Pow2(n) < W32
    ensures Shl32(x, n) == x * Pow2(n)
  {
    Pow2Values();
    MulNonneg(x, Pow2(n));
    SmallMod(x * Pow2(n), Pow2(32));
  }

  lemma {:induction false} UnaryWord(q: nat, n: nat)
    requires q + n <= 32
    ensures (Pow2(q) - 1) * Pow2(n) + Pow2(n) <= W32
  {
    Pow2Add(q, n);
    Pow2Mono(q + n, 32);
    Pow2Values();
    assert (Pow2(q) - 1) * Pow2(n) + Pow2(n) == Pow2(q) * Pow2(n);
  }

  /** gc << (n & 31), for a unary part of g ones in front of n bits. */
  lemma {:induction false} UnaryShift(g: nat, n: nat)
    requires 1 <= n && g + n <= 32
    ensures Shl32(Sub32(Shl32(1, g % 32), 1), n % 32) == (Pow2(g) - 1) * Pow2(n)
  {
    hide Shl32;
    UnaryWord(g, n);
    Pow2Mono(g, 31);
    Pow2Values();
    assert g % 32 == g;
    ShlExact(1, g);
    if n == 32 {
      assert Pow2(0) == 1;
      ShlExact(0, 0);
    } else {
      ShlExact(Pow2(g) - 1, n);
    }
  }

  /** golomb_encoder forms the code word of the format, for every m and value. */
  lemma {:induction false} GolombEncoderCorrect(v: word32, m: word32)
    requires m > 0
    ensures IsCodeWord(GolombEncoder(v, m, ILog2(m)), v, m)
  {
    var k, c := ILog2(m), Cutoff(m);
    CutoffWord(m);
    if v < c {
      GroupZero(v, m);
    } else {
      var g, r := Quot(v - c, m), Rem(v - c, m);
      GroupForm(v, m, g, r);
      if k + 2 + g <= 32 { GroupWordExact(g, r, m); }
    }
  }

  lemma {:induction false} GroupWordExact(g: nat, r: nat, m: word32)
    requires m > 0 && r < m && ILog2(m) + 2 + g <= 32
    ensures Add32(Shl32(Sub32(Shl32(1, g % 32), 1), (ILog2(m) + 2) % 32), Add32(Shl32(Cutoff(m), 1), r))
         == GroupWord(g, r, m)
  {
    var k, c := ILog2(m), Cutoff(m);
    var p := Pow2(k + 2);
    UnaryShift(g, k + 2);
    UnaryWord(g, k + 2);
    MulNonneg(Pow2(g) - 1, p);
    assert p == 2 * Pow2(k + 1);
    assert Pow2(1) == 2;
    ShlExact(c, 1);
  }

  /** value & (2^k - 1) is the remainder. */
  lemma {:induction false} AndLowMask(v: word32, k: nat)
    requires k <= 32
    ensures Pow2(k) <= W32 && And32(v, Pow2(k) - 1) == v % Pow2(k)
  {
    Pow2Mono(k, 32);
    Pow2Values();
    var r := v % Pow2(k);
    DivModParts(v, Pow2(k));
    MaskedBits(v, r, k);
    WordVal(And32(v, Pow2(k) - 1));
    WordVal(r);
  }

  lemma {:induction false} MaskedBits(v: word32, r: word32, k: nat)
    requires k <= 32 && r < Pow2(k) <= W32 && r == v % Pow2(k)
    ensures AndBits(ToBits(v, 32), ToBits(Pow2(k) - 1, 32)) == ToBits(r, 32)
  {
    hide Pow2;
    LowBits(Pow2(k) - 1, k, 32);
    ToBitsOnes(k);
    ToBitsSplit(v, 32 - k, k);
    LowBits(r, k, 32);
    ToBitsMod(v, k);
  }

  /** Or-ing into cleared low bits is addition. */
  lemma {:induction false} OrDisjoint(hi: nat, lo: nat, n: nat)
    requires n <= 32 && lo < Pow2(n) && hi * Pow2(n) + Pow2(n) <= W32
    ensures 0 <= hi * Pow2(n) && Or32(hi * Pow2(n), lo) == hi * Pow2(n) + lo
  {
    MulNonneg(hi, Pow2(n));
    var x := hi * Pow2(n);
    hide Pow2, ToBits;
    ToBitsConcat(hi, 0, 32 - n, n);
    ToBitsConcat(hi, lo, 32 - n, n);
    ToBitsZero(n);
    LowBits(lo, n, 32);
    assert OrBits(ToBits(x, 32), ToBits(lo, 32)) == ToBits(x + lo, 32);
    WordVal(Or32(x, lo));
    WordVal(x + lo);
  }

  /** For powers of two rice_encoder forms the very same code word. */
  lemma {:induction false} RiceEncoderCorrect(v: word32, m: word32)
    requires m > 0 && IsAPowOf2(m)
    ensures IsCodeWord(RiceEncoder(v, m, ILog2(m)), v, m)
  {
    hide *;
    PowOf2Parts(m);
    RiceWord(v, m, ILog2(m), Quot(v, m), Rem(v, m));
  }

  lemma {:induction false} PowOf2Parts(m: word32)
    requires m > 0 && IsAPowOf2(m)
    ensures ILog2(m) <= 31 && m == Pow2(ILog2(m))
  {
    hide *;
    PowOf2Exact(m);
    ILog2Bounds(m);
  }

  lemma {:induction false} RiceWord(v: word32, m: word32, k: nat, q: nat, r: nat)
    requires r < m == Pow2(k) && k == ILog2(m) && k <= 31 && v == q * m + r
    ensures IsCodeWord(RiceEncoder(v, m, k), v, m)
  {
    hide ILog2, GolombCode, And32, Or32, Shl32;
    CodeOfParts(v, m, q, r);
    RiceFields(v, m, k, q, r);
    assert TruncBin(r, m) == ToBits(r, k);
    if k + 1 + q <= 32 {
      RiceBits(q, r, k);
      UnaryBits(q, r, k);
      assert q + 1 + k == k + 1 + q;
    }
  }

  lemma {:induction false} RiceFields(v: word32, m: word32, k: nat, q: nat, r: nat)
    requires r < m == Pow2(k) && k <= 31 && v == q * m + r
    ensures RiceEncoder(v, m, k) == (Or32(Shl32(Sub32(Shl32(1, q), 1), (k + 1) % 32), r), k + 1 + q)
  {
    hide And32, Or32, Shl32;
    DivModUnique(v, m, q, r);
    AndLowMask(v, k);
  }

  lemma {:induction false} RiceBits(q: nat, r: nat, k: nat)
    requires r < Pow2(k) && k + 1 + q <= 32
    ensures r < W32
    ensures 0 <= (Pow2(q) - 1) * Pow2(k + 1) + r < W32
    ensures Or32(Shl32(Sub32(Shl32(1, q), 1), (k + 1) % 32), r) == (Pow2(q) - 1) * Pow2(k + 1) + r
  {
    hide Or32, Shl32;
    assert q % 32 == q;
    UnaryShift(q, k + 1);
    UnaryWord(q, k + 1);
    Pow2Mono(k, 31);
    Pow2Values();
    MulNonneg(Pow2(q) - 1, Pow2(k + 1));
    OrDisjoint(Pow2(q) - 1, r, k + 1);
  }
}
