/** Fixed-width machine words: shifts, masks, leading-bit counts. */
module Words {
  import opened Bits

  const W32: nat := 0x1_0000_0000
  const W64: nat := 0x1_0000_0000_0000_0000

  type word32 = x: nat | x < 0x1_0000_0000

  /** Unsigned 32-bit addition and subtraction, wrapping around. */
  function Add32(a: word32, b: word32): word32 { if a + b < W32 then a + b else a + b - W32 }

  function Sub32(a: word32, b: word32): word32 { if a >= b then a - b else a + W32 - b }

  /** x << k on n-bit words. */
  function Shl(x: nat, k: nat, n: nat): (r: nat)
    ensures r < Pow2(n)
  {
    DivModParts(x * Pow2(k), Pow2(n));
    x * Pow2(k) % Pow2(n)
  }

  function Shl32(x: nat, k: nat): (r: word32) { Pow2Values(); Shl(x, k, 32) }

  function Shl64(x: nat, k: nat): (r: nat)
    ensures r < W64
  {
    Pow2Values();
    Shl(x, k, 64)
  }

  lemma {:induction false} ShlBits(x: nat, k: nat, n: nat)
    requires k <= n
    ensures ToBits(Shl(x, k, n), n) == ToBits(x, n)[k..] + Zeros(k)
  {
    ToBitsMod(x * Pow2(k), n);
    ToBitsConcat(x, 0, n - k, k);
    ToBitsZero(k);
    ToBitsSplit(x, k, n - k);
  }

  lemma {:induction false} ShrBound(x: nat, k: nat, n: nat)
    requires k <= n && x < Pow2(n)
    ensures Shr(x, k) < Pow2(n - k)
  {
    Pow2Add(n - k, k);
    DivLess(x, Pow2(k), Pow2(n - k));
  }

  lemma {:induction false} ShrBits(x: nat, k: nat, n: nat)
    requires k <= n && x < Pow2(n)
    ensures ToBits(Shr(x, k), n) == Zeros(k) + ToBits(x, n)[..n - k]
  {
    ToBitsSplit(x, n - k, k);
    ShrBound(x, k, n);
    ToBitsConcat(0, Shr(x, k), k, n - k);
    ToBitsZero(k);
  }

  lemma {:induction false} ShrLe(x: nat, k: nat)
    ensures Shr(x, k) <= x
  {
    DivModParts(x, Pow2(k));
    var q := x / Pow2(k);
    MulGe(q, Pow2(k));
  }

  lemma {:induction false} MulGe(q: nat, d: nat)
    requires d >= 1
    ensures q * d >= q
  {
  }

  //// Bitwise operations

  function AndBits(a: seq<bool>, b: seq<bool>): (c: seq<bool>)
    requires |a| == |b|
    ensures |c| == |a| && forall i :: 0 <= i < |a| ==> c[i] == (a[i] && b[i])
  {
    seq(|a|, i requires 0 <= i < |a| => a[i] && b[i])
  }

  function OrBits(a: seq<bool>, b: seq<bool>): (c: seq<bool>)
    requires |a| == |b|
    ensures |c| == |a| && forall i :: 0 <= i < |a| ==> c[i] == (a[i] || b[i])
  {
    seq(|a|, i requires 0 <= i < |a| => a[i] || b[i])
  }

  function NotBits(a: seq<bool>): (c: seq<bool>)
    ensures |c| == |a| && forall i :: 0 <= i < |a| ==> c[i] == !a[i]
  {
    seq(|a|, i requires 0 <= i < |a| => !a[i])
  }

  /** The 32-bit word with the given bits. */
  function Word(b: seq<bool>): (w: word32)
    requires |b| == 32
    ensures ToBits(w, 32) == b
  {
    WordOf(b, 32);
    Val(b)
  }

  lemma {:induction false} WordOf(b: seq<bool>, n: nat)
    requires |b| == n == 32
    ensures Val(b) < W32 && ToBits(Val(b), n) == b
  {
    hide *;
    ValBound(b);
    Pow2Is32();
    ToBitsVal(b);
  }

  lemma {:induction false} Pow2Is32()
    ensures Pow2(32) == W32
  {
    Pow2Values();
  }

  function And32(x: word32, y: word32): word32 { Word(AndBits(ToBits(x, 32), ToBits(y, 32))) }

  function Or32(x: word32, y: word32): word32 { Word(OrBits(ToBits(x, 32), ToBits(y, 32))) }

  function Not32(x: word32): word32 { Word(NotBits(ToBits(x, 32))) }

  //// Leading bits and binary logarithm

  /** __builtin_clz and __builtin_clzll, on the bits of the word. */
  function LeadingZeros(b: seq<bool>): (n: nat)
    ensures n == LeadingOnes(NotBits(b))
  {
    LeadingOnes(NotBits(b))
  }

  /** floor(log2(x)); ilog_2(0) is -1 as an unsigned word. */
  function ILog2(x: word32): (k: word32)
  {
    if x == 0 then 0xFFFF_FFFF
    else
      var z := LeadingZeros(ToBits(x, 32));
      if z <= 31 then 31 - z else 0
  }

  lemma {:induction false} AllFalseIsZero(b: seq<bool>)
    requires forall i :: 0 <= i < |b| ==> !b[i]
    ensures Val(b) == 0
  {
    assert b == Zeros(|b|);
    ValZeros(|b|);
  }

  lemma {:induction false} ILog2Bounds(x: word32)
    requires x > 0
    ensures ILog2(x) <= 31
    ensures Pow2(ILog2(x)) <= x < Pow2(ILog2(x) + 1)
  {
    var b := ToBits(x, 32);
    WordVal(x);
    LeadingBit(b, LeadingZeros(b));
  }

  lemma {:induction false} WordVal(x: word32)
    ensures Val(ToBits(x, 32)) == x
  {
    ValToBits(x, 32);
    Pow2Values();
    SmallMod(x, Pow2(32));
  }

  /** A bit sequence that starts with z zeros and a one. */
  lemma {:induction false} LeadingBit(b: seq<bool>, z: nat)
    requires Val(b) > 0 && z == LeadingZeros(b)
    ensures z < |b|
    ensures Pow2(|b| - 1 - z) <= Val(b) < Pow2(|b| - z)
  {
    assert forall i :: 0 <= i < z ==> !b[i];
    assert z < |b| ==> b[z];
    hide LeadingZeros, Val;
    if z == |b| { AllFalseIsZero(b); }
    var lo := b[z + 1..];
    assert b[z..] == [true] + lo;
    assert Pow2(|lo| + 1) == 2 * Pow2(|lo|);
    hide Pow2;
    ValZeroPrefix(b, z);
    ValTopOne(lo);
    ValBound(lo);
  }

  lemma {:induction false} ValZeroPrefix(b: seq<bool>, z: nat)
    requires z <= |b| && forall i :: 0 <= i < z ==> !b[i]
    ensures Val(b) == Val(b[z..])
  {
    assert b == b[..z] + b[z..];
    AllFalseIsZero(b[..z]);
    ValConcat(b[..z], b[z..]);
  }

  lemma {:induction false} ValTopOne(lo: seq<bool>)
    ensures Val([true] + lo) == Pow2(|lo|) + Val(lo)
  {
    ValConcat([true], lo);
    assert Val([true]) == 1 by { assert [true][..0] == []; }
  }

  lemma {:induction false} ILog2Unique(x: word32, k: nat)
    requires x > 0 && Pow2(k) <= x < Pow2(k + 1)
    ensures ILog2(x) == k
  {
    ILog2Bounds(x);
    hide ILog2, Pow2;
    if k < ILog2(x) { Pow2Mono(k + 1, ILog2(x)); }
    if ILog2(x) < k { Pow2Mono(ILog2(x) + 1, k); }
  }

  /** v & (v - 1) == 0, on 32-bit words. */
  predicate IsAPowOf2(v: word32)
  {
    And32(v, Sub32(v, 1)) == 0
  }

  /** The bits of x when its highest set bit is bit k. */
  lemma {:induction false} TopBit(x: nat, k: nat, n: nat)
    requires k < n && Pow2(k) <= x < Pow2(k + 1)
    ensures ToBits(x, n) == Zeros(n - 1 - k) + [true] + ToBits(x - Pow2(k), k)
  {
    ToBitsConcat(1, x - Pow2(k), n - k, k);
    ToBitsConcat(0, 1, n - k - 1, 1);
    ToBitsZero(n - k - 1);
    assert ToBits(1, 1) == [true] by { assert ToBits(0, 0) == []; }
  }

  lemma {:induction false} LowBits(x: nat, k: nat, n: nat)
    requires k <= n && x < Pow2(k)
    ensures ToBits(x, n) == Zeros(n - k) + ToBits(x, k)
  {
    ToBitsConcat(0, x, n - k, k);
    ToBitsZero(n - k);
  }

  lemma {:induction false} PowerAndPredecessor(v: word32, k: nat)
    requires k <= 31 && v == Pow2(k)
    ensures IsAPowOf2(v)
  {
    TopBit(v, k, 32);
    ToBitsZero(k);
    LowBits(v - 1, k, 32);
    var c := AndBits(ToBits(v, 32), ToBits(v - 1, 32));
    assert c == Zeros(32);
    ValZeros(32);
  }

  lemma {:induction false} SharedTopBit(v: word32, k: nat)
    requires k <= 31 && Pow2(k) < v < Pow2(k + 1)
    ensures !IsAPowOf2(v)
  {
    TopBit(v, k, 32);
    TopBit(v - 1, k, 32);
    assert AndBits(ToBits(v, 32), ToBits(v - 1, 32))[31 - k];
    ToBitsZero(32);
  }

  lemma {:induction false} ZeroIsTakenAsPower()
    ensures IsAPowOf2(0)
  {
    ToBitsZero(32);
    assert AndBits(ToBits(0, 32), ToBits(W32 - 1, 32)) == Zeros(32);
    ValZeros(32);
  }

  /** The power-of-two test is exact on every non-zero word, and wrong on 0. */
  lemma {:induction false} PowOf2Exact(v: word32)
    ensures IsAPowOf2(v) <==> v == 0 || v == Pow2(ILog2(v))
  {
    if v == 0 {
      ZeroIsTakenAsPower();
    } else {
      ILog2Bounds(v);
      if v == Pow2(ILog2(v)) {
        PowerAndPredecessor(v, ILog2(v));
      } else {
        SharedTopBit(v, ILog2(v));
      }
    }
  }
}
