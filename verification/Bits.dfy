/** Bit sequences, most significant bit first, and the numbers they stand for. */
module Bits {

  function Pow2(n: nat): (r: nat)
    ensures r >= 1
  {
    if n == 0 then 1 else 2 * Pow2(n - 1)
  }

  /** The n low bits of x, most significant bit first. */
  function ToBits(x: nat, n: nat): (b: seq<bool>)
    ensures |b| == n
  {
    if n == 0 then [] else ToBits(x / 2, n - 1) + [x % 2 == 1]
  }

  /** The number that a bit sequence stands for. */
  function Val(b: seq<bool>): nat
  {
    if b == [] then 0
    else 2 * Val(b[..|b| - 1]) + (if b[|b| - 1] then 1 else 0)
  }

  /** x >> n on unbounded numbers. */
  function Shr(x: nat, n: nat): (q: nat)
    ensures q == x / Pow2(n)
  {
    DivModParts(x, Pow2(n));
    x / Pow2(n)
  }

  function Zeros(n: nat): (z: seq<bool>)
    ensures |z| == n
    ensures forall i :: 0 <= i < n ==> !z[i]
  {
    seq(n, i => false)
  }

  function Ones(n: nat): (z: seq<bool>)
    ensures |z| == n
    ensures forall i :: 0 <= i < n ==> z[i]
  {
    seq(n, i => true)
  }

  /** How many leading bits of b are set. */
  function LeadingOnes(b: seq<bool>): (n: nat)
    ensures n <= |b|
    ensures forall i :: 0 <= i < n ==> b[i]
    ensures n < |b| ==> !b[n]
  {
    if b == [] || !b[0] then 0 else 1 + LeadingOnes(b[1..])
  }

  lemma LeadingOnesIs(b: seq<bool>, n: nat)
    requires n <= |b| && (forall i :: 0 <= i < n ==> b[i]) && (n < |b| ==> !b[n])
    ensures LeadingOnes(b) == n
  {
  }

  //// Sequences

  lemma {:induction false} Assoc<T>(a: seq<T>, b: seq<T>, c: seq<T>)
    ensures a + b + c == a + (b + c)
  {
  }

  lemma {:induction false} DropFront<T>(a: seq<T>, b: seq<T>)
    ensures (a + b)[|a|..] == b
  {
  }

  //// Powers of two

  lemma {:induction false} Pow2Add(a: nat, b: nat)
    ensures Pow2(a + b) == Pow2(a) * Pow2(b)
  {
    if a > 0 { Pow2Add(a - 1, b); }
  }

  lemma {:induction false} Pow2Mono(a: nat, b: nat)
    requires a <= b
    ensures Pow2(a) <= Pow2(b)
  {
    if a < b { Pow2Mono(a, b - 1); }
  }

  lemma {:induction false} Pow2Values()
    ensures Pow2(0) == 1 && Pow2(1) == 2 && Pow2(8) == 0x100 && Pow2(16) == 0x1_0000
    ensures Pow2(24) == 0x100_0000 && Pow2(32) == 0x1_0000_0000
    ensures Pow2(64) == 0x1_0000_0000_0000_0000
  {
    Pow2Add(8, 8);
    Pow2Add(16, 8);
    Pow2Add(16, 16);
    Pow2Add(32, 32);
  }

  //// Division helpers

  /** a is the quotient and r the remainder of x by d. */
  lemma {:induction false} DivModUnique(x: int, d: int, a: int, r: int)
    requires d > 0 && x == a * d + r && 0 <= r < d
    ensures x / d == a && x % d == r
  {
    var q := x / d;
    assert x == q * d + x % d;
    assert (a - q) * d == x % d - r by { assert (a - q) * d == a * d - q * d; }
    MulBetween(a - q, d);
  }

  lemma {:induction false} MulBetween(k: int, d: int)
    requires -d < k * d < d
    ensures k == 0
  {
  }

  lemma {:induction false} MulLess(a: int, b: int, d: int)
    requires d > 0 && a * d < b * d
    ensures a < b
  {
  }

  lemma {:induction false} DivLess(x: nat, d: nat, q: nat)
    requires d > 0 && x < q * d
    ensures x / d < q
  {
    MulLess(x / d, q, d);
  }

  //// Numbers and bits

  lemma {:induction false} ValBound(b: seq<bool>)
    ensures Val(b) < Pow2(|b|)
  {
    if b != [] { ValBound(b[..|b| - 1]); }
  }

  lemma {:induction false} LastBit(x: nat, n: nat)
    requires n > 0
    ensures Val(ToBits(x, n)) == 2 * Val(ToBits(x / 2, n - 1)) + x % 2
  {
    assert ToBits(x, n)[..n - 1] == ToBits(x / 2, n - 1);
  }

  lemma {:induction false} HalfMod(x: nat, p: nat)
    requires p > 0
    ensures x % (2 * p) == 2 * (x / 2 % p) + x % 2
  {
    var q, r := x / 2 / p, x / 2 % p;
    assert x / 2 == q * p + r;
    assert x == q * (2 * p) + (2 * r + x % 2);
    DivModUnique(x, 2 * p, q, 2 * r + x % 2);
  }

  lemma {:induction false} ValToBits(x: nat, n: nat)
    ensures Val(ToBits(x, n)) == x % Pow2(n)
  {
    if n > 0 {
      assert Pow2(n) == 2 * Pow2(n - 1);
      hide *;
      LastBit(x, n);
      ValToBits(x / 2, n - 1);
      HalfMod(x, Pow2(n - 1));
    }
  }

  lemma {:induction false} ToBitsVal(b: seq<bool>)
    ensures ToBits(Val(b), |b|) == b
  {
    if b != [] {
      ToBitsVal(b[..|b| - 1]);
      assert b == b[..|b| - 1] + [b[|b| - 1]];
    }
  }

  lemma {:induction false} DoubleProduct(x: nat, p: nat)
    ensures x * (2 * p) == 2 * (x * p)
  {
  }

  lemma {:induction false} ValConcat(a: seq<bool>, b: seq<bool>)
    ensures Val(a + b) == Val(a) * Pow2(|b|) + Val(b)
  {
    if b == [] {
      assert a + b == a;
    } else {
      var c := b[..|b| - 1];
      assert (a + b)[..|a + b| - 1] == a + c && (a + b)[|a + b| - 1] == b[|b| - 1];
      assert Pow2(|b|) == 2 * Pow2(|c|);
      ValConcat(a, c);
      DoubleProduct(Val(a), Pow2(|c|));
    }
  }

  /** ToBits of a sum of a high part and a low part. */
  lemma {:induction false} ToBitsConcat(hi: nat, lo: nat, m: nat, n: nat)
    requires lo < Pow2(n)
    ensures ToBits(hi * Pow2(n) + lo, m + n) == ToBits(hi, m) + ToBits(lo, n)
  {
    if n == 0 {
      assert ToBits(lo, 0) == [];
    } else {
      var x := hi * Pow2(n) + lo;
      var p := Pow2(n - 1);
      assert x == 2 * (hi * p + lo / 2) + lo % 2;
      ToBitsConcat(hi, lo / 2, m, n - 1);
    }
  }

  lemma {:induction false} SmallMod(x: nat, d: nat)
    requires x < d
    ensures x % d == x && x / d == 0
  {
    DivModUnique(x, d, 0, x);
  }

  lemma {:induction false} ToBitsMod(x: nat, n: nat)
    ensures ToBits(x % Pow2(n), n) == ToBits(x, n)
  {
    ValToBits(x, n);
    ToBitsVal(ToBits(x, n));
  }

  /** Adding a multiple of 2^n does not change the n low bits. */
  lemma {:induction false} ToBitsCong(x: nat, y: nat, n: nat)
    requires x % Pow2(n) == y % Pow2(n)
    ensures ToBits(x, n) == ToBits(y, n)
  {
    ToBitsMod(x, n);
    ToBitsMod(y, n);
  }

  lemma {:induction false} ToBitsSplit(x: nat, m: nat, n: nat)
    ensures ToBits(x, m + n) == ToBits(Shr(x, n), m) + ToBits(x, n)
  {
    DivModParts(x, Pow2(n));
    ToBitsConcat(Shr(x, n), x % Pow2(n), m, n);
    ToBitsMod(x, n);
  }

  lemma {:induction false} DivModParts(x: nat, d: nat)
    requires d > 0
    ensures x == (x / d) * d + x % d && 0 <= x % d < d && 0 <= x / d
  {
  }

  lemma {:induction false} ToBitsZero(n: nat)
    ensures ToBits(0, n) == Zeros(n)
  {
    if n > 0 {
      ToBitsZero(n - 1);
      assert Zeros(n) == Zeros(n - 1) + [false];
    }
  }

  lemma {:induction false} ValZeros(n: nat)
    ensures Val(Zeros(n)) == 0
  {
    ToBitsZero(n);
    ValToBits(0, n);
  }

  lemma {:induction false} ToBitsOnes(n: nat)
    ensures ToBits(Pow2(n) - 1, n) == Ones(n)
  {
    if n > 0 {
      ToBitsOnes(n - 1);
      assert Ones(n) == Ones(n - 1) + [true];
    }
  }
}
