/** The signed-to-unsigned mapping of prediction differences. */
module ZigZag {
  import opened Bits
  import opened Words
  import opened Golomb

  //// The mapping of the format

  /** x < 2^n, read as a two's complement number of n bits. */
  function SignedOf(x: nat, n: nat): (s: int)
    requires 1 <= n && x < Pow2(n)
    ensures 0 - Pow2(n - 1) <= s < Pow2(n - 1)
  {
    if x < Pow2(n - 1) then x else x - Pow2(n)
  }

  /** 0, -1, 1, -2, 2, ... become 0, 1, 2, 3, 4, ... */
  function Interleave(s: int): (u: nat)
  {
    if s < 0 then -2 * s - 1 else 2 * s
  }

  function Deinterleave(u: nat): (s: int)
    ensures Interleave(s) == u
  {
    if u % 2 == 1 then -((u + 1) / 2) else u / 2
  }

  lemma {:induction false} DeinterleaveInverts(s: int)
    ensures Deinterleave(Interleave(s)) == s
  {
  }

  lemma {:induction false} InterleaveRange(s: int, n: nat)
    requires 1 <= n
    ensures 0 - Pow2(n - 1) <= s < Pow2(n - 1) <==> Interleave(s) < Pow2(n)
  {
  }

  //// The code

  /** The n low bits of a 32-bit word as a mask. */
  function Mask(n: nat): word32
    requires 1 <= n <= 32
  {
    Pow2Values();
    ShrBound(W32 - 1, 32 - n, 32);
    Pow2Mono(n, 32);
    Shr(W32 - 1, 32 - n)
  }

  /** map_to_pos, in 32-bit arithmetic with wrap-around. */
  function MapToPos(valueToMap: word32, maxDataBits: nat): word32
    requires 1 <= maxDataBits <= 32
  {
    var mask := Mask(maxDataBits);
    var v := And32(valueToMap, mask);
    if Shr(v, maxDataBits - 1) != 0 then
      var signed := Or32(v, Not32(mask));
      Sub32(Shl32(Sub32(0, signed), 1), 1)
    else Shl32(v, 1)
  }

  /** re_map_to_pos */
  function ReMapToPos(u: word32): word32
  {
    if u % 2 == 1 then Sub32(0, (u + 1) / 2) else u / 2
  }

  /** 2^32 as the product of 2^n and its complement. */
  lemma {:induction false} PowSplit(n: nat)
    requires n <= 32
    ensures Pow2(n) <= W32 && Pow2(32 - n) * Pow2(n) == W32
    ensures (Pow2(32 - n) - 1) * Pow2(n) == W32 - Pow2(n)
  {
    Pow2Add(32 - n, n);
    Pow2Mono(n, 32);
    Pow2Values();
    TimesPred(Pow2(32 - n), Pow2(n));
  }

  lemma {:induction false} TimesPred(q: nat, p: nat)
    ensures (q - 1) * p == q * p - p
  {
  }

  lemma {:induction false} MaskValue(n: nat)
    requires 1 <= n <= 32
    ensures Mask(n) == Pow2(n) - 1
  {
    PowSplit(32 - n);
    var p := Pow2(32 - n);
    assert 32 - (32 - n) == n;
    hide Pow2;
    DivModUnique(W32 - 1, p, Pow2(n) - 1, p - 1);
  }

  lemma {:induction false} NotMask(n: nat)
    requires 1 <= n <= 32
    ensures 0 <= (Pow2(32 - n) - 1) * Pow2(n) < W32
    ensures Not32(Mask(n)) == (Pow2(32 - n) - 1) * Pow2(n)
    ensures (Pow2(32 - n) - 1) * Pow2(n) + Pow2(n) == W32
  {
    MaskValue(n);
    PowSplit(n);
    hide ToBits, Pow2;
    NotMaskBits(n);
    WordVal(Not32(Mask(n)));
    WordVal((Pow2(32 - n) - 1) * Pow2(n));
  }

  lemma {:induction false} NotMaskBits(n: nat)
    requires 1 <= n <= 32 && 0 <= (Pow2(32 - n) - 1) * Pow2(n)
    ensures NotBits(ToBits(Pow2(n) - 1, 32)) == ToBits((Pow2(32 - n) - 1) * Pow2(n), 32)
  {
    hide Pow2, ToBits;
    LowBits(Pow2(n) - 1, n, 32);
    ToBitsOnes(n);
    ToBitsConcat(Pow2(32 - n) - 1, 0, 32 - n, n);
    ToBitsOnes(32 - n);
    ToBitsZero(n);
  }

  lemma {:induction false} OrCommutes(x: word32, y: word32)
    ensures Or32(x, y) == Or32(y, x)
  {
    assert OrBits(ToBits(x, 32), ToBits(y, 32)) == OrBits(ToBits(y, 32), ToBits(x, 32));
  }

  /** Setting the bits above an n-bit value. */
  lemma {:induction false} SignExtend(v: word32, n: nat)
    requires 1 <= n <= 32 && v < Pow2(n)
    ensures Or32(v, Not32(Mask(n))) == v + W32 - Pow2(n)
  {
    NotMask(n);
    hide Pow2, Or32, Not32, Mask;
    OrCommutes(v, Not32(Mask(n)));
    OrDisjoint(Pow2(32 - n) - 1, v, n);
  }

  lemma {:induction false} SignBit(v: nat, n: nat)
    requires 1 <= n && v < Pow2(n)
    ensures Shr(v, n - 1) != 0 <==> v >= Pow2(n - 1)
  {
    var p := Pow2(n - 1);
    if v < p { SmallMod(v, p); } else { DivModUnique(v, p, 1, v - p); }
  }

  lemma {:induction false} DoubleWord(x: word32)
    requires x <= 0x8000_0000
    ensures Shl32(x, 1) == (if x == 0x8000_0000 then 0 else 2 * x)
  {
    assert Pow2(1) == 2;
    Pow2Values();
    if x == 0x8000_0000 { DivModUnique(2 * x, W32, 1, 0); } else { SmallMod(2 * x, W32); }
  }

  /** map_to_pos interleaves the signed n-bit difference, for every width. */
  lemma {:induction false} MapToPosIsInterleave(v: word32, n: nat)
    requires 1 <= n <= 32
    ensures 0 <= v % Pow2(n) < Pow2(n)
    ensures MapToPos(v, n) == Interleave(SignedOf(v % Pow2(n), n))
  {
    DivModParts(v, Pow2(n));
    MaskValue(n);
    AndLowMask(v, n);
    hide *;
    MapsTo(v, v % Pow2(n), n);
  }

  lemma {:induction false} MapsTo(v: word32, x: word32, n: nat)
    requires 1 <= n <= 32 && x < Pow2(n) && And32(v, Mask(n)) == x
    ensures MapToPos(v, n) == Interleave(SignedOf(x, n))
  {
    hide *;
    MapToPosCases(v, x, n);
    SignBit(x, n);
    SignExtend(x, n);
    WordOfBits(n);
    InterleaveOf(x, n);
    if x >= Pow2(n - 1) {
      Negated(x, Pow2(n));
      DoubleWord(Pow2(n) - x);
      LessOne(Pow2(n) - x);
    } else {
      DoubleWord(x);
    }
  }

  lemma {:induction false} MapToPosCases(v: word32, x: word32, n: nat)
    requires 1 <= n <= 32 && And32(v, Mask(n)) == x
    ensures Shr(x, n - 1) != 0 ==> MapToPos(v, n) == Sub32(Shl32(Sub32(0, Or32(x, Not32(Mask(n)))), 1), 1)
    ensures Shr(x, n - 1) == 0 ==> MapToPos(v, n) == Shl32(x, 1)
  {
    hide And32, Or32, Not32, Mask, Shr, Shl32, Sub32;
  }

  lemma {:induction false} WordOfBits(n: nat)
    requires 1 <= n <= 32
    ensures Pow2(n) == 2 * Pow2(n - 1) && Pow2(n - 1) <= 0x8000_0000
  {
    Pow2Mono(n - 1, 31);
    Pow2Values();
    assert Pow2(31) == 0x8000_0000;
  }

  lemma {:induction false} InterleaveOf(x: nat, n: nat)
    requires 1 <= n && x < Pow2(n)
    ensures Interleave(SignedOf(x, n)) == if x < Pow2(n - 1) then 2 * x else 2 * (Pow2(n) - x) - 1
  {
  }

  lemma {:induction false} Negated(x: nat, p: nat)
    requires x < p <= 0x1_0000_0000
    ensures x + W32 - p < 0x1_0000_0000 && Sub32(0, x + W32 - p) == (p - x) % W32
  {
  }

  lemma {:induction false} LessOne(y: nat)
    requires 1 <= y <= 0x8000_0000
    ensures y % W32 == y && Sub32(if y == 0x8000_0000 then 0 else 2 * y, 1) == 2 * y - 1
  {
  }

  /** re_map_to_pos gives the signed number as a 32-bit word. */
  lemma {:induction false} ReMapIsDeinterleave(u: word32)
    ensures ReMapToPos(u) == if Deinterleave(u) < 0 then Deinterleave(u) + W32 else Deinterleave(u)
  {
  }

  //// Round trip

  /** x is the one n-bit value that map_to_pos takes to u. */
  ghost predicate IsOnlySource(x: word32, u: word32, n: nat)
    requires 1 <= n <= 32
  {
    x < Pow2(n) && MapToPos(x, n) == u
    && forall y: word32 :: y < Pow2(n) && MapToPos(y, n) == u ==> y == x
  }

  /** Distinct n-bit differences have distinct images, and the images fill [0, 2^n). */
  lemma {:induction false} MapToPosBijective(n: nat, u: word32)
    requires 1 <= n <= 32 && u < Pow2(n)
    ensures exists x: word32 :: IsOnlySource(x, u, n)
  {
    var s := Deinterleave(u);
    InterleaveRange(s, n);
    Pow2Mono(n, 32);
    Pow2Values();
    var x := if s < 0 then s + Pow2(n) else s;
    assert SignedOf(x, n) == s;
    hide MapToPos, Pow2;
    MapToPosIsInterleave(x, n);
    SmallMod(x, Pow2(n));
    forall y: word32 | y < Pow2(n) && MapToPos(y, n) == u
      ensures y == x
    {
      MapToPosIsInterleave(y, n);
      SmallMod(y, Pow2(n));
      DeinterleaveInverts(SignedOf(y, n));
    }
    assert IsOnlySource(x, u, n);
  }

  /** The n-bit difference of two values. */
  function Difference(d: nat, model: nat, n: nat): (x: nat)
    requires d < Pow2(n) && model < Pow2(n)
    ensures x < Pow2(n)
  {
    if d >= model then d - model else d - model + Pow2(n)
  }

  lemma {:induction false} WordDifference(d: word32, model: word32, n: nat)
    requires 1 <= n <= 32 && d < Pow2(n) && model < Pow2(n)
    ensures Sub32(d, model) % Pow2(n) == Difference(d, model, n)
  {
    var x := Difference(d, model, n);
    PowSplit(n);
    hide Pow2;
    if d >= model {
      SmallMod(x, Pow2(n));
    } else {
      DivModUnique(Sub32(d, model), Pow2(n), Pow2(32 - n) - 1, x);
    }
  }

  /** The number that encode_value hands to the escape mechanism. */
  function Mapped(d: nat, model: nat, n: nat): (u: nat)
    requires 1 <= n && d < Pow2(n) && model < Pow2(n)
    ensures u < Pow2(n)
  {
    var s := SignedOf(Difference(d, model, n), n);
    InterleaveRange(s, n);
    Interleave(s)
  }

  /** The mapped number in plain terms: the difference modulo 2^n, where small positive ones
      become even numbers and small negative ones odd numbers. */
  lemma {:induction false} MappedIs(d: nat, model: nat, n: nat)
    requires 1 <= n && d < Pow2(n) && model < Pow2(n)
    ensures d >= model && d - model < Pow2(n - 1) ==> Mapped(d, model, n) == 2 * (d - model)
    ensures d >= model && d - model >= Pow2(n - 1) ==> Mapped(d, model, n) == 2 * (Pow2(n) - (d - model)) - 1
    ensures d < model && model - d <= Pow2(n - 1) ==> Mapped(d, model, n) == 2 * (model - d) - 1
    ensures d < model && model - d > Pow2(n - 1) ==> Mapped(d, model, n) == 2 * (Pow2(n) - (model - d))
  {
    assert Pow2(n) == 2 * Pow2(n - 1);
  }

  /** Subtracting the model and mapping, as the compressor does it. */
  lemma {:induction false} MappedIsCode(d: word32, model: word32, n: nat)
    requires 1 <= n <= 32 && d < Pow2(n) && model < Pow2(n)
    ensures MapToPos(Sub32(d, model), n) == Mapped(d, model, n)
  {
    MapToPosIsInterleave(Sub32(d, model), n);
    WordDifference(d, model, n);
    hide MapToPos, Sub32;
  }

  /** Adding the model back modulo 2^n undoes the mapping. */
  lemma {:induction false} ReMapRestores(d: word32, model: word32, n: nat)
    requires 1 <= n <= 32 && d < Pow2(n) && model < Pow2(n)
    ensures Mapped(d, model, n) < W32
    ensures And32(Add32(ReMapToPos(Mapped(d, model, n)), model), Mask(n)) == d
  {
    Pow2Mono(n, 32);
    Pow2Values();
    var u := Mapped(d, model, n);
    var x := Difference(d, model, n);
    DeinterleaveInverts(SignedOf(x, n));
    ReMapIsDeinterleave(u);
    var sum := Add32(ReMapToPos(u), model);
    assert sum % Pow2(n) == d by { RestoredSum(d, model, n, sum); }
    hide And32, Mask;
    MaskValue(n);
    AndLowMask(sum, n);
  }

  lemma {:induction false} RestoredSum(d: word32, model: word32, n: nat, sum: word32)
    requires 1 <= n <= 32 && d < Pow2(n) && model < Pow2(n)
    requires var s := SignedOf(Difference(d, model, n), n);
      sum == Add32(if s < 0 then s + W32 else s, model)
    ensures sum % Pow2(n) == d
  {
    PowSplit(n);
    assert Pow2(n) == 2 * Pow2(n - 1);
    if n < 32 { PowSplit(n + 1); }
    hide Pow2;
    RestoredCases(d, model, Pow2(n - 1), Pow2(n), Pow2(32 - n), Difference(d, model, n), sum);
  }

  lemma {:induction false} RestoredCases(d: nat, model: nat, half: nat, p: nat, q: nat, x: nat, sum: nat)
    requires d < p && model < p <= W32 && (q - 1) * p == W32 - p && p == 2 * half && (p == W32 || 2 * p <= W32)
    requires x == if d >= model then d - model else d - model + p
    requires var s := if x < half then x else x - p;
      var t := if s < 0 then s + W32 else s;
      sum == if t + model < W32 then t + model else t + model - W32
    ensures sum % p == d
  {
    assert sum in {d, d + p, d - p + W32};
    if sum == d {
      DivModUnique(sum, p, 0, d);
    } else if sum == d + p {
      DivModUnique(sum, p, 1, d);
    } else {
      DivModUnique(sum, p, q - 1, d);
    }
  }
}
