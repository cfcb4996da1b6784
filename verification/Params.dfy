/** Parameter limits: the spillover thresholds that keep every code word short enough. */
module Params {
  import opened Bits
  import opened Words
  import opened Golomb

  const MIN_GOLOMB_PAR: nat := 1
  const MAX_GOLOMB_PAR: nat := 0xFFFF
  const MIN_SPILL: nat := 2
  const MAX_ROUND: nat := 3
  const MAX_MODEL_VALUE: nat := 16
  const MAX_IMA_GOLOMB_PAR: nat := 63

  datatype CmpMode = Raw | ModelZero | DiffZero | ModelMulti | DiffMulti | Unsupported(code: nat)
  {
    predicate IsRaw() { Raw? }
    predicate IsModel() { ModelZero? || ModelMulti? }
    predicate IsZero() { ModelZero? || DiffZero? }
    predicate IsSupported() { !Unsupported? }
  }

  /** The values whose code words have at most len bits are exactly those below this bound. */
  function FirstTooLong(m: word32, len: nat): (v: nat)
    requires m > 0 && len > ILog2(m)
  {
    MulNonneg(len - 1 - ILog2(m), m);
    (len - 1 - ILog2(m)) * m + Cutoff(m)
  }

  lemma {:induction false} LengthExact(v: nat, m: word32, len: nat)
    requires m > 0 && len > ILog2(m)
    ensures |GolombCode(v, m)| <= len <==> v < FirstTooLong(m, len)
  {
    var q, r := Quot(v, m), Rem(v, m);
    hide ILog2, Pow2, GolombCode, Quot, Rem;
    GolombLength(v, m);
    CompareParts(q, r, len - 1 - ILog2(m), m, Cutoff(m));
  }

  lemma {:induction false} CompareParts(q: nat, r: nat, t: nat, m: nat, c: nat)
    requires r < m && 0 < c <= m
    ensures q + (if r < c then 0 else 1) <= t <==> q * m + r < t * m + c
  {
    if q < t {
      MulMono(q + 1, t, m);
      assert (q + 1) * m == q * m + m;
    } else if q > t {
      MulMono(t + 1, q, m);
      assert (t + 1) * m == t * m + m;
    }
  }

  lemma {:induction false} MulMono(a: nat, b: nat, m: nat)
    requires a <= b
    ensures a * m <= b * m
  {
  }

  //// cmp_icu_max_spill

  lemma {:induction false} ParLog(m: word32)
    requires MIN_GOLOMB_PAR <= m <= MAX_GOLOMB_PAR
    ensures ILog2(m) <= 15
  {
    ILog2Bounds(m);
    if ILog2(m) >= 16 { Pow2Mono(16, ILog2(m)); Pow2Values(); }
  }

  lemma {:induction false} MaxSpillRange(m: word32)
    requires MIN_GOLOMB_PAR <= m <= MAX_GOLOMB_PAR
    ensures ILog2(m) <= 15 && 33 <= FirstTooLong(m, 32) + 1 && FirstTooLong(m, 32) <= 0x20_0000
  {
    ParLog(m);
    MulMono(16, 31 - ILog2(m), m);
    MulMono(31 - ILog2(m), 31, m);
    if ILog2(m) == 15 { assert (31 - ILog2(m)) * m == 16 * m; }
    assert FirstTooLong(m, 32) == (31 - ILog2(m)) * m + Cutoff(m);
  }

  /** cmp_icu_max_spill: the largest threshold for which every symbol, including
      the 16 escape symbols that start at the threshold, has a 32-bit code word. */
  function CmpIcuMaxSpill(par: word32): (spill: word32)
    ensures MIN_GOLOMB_PAR <= par <= MAX_GOLOMB_PAR ==>
      spill >= MIN_SPILL && ILog2(par) <= 15 && spill + 16 == FirstTooLong(par, 32) <= 0x20_0000
  {
    var maxCwBits, maxSymOffset := 32, 15;
    if par == 0 || par > MAX_GOLOMB_PAR then 0
    else
      MaxSpillRange(par);
      CutoffWord(par);
      (maxCwBits - 1 - ILog2(par)) * par + Sub32(Shl32(2, ILog2(par)), par) - maxSymOffset - 1
  }

  /** A threshold is within the bound exactly if the last escape symbol has at most 32 bits. */
  lemma {:induction false} ThresholdLimit(m: word32, spill: nat)
    requires MIN_GOLOMB_PAR <= m <= MAX_GOLOMB_PAR
    ensures m > 0 && (spill <= CmpIcuMaxSpill(m) <==> |GolombCode(spill + 15, m)| <= 32)
  {
    assert m > 0 && ILog2(m) <= 15 by { ParLog(m); }
    assert CmpIcuMaxSpill(m) + 16 == FirstTooLong(m, 32);
    hide *;
    LengthExact(spill + 15, m, 32);
  }

  /** The bound is tight: at the largest threshold the last escape symbol has
      exactly 32 bits, and one step above it would need more. */
  lemma {:induction false} MaxSpillTight(m: word32, spill: nat)
    requires MIN_GOLOMB_PAR <= m <= MAX_GOLOMB_PAR
    ensures spill <= CmpIcuMaxSpill(m) <==> (forall v: nat :: v <= spill + 15 ==> |GolombCode(v, m)| <= 32)
    ensures |GolombCode(CmpIcuMaxSpill(m) + 15, m)| == 32
  {
    assert m > 0 && ILog2(m) <= 15 by { ParLog(m); }
    var top := CmpIcuMaxSpill(m);
    hide *;
    forall v: nat
      ensures |GolombCode(v, m)| <= 32 <==> v < top + 16
    {
      LengthExact(v, m, 32);
    }
    assert |GolombCode(spill + 15, m)| <= 32 <==> spill <= top;
    NextLength(top + 15, m);
    assert |GolombCode(top + 16, m)| > 32;
  }

  /** Code word lengths grow by at most one from one value to the next. */
  lemma {:induction false} NextLength(v: nat, m: word32)
    requires m > 0
    ensures |GolombCode(v + 1, m)| <= |GolombCode(v, m)| + 1
  {
    hide GolombCode, ILog2, Pow2;
    var len := |GolombCode(v, m)|;
    GolombLength(v, m);
    LengthExact(v, m, len);
    LengthExact(v + 1, m, len + 1);
    assert (len - ILog2(m)) * m == (len - 1 - ILog2(m)) * m + m;
  }

  /** cmp_ima_max_spill: the table for the 16-bit code words of the RDCU. */
  function CmpImaMaxSpill(par: word32): (spill: nat)
  {
    if par >= 64 then 0
    else if par < 8 then [0, 8, 22, 35, 48, 60, 72, 84][par]
    else if par < 16 then [96, 107, 118, 129, 140, 151, 162, 173][par - 8]
    else if par < 24 then [184, 194, 204, 214, 224, 234, 244, 254][par - 16]
    else if par < 32 then [264, 274, 284, 294, 304, 314, 324, 334][par - 24]
    else if par < 40 then [344, 353, 362, 371, 380, 389, 398, 407][par - 32]
    else if par < 48 then [416, 425, 434, 443, 452, 461, 470, 479][par - 40]
    else if par < 56 then [488, 497, 506, 515, 524, 533, 542, 551][par - 48]
    else [560, 569, 578, 587, 596, 605, 614, 623][par - 56]
  }

  lemma {:induction false} ImaTable(m: word32, k: nat)
    requires 1 <= m <= MAX_IMA_GOLOMB_PAR && Pow2(k) <= m < Pow2(k + 1) && k <= 5
    ensures CmpImaMaxSpill(m) + 8 == (15 - k) * m + (Pow2(k + 1) - m)
  {
    assert Pow2(0) == 1 && Pow2(1) == 2 && Pow2(2) == 4 && Pow2(3) == 8;
    assert Pow2(4) == 16 && Pow2(5) == 32 && Pow2(6) == 64;
    if k == 0 {
      assert Pow2(k + 1) == 2 && (15 - k) * m == 15 * m;
    } else if k == 1 {
      assert Pow2(k + 1) == 4 && (15 - k) * m == 14 * m;
    } else if k == 2 {
      assert Pow2(k + 1) == 8 && (15 - k) * m == 13 * m;
    } else if k == 3 {
      assert Pow2(k + 1) == 16 && (15 - k) * m == 12 * m;
    } else if k == 4 {
      assert Pow2(k + 1) == 32 && (15 - k) * m == 11 * m;
    } else if k == 5 {
      assert Pow2(k + 1) == 64 && (15 - k) * m == 10 * m;
    }
  }

  lemma {:induction false} ImaLog(m: word32)
    requires 1 <= m <= MAX_IMA_GOLOMB_PAR
    ensures ILog2(m) <= 5 && Pow2(ILog2(m)) <= m < Pow2(ILog2(m) + 1)
  {
    assert Pow2(6) == 64;
    hide ILog2;
    ILog2Bounds(m);
    if ILog2(m) >= 6 { Pow2Mono(6, ILog2(m)); }
  }

  lemma {:induction false} ImaFirstTooLong(m: word32)
    requires 1 <= m <= MAX_IMA_GOLOMB_PAR
    ensures ILog2(m) <= 5 && FirstTooLong(m, 16) == CmpImaMaxSpill(m) + 8
  {
    ImaLog(m);
    ImaTable(m, ILog2(m));
    hide ILog2, Pow2, CmpImaMaxSpill;
    assert Cutoff(m) == Pow2(ILog2(m) + 1) - m;
  }

  lemma {:induction false} ImaLength(m: word32, v: nat)
    requires 1 <= m <= MAX_IMA_GOLOMB_PAR
    ensures |GolombCode(v, m)| <= 16 <==> v < CmpImaMaxSpill(m) + 8
  {
    hide CmpImaMaxSpill, ILog2, GolombCode, FirstTooLong;
    ImaFirstTooLong(m);
    LengthExact(v, m, 16);
  }

  /** The RDCU table is tight in the same way for 16-bit code words and the
      eight escape symbols that 16-bit data can need. */
  lemma {:induction false} ImaMaxSpillTight(m: word32, spill: nat)
    requires 1 <= m <= MAX_IMA_GOLOMB_PAR
    ensures spill <= CmpImaMaxSpill(m) <==> (forall v: nat :: v <= spill + 7 ==> |GolombCode(v, m)| <= 16)
    ensures |GolombCode(CmpImaMaxSpill(m) + 7, m)| == 16
  {
    hide *;
    var top := CmpImaMaxSpill(m);
    forall v: nat
      ensures |GolombCode(v, m)| <= 16 <==> v < top + 8
    {
      ImaLength(m, v);
    }
    assert |GolombCode(spill + 7, m)| <= 16 <==> spill <= top;
    NextLength(top + 7, m);
    assert |GolombCode(top + 8, m)| > 16;
  }

  //// Threshold selection and validity

  /** cmp_best_zero_spill, for a field of maxDataBits bits. */
  function CmpBestZeroSpill(golombPar: word32, maxDataBits: nat): (spill: nat)
    requires maxDataBits <= 32
  {
    var maxSpill := CmpIcuMaxSpill(golombPar);
    if golombPar < MIN_GOLOMB_PAR then 0
    else if golombPar > MAX_GOLOMB_PAR then 0
    else
      var cutoff := Sub32(Shl32(2, ILog2(golombPar)), golombPar);
      MulNonneg(maxDataBits, golombPar);
      var spill := maxDataBits * golombPar + cutoff;
      if spill > maxSpill then maxSpill else spill
  }

  /** cmp_get_spill */
  function CmpGetSpill(golombPar: word32, mode: CmpMode, maxDataBits: nat): (spill: word32)
    requires maxDataBits <= 32
  {
    if mode.IsZero() then CmpBestZeroSpill(golombPar, maxDataBits) else CmpIcuMaxSpill(golombPar)
  }

  /** The negation of cmp_pars_are_invalid. */
  predicate ParsAreValid(par: word32, spill: word32, mode: CmpMode)
  {
    mode.IsRaw() ||
    (mode.IsSupported()
     && MIN_GOLOMB_PAR <= par <= MAX_GOLOMB_PAR
     && MIN_SPILL <= spill
     && spill <= CmpIcuMaxSpill(par))
  }

  /** The chosen threshold is accepted exactly when the parameter is in range. */
  lemma {:induction false} GetSpillIsValid(par: word32, mode: CmpMode, maxDataBits: nat)
    requires 1 <= maxDataBits <= 32 && mode.IsSupported() && !mode.IsRaw()
    ensures ParsAreValid(par, CmpGetSpill(par, mode, maxDataBits), mode)
       <==> MIN_GOLOMB_PAR <= par <= MAX_GOLOMB_PAR
  {
    if MIN_GOLOMB_PAR <= par <= MAX_GOLOMB_PAR {
      CutoffWord(par);
      MulMono(1, maxDataBits, par);
      hide Pow2, ILog2, CmpIcuMaxSpill, FirstTooLong;
    }
  }

  /** In the zero modes the threshold is the best one: below the largest accepted threshold,
      a value is below it exactly if its own code word is not longer than the escape symbol
      with the plain value behind it. */
  lemma {:induction false} ZeroThresholdIsBest(par: word32, mode: CmpMode, bits: nat, v: nat)
    requires MIN_GOLOMB_PAR <= par <= MAX_GOLOMB_PAR && (mode.ModelZero? || mode.DiffZero?) && 1 <= bits <= 32
    ensures CmpGetSpill(par, mode, bits) <= CmpIcuMaxSpill(par)
    ensures v < CmpIcuMaxSpill(par) ==>
      (v < CmpGetSpill(par, mode, bits) <==> |GolombCode(v, par)| <= |GolombCode(0, par)| + bits)
  {
    CutoffWord(par);
    ShortestCode(par);
    MulNonneg(bits, par);
    hide ILog2, Pow2, CmpIcuMaxSpill, GolombCode, Cutoff;
    LengthExact(v, par, ILog2(par) + 1 + bits);
  }

  lemma {:induction false} ShortestCode(m: word32)
    requires m > 0
    ensures |GolombCode(0, m)| == ILog2(m) + 1
  {
    hide ILog2, Pow2, GolombCode;
    GolombLength(0, m);
    DivModUnique(0, m, 0, 0);
  }

  /** In the multi modes the threshold is the largest one that is accepted, and the largest
      one under which all symbols have at most 32 bits. */
  lemma {:induction false} MultiThresholdIsLargest(par: word32, mode: CmpMode, bits: nat, spill: word32)
    requires MIN_GOLOMB_PAR <= par <= MAX_GOLOMB_PAR && (mode.ModelMulti? || mode.DiffMulti?) && 1 <= bits <= 32
    ensures ParsAreValid(par, CmpGetSpill(par, mode, bits), mode)
    ensures ParsAreValid(par, spill, mode) <==> 2 <= spill <= CmpGetSpill(par, mode, bits)
    ensures spill <= CmpGetSpill(par, mode, bits) <==> (forall v: nat :: v <= spill + 15 ==> |GolombCode(v, par)| <= 32)
  {
    GetSpillIsValid(par, mode, bits);
    hide CmpIcuMaxSpill, GolombCode;
    MaxSpillTight(par, spill);
  }
}
