/** Decoding one value through the register reader. */
module ValueDecoder {
  import opened Bits
  import opened Bytes
  import opened Words
  import opened Golomb
  import opened ZigZag
  import opened Params
  import opened ValueCode
  import opened BitReader
  import opened ValueEncoder

  /** struct decoder_setup */
  datatype DecoderSetup = DecoderSetup(p: CodePars, log2M: nat, coder: Coder)

  /** select_decoder and configure_decoder_setup */
  function ConfigureDecoder(p: CodePars): (s: DecoderSetup)
  {
    DecoderSetup(p, ILog2(p.m), if p.m == 1 then UnaryCoder else if IsAPowOf2(p.m) then RiceCoder else GolombCoder)
  }

  ghost predicate ValidDecoder(s: DecoderSetup)
  {
    && ValidPars(s.p)
    && s.log2M == ILog2(s.p.m) <= 15
    && (s.coder.UnaryCoder? ==> s.p.m == 1)
    && (s.coder.RiceCoder? ==> s.p.m == Pow2(s.log2M) && s.log2M >= 1)
    && (s.coder.GolombCoder? ==> s.log2M >= 1)
  }

  lemma {:induction false} ConfigureDecoderValid(p: CodePars)
    requires ValidPars(p)
    ensures ValidDecoder(ConfigureDecoder(p))
  {
    assert p.m > 0 && Pow2(0) == 1 && Pow2(1) == 2;
    ParLog(p.m);
    ILog2Bounds(p.m);
    PowOf2Exact(p.m);
    hide ILog2, IsAPowOf2, ValidPars;
    if ILog2(p.m) == 0 { assert p.m == 1; }
  }

  //// The code word decoders, as functions of the register

  /** unary_decoder, rice_decoder and golomb_decoder: the value and the consumed bits. */
  function UnaryResult(container: nat, consumed: nat): (r: (nat, nat))
    ensures r.0 <= 64 && r.1 >= 1
  {
    var q := LeadingOnes(Shifted(container, consumed));
    (q, q + 1)
  }

  function RiceResult(container: nat, consumed: nat, k: nat): (r: (word32, nat))
    requires 1 <= k <= 15
  {
    var q := UnaryResult(container, consumed).0;
    PeekFits(Shl64(container, (consumed + q + 1) % 64), k);
    (Add32(Shl32(q, k), Peek(container, consumed + q + 1, k)), q + 1 + k)
  }

  function GolombResult(container: nat, consumed: nat, m: word32, k: nat): (r: (word32, nat))
    requires 1 <= k == ILog2(m) <= 15 && m > 0
  {
    var q := UnaryResult(container, consumed).0;
    var r2 := Peek(container, consumed + q + 1, k + 1);
    PeekBound(container, consumed + q + 1, k + 1);
    GolombSum(q, r2, m, k);
    CutoffWord(m);
    var cutoff := Sub32(Shl32(2, k), m);
    if r2 / 2 < cutoff then
      GolombSum(q, r2 / 2, m, k);
      (q * m + r2 / 2, q + 1 + k)
    else
      GolombSum(q, r2 - cutoff, m, k);
      (q * m + (r2 - cutoff), q + 1 + k + 1)
  }

  lemma {:induction false} PeekBound(container: nat, consumed: nat, n: nat)
    requires 1 <= n <= 57
    ensures Peek(container, consumed, n) < Pow2(n)
  {
    Pow2Values();
    ShrBound(Shl64(container, consumed % 64), 64 - n, 64);
  }

  lemma {:induction false} GolombSum(q: nat, r: nat, m: word32, k: nat)
    requires q <= 64 && k <= 15 && k == ILog2(m) && m > 0 && r < Pow2(k + 1)
    ensures 0 <= q * m + r < W32
  {
    ILog2Bounds(m);
    Pow2Mono(k + 1, 16);
    Pow2Values();
    MulMono(q, 64, m);
    MulNonneg(q, m);
  }

  /** decode_cw_f: the code word decoder chosen at setup. */
  function CwResult(s: DecoderSetup, container: nat, consumed: nat): (r: (word32, nat))
    requires ValidDecoder(s)
    ensures r.1 >= 1
  {
    match s.coder
    case UnaryCoder => UnaryResult(container, consumed)
    case RiceCoder => RiceResult(container, consumed, s.log2M)
    case GolombCoder => GolombResult(container, consumed, s.p.m, s.log2M)
  }

  //// What is read from the register is what the bit sequence holds

  /** ReadCw, in the steps of the decompressor. */
  lemma {:induction false} ReadCwSteps(b: seq<bool>, m: word32)
    requires m > 0 && ReadCw(b, m).Some?
    ensures var q := LeadingOnes(b);
      && q < |b| && ReadTruncBin(b[q + 1..], m).Some?
      && ReadCw(b, m) == Some((q * m + ReadTruncBin(b[q + 1..], m).value.0, q + 1 + ReadTruncBin(b[q + 1..], m).value.1))
  {
    hide ReadTruncBin, ILog2, Pow2, LeadingOnes;
  }

  /** A code word that starts the unread bits lies within a filled register. */
  lemma {:induction false} UnaryIsNext(dec: BitDecoder, len: nat)
    requires dec.Filled() && len <= |dec.Rest()| && len <= 32 && LeadingOnes(dec.Rest()) < len
    ensures dec.bitsConsumed + len <= 64
    ensures LeadingOnes(Shifted(dec.bitContainer, dec.bitsConsumed)) == LeadingOnes(dec.Rest())
  {
    hide BytesBits, ToBits, Shl64, Shifted;
    var b, c := dec.Rest(), dec.bitsConsumed;
    var q := LeadingOnes(b);
    dec.RegisterIsRest();
    dec.ShiftedIsRest(0, q + 1);
    var s := Shifted(dec.bitContainer, c);
    assert s[..q + 1] == b[..q + 1];
    assert forall i :: 0 <= i < q + 1 ==> s[i] == s[..q + 1][i] == b[..q + 1][i] == b[i];
    LeadingOnesIs(s, q);
  }

  /** For a power of two every remainder takes k bits. */
  lemma {:induction false} RiceRemainder(t: seq<bool>, m: word32, k: nat)
    requires m > 0 && k == ILog2(m) && m == Pow2(k) && ReadTruncBin(t, m).Some?
    ensures k <= |t| && Val(t[..k]) < m && ReadTruncBin(t, m) == Some((Val(t[..k]), k))
  {
    ValBound(t[..k]);
  }

  lemma {:induction false} RiceSum(q: nat, r: word32, m: word32, k: nat)
    requires q <= 64 && k <= 15 && r < m == Pow2(k)
    ensures q < W32 && Add32(Shl32(q, k), r) == q * m + r
  {
    Pow2Mono(k, 16);
    Pow2Values();
    MulMono(q, 64, m);
    ShlExact(q, k);
  }

  lemma {:induction false} RiceParts(container: nat, consumed: nat, q: nat, r: word32, m: word32, k: nat)
    requires 1 <= k <= 15 && r < m == Pow2(k)
    requires LeadingOnes(Shifted(container, consumed)) == q && Peek(container, consumed + q + 1, k) == r
    ensures RiceResult(container, consumed, k) == (q * m + r, q + 1 + k)
  {
    hide Pow2, Shl32, Peek, Shifted, LeadingOnes;
    RiceSum(q, r, m, k);
  }

  lemma {:induction false} RiceReads(dec: BitDecoder, m: word32, k: nat)
    requires m > 0 && 1 <= k == ILog2(m) <= 15 && m == Pow2(k) && dec.Filled() && ReadCw(dec.Rest(), m).Some?
    ensures RiceResult(dec.bitContainer, dec.bitsConsumed, k) == ReadCw(dec.Rest(), m).value
    ensures dec.bitsConsumed + ReadCw(dec.Rest(), m).value.1 <= 64
  {
    hide *;
    var b := dec.Rest();
    var q, len := LeadingOnes(b), ReadCw(b, m).value.1;
    ReadCwSteps(b, m);
    CwLength(b, m);
    UnaryIsNext(dec, len);
    RiceRemainder(b[q + 1..], m, k);
    FilledValid(dec);
    dec.PeekIsNext(q + 1, k);
    assert b[q + 1..][..k] == b[q + 1..q + 1 + k];
    assert dec.bitsConsumed + (q + 1) == dec.bitsConsumed + q + 1;
    RiceParts(dec.bitContainer, dec.bitsConsumed, q, Val(b[q + 1..q + 1 + k]), m, k);
  }

  lemma {:induction false} CwLength(b: seq<bool>, m: word32)
    requires m > 0 && ReadCw(b, m).Some?
    ensures ReadCw(b, m).value.1 <= 32 && ReadCw(b, m).value.1 <= |b|
  {
  }

  lemma {:induction false} FilledValid(dec: BitDecoder)
    requires dec.Filled()
    ensures dec.Valid() && dec.bitsConsumed <= 64
  {
  }

  lemma {:induction false} GolombReads(dec: BitDecoder, s: DecoderSetup)
    requires ValidDecoder(s) && s.coder.GolombCoder? && dec.Filled() && ReadCw(dec.Rest(), s.p.m).Some?
    ensures GolombResult(dec.bitContainer, dec.bitsConsumed, s.p.m, s.log2M) == ReadCw(dec.Rest(), s.p.m).value
    ensures dec.bitsConsumed + ReadCw(dec.Rest(), s.p.m).value.1 <= 64
  {
    hide ILog2, Pow2, LeadingOnes, Peek, Val, CmpIcuMaxSpill, BitDecoder.Rest, BitDecoder.Valid, Shl32, Sub32, Cutoff;
    var b, m, k := dec.Rest(), s.p.m, s.log2M;
    var q := LeadingOnes(b);
    var len := ReadCw(b, m).value.1;
    ReadCwSteps(b, m);
    hide ReadCw, ReadTruncBin;
    UnaryIsNext(dec, len);
    CutoffWord(m);
    GolombRemainder(dec, m, k, q + 1);
  }

  /** Both remainder forms are decided by peeking one bit further. */
  lemma {:induction false} GolombRemainder(dec: BitDecoder, m: word32, k: nat, j: nat)
    requires dec.Valid() && m > 0 && 1 <= k == ILog2(m) <= 15 && j <= |dec.Rest()|
    requires ReadTruncBin(dec.Rest()[j..], m).Some?
    requires dec.bitsConsumed + j + ReadTruncBin(dec.Rest()[j..], m).value.1 <= 64
    ensures var r2 := Peek(dec.bitContainer, dec.bitsConsumed + j, k + 1);
      var t := ReadTruncBin(dec.Rest()[j..], m).value;
      if r2 / 2 < Cutoff(m) then t == (r2 / 2, k) else r2 >= Cutoff(m) && t == (r2 - Cutoff(m), k + 1)
  {
    hide ILog2, Pow2, Cutoff, Val, Peek, BitDecoder.Rest, BitDecoder.Valid;
    var t := dec.Rest()[j..];
    dec.PeekHalf(j, k);
    assert t[..k] == dec.Rest()[j..j + k];
    if Val(t[..k]) >= Cutoff(m) {
      dec.PeekIsNext(j, k + 1);
      assert t[..k + 1] == dec.Rest()[j..j + (k + 1)];
    }
  }

  lemma {:induction false} UnaryReads(dec: BitDecoder)
    requires dec.Filled() && ReadCw(dec.Rest(), 1).Some?
    ensures UnaryResult(dec.bitContainer, dec.bitsConsumed) == ReadCw(dec.Rest(), 1).value
    ensures dec.bitsConsumed + ReadCw(dec.Rest(), 1).value.1 <= 64
  {
    hide ILog2, Pow2, LeadingOnes, Val, BitDecoder.Rest, BitDecoder.Valid, ReadTruncBin;
    var b := dec.Rest();
    var len := ReadCw(b, 1).value.1;
    ReadCwSteps(b, 1);
    hide ReadCw;
    UnaryIsNext(dec, len);
    UnaryRemainder(b[LeadingOnes(b) + 1..]);
  }

  lemma {:induction false} UnaryRemainder(t: seq<bool>)
    ensures ReadTruncBin(t, 1) == Some((0, 0))
  {
    assert Pow2(0) == 1 && Pow2(1) == 2;
    ILog2Unique(1, 0);
    assert t[..0] == [];
  }

  /** Every code word decoder finds the code word of the format. */
  lemma {:induction false} CwReads(dec: BitDecoder, s: DecoderSetup)
    requires ValidDecoder(s) && dec.Filled() && ReadCw(dec.Rest(), s.p.m).Some?
    ensures CwResult(s, dec.bitContainer, dec.bitsConsumed) == ReadCw(dec.Rest(), s.p.m).value
    ensures dec.bitsConsumed + ReadCw(dec.Rest(), s.p.m).value.1 <= 64
  {
    hide RiceResult, GolombResult, UnaryResult, ReadCw, BitDecoder.Rest, BitDecoder.Filled, CmpIcuMaxSpill, ILog2, Pow2;
    match s.coder
    case UnaryCoder => UnaryReads(dec);
    case RiceCoder => RiceReads(dec, s.p.m, s.log2M);
    case GolombCoder => GolombReads(dec, s);
  }

  //// Within the register, what is decoded is there

  /** A run of ones that ends within the register. */
  lemma {:induction false} UnaryFits(dec: BitDecoder, q: nat)
    requires dec.Valid() && q == LeadingOnes(Shifted(dec.bitContainer, dec.bitsConsumed)) && dec.bitsConsumed + q + 1 <= 64
    ensures q < |dec.Rest()| && LeadingOnes(dec.Rest()) == q
  {
    var b, s := dec.Rest(), Shifted(dec.bitContainer, dec.bitsConsumed);
    dec.ShiftedIsRest(0, q + 1);
    hide BitDecoder.Rest, BitDecoder.Valid, Shifted, LeadingOnes;
    forall i | 0 <= i < q + 1
      ensures b[i] == s[i]
    {
      assert s[..q + 1][i] == b[0..q + 1][i];
    }
    LeadingOnesIs(b, q);
  }

  /** A remainder that ends within the register. */
  lemma {:induction false} RemainderFits(dec: BitDecoder, m: word32, k: nat, j: nat)
    requires dec.Valid() && m > 0 && 1 <= k == ILog2(m) <= 15 && j <= |dec.Rest()|
    requires var r2 := Peek(dec.bitContainer, dec.bitsConsumed + j, k + 1);
      dec.bitsConsumed + j + (if r2 / 2 < Cutoff(m) then k else k + 1) <= 64
    ensures var r2 := Peek(dec.bitContainer, dec.bitsConsumed + j, k + 1);
      ReadTruncBin(dec.Rest()[j..], m) == Some(if r2 / 2 < Cutoff(m) then (r2 / 2, k) else (r2 - Cutoff(m), k + 1))
  {
    hide ILog2, Pow2, Cutoff, Val, Peek, BitDecoder.Rest, BitDecoder.Valid;
    var t := dec.Rest()[j..];
    dec.PeekHalf(j, k);
    assert t[..k] == dec.Rest()[j..j + k];
    if Val(t[..k]) >= Cutoff(m) {
      dec.PeekIsNext(j, k + 1);
      assert t[..k + 1] == dec.Rest()[j..j + (k + 1)];
    }
  }

  /** ReadGolomb, in the steps of the decompressor. */
  lemma {:induction false} ReadGolombOf(b: seq<bool>, m: word32, q: nat, r: nat, len: nat)
    requires m > 0 && q == LeadingOnes(b) < |b| && ReadTruncBin(b[q + 1..], m) == Some((r, len))
    ensures ReadGolomb(b, m) == Some((q * m + r, q + 1 + len))
  {
    hide ReadTruncBin, LeadingOnes;
  }

  lemma {:induction false} ResultLengths(container: nat, consumed: nat)
    ensures UnaryResult(container, consumed) == (LeadingOnes(Shifted(container, consumed)), LeadingOnes(Shifted(container, consumed)) + 1)
    ensures forall k {:trigger RiceResult(container, consumed, k)} :: 1 <= k <= 15 ==>
      RiceResult(container, consumed, k).1 == UnaryResult(container, consumed).1 + k
  {
    hide Peek, Shl64, Shl32, LeadingOnes, Shifted;
  }

  lemma {:induction false} UnaryFound(dec: BitDecoder)
    requires dec.Valid() && dec.bitsConsumed + UnaryResult(dec.bitContainer, dec.bitsConsumed).1 <= 64
    ensures ReadGolomb(dec.Rest(), 1) == Some(UnaryResult(dec.bitContainer, dec.bitsConsumed))
  {
    hide *;
    var q := LeadingOnes(Shifted(dec.bitContainer, dec.bitsConsumed));
    ResultLengths(dec.bitContainer, dec.bitsConsumed);
    UnaryFits(dec, q);
    UnaryRemainder(dec.Rest()[q + 1..]);
    ReadGolombOf(dec.Rest(), 1, q, 0, 0);
  }

  lemma {:induction false} RiceFound(dec: BitDecoder, m: word32, k: nat)
    requires dec.Valid() && m > 0 && 1 <= k == ILog2(m) <= 15 && m == Pow2(k)
    requires dec.bitsConsumed + RiceResult(dec.bitContainer, dec.bitsConsumed, k).1 <= 64
    ensures ReadGolomb(dec.Rest(), m) == Some(RiceResult(dec.bitContainer, dec.bitsConsumed, k))
  {
    hide *;
    var q := LeadingOnes(Shifted(dec.bitContainer, dec.bitsConsumed));
    ResultLengths(dec.bitContainer, dec.bitsConsumed);
    var b := dec.Rest();
    UnaryFits(dec, q);
    dec.PeekIsNext(q + 1, k);
    assert b[q + 1..][..k] == b[q + 1..q + 1 + k];
    assert dec.bitsConsumed + (q + 1) == dec.bitsConsumed + q + 1;
    var r := Val(b[q + 1..][..k]);
    PowerRemainder(b[q + 1..], m, k);
    RiceParts(dec.bitContainer, dec.bitsConsumed, q, r, m, k);
    ReadGolombOf(b, m, q, r, k);
  }

  lemma {:induction false} PowerRemainder(t: seq<bool>, m: word32, k: nat)
    requires m > 0 && k == ILog2(m) && m == Pow2(k) && k <= |t|
    ensures Val(t[..k]) < m && ReadTruncBin(t, m) == Some((Val(t[..k]), k))
  {
    ValBound(t[..k]);
  }

  lemma {:induction false} GolombFound(dec: BitDecoder, s: DecoderSetup)
    requires ValidDecoder(s) && s.coder.GolombCoder? && dec.Valid()
    requires dec.bitsConsumed + GolombResult(dec.bitContainer, dec.bitsConsumed, s.p.m, s.log2M).1 <= 64
    ensures ReadGolomb(dec.Rest(), s.p.m) == Some(GolombResult(dec.bitContainer, dec.bitsConsumed, s.p.m, s.log2M))
  {
    hide ILog2, Pow2, LeadingOnes, Peek, Val, CmpIcuMaxSpill, BitDecoder.Rest, BitDecoder.Valid, Shl32, Sub32, Cutoff, ReadGolomb;
    var m, k, q := s.p.m, s.log2M, LeadingOnes(Shifted(dec.bitContainer, dec.bitsConsumed));
    hide ReadTruncBin;
    UnaryFits(dec, q);
    CutoffWord(m);
    assert dec.bitsConsumed + (q + 1) == dec.bitsConsumed + q + 1;
    RemainderFits(dec, m, k, q + 1);
    var t := ReadTruncBin(dec.Rest()[q + 1..], m).value;
    ReadGolombOf(dec.Rest(), m, q, t.0, t.1);
  }

  /** What the code word decoders find within the register is the code word of the format. */
  lemma {:induction false} CwFound(dec: BitDecoder, s: DecoderSetup)
    requires ValidDecoder(s) && dec.Valid() && dec.bitsConsumed + CwResult(s, dec.bitContainer, dec.bitsConsumed).1 <= 64
    ensures ReadGolomb(dec.Rest(), s.p.m) == Some(CwResult(s, dec.bitContainer, dec.bitsConsumed))
  {
    hide RiceResult, GolombResult, UnaryResult, ReadGolomb, BitDecoder.Rest, BitDecoder.Valid, CmpIcuMaxSpill, ILog2, Pow2;
    match s.coder
    case UnaryCoder => UnaryFound(dec);
    case RiceCoder => RiceFound(dec, s.p.m, s.log2M);
    case GolombCoder => GolombFound(dec, s);
  }

  //// bit_read_bits32_sub_1

  lemma {:induction false} ModPred(z: nat, p: nat)
    requires z > 0 && p > 0
    ensures (z - 1) % p == if z % p == 0 then p - 1 else z % p - 1
  {
    DivModParts(z, p);
    var a, f := z / p, z % p;
    TimesPred(a, p);
    if f == 0 { DivModUnique(z - 1, p, a - 1, p - 1); } else { DivModUnique(z - 1, p, a, f - 1); }
  }

  lemma {:induction false} PredMod(z: word32, n: nat)
    requires 1 <= n <= 32
    ensures 0 <= z % Pow2(n) < Pow2(n)
    ensures Sub32(z, 1) % Pow2(n) == Pred(z % Pow2(n), n)
  {
    PowSplit(n);
    var p, q := Pow2(n), Pow2(32 - n);
    DivModParts(z, p);
    hide Pow2;
    if z == 0 {
      DivModUnique(Sub32(z, 1), p, q - 1, p - 1);
      SmallMod(0, p);
    } else {
      ModPred(z, p);
    }
  }

  /** Reducing to 32 bits first does not change the n low bits. */
  lemma {:induction false} ModMod(y: nat, n: nat)
    requires n <= 32
    ensures y % W32 % Pow2(n) == y % Pow2(n)
  {
    PowSplit(n);
    Pow2Values();
    hide Pow2;
    ToBitsMod(y, 32);
    ToBitsSplit(y, 32 - n, n);
    ToBitsSplit(y % W32, 32 - n, n);
    assert ToBits(y, 32)[32 - n..] == ToBits(y, n);
    assert ToBits(y % W32, 32)[32 - n..] == ToBits(y % W32, n);
    ValToBits(y, n);
    ValToBits(y % W32, n);
  }

  lemma {:induction false} FieldValue(container: nat, c: nat, n: nat)
    requires container < W64 && 1 <= n <= 32 && c + n <= 64
    ensures Val(ToBits(container, 64)[c..c + n]) == Shr(container, 64 - c - n) % Pow2(n)
  {
    var y := Shr(container, 64 - c - n);
    hide Pow2, ToBits, Shr;
    ToBitsSplit(container, c + n, 64 - c - n);
    ToBitsSplit(y, c, n);
    assert ToBits(container, 64)[c..c + n] == ToBits(y, c + n)[c..] == ToBits(y, n);
    ValToBits(y, n);
  }

  lemma {:induction false} Sub1IsNext(dec: BitDecoder, n: nat)
    requires dec.Valid() && 1 <= n <= 32 && dec.bitsConsumed + n <= 64
    ensures n <= |dec.Rest()| && Val(dec.Rest()[..n]) < Pow2(n)
    ensures Sub1(dec.bitContainer, dec.bitsConsumed, n) == Pred(Val(dec.Rest()[..n]), n)
  {
    hide Pow2, ToBits, Shr, BytesBits, Padded, Val;
    var container, c := dec.bitContainer, dec.bitsConsumed;
    dec.RegisterIsRest();
    var f := dec.Rest()[..n];
    assert f == ToBits(container, 64)[c..][..n] == ToBits(container, 64)[c..c + n];
    FieldValue(container, c, n);
    ValBound(f);
    var shift := (64 - c - n) % 64;
    assert shift == 64 - c - n;
    var y := Shr(container, shift);
    DivModParts(y, W32);
    LowMaskFits(n);
    ModMod(y, n);
    PredMod(y % W32, n);
    AndLowMask(Sub32(y % W32, 1), n);
  }

  //// The decoders

  /** The unread bits after n more bits are consumed. */
  lemma {:induction false} RestAfter(dec: BitDecoder, b: seq<bool>, p0: nat, n: nat)
    requires p0 <= |dec.Stream()| && b == dec.Stream()[p0..] && n <= |b| && dec.Pos() == p0 + n
    ensures dec.Rest() == b[n..]
  {
  }

  /** unary_decoder */
  method UnaryDecoder(dec: BitDecoder) returns (v: nat)
    modifies dec`bitsConsumed
    ensures (v, dec.bitsConsumed - old(dec.bitsConsumed)) == UnaryResult(dec.bitContainer, old(dec.bitsConsumed))
  {
    v := dec.PeekLeadingOnes();
    dec.ConsumeBits(v + 1);
  }

  /** rice_decoder */
  method RiceDecoder(dec: BitDecoder, log2M: nat) returns (v: word32)
    requires 1 <= log2M <= 15
    modifies dec`bitsConsumed
    ensures (v, dec.bitsConsumed - old(dec.bitsConsumed)) == RiceResult(dec.bitContainer, old(dec.bitsConsumed), log2M)
  {
    hide Peek, LeadingOnes, Shifted, Shl32;
    var q := UnaryDecoder(dec);
    var r := dec.ReadBits32(log2M);
    v := Add32(Shl32(q, log2M), r);
  }

  /** golomb_decoder */
  method GolombDecoder(dec: BitDecoder, m: word32, log2M: nat) returns (v: word32)
    requires 1 <= log2M == ILog2(m) <= 15 && m > 0
    modifies dec`bitsConsumed
    ensures (v, dec.bitsConsumed - old(dec.bitsConsumed)) == GolombResult(dec.bitContainer, old(dec.bitsConsumed), m, log2M)
  {
    hide Peek, LeadingOnes, Shifted, Shl32, ILog2, Pow2, Cutoff, Sub32;
    var q := UnaryDecoder(dec);
    PeekBound(dec.bitContainer, dec.bitsConsumed, log2M + 1);
    var r2 := dec.PeekBits(log2M + 1);
    var r1 := r2 / 2;
    CutoffWord(m);
    var cutoff := Sub32(Shl32(2, log2M), m);
    var r;
    if r1 < cutoff {
      dec.ConsumeBits(log2M);
      r := r1;
    } else {
      dec.ConsumeBits(log2M + 1);
      r := r2 - cutoff;
    }
    GolombSum(q, r, m, log2M);
    v := q * m + r;
  }

  /** decode_cw_f: a code word at the front of the unread bits is decoded and consumed. */
  method DecodeCw(dec: BitDecoder, s: DecoderSetup) returns (v: word32)
    requires ValidDecoder(s)
    modifies dec`bitsConsumed
    ensures dec.bitsConsumed > old(dec.bitsConsumed) && dec.Pos() > old(dec.Pos())
    ensures old(dec.Filled()) && dec.bitsConsumed <= 64 ==>
      var len := dec.bitsConsumed - old(dec.bitsConsumed);
      ReadGolomb(old(dec.Rest()), s.p.m) == Some((v, len)) && dec.Rest() == old(dec.Rest())[len..]
    ensures old(dec.Filled()) && dec.bitsConsumed > 64 ==> ReadCw(old(dec.Rest()), s.p.m).None?
  {
    hide RiceResult, GolombResult, UnaryResult, ReadCw, ReadGolomb, CmpIcuMaxSpill, ILog2, Pow2, BitDecoder.Rest,
      BitDecoder.Stream, BitDecoder.Filled, BitDecoder.Valid;
    ghost var filled, b, p0 := dec.Filled(), dec.Rest(), dec.Pos();
    ghost var inside := dec.bitsConsumed + CwResult(s, dec.bitContainer, dec.bitsConsumed).1 <= 64;
    if filled {
      dec.RestIsSuffix();
      FilledValid(dec);
      if inside { CwFound(dec, s); } else if ReadCw(b, s.p.m).Some? { CwReads(dec, s); }
    }
    match s.coder {
      case UnaryCoder => v := UnaryDecoder(dec);
      case RiceCoder => v := RiceDecoder(dec, s.log2M);
      case GolombCoder => v := GolombDecoder(dec, s.p.m, s.log2M);
    }
    assert CwResult(s, dec.bitContainer, old(dec.bitsConsumed)).1 >= 1;
    if filled && inside {
      ReadWithin(b, s.p.m);
      RestAfter(dec, b, p0, ReadGolomb(b, s.p.m).value.1);
    }
  }

  lemma {:induction false} ReadWithin(b: seq<bool>, m: word32)
    requires m > 0 && ReadGolomb(b, m).Some?
    ensures ReadGolomb(b, m).value.1 <= |b|
  {
  }

  /** A filled register serves a read of n bits exactly if the stream has them. */
  lemma {:induction false} FilledFor(dec: BitDecoder, n: nat)
    requires dec.Filled() && n <= 57
    ensures dec.Valid() && (dec.bitsConsumed + n <= 64 <==> n <= |dec.Rest()|)
    ensures dec.Pos() <= |dec.Stream()| && dec.Rest() == dec.Stream()[dec.Pos()..]
  {
    dec.RegisterIsRest();
  }

  /** The bits behind a multi escape symbol: they are read exactly if the stream has them. */
  method ReadUnencoded(dec: BitDecoder, n: nat) returns (v: word32)
    requires dec.Valid() && 1 <= n <= 32
    modifies dec
    ensures dec.Valid() && dec.Pos() == old(dec.Pos()) + n
    ensures dec.bitsConsumed <= 64 <==> old(dec.bitsConsumed) <= 64 && n <= |old(dec.Rest())|
    ensures dec.bitsConsumed <= 64 ==> v == Val(old(dec.Rest())[..n]) && dec.Rest() == old(dec.Rest())[n..]
  {
    hide BitDecoder.Rest, BitDecoder.Stream, Val, Peek;
    var status := dec.Refill();
    ghost var t, p1 := dec.Rest(), dec.Pos();
    if status != Overflow { FilledFor(dec, n); }
    ghost var readable := dec.bitsConsumed + n <= 64;
    if readable {
      dec.PeekIsNext(0, n);
      assert t[0..0 + n] == t[..n];
    }
    v := dec.ReadBits32(n);
    if readable { RestAfter(dec, t, p1, n); }
  }

  /** The bits behind a zero escape symbol, one less: they are read exactly if the stream has them. */
  method ReadIncremented(dec: BitDecoder, n: nat) returns (v: word32)
    requires dec.Valid() && 1 <= n <= 32
    modifies dec
    ensures dec.Valid() && dec.Pos() == old(dec.Pos()) + n
    ensures dec.bitsConsumed <= 64 <==> old(dec.bitsConsumed) <= 64 && n <= |old(dec.Rest())|
    ensures dec.bitsConsumed <= 64 ==>
      Val(old(dec.Rest())[..n]) < Pow2(n) && v == Pred(Val(old(dec.Rest())[..n]), n) && dec.Rest() == old(dec.Rest())[n..]
  {
    hide BitDecoder.Rest, BitDecoder.Stream, Val, Pow2, Pred, Sub1;
    var status := dec.Refill();
    ghost var t, p1 := dec.Rest(), dec.Pos();
    if status != Overflow { FilledFor(dec, n); }
    ghost var readable := dec.bitsConsumed + n <= 64;
    if readable { Sub1IsNext(dec, n); }
    v := dec.ReadBits32Sub1(n);
    if readable { RestAfter(dec, t, p1, n); }
  }

  /** What the decoder makes of the bits b is what a reader makes of them: an error exactly
      if they hold no value, and otherwise the value, with the rest still unread. */
  ghost predicate Agrees(r: Option<(word32, nat)>, b: seq<bool>, err: bool, v: word32, rest: seq<bool>)
  {
    match r
    case None => err
    case Some((u, len)) => !err && v == u && len <= |b| && rest == b[len..]
  }

  lemma {:induction false} NoMapped(p: CodePars, b: seq<bool>)
    requires p.m > 0 && 1 <= p.bits <= 32 && ReadCw(b, p.m).None?
    ensures ReadMapped(p, b) == None
  {
    hide ReadCw;
  }

  /** ReadZero behind a code word of len bits. */
  lemma {:induction false} ZeroSteps(p: CodePars, b: seq<bool>, v: word32, len: nat)
    requires 1 <= p.bits <= 32 && len <= |b|
    ensures v != 0 ==> ReadZero(p, b, v, len) == if v >= p.spill then None else Some((v - 1, len))
    ensures v == 0 && p.bits > |b[len..]| ==> ReadZero(p, b, v, len) == None
    ensures v == 0 && p.bits <= |b[len..]| ==>
      && len + p.bits <= |b| && b[len..][p.bits..] == b[len + p.bits..] && Val(b[len..][..p.bits]) < Pow2(p.bits)
      && var x := Pred(Val(b[len..][..p.bits]), p.bits);
         x < W32 && ReadZero(p, b, v, len) == if x + 1 < p.spill then None else Some((x, len + p.bits))
  {
    hide Pow2, Val, Pred;
    if v == 0 && p.bits <= |b[len..]| {
      assert b[len..][p.bits..] == b[len + p.bits..];
      ValBound(b[len..][..p.bits]);
      Pow2Mono(p.bits, 32);
      Pow2Values();
    }
  }

  /** The bits b after a code word of value v: if the register could serve it, b has v and
      then rest, and goes on as the escape mechanism says; otherwise b holds no value. */
  ghost predicate SymbolRead(p: CodePars, b: seq<bool>, v: word32, inside: bool, rest: seq<bool>)
    requires p.m > 0 && 1 <= p.bits <= 32
  {
    if !inside then ReadMapped(p, b) == None
    else
      && |rest| <= |b| && rest == b[|b| - |rest|..]
      && ReadMapped(p, b) == if p.escape.ZeroEscape? then ReadZero(p, b, v, |b| - |rest|) else ReadMulti(p, b, v, |b| - |rest|)
  }

  /** decode_cw_f at the start of decode_zero and decode_multi. */
  method DecodeSymbol(dec: BitDecoder, s: DecoderSetup) returns (v: word32)
    requires ValidDecoder(s) && dec.Filled()
    modifies dec
    ensures dec.Valid() && dec.Pos() > old(dec.Pos()) && s.p.m > 0 && 1 <= s.p.bits <= 32 && s.p.spill >= 2
    ensures SymbolRead(s.p, old(dec.Rest()), v, dec.bitsConsumed <= 64, dec.Rest())
  {
    hide *;
    SetupBits(s);
    FilledValid(dec);
    ghost var b := dec.Rest();
    v := DecodeCw(dec, s);
    if dec.bitsConsumed <= 64 { ReadWithin(b, s.p.m); }
    SymbolIs(s.p, b, v, dec.bitsConsumed <= 64, dec.Rest());
  }

  lemma {:induction false} SymbolIs(p: CodePars, b: seq<bool>, v: word32, inside: bool, rest: seq<bool>)
    requires ValidPars(p) && p.m > 0 && 1 <= p.bits <= 32
    requires !inside ==> ReadCw(b, p.m).None?
    requires inside ==> ReadGolomb(b, p.m).Some? && ReadGolomb(b, p.m).value.0 == v
    requires inside ==> ReadGolomb(b, p.m).value.1 <= |b| && rest == b[ReadGolomb(b, p.m).value.1..]
    ensures SymbolRead(p, b, v, inside, rest)
  {
    hide ReadMapped, ReadCw, ReadGolomb, ReadZero, ReadMulti, ValidPars;
    if inside {
      MappedFrom(p, b);
      assert |b| - |rest| == ReadGolomb(b, p.m).value.1;
    } else {
      NoMapped(p, b);
    }
  }

  /** The refill at the end of decode_zero and decode_multi. */
  method FinishValue(dec: BitDecoder) returns (err: bool)
    requires dec.Valid()
    modifies dec
    ensures dec.Valid() && dec.Pos() == old(dec.Pos()) && dec.Rest() == old(dec.Rest())
    ensures (err <==> old(dec.bitsConsumed) > 64) && (!err ==> dec.Filled())
  {
    var status := dec.Refill();
    err := status == Overflow;
  }

  /** decode_zero */
  method DecodeZero(dec: BitDecoder, s: DecoderSetup) returns (err: bool, v: word32)
    requires ValidDecoder(s) && dec.Filled()
    modifies dec
    ensures dec.Valid() && (!err ==> dec.Filled() && dec.Pos() > old(dec.Pos()))
    ensures s.p.escape.ZeroEscape? ==> Agrees(ReadMapped(s.p, old(dec.Rest())), old(dec.Rest()), err, v, dec.Rest())
  {
    hide ReadMapped, ReadZero, ReadMulti, ValidDecoder, BitDecoder.Rest, BitDecoder.Filled, BitDecoder.Valid, BitDecoder.Pos,
      Val, Pow2, Pred;
    ghost var b := dec.Rest();
    v := DecodeSymbol(dec, s);
    if dec.bitsConsumed <= 64 { ZeroSteps(s.p, b, v, |b| - |dec.Rest()|); }
    if v != 0 {
      if v >= s.p.spill { return true, v; }
      v := v - 1;
    } else {
      v := ReadIncremented(dec, s.p.bits);
      if v < s.p.spill - 1 {
        err := FinishValue(dec);
        return true, v;
      }
    }
    err := FinishValue(dec);
  }

  lemma {:induction false} SetupBits(s: DecoderSetup)
    requires ValidDecoder(s)
    ensures ValidPars(s.p) && s.p.m > 0 && 1 <= s.p.bits <= 32 && s.p.spill >= 2
  {
  }

  /** ReadMulti behind a code word of len bits. */
  lemma {:induction false} MultiSteps(p: CodePars, b: seq<bool>, v: word32, len: nat)
    requires 1 <= p.bits <= 32 && len <= |b|
    ensures v < p.spill ==> ReadMulti(p, b, v, len) == Some((v, len))
    ensures v >= p.spill && UnencodedLen(v - p.spill) > MaxUnencodedLen(p.bits) ==> ReadMulti(p, b, v, len) == None
    ensures v >= p.spill && UnencodedLen(v - p.spill) > |b[len..]| ==> ReadMulti(p, b, v, len) == None
    ensures v >= p.spill && UnencodedLen(v - p.spill) <= MaxUnencodedLen(p.bits) ==> 2 <= UnencodedLen(v - p.spill) <= 32
    ensures v >= p.spill && UnencodedLen(v - p.spill) <= MaxUnencodedLen(p.bits) && UnencodedLen(v - p.spill) <= |b[len..]| ==>
      var n := UnencodedLen(v - p.spill);
      && len + n <= |b| && b[len..][n..] == b[len + n..]
      && var x := Val(b[len..][..n]);
         x < W32 && ReadMulti(p, b, v, len)
           == if x < Pow2(n - 2) && n > 2 then None
              else if And32(Add32(x, p.spill), Mask(p.bits)) < p.spill then None else Some((Add32(x, p.spill), len + n))
  {
    hide And32, Mask, Add32, Pow2, Val;
    if v >= p.spill && UnencodedLen(v - p.spill) <= MaxUnencodedLen(p.bits) && UnencodedLen(v - p.spill) <= |b[len..]| {
      var n := UnencodedLen(v - p.spill);
      assert b[len..][n..] == b[len + n..];
      ValBound(b[len..][..n]);
      Pow2Mono(n, 32);
      Pow2Values();
    }
  }

  /** decode_multi behind a symbol that is not below the threshold; b0 are the bits from
      the symbol on. */
  method DecodeEscaped(dec: BitDecoder, s: DecoderSetup, symbol: word32, ghost b0: seq<bool>) returns (err: bool, v: word32)
    requires dec.Valid() && s.p.m > 0 && 1 <= s.p.bits <= 32 && symbol >= s.p.spill
    requires SymbolRead(s.p, b0, symbol, dec.bitsConsumed <= 64, dec.Rest())
    modifies dec
    ensures dec.Valid() && dec.Pos() >= old(dec.Pos()) && (!err ==> dec.Filled())
    ensures s.p.escape.MultiEscape? ==> Agrees(ReadMapped(s.p, b0), b0, err, v, dec.Rest())
  {
    hide ReadMapped, ReadZero, ReadMulti, BitDecoder.Rest, BitDecoder.Filled, BitDecoder.Valid, BitDecoder.Pos, Val, Pow2, Shr,
      And32, Mask, Add32, UnencodedLen, MaxUnencodedLen;
    if dec.bitsConsumed <= 64 { MultiSteps(s.p, b0, symbol, |b0| - |dec.Rest()|); }
    var unencodedLen := UnencodedLen(symbol - s.p.spill);
    if unencodedLen > MaxUnencodedLen(s.p.bits) { return true, symbol; }
    EscapeLength(symbol - s.p.spill, s.p.bits);
    v := ReadUnencoded(dec, unencodedLen);
    TopTwoBits(v, unencodedLen);
    if Shr(v, unencodedLen - 2) == 0 {
      if unencodedLen > 2 {
        err := FinishValue(dec);
        return true, v;
      }
    }
    v := Add32(v, s.p.spill);
    if And32(v, Mask(s.p.bits)) < s.p.spill {
      err := FinishValue(dec);
      return true, v;
    }
    err := FinishValue(dec);
  }

  lemma {:induction false} EscapeLength(offset: nat, bits: nat)
    requires 1 <= bits <= 32 && UnencodedLen(offset) <= MaxUnencodedLen(bits)
    ensures 2 <= UnencodedLen(offset) <= 32
  {
  }

  /** decode_multi */
  method DecodeMulti(dec: BitDecoder, s: DecoderSetup) returns (err: bool, v: word32)
    requires ValidDecoder(s) && dec.Filled()
    modifies dec
    ensures dec.Valid() && (!err ==> dec.Filled() && dec.Pos() > old(dec.Pos()))
    ensures s.p.escape.MultiEscape? ==> Agrees(ReadMapped(s.p, old(dec.Rest())), old(dec.Rest()), err, v, dec.Rest())
  {
    hide ReadMapped, ReadZero, ReadMulti, ValidDecoder, BitDecoder.Rest, BitDecoder.Filled, BitDecoder.Valid, BitDecoder.Pos;
    ghost var b := dec.Rest();
    v := DecodeSymbol(dec, s);
    if v >= s.p.spill {
      err, v := DecodeEscaped(dec, s, v, b);
    } else {
      if dec.bitsConsumed <= 64 { MultiSteps(s.p, b, v, |b| - |dec.Rest()|); }
      err := FinishValue(dec);
    }
  }

  lemma {:induction false} TopTwoBits(v: nat, n: nat)
    requires n >= 2
    ensures Shr(v, n - 2) == 0 <==> v < Pow2(n - 2)
  {
    DivModParts(v, Pow2(n - 2));
    if v < Pow2(n - 2) { SmallMod(v, Pow2(n - 2)); }
  }

  /** decode_value: an error exactly if the unread bits hold no value, whatever they are;
      otherwise the value is decoded, its bits are consumed, and the decoder is not beyond
      the end of the stream. */
  method DecodeValue(dec: BitDecoder, s: DecoderSetup, model: word32) returns (err: bool, v: word32)
    requires ValidDecoder(s) && dec.Filled()
    modifies dec
    ensures dec.Valid() && (!err ==> dec.Filled() && old(dec.Pos()) < dec.Pos() <= |dec.Stream()|)
    ensures Agrees(ReadValue(s.p, old(dec.Rest()), model), old(dec.Rest()), err, v, dec.Rest())
  {
    hide ReadMapped, CmpIcuMaxSpill, ILog2, Pow2, BitDecoder.Rest, Restore;
    if s.p.escape.MultiEscape? {
      err, v := DecodeMulti(dec, s);
    } else {
      err, v := DecodeZero(dec, s);
    }
    v := Restore(s.p, v, model);
  }
}
