/** Encoding one value into the bitstream. */
module ValueEncoder {
  import opened Bits
  import opened Bytes
  import opened Words
  import opened Golomb
  import opened ZigZag
  import opened Params
  import opened ValueCode
  import opened Errors
  import opened BitWriter

  datatype Coder = UnaryCoder | RiceCoder | GolombCoder

  /** struct encoder_setup */
  datatype EncoderSetup = EncoderSetup(p: CodePars, log2M: nat, coder: Coder, dst: array?<byte>, maxStreamLen: nat)

  ghost predicate ValidSetup(s: EncoderSetup)
  {
    && ValidPars(s.p)
    && s.log2M == ILog2(s.p.m)
    && (s.coder.RiceCoder? ==> IsAPowOf2(s.p.m))
    && !s.coder.UnaryCoder?
    && (s.dst != null ==> s.maxStreamLen % 32 == 0 && s.maxStreamLen <= 8 * s.dst.Length)
  }

  /** configure_encoder_setup */
  function ConfigureEncoder(p: CodePars, dst: array?<byte>, streamSize: nat): (s: EncoderSetup)
  {
    EncoderSetup(p, ILog2(p.m), if IsAPowOf2(p.m) then RiceCoder else GolombCoder, dst, StreamSizeToBits(streamSize))
  }

  lemma {:induction false} ConfigureEncoderValid(p: CodePars, dst: array?<byte>, streamSize: nat)
    requires ValidPars(p) && (dst != null ==> streamSize <= dst.Length)
    ensures ValidSetup(ConfigureEncoder(p, dst, streamSize))
  {
    hide ILog2, IsAPowOf2, ValidPars;
  }

  /** The bytes of an optional buffer. */
  function MemOf(dst: array?<byte>): seq<byte>
    reads dst
  {
    if dst == null then [] else dst[..]
  }

  /** What encoding into an optional buffer did: without a buffer only the length counts. */
  ghost predicate Emitted(dst: array?<byte>, max: nat, before: seq<byte>, after: seq<byte>, start: nat, bits: seq<bool>,
    r: Outcome<nat>)
  {
    if dst == null then r == Ok(start + |bits|) else Wrote(before, after, start, bits, max, r)
  }

  lemma {:induction false} EmittedThen(dst: array?<byte>, max: nat, m0: seq<byte>, m1: seq<byte>, m2: seq<byte>, start: nat,
    a: seq<bool>, b: seq<bool>, r: Outcome<nat>)
    requires Emitted(dst, max, m0, m1, start, a, Ok(start + |a|))
    requires Emitted(dst, max, m1, m2, start + |a|, b, r)
    ensures Emitted(dst, max, m0, m2, start, a + b, r)
  {
    if dst != null { WroteThen(m0, m1, m2, start, a, b, max, r); }
  }

  lemma {:induction false} EmittedFails(dst: array?<byte>, max: nat, m0: seq<byte>, m1: seq<byte>, start: nat,
    a: seq<bool>, b: seq<bool>, e: CmpError)
    requires Emitted(dst, max, m0, m1, start, a, Err(e))
    ensures Emitted(dst, max, m0, m1, start, a + b, Err(e))
  {
  }

  /** generate_cw_f: the code word generator chosen at setup. */
  function GenerateCw(s: EncoderSetup, value: word32): (cw: (word32, nat))
    requires ValidSetup(s)
    ensures IsCodeWord(cw, value, s.p.m)
  {
    if s.coder.RiceCoder? then
      RiceEncoderCorrect(value, s.p.m);
      RiceEncoder(value, s.p.m, s.log2M)
    else
      GolombEncoderCorrect(value, s.p.m);
      GolombEncoder(value, s.p.m, s.log2M)
  }

  /** encode_normal */
  method EncodeNormal(value: word32, streamLen: nat, s: EncoderSetup) returns (r: Outcome<nat>)
    requires ValidSetup(s) && streamLen + |GolombCode(value, s.p.m)| < W32
    modifies s.dst
    ensures |GolombCode(value, s.p.m)| > MAX_CW_BITS ==> r == Err(IntDecoder)
    ensures |GolombCode(value, s.p.m)| <= MAX_CW_BITS ==>
      Emitted(s.dst, s.maxStreamLen, old(MemOf(s.dst)), MemOf(s.dst), streamLen, GolombCode(value, s.p.m), r)
  {
    hide GolombCode, Wrote, GenerateCw, ValidPars, ILog2, IsAPowOf2, Pow2, ToBits, CmpIcuMaxSpill;
    var cw := GenerateCw(s, value);
    r := PutNBits32(cw.0, cw.1, streamLen, s.dst, s.maxStreamLen);
  }

  /** encode_value_zero, from the mapped value on: 0 is the escape symbol. */
  method EncodeValueZero(data: word32, model: word32, streamLen: nat, s: EncoderSetup) returns (r: Outcome<nat>)
    requires ValidSetup(s) && s.p.escape.ZeroEscape? && streamLen + 64 < W32
    requires data < Pow2(s.p.bits) && model < Pow2(s.p.bits)
    modifies s.dst
    ensures Mapped(data, model, s.p.bits) < W32
    ensures Emitted(s.dst, s.maxStreamLen, old(MemOf(s.dst)), MemOf(s.dst), streamLen, CodeMapped(s.p, Mapped(data, model, s.p.bits)), r)
  {
    hide GolombCode, Emitted, MapToPos, Mapped, CmpIcuMaxSpill, ToBits, ILog2, IsAPowOf2, Pow2, Interleave, SignedOf;
    ghost var mem := MemOf(s.dst);
    MappedIsCode(data, model, s.p.bits);
    var d := MapToPos(Sub32(data, model), s.p.bits);
    if d < s.p.spill - 1 {
      SymbolsAreShort(s.p, d + 1);
      r := EncodeNormal(d + 1, streamLen, s);
      return;
    }
    d := Add32(d, 1);
    SymbolsAreShort(s.p, 0);
    r := EncodeNormal(0, streamLen, s);
    ghost var cw := GolombCode(0, s.p.m);
    ghost var u := Mapped(data, model, s.p.bits);
    PlainWraps(u, s.p.bits);
    if r.Err? {
      EmittedFails(s.dst, s.maxStreamLen, mem, MemOf(s.dst), streamLen, cw, ToBits(u + 1, s.p.bits), r.error);
      return;
    }
    ghost var mem1 := MemOf(s.dst);
    EmittedLength(s.dst, s.maxStreamLen, mem, mem1, streamLen, cw, r);
    r := PutNBits32(d, s.p.bits, r.value, s.dst, s.maxStreamLen);
    EmittedPut(s.dst, s.maxStreamLen, mem1, MemOf(s.dst), streamLen + |cw|, ToBits(d, s.p.bits), r);
    EmittedThen(s.dst, s.maxStreamLen, mem, mem1, MemOf(s.dst), streamLen, cw, ToBits(d, s.p.bits), r);
  }

  lemma {:induction false} EmittedLength(dst: array?<byte>, max: nat, m0: seq<byte>, m1: seq<byte>, start: nat, bits: seq<bool>, r: Outcome<nat>)
    requires Emitted(dst, max, m0, m1, start, bits, r) && r.Ok?
    ensures r.value == start + |bits|
  {
  }

  lemma {:induction false} EmittedPut(dst: array?<byte>, max: nat, m0: seq<byte>, m1: seq<byte>, start: nat, bits: seq<bool>, r: Outcome<nat>)
    requires if dst == null then r == Ok(start + |bits|) else Wrote(m0, m1, start, bits, max, r)
    ensures Emitted(dst, max, m0, m1, start, bits, r)
  {
  }

  /** The incremented value may wrap, but its low bits are the ones of the format. */
  lemma {:induction false} PlainWraps(u: word32, n: nat)
    requires 1 <= n <= 32
    ensures ToBits(Add32(u, 1), n) == ToBits(u + 1, n)
  {
    if u == W32 - 1 {
      PowSplit(n);
      hide Pow2;
      DivModUnique(W32, Pow2(n), Pow2(32 - n), 0);
      SmallMod(0, Pow2(n));
      ToBitsCong(W32, 0, n);
    }
  }

  /** encode_value_multi: the escape symbols start at the threshold. */
  method EncodeValueMulti(data: word32, model: word32, streamLen: nat, s: EncoderSetup) returns (r: Outcome<nat>)
    requires ValidSetup(s) && s.p.escape.MultiEscape? && streamLen + 64 < W32
    requires data < Pow2(s.p.bits) && model < Pow2(s.p.bits)
    modifies s.dst
    ensures Mapped(data, model, s.p.bits) < W32
    ensures Emitted(s.dst, s.maxStreamLen, old(MemOf(s.dst)), MemOf(s.dst), streamLen, CodeMapped(s.p, Mapped(data, model, s.p.bits)), r)
  {
    hide GolombCode, Emitted, MapToPos, Mapped, CmpIcuMaxSpill, ToBits, EscapeOffset, ILog2, IsAPowOf2, Pow2;
    ghost var mem := MemOf(s.dst);
    MappedIsCode(data, model, s.p.bits);
    var d := MapToPos(Sub32(data, model), s.p.bits);
    if d < s.p.spill {
      SymbolsAreShort(s.p, d);
      r := EncodeNormal(d, streamLen, s);
      return;
    }
    var unencodedData := d - s.p.spill;
    var escapeSymOffset := EscapeOffset(unencodedData);
    var escapeSym := s.p.spill + escapeSymOffset;
    var unencodedDataLen := 2 * escapeSymOffset + 2;
    SymbolsAreShort(s.p, escapeSym);
    r := EncodeNormal(escapeSym, streamLen, s);
    ghost var cw := GolombCode(escapeSym, s.p.m);
    ghost var plain := ToBits(unencodedData, unencodedDataLen);
    if r.Err? {
      EmittedFails(s.dst, s.maxStreamLen, mem, MemOf(s.dst), streamLen, cw, plain, r.error);
      return;
    }
    ghost var mem1 := MemOf(s.dst);
    EmittedLength(s.dst, s.maxStreamLen, mem, mem1, streamLen, cw, r);
    r := PutNBits32(unencodedData, unencodedDataLen, r.value, s.dst, s.maxStreamLen);
    EmittedPut(s.dst, s.maxStreamLen, mem1, MemOf(s.dst), streamLen + |cw|, plain, r);
    EmittedThen(s.dst, s.maxStreamLen, mem, mem1, MemOf(s.dst), streamLen, cw, plain, r);
  }

  /** encode_value: lossy rounding, range check, escape mechanism. */
  method EncodeValue(data: word32, model: word32, streamLen: nat, s: EncoderSetup) returns (r: Outcome<nat>)
    requires ValidSetup(s) && streamLen + 64 < W32
    modifies s.dst
    ensures !(InRange(data, s.p) && InRange(model, s.p)) ==> r == Err(DataValueTooLarge)
    ensures InRange(data, s.p) && InRange(model, s.p) ==>
      Emitted(s.dst, s.maxStreamLen, old(MemOf(s.dst)), MemOf(s.dst), streamLen, CodeValue(s.p, data, model), r)
  {
    hide CodeMapped, Emitted, Mapped, Mask, Pow2, Shr;
    ShrLe(data, s.p.round);
    ShrLe(model, s.p.round);
    var d, mdl := Shr(data, s.p.round), Shr(model, s.p.round);
    var mask := Not32(Mask(s.p.bits));
    MaskedOff(d, s.p.bits);
    MaskedOff(mdl, s.p.bits);
    if And32(d, mask) != 0 || And32(mdl, mask) != 0 { return Err(DataValueTooLarge); }
    if s.p.escape.ZeroEscape? {
      r := EncodeValueZero(d, mdl, streamLen, s);
    } else {
      r := EncodeValueMulti(d, mdl, streamLen, s);
    }
  }

  lemma {:induction false} ZerosInFront(hi: seq<bool>, n: nat)
    ensures hi + Zeros(n) == Zeros(|hi| + n) <==> hi == Zeros(|hi|)
  {
    if hi + Zeros(n) == Zeros(|hi| + n) {
      assert hi == (hi + Zeros(n))[..|hi|] == Zeros(|hi| + n)[..|hi|];
    }
  }

  /** No bit above the field is set exactly when the value fits the field. */
  lemma {:induction false} MaskedOff(x: word32, n: nat)
    requires 1 <= n <= 32
    ensures And32(x, Not32(Mask(n))) == 0 <==> x < Pow2(n)
  {
    PowSplit(n);
    MaskValue(n);
    hide Pow2, ToBits, Mask, Shr;
    var hi := ToBits(Shr(x, n), 32 - n);
    MaskedBitsOff(x, n);
    HighPartZero(x, n);
    WordVal(And32(x, Not32(Mask(n))));
    ValZeros(32);
    ToBitsZero(32);
    ZerosInFront(hi, n);
  }

  lemma {:induction false} MaskedBitsOff(x: word32, n: nat)
    requires 1 <= n <= 32 && Pow2(n) <= W32 && Mask(n) == Pow2(n) - 1
    ensures ToBits(And32(x, Not32(Mask(n))), 32) == ToBits(Shr(x, n), 32 - n) + Zeros(n)
  {
    hide Pow2, ToBits, Mask, Shr;
    ToBitsSplit(x, 32 - n, n);
    LowBits(Pow2(n) - 1, n, 32);
    ToBitsOnes(n);
  }

  lemma {:induction false} HighPartZero(x: word32, n: nat)
    requires 1 <= n <= 32
    ensures ToBits(Shr(x, n), 32 - n) == Zeros(32 - n) <==> x < Pow2(n)
  {
    Pow2Values();
    ShrBound(x, n, 32);
    hide Pow2;
    ToBitsZero(32 - n);
    ValToBits(Shr(x, n), 32 - n);
    ValZeros(32 - n);
    SmallMod(Shr(x, n), Pow2(32 - n));
    if x < Pow2(n) { SmallMod(x, Pow2(n)); }
    DivModParts(x, Pow2(n));
  }
}
