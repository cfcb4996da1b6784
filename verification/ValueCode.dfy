/** The bits of one value: prediction, mapping, outlier escape and code word;
    and a reference reader of such bits. */
module ValueCode {
  import opened Bits
  import opened Words
  import opened Golomb
  import opened ZigZag
  import opened Params

  datatype Escape = ZeroEscape | MultiEscape

  /** The parameters that encode one field: Golomb parameter, spillover threshold,
      lossy rounding, field width in bits and outlier mechanism. */
  datatype CodePars = CodePars(m: word32, spill: word32, round: nat, bits: nat, escape: Escape)

  ghost predicate ValidPars(p: CodePars)
  {
    && MIN_GOLOMB_PAR <= p.m <= MAX_GOLOMB_PAR
    && MIN_SPILL <= p.spill <= CmpIcuMaxSpill(p.m)
    && p.round <= MAX_ROUND
    && 1 <= p.bits <= 32
  }

  function Rounded(x: nat, p: CodePars): nat { Shr(x, p.round) }

  /** The mapped value fits its field. */
  ghost predicate InRange(x: nat, p: CodePars)
  {
    Rounded(x, p) < Pow2(p.bits)
  }

  //// What the compressor writes

  /** Half the bits needed by the part above the threshold, rounded down. */
  function EscapeOffset(x: word32): (o: nat)
    ensures x > 0 ==> 2 * o <= ILog2(x) <= 2 * o + 1 && o <= 15
    ensures x == 0 ==> o == 0
  {
    if x == 0 then 0
    else
      ILog2Bounds(x);
      ILog2(x) / 2
  }

  /** The bits for a mapped value u. */
  function CodeMapped(p: CodePars, u: word32): (b: seq<bool>)
    requires p.m > 0
    ensures |b| >= 1
  {
    match p.escape
    case ZeroEscape =>
      if u + 1 < p.spill then GolombCode(u + 1, p.m)
      else GolombCode(0, p.m) + ToBits(u + 1, p.bits)
    case MultiEscape =>
      if u < p.spill then GolombCode(u, p.m)
      else
        var x := u - p.spill;
        GolombCode(p.spill + EscapeOffset(x), p.m) + ToBits(x, 2 * EscapeOffset(x) + 2)
  }

  /** The bits for a value with a given prediction. */
  function CodeValue(p: CodePars, data: nat, model: nat): (b: seq<bool>)
    requires p.m > 0 && 1 <= p.bits <= 32 && Rounded(data, p) < Pow2(p.bits) && Rounded(model, p) < Pow2(p.bits)
    ensures |b| >= 1
  {
    Pow2Mono(p.bits, 32);
    Pow2Values();
    CodeMapped(p, Mapped(Rounded(data, p), Rounded(model, p), p.bits))
  }

  //// What a reader makes of a bit sequence

  /** A code word of at most 32 bits. */
  function ReadCw(b: seq<bool>, m: word32): (r: Option<(nat, nat)>)
    requires m > 0
    ensures r.Some? ==> 1 <= r.value.1 <= |b| && r.value.1 <= MAX_CW_BITS
  {
    match ReadGolomb(b, m)
    case None => None
    case Some((v, len)) => if len <= MAX_CW_BITS then Some((v, len)) else None
  }

  /** The number in the first n bits, if there are that many. */
  function ReadPlain(b: seq<bool>, n: nat): (r: Option<nat>)
    ensures r.Some? <==> n <= |b|
    ensures r.Some? ==> r.value < Pow2(n)
  {
    if n > |b| then None
    else
      ValBound(b[..n]);
      Some(Val(b[..n]))
  }

  /** x - 1 on n bits. */
  function Pred(x: nat, n: nat): (r: nat)
    requires x < Pow2(n)
    ensures r < Pow2(n)
  {
    if x == 0 then Pow2(n) - 1 else x - 1
  }

  /** The mapped value at the front of b and how many bits it takes; None when the
      bits break one of the decompressor's consistency checks or end too early. */
  function ReadMapped(p: CodePars, b: seq<bool>): (r: Option<(word32, nat)>)
    requires p.m > 0 && 1 <= p.bits <= 32
    ensures r.Some? ==> 1 <= r.value.1 <= |b|
  {
    match ReadCw(b, p.m)
    case None => None
    case Some((v, len)) =>
      if v >= W32 then None
      else if p.escape.ZeroEscape? then ReadZero(p, b, v, len) else ReadMulti(p, b, v, len)
  }

  function ReadZero(p: CodePars, b: seq<bool>, v: word32, len: nat): (r: Option<(word32, nat)>)
    requires 1 <= p.bits <= 32 && len <= |b|
    ensures r.Some? ==> len <= r.value.1 <= |b|
  {
    if v != 0 then (if v >= p.spill then None else Some((v - 1, len)))
    else
      match ReadPlain(b[len..], p.bits)
      case None => None
      case Some(x) =>
        Pow2Mono(p.bits, 32);
        Pow2Values();
        if Pred(x, p.bits) + 1 < p.spill then None else Some((Pred(x, p.bits), len + p.bits))
  }

  /** The number of bits after a multi escape symbol, and the most the field can need. */
  function UnencodedLen(symbol: nat): nat { 2 * (symbol + 1) }

  function MaxUnencodedLen(bits: nat): nat { (bits + 1) / 2 * 2 }

  function ReadMulti(p: CodePars, b: seq<bool>, v: word32, len: nat): (r: Option<(word32, nat)>)
    requires 1 <= p.bits <= 32 && len <= |b|
    ensures r.Some? ==> len <= r.value.1 <= |b|
  {
    if v < p.spill then Some((v, len))
    else
      var n := UnencodedLen(v - p.spill);
      if n > MaxUnencodedLen(p.bits) then None
      else
        match ReadPlain(b[len..], n)
        case None => None
        case Some(x) =>
          Pow2Mono(n, 32);
          Pow2Values();
          if x < Pow2(n - 2) && n > 2 then None
          else
            var y := Add32(x, p.spill);
            if And32(y, Mask(p.bits)) < p.spill then None else Some((y, len + n))
  }

  /** A code word of more than 32 bits stands for a value beyond all symbols. */
  lemma {:induction false} LongIsBeyond(p: CodePars, b: seq<bool>)
    requires ValidPars(p) && ReadGolomb(b, p.m).Some?
    ensures ReadGolomb(b, p.m).value.1 > MAX_CW_BITS ==> ReadGolomb(b, p.m).value.0 >= p.spill + 16
  {
    assert p.m > 0 && ILog2(p.m) <= 15 && CmpIcuMaxSpill(p.m) + 16 == FirstTooLong(p.m, 32) && p.spill <= CmpIcuMaxSpill(p.m);
    hide *;
    ReadGolombExact(b, p.m);
    LengthExact(ReadGolomb(b, p.m).value.0, p.m, 32);
  }

  /** Reading may go on from any code word: if it is too long, its value is rejected. */
  lemma {:induction false} MappedFrom(p: CodePars, b: seq<bool>)
    requires ValidPars(p) && ReadGolomb(b, p.m).Some? && ReadGolomb(b, p.m).value.0 < W32
    ensures p.m > 0 && ReadGolomb(b, p.m).value.1 <= |b|
    ensures var (v, len) := ReadGolomb(b, p.m).value;
      ReadMapped(p, b) == if p.escape.ZeroEscape? then ReadZero(p, b, v, len) else ReadMulti(p, b, v, len)
  {
    LongIsBeyond(p, b);
    hide ReadGolomb, CmpIcuMaxSpill;
  }

  /** The value at the front of b under a given prediction. */
  function ReadValue(p: CodePars, b: seq<bool>, model: word32): (r: Option<(word32, nat)>)
    requires p.m > 0 && 1 <= p.bits <= 32
    ensures r.Some? ==> 1 <= r.value.1 <= |b|
  {
    match ReadMapped(p, b)
    case None => None
    case Some((u, len)) => Some((Restore(p, u, model), len))
  }

  /** decode_value after the escape mechanism: add the model, mask, scale back. */
  function Restore(p: CodePars, u: word32, model: word32): word32
    requires 1 <= p.bits <= 32
  {
    ShrLe(model, p.round);
    Shl32(And32(Add32(ReMapToPos(u), Shr(model, p.round)), Mask(p.bits)), p.round)
  }

  //// The reader inverts the writer

  lemma {:induction false} SymbolsAreShort(p: CodePars, v: nat)
    requires ValidPars(p) && v <= p.spill + 15
    ensures |GolombCode(v, p.m)| <= MAX_CW_BITS
  {
    assert p.m > 0;
    var top := CmpIcuMaxSpill(p.m);
    assert ILog2(p.m) <= 15 && top + 16 == FirstTooLong(p.m, 32);
    hide *;
    LengthExact(v, p.m, 32);
  }

  lemma {:induction false} ReadCwInverts(v: nat, m: word32, rest: seq<bool>)
    requires m > 0 && |GolombCode(v, m)| <= MAX_CW_BITS
    ensures ReadCw(GolombCode(v, m) + rest, m) == Some((v, |GolombCode(v, m)|))
  {
    hide GolombCode, ReadGolomb;
    ReadGolombInverts(v, m, rest);
  }

  lemma {:induction false} ReadPlainInverts(x: nat, n: nat, rest: seq<bool>)
    requires x < Pow2(n)
    ensures ReadPlain(ToBits(x, n) + rest, n) == Some(x)
  {
    assert (ToBits(x, n) + rest)[..n] == ToBits(x, n);
    ValToBits(x, n);
    SmallMod(x, Pow2(n));
  }

  lemma {:induction false} ReadZeroEscapeInverts(p: CodePars, u: word32, rest: seq<bool>)
    requires ValidPars(p) && p.escape.ZeroEscape? && u < Pow2(p.bits) && u + 1 >= p.spill
    ensures ReadMapped(p, CodeMapped(p, u) + rest) == Some((u, |CodeMapped(p, u)|))
  {
    hide GolombCode, ReadGolomb, ReadCw, ReadPlain, ToBits, CmpIcuMaxSpill, Pow2;
    var cw := GolombCode(0, p.m);
    var b := CodeMapped(p, u) + rest;
    SymbolsAreShort(p, 0);
    var x := if u + 1 == Pow2(p.bits) then 0 else u + 1;
    assert ToBits(u + 1, p.bits) == ToBits(x, p.bits) by {
      if x == 0 {
        DivModUnique(u + 1, Pow2(p.bits), 1, 0);
        SmallMod(0, Pow2(p.bits));
        ToBitsCong(u + 1, 0, p.bits);
      }
    }
    assert b == cw + (ToBits(x, p.bits) + rest);
    ReadCwInverts(0, p.m, ToBits(x, p.bits) + rest);
    assert b[|cw|..] == ToBits(x, p.bits) + rest;
    ReadPlainInverts(x, p.bits, rest);
    assert Pred(x, p.bits) == u;
  }

  lemma {:induction false} EscapeFits(x: word32, bits: nat)
    requires 1 <= bits <= 32 && x < Pow2(bits)
    ensures 2 * EscapeOffset(x) + 2 <= MaxUnencodedLen(bits)
    ensures x < Pow2(2 * EscapeOffset(x) + 2)
    ensures EscapeOffset(x) > 0 ==> Pow2(2 * EscapeOffset(x)) <= x
  {
    hide ILog2, Pow2, EscapeOffset;
    if x == 0 {
      Pow2Mono(1, 2);
    } else {
      var o: nat, k: nat := EscapeOffset(x), ILog2(x);
      ILog2Bounds(x);
      if k >= bits { Pow2Mono(bits, k); }
      Pow2Mono(k + 1, 2 * o + 2);
      Pow2Mono(2 * o, k);
      assert 2 * o + 2 <= MaxUnencodedLen(bits);
    }
  }

  lemma {:induction false} ReadMultiEscapeInverts(p: CodePars, u: word32, rest: seq<bool>)
    requires ValidPars(p) && p.escape.MultiEscape? && u < Pow2(p.bits) && u >= p.spill
    ensures ReadMapped(p, CodeMapped(p, u) + rest) == Some((u, |CodeMapped(p, u)|))
  {
    hide GolombCode, ReadGolomb, ReadCw, ReadPlain, ToBits, CmpIcuMaxSpill, Pow2, EscapeOffset, And32, Mask;
    var x := u - p.spill;
    var o := EscapeOffset(x);
    var n := 2 * o + 2;
    var cw := GolombCode(p.spill + o, p.m);
    var b := CodeMapped(p, u) + rest;
    SymbolsAreShort(p, p.spill + o);
    EscapeFits(x, p.bits);
    assert b == cw + (ToBits(x, n) + rest);
    ReadCwInverts(p.spill + o, p.m, ToBits(x, n) + rest);
    assert b[|cw|..] == ToBits(x, n) + rest;
    ReadPlainInverts(x, n, rest);
    MaskValue(p.bits);
    AndLowMask(u, p.bits);
    SmallMod(u, Pow2(p.bits));
  }

  /** Both escape mechanisms recover every mapped value of every width, and no
      consistency check fires on compressor output. */
  lemma {:induction false} ReadMappedInverts(p: CodePars, u: word32, rest: seq<bool>)
    requires ValidPars(p) && u < Pow2(p.bits)
    ensures ReadMapped(p, CodeMapped(p, u) + rest) == Some((u, |CodeMapped(p, u)|))
  {
    hide GolombCode, ReadGolomb, ReadCw, ReadPlain, ToBits, CmpIcuMaxSpill, Pow2, EscapeOffset, And32, Mask;
    if p.escape.ZeroEscape? && u + 1 >= p.spill {
      ReadZeroEscapeInverts(p, u, rest);
    } else if p.escape.MultiEscape? && u >= p.spill {
      ReadMultiEscapeInverts(p, u, rest);
    } else {
      var v := if p.escape.ZeroEscape? then u + 1 else u;
      SymbolsAreShort(p, v);
      ReadCwInverts(v, p.m, rest);
    }
  }

  /** Reading back a value: exact up to the lossy rounding, and independent of the
      bits of the prediction that rounding drops. */
  lemma {:induction false} ReadValueInverts(p: CodePars, data: word32, model: word32, model': word32, rest: seq<bool>)
    requires ValidPars(p) && InRange(data, p) && InRange(model, p) && Rounded(model, p) == Rounded(model', p)
    ensures ReadValue(p, CodeValue(p, data, model) + rest, model')
         == Some((Shl32(Rounded(data, p), p.round), |CodeValue(p, data, model)|))
  {
    hide CodeMapped, ReadMapped, Pow2, Mapped, ReMapToPos, And32, Mask, Shl32;
    var d, mdl := Rounded(data, p), Rounded(model, p);
    ShrLe(data, p.round);
    ShrLe(model, p.round);
    ReMapRestores(d, mdl, p.bits);
    ReadMappedInverts(p, Mapped(d, mdl, p.bits), rest);
  }

  //// What the code is

  /** A value at or above the threshold takes the least even number of bits, at least 2, that
      holds its excess; the symbol in front says how many. */
  lemma {:induction false} EscapeIsShortest(p: CodePars, u: word32, n: nat)
    requires p.m > 0 && p.escape.MultiEscape? && u >= p.spill && n >= 2 && n % 2 == 0
    requires u - p.spill < Pow2(n) && (n > 2 ==> u - p.spill >= Pow2(n - 2))
    ensures CodeMapped(p, u) == GolombCode(p.spill + n / 2 - 1, p.m) + ToBits(u - p.spill, n)
  {
    hide *;
    EscapeOffsetIs(u - p.spill, n);
    EscapedIs(p, u, n / 2 - 1);
  }

  lemma {:induction false} EscapedIs(p: CodePars, u: word32, o: nat)
    requires p.m > 0 && p.escape.MultiEscape? && u >= p.spill && o == EscapeOffset(u - p.spill)
    ensures CodeMapped(p, u) == GolombCode(p.spill + o, p.m) + ToBits(u - p.spill, 2 * o + 2)
  {
    hide GolombCode, ToBits, EscapeOffset;
  }

  lemma {:induction false} EscapeOffsetIs(x: word32, n: nat)
    requires n >= 2 && n % 2 == 0 && x < Pow2(n) && (n > 2 ==> x >= Pow2(n - 2))
    ensures EscapeOffset(x) == n / 2 - 1
  {
    if x > 0 {
      ILog2Bounds(x);
      var k := ILog2(x);
      hide Pow2, ILog2;
      if k >= n { Pow2Mono(n, k); }
      if k + 1 <= n - 2 { Pow2Mono(k + 1, n - 2); }
    }
  }

  //// The reader accepts the code and nothing else

  lemma {:induction false} FrontIs(b: seq<bool>, len: nat, n: nat, cw: seq<bool>, x: nat)
    requires len + n <= |b| && b[..len] == cw && x == Val(b[len..][..n])
    ensures b[..len + n] == cw + ToBits(x, n)
  {
    ToBitsVal(b[len..][..n]);
    assert b[..len + n] == b[..len] + b[len..][..n];
  }

  lemma {:induction false} ReadCwIs(b: seq<bool>, m: word32)
    requires m > 0 && ReadCw(b, m).Some?
    ensures var (v, len) := ReadCw(b, m).value; len <= |b| && b[..len] == GolombCode(v, m)
  {
    ReadGolombExact(b, m);
    hide ReadGolomb, GolombCode;
  }

  lemma {:induction false} ReadPlainIs(b: seq<bool>, n: nat)
    requires ReadPlain(b, n).Some?
    ensures n <= |b| && ReadPlain(b, n).value == Val(b[..n]) < Pow2(n)
  {
  }

  lemma {:induction false} SameLowBits(bits: nat)
    ensures ToBits(Pow2(bits), bits) == ToBits(0, bits)
  {
    DivModUnique(Pow2(bits), Pow2(bits), 1, 0);
    SmallMod(0, Pow2(bits));
    ToBitsCong(0, Pow2(bits), bits);
  }

  lemma {:induction false} ReadZeroParts(p: CodePars, b: seq<bool>, v: word32, len: nat)
    requires 1 <= p.bits <= 32 && len <= |b| && ReadZero(p, b, v, len).Some?
    ensures v != 0 ==> 0 < v < p.spill && ReadZero(p, b, v, len) == Some((v - 1, len))
    ensures v == 0 ==>
      && ReadPlain(b[len..], p.bits).Some?
      && var x := ReadPlain(b[len..], p.bits).value;
         && Pred(x, p.bits) < W32 && Pred(x, p.bits) + 1 >= p.spill
         && ReadZero(p, b, v, len) == Some((Pred(x, p.bits), len + p.bits))
  {
    Pow2Mono(p.bits, 32);
    Pow2Values();
    hide ReadPlain, Pow2, Pred;
  }

  lemma {:induction false} PredPlusOne(x: nat, n: nat)
    requires x < Pow2(n)
    ensures ToBits(Pred(x, n) + 1, n) == ToBits(x, n)
  {
    SameLowBits(n);
    hide ToBits, Pow2;
  }

  lemma {:induction false} ZeroCodes(p: CodePars, u: word32)
    requires p.m > 0 && p.escape.ZeroEscape?
    ensures u + 1 < p.spill ==> CodeMapped(p, u) == GolombCode(u + 1, p.m)
    ensures u + 1 >= p.spill ==> CodeMapped(p, u) == GolombCode(0, p.m) + ToBits(u + 1, p.bits)
  {
    hide GolombCode, ToBits;
  }

  lemma {:induction false} ReadZeroExact(p: CodePars, b: seq<bool>, v: word32, len: nat)
    requires p.m > 0 && 1 <= p.bits <= 32 && p.escape.ZeroEscape? && len <= |b| && b[..len] == GolombCode(v, p.m)
    requires ReadZero(p, b, v, len).Some?
    ensures var (u, n) := ReadZero(p, b, v, len).value; n <= |b| && b[..n] == CodeMapped(p, u)
  {
    hide *;
    ReadZeroParts(p, b, v, len);
    var (u, n) := ReadZero(p, b, v, len).value;
    ZeroCodes(p, u);
    if v == 0 {
      ReadPlainIs(b[len..], p.bits);
      var x := ReadPlain(b[len..], p.bits).value;
      FrontIs(b, len, p.bits, GolombCode(v, p.m), x);
      PredPlusOne(x, p.bits);
    }
  }

  /** The check behind a multi escape: the value is in range of the field. */
  lemma {:induction false} SumInRange(x: nat, spill: word32, bits: nat)
    requires 1 <= bits <= 32 && x < Pow2(bits) <= W32
    requires And32(Add32(x, spill), Mask(bits)) >= spill
    ensures Add32(x, spill) == x + spill < Pow2(bits)
  {
    MaskValue(bits);
    AndLowMask(Add32(x, spill), bits);
    assert Add32(x, spill) == if x + spill < W32 then x + spill else x + spill - W32;
    hide *;
    SumBounded(x, spill, Pow2(bits), Add32(x, spill), W32);
  }

  lemma {:induction false} SumBounded(x: nat, spill: nat, d: nat, y: nat, w: nat)
    requires x < d <= w && y % d >= spill && y == if x + spill < w then x + spill else x + spill - w
    ensures y == x + spill < d
  {
    DivModParts(y, d);
    if y >= d { DivModUnique(y, d, 1, y - d); }
  }

  lemma {:induction false} ReadMultiParts(p: CodePars, b: seq<bool>, v: word32, len: nat)
    requires 1 <= p.bits <= 32 && len <= |b| && ReadMulti(p, b, v, len).Some?
    ensures v < p.spill ==> ReadMulti(p, b, v, len) == Some((v, len))
    ensures v >= p.spill ==>
      var n := 2 * (v - p.spill) + 2;
      && n <= MaxUnencodedLen(p.bits) <= 32 && ReadPlain(b[len..], n).Some?
      && var x := ReadPlain(b[len..], n).value;
         && x < W32 && (n > 2 ==> x >= Pow2(n - 2)) && And32(Add32(x, p.spill), Mask(p.bits)) >= p.spill
         && ReadMulti(p, b, v, len) == Some((Add32(x, p.spill), len + n))
  {
    if v >= p.spill {
      Pow2Mono(UnencodedLen(v - p.spill), 32);
      Pow2Values();
    }
    hide ReadPlain, Pow2, And32, Add32, Mask;
  }

  lemma {:induction false} MultiCodes(p: CodePars, u: word32)
    requires p.m > 0 && p.escape.MultiEscape? && u < p.spill
    ensures CodeMapped(p, u) == GolombCode(u, p.m)
  {
    hide GolombCode;
  }

  lemma {:induction false} EvenLength(bits: nat, n: nat)
    requires bits % 2 == 0 && bits <= 32 && n <= MaxUnencodedLen(bits)
    ensures n <= bits && Pow2(n) <= Pow2(bits) <= W32
  {
    Pow2Mono(n, bits);
    Pow2Mono(bits, 32);
    Pow2Values();
  }

  lemma {:induction false} ReadMultiExact(p: CodePars, b: seq<bool>, v: word32, len: nat)
    requires p.m > 0 && 1 <= p.bits <= 32 && p.bits % 2 == 0 && p.escape.MultiEscape? && len <= |b| && b[..len] == GolombCode(v, p.m)
    requires ReadMulti(p, b, v, len).Some?
    ensures var (u, n) := ReadMulti(p, b, v, len).value; n <= |b| && b[..n] == CodeMapped(p, u)
  {
    hide *;
    ReadMultiParts(p, b, v, len);
    var (u, l) := ReadMulti(p, b, v, len).value;
    if v < p.spill {
      MultiCodes(p, u);
    } else {
      var n := 2 * (v - p.spill) + 2;
      ReadPlainIs(b[len..], n);
      var x := ReadPlain(b[len..], n).value;
      EvenLength(p.bits, n);
      FrontIs(b, len, n, GolombCode(v, p.m), x);
      SumInRange(x, p.spill, p.bits);
      EscapeIsShortest(p, u, n);
    }
  }

  /** THE READER IS STRICT. Whatever it takes for a mapped value is the code of that value,
      bit by bit; and it takes every value that the field can hold from its code. */
  lemma {:induction false} ReadMappedExact(p: CodePars, b: seq<bool>, u: word32, len: nat)
    requires ValidPars(p) && p.bits % 2 == 0 && u < Pow2(p.bits)
    ensures ReadMapped(p, b) == Some((u, len)) <==> len == |CodeMapped(p, u)| && CodeMapped(p, u) <= b
  {
    assert p.m > 0 && 1 <= p.bits <= 32;
    hide *;
    if CodeMapped(p, u) <= b {
      var rest := b[|CodeMapped(p, u)|..];
      assert CodeMapped(p, u) + rest == b;
      ReadMappedInverts(p, u, rest);
    }
    if ReadMapped(p, b) == Some((u, len)) { ReadMappedIsCode(p, b); }
  }

  lemma {:induction false} ReadMappedParts(p: CodePars, b: seq<bool>)
    requires p.m > 0 && 1 <= p.bits <= 32 && ReadMapped(p, b).Some?
    ensures ReadCw(b, p.m).Some?
    ensures var (v, len) := ReadCw(b, p.m).value;
      && v < 0x1_0000_0000 && len <= |b|
      && ReadMapped(p, b) == if p.escape.ZeroEscape? then ReadZero(p, b, v, len) else ReadMulti(p, b, v, len)
  {
    hide ReadCw, ReadZero, ReadMulti;
  }

  /** Also for values that the field cannot hold. */
  lemma {:induction false} ReadMappedIsCode(p: CodePars, b: seq<bool>)
    requires p.m > 0 && 1 <= p.bits <= 32 && p.bits % 2 == 0 && ReadMapped(p, b).Some?
    ensures var (u, len) := ReadMapped(p, b).value; len == |CodeMapped(p, u)| && CodeMapped(p, u) <= b
  {
    hide *;
    ReadMappedParts(p, b);
    ReadCwIs(b, p.m);
    var (v, len) := ReadCw(b, p.m).value;
    if p.escape.ZeroEscape? { ReadZeroExact(p, b, v, len); } else { ReadMultiExact(p, b, v, len); }
  }
}
