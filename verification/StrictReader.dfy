/** The converse of the round trip: which bits the decompressor accepts. */
module StrictReader {
  import opened Bits
  import opened Bytes
  import opened Words
  import opened Golomb
  import opened Params
  import opened ZigZag
  import opened ValueCode
  import opened Samples

  //// One value

  /** The value that is mapped to u under a prediction. */
  lemma {:induction false} SourceOf(u: nat, model: nat, n: nat) returns (d: nat)
    requires 1 <= n && u < Pow2(n) && model < Pow2(n)
    ensures d < Pow2(n) && Mapped(d, model, n) == u
  {
    assert Pow2(n) == 2 * Pow2(n - 1);
    var s := Deinterleave(u);
    var x := if s < 0 then s + Pow2(n) else s;
    d := if model + x < Pow2(n) then model + x else model + x - Pow2(n);
    hide Pow2;
    assert Difference(d, model, n) == x && SignedOf(x, n) == s;
  }

  lemma {:induction false} NoRounding(x: word32, p: CodePars)
    requires p.round == 0
    ensures Rounded(x, p) == x && Shl32(x, 0) == x
  {
    assert Pow2(0) == 1;
    RoundZero(x);
    assert Shr(x, 0) == x;
  }

  lemma {:induction false} RestoreIs(p: CodePars, u: word32, model: word32)
    requires 1 <= p.bits <= 32 && p.round == 0
    ensures Restore(p, u, model) == And32(Add32(ReMapToPos(u), model), Mask(p.bits))
  {
    NoRounding(model, p);
    NoRounding(And32(Add32(ReMapToPos(u), model), Mask(p.bits)), p);
    hide Shr, Shl32, And32, Mask, ReMapToPos;
  }

  /** A restored value is mapped back to what was read. */
  lemma {:induction false} RestoredCode(p: CodePars, u: word32, model: word32)
    requires p.m > 0 && 1 <= p.bits <= 32 && p.round == 0 && u < Pow2(p.bits) && model < Pow2(p.bits)
    ensures var v := Restore(p, u, model);
      v < Pow2(p.bits) && InRange(v, p) && InRange(model, p) && CodeValue(p, v, model) == CodeMapped(p, u)
  {
    var d := SourceOf(u, model, p.bits);
    Pow2Mono(p.bits, 32);
    Pow2Values();
    ReMapRestores(d, model, p.bits);
    RestoreIs(p, u, model);
    NoRounding(d, p);
    NoRounding(model, p);
    hide CodeMapped, Mapped, Shr, Restore, Pow2;
  }

  /** The symbols below the threshold all stand for values of the field. */
  ghost predicate SymbolsInRange(p: CodePars)
  {
    p.spill <= if p.escape.ZeroEscape? then Pow2(p.bits) + 1 else Pow2(p.bits)
  }

  ghost predicate IsStrict(p: CodePars)
  {
    ValidPars(p) && p.round == 0 && p.bits % 2 == 0 && SymbolsInRange(p)
  }

  lemma {:induction false} ReadInRange(p: CodePars, b: seq<bool>)
    requires IsStrict(p) && p.m > 0 && ReadMapped(p, b).Some?
    ensures ReadMapped(p, b).value.0 < Pow2(p.bits)
  {
    hide *;
    StrictParts(p);
    ReadMappedParts(p, b);
    var (v, len) := ReadCw(b, p.m).value;
    if p.escape.ZeroEscape? {
      ReadZeroParts(p, b, v, len);
      if v == 0 { ReadPlainIs(b[len..], p.bits); }
    } else {
      ReadMultiParts(p, b, v, len);
      if v >= p.spill {
        var n := 2 * (v - p.spill) + 2;
        ReadPlainIs(b[len..], n);
        EvenLength(p.bits, n);
        SumInRange(ReadPlain(b[len..], n).value, p.spill, p.bits);
      }
    }
  }

  lemma {:induction false} StrictParts(p: CodePars)
    requires IsStrict(p)
    ensures ValidPars(p) && p.m > 0 && 1 <= p.bits <= 32 && p.round == 0 && p.bits % 2 == 0
    ensures p.escape.ZeroEscape? ==> p.spill <= Pow2(p.bits) + 1
    ensures p.escape.MultiEscape? ==> p.spill <= Pow2(p.bits)
  {
    hide CmpIcuMaxSpill;
  }

  lemma {:induction false} ReadValueParts(p: CodePars, b: seq<bool>, model: word32)
    requires p.m > 0 && 1 <= p.bits <= 32 && ReadValue(p, b, model).Some?
    ensures ReadMapped(p, b).Some?
    ensures ReadValue(p, b, model).value == (Restore(p, ReadMapped(p, b).value.0, model), ReadMapped(p, b).value.1)
  {
    hide ReadMapped, Restore;
  }

  /** What is read as a value is the code of that value. */
  lemma {:induction false} ReadValueExact(p: CodePars, b: seq<bool>, model: word32)
    requires IsStrict(p) && p.m > 0 && 1 <= p.bits <= 32 && model < Pow2(p.bits) && ReadValue(p, b, model).Some?
    ensures var (v, len) := ReadValue(p, b, model).value;
      v < Pow2(p.bits) && InRange(v, p) && InRange(model, p) && len <= |b| && b[..len] == CodeValue(p, v, model)
  {
    hide *;
    StrictParts(p);
    ReadValueParts(p, b, model);
    ReadMappedIsCode(p, b);
    ReadInRange(p, b);
    var u := ReadMapped(p, b).value.0;
    RestoredCode(p, u, model);
  }

  lemma {:induction false} BeyondParts(p: CodePars, v: word32)
    requires ValidPars(p) && p.m > 0 && 1 <= p.bits <= 32 && v < p.spill && |GolombCode(v, p.m)| <= MAX_CW_BITS && (p.escape.ZeroEscape? ==> v > 0)
    ensures ReadMapped(p, GolombCode(v, p.m)) == Some((if p.escape.ZeroEscape? then v - 1 else v, |GolombCode(v, p.m)|))
  {
    hide *;
    ReadCwInverts(v, p.m, []);
    assert GolombCode(v, p.m) + [] == GolombCode(v, p.m);
    MappedOf(p, GolombCode(v, p.m), v);
  }

  lemma {:induction false} MappedOf(p: CodePars, b: seq<bool>, v: word32)
    requires p.m > 0 && v < p.spill && ReadCw(b, p.m) == Some((v, |b|)) && (p.escape.ZeroEscape? ==> v > 0)
    requires 1 <= p.bits <= 32
    ensures ReadMapped(p, b) == Some((if p.escape.ZeroEscape? then v - 1 else v, |b|))
  {
    hide ReadCw, ReadPlain, Pow2, And32, Mask;
  }

  lemma {:induction false} RestoreFits(p: CodePars, u: word32, model: word32)
    requires 1 <= p.bits <= 32 && p.round == 0
    ensures Restore(p, u, model) < Pow2(p.bits)
  {
    RestoreIs(p, u, model);
    MaskValue(p.bits);
    AndLowMask(Add32(ReMapToPos(u), model), p.bits);
    hide And32, Mask, Restore, ReMapToPos, Add32;
  }

  lemma {:induction false} CodeValueIs(p: CodePars, v: word32, model: word32)
    requires p.m > 0 && 1 <= p.bits <= 32 && p.round == 0 && v < Pow2(p.bits) && model < Pow2(p.bits)
    ensures InRange(v, p) && InRange(model, p) && Mapped(v, model, p.bits) < W32
    ensures CodeValue(p, v, model) == CodeMapped(p, Mapped(v, model, p.bits))
  {
    NoRounding(v, p);
    NoRounding(model, p);
    Pow2Mono(p.bits, 32);
    Pow2Values();
    hide CodeMapped, Mapped, Shr, Pow2;
  }

  /** Otherwise bits are accepted that the compressor never writes for the value they are read as. */
  lemma {:induction false} BeyondRange(p: CodePars, model: word32) returns (b: seq<bool>)
    requires ValidPars(p) && p.m > 0 && 1 <= p.bits <= 32 && p.round == 0 && model < Pow2(p.bits) && !SymbolsInRange(p)
    ensures ReadValue(p, b, model).Some?
    ensures var (v, len) := ReadValue(p, b, model).value;
      v < Pow2(p.bits) && InRange(v, p) && InRange(model, p) && len == |b| && b != CodeValue(p, v, model)
  {
    var top := if p.escape.ZeroEscape? then Pow2(p.bits) + 1 else Pow2(p.bits);
    assert top < p.spill;
    b := GolombCode(top, p.m);
    SymbolsAreShort(p, top);
    BeyondParts(p, top);
    hide *;
    var u := ReadMapped(p, b).value.0;
    ReadValueIs(p, b, model);
    RestoreFits(p, u, model);
    var v := Restore(p, u, model);
    CodeValueIs(p, v, model);
    var w := Mapped(v, model, p.bits);
    OtherCode(p, w, top);
  }

  lemma {:induction false} ReadValueIs(p: CodePars, b: seq<bool>, model: word32)
    requires p.m > 0 && 1 <= p.bits <= 32 && ReadMapped(p, b).Some?
    ensures ReadValue(p, b, model) == Some((Restore(p, ReadMapped(p, b).value.0, model), ReadMapped(p, b).value.1))
  {
    hide ReadMapped, Restore;
  }

  lemma {:induction false} OtherCode(p: CodePars, w: word32, top: nat)
    requires p.m > 0 && w < Pow2(p.bits) && top == (if p.escape.ZeroEscape? then Pow2(p.bits) + 1 else Pow2(p.bits)) && top < p.spill
    ensures CodeMapped(p, w) != GolombCode(top, p.m)
  {
    var v := if p.escape.ZeroEscape? then w + 1 else w;
    assert CodeMapped(p, w) == GolombCode(v, p.m);
    hide GolombCode, Pow2;
    if GolombCode(v, p.m) == GolombCode(top, p.m) { GolombPrefixFree(v, top, p.m); }
  }

  //// One record

  ghost predicate StrictFields(fs: seq<Field>)
  {
    ValidFields(fs) && forall i :: 0 <= i < |fs| ==> IsStrict(fs[i].p)
  }

  lemma {:induction false} StrictStep(fs: seq<Field>)
    requires StrictFields(fs) && fs != []
    ensures ValidFields(fs) && ValidField(fs[0]) && IsStrict(fs[0].p) && StrictFields(fs[1..]) && ValidFields(fs[1..])
    ensures 1 <= fs[0].width <= 4 && fs[0].p.bits == 8 * fs[0].width && fs[0].p.m > 0
    ensures RecSize(fs) == fs[0].width + RecSize(fs[1..])
  {
  }

  lemma {:induction false} DecRecParts(fs: seq<Field>, pred: seq<byte>, acc: seq<byte>, b: seq<bool>)
    requires ValidFields(fs) && fs != [] && RecSize(fs) <= |pred| && DecRec(fs, pred, acc, b).Some?
    requires ValidField(fs[0]) && ValidFields(fs[1..]) && RecSize(fs) == fs[0].width + RecSize(fs[1..])
    requires 1 <= fs[0].width <= 4
    ensures ReadValue(fs[0].p, b, FieldAt(fs[0], pred)).Some?
    ensures var (v, len) := ReadValue(fs[0].p, b, FieldAt(fs[0], pred)).value;
      len <= |b| && DecRec(fs, pred, acc, b) == DecRec(fs[1..], pred[fs[0].width..], acc + ToLittleEndian(v, fs[0].width), b[len..])
  {
    hide ReadValue, FieldAt, ToLittleEndian, RecSize, ValidFields;
  }

  lemma {:induction false} StoredField(f: Field, v: word32, acc: seq<byte>, out: seq<byte>)
    requires 1 <= f.width <= 4 && v < Pow2(8 * f.width) && acc + ToLittleEndian(v, f.width) <= out
    ensures var rec := out[|acc|..]; |rec| >= f.width && FieldAt(f, rec) == v && rec[f.width..] == out[|acc| + f.width..]
  {
    LittleEndianRoundTrip(v, f.width);
    hide LittleEndian, ToLittleEndian;
    var rec, c := out[|acc|..], acc + ToLittleEndian(v, f.width);
    assert out[..|c|] == c;
    assert rec[..f.width] == out[..|c|][|acc|..] == ToLittleEndian(v, f.width);
  }

  lemma {:induction false} EncFieldOf(f: Field, rec: seq<byte>, pred: seq<byte>)
    requires ValidField(f) && 1 <= f.width <= |rec| && f.width <= |pred| && f.width <= 4
    requires f.p.m > 0 && InRange(FieldAt(f, rec), f.p) && InRange(FieldAt(f, pred), f.p) && 1 <= f.p.bits <= 32
    ensures EncField(f, rec, pred) == CodeValue(f.p, FieldAt(f, rec), FieldAt(f, pred))
  {
    hide CodeValue, FieldAt;
  }

  lemma {:induction false} FrontPart(b: seq<bool>, len: nat, cw: seq<bool>, more: seq<bool>)
    requires len <= |b| && b[..len] == cw && b[len..] == more
    ensures b == cw + more
  {
  }

  lemma {:induction false} DecRecExtends(fs: seq<Field>, pred: seq<byte>, acc: seq<byte>, b: seq<bool>)
    requires ValidFields(fs) && RecSize(fs) <= |pred| && DecRec(fs, pred, acc, b).Some?
    ensures var out := DecRec(fs, pred, acc, b).value.0; |out| == |acc| + RecSize(fs) && acc <= out
  {
    hide *;
  }

  /** What is read as a record are the bits of that record. */
  lemma {:induction false} DecRecExact(fs: seq<Field>, pred: seq<byte>, acc: seq<byte>, b: seq<bool>)
    requires StrictFields(fs) && ValidFields(fs) && RecSize(fs) <= |pred| && DecRec(fs, pred, acc, b).Some?
    ensures var (out, rest) := DecRec(fs, pred, acc, b).value;
      |out| == |acc| + RecSize(fs) && acc <= out && b == EncRec(fs, out[|acc|..], pred) + rest
    decreases |fs|
  {
    hide *;
    DecRecExtends(fs, pred, acc, b);
    var (out, rest) := DecRec(fs, pred, acc, b).value;
    if fs == [] {
      NoFields(out[|acc|..], pred, pred, acc, b);
      assert [] + rest == rest;
    } else {
      StrictStep(fs);
      DecRecParts(fs, pred, acc, b);
      var f, w, rec := fs[0], fs[0].width, out[|acc|..];
      FieldFits(f, pred);
      var (v, len) := ReadValue(f.p, b, FieldAt(f, pred)).value;
      StrictParts(f.p);
      ReadValueExact(f.p, b, FieldAt(f, pred));
      var acc' := acc + ToLittleEndian(v, w);
      DecRecExact(fs[1..], pred[w..], acc', b[len..]);
      StoredField(f, v, acc, out);
      EncRecStep(fs, rec, pred);
      EncFieldOf(f, rec, pred);
      FrontPart(b, len, EncField(f, rec, pred), EncRec(fs[1..], rec[w..], pred[w..]) + rest);
      Assoc(EncField(f, rec, pred), EncRec(fs[1..], rec[w..], pred[w..]), rest);
    }
  }

  lemma {:induction false} FieldFits(f: Field, rec: seq<byte>)
    requires 1 <= f.width <= 4 && f.width <= |rec|
    ensures FieldAt(f, rec) < Pow2(8 * f.width)
  {
  }

  //// A whole buffer

  lemma {:induction false} DecFromParts(fs: seq<Field>, total: nat, model: Option<seq<byte>>, acc: seq<byte>, b: seq<bool>)
    requires ValidFields(fs) && RecSize(fs) > 0 && DecFrom(fs, total, model, acc, b).Some?
    ensures |acc| + RecSize(fs) > total ==> DecFrom(fs, total, model, acc, b) == Some((acc, b))
    ensures |acc| + RecSize(fs) <= total ==>
      && DecRec(fs, Prediction(RecSize(fs), acc, model, |acc|), acc, b).Some?
      && var (acc', b') := DecRec(fs, Prediction(RecSize(fs), acc, model, |acc|), acc, b).value;
         DecFrom(fs, total, model, acc, b) == DecFrom(fs, total, model, acc', b')
  {
    hide DecRec, RecSize, Prediction, ValidFields;
  }

  lemma {:induction false} DecFromExtends(fs: seq<Field>, total: nat, model: Option<seq<byte>>, acc: seq<byte>, b: seq<bool>)
    requires ValidFields(fs) && RecSize(fs) > 0 && DecFrom(fs, total, model, acc, b).Some?
    ensures acc <= DecFrom(fs, total, model, acc, b).value.0
  {
    hide *;
  }

  lemma {:induction false} PredictionGrows(s: nat, acc: seq<byte>, out: seq<byte>, model: Option<seq<byte>>)
    requires acc <= out
    ensures Prediction(s, acc, model, |acc|) == Prediction(s, out, model, |acc|)
  {
    if s <= |acc| {
      assert out[..|acc|] == acc && acc[0..|acc|] == acc && out[0..|acc|] == acc;
      SliceOfSlice(out, 0, |acc|, |acc| - s, |acc|);
    }
  }

  lemma {:induction false} RecordOf(acc: seq<byte>, acc': seq<byte>, out: seq<byte>, s: nat)
    requires |acc'| == |acc| + s && acc <= acc' <= out
    ensures acc'[|acc|..] == out[|acc|..|acc| + s] && acc <= out
  {
    assert out[..|acc'|] == acc';
  }

  lemma {:induction false} DecFromExact(fs: seq<Field>, total: nat, model: Option<seq<byte>>, acc: seq<byte>, b: seq<bool>)
    requires StrictFields(fs) && ValidFields(fs) && RecSize(fs) > 0 && DecFrom(fs, total, model, acc, b).Some?
    requires |acc| <= total
    ensures var (out, rest) := DecFrom(fs, total, model, acc, b).value;
      |acc| <= |out| <= total < |out| + RecSize(fs) && b == EncFrom(fs, out, model, |acc|) + rest
    decreases total - |acc|
  {
    hide *;
    var s := RecSize(fs);
    DecFromParts(fs, total, model, acc, b);
    var (out, rest) := DecFrom(fs, total, model, acc, b).value;
    if |acc| + s > total {
      NoSamples(fs, acc, model, |acc|, acc, b);
      assert [] + rest == rest;
    } else {
      var pred := Prediction(s, acc, model, |acc|);
      DecRecExact(fs, pred, acc, b);
      var (acc', b') := DecRec(fs, pred, acc, b).value;
      DecFromExact(fs, total, model, acc', b');
      DecFromExtends(fs, total, model, acc', b');
      RecordOf(acc, acc', out, s);
      PredictionGrows(s, acc, out, model);
      SamplesStep(fs, out, model, |acc|);
      Assoc(EncRec(fs, acc'[|acc|..], pred), EncFrom(fs, out, model, |acc| + s), rest);
    }
  }

  lemma {:induction false} StrictLossless(fs: seq<Field>)
    requires StrictFields(fs)
    ensures ValidFields(fs) && Lossless(fs)
  {
  }

  /** THE DECOMPRESSOR IS STRICT. Without rounding, and if no symbol lies beyond the range of
      its field, it accepts exactly the bits that the compressor writes: for every buffer of
      whole records there is one accepted bit sequence, whatever follows it. */
  lemma {:induction false} StreamsAreExact(fs: seq<Field>, data: seq<byte>, model: Option<seq<byte>>, n: nat, b: seq<bool>, rest: seq<bool>)
    requires StrictFields(fs) && ValidFields(fs) && RecSize(fs) > 0 && |data| == n * RecSize(fs)
    ensures DecFrom(fs, |data|, model, [], b) == Some((data, rest)) <==> b == EncFrom(fs, data, model, 0) + rest
  {
    hide *;
    StrictLossless(fs);
    DecFromLossless(fs, data, model, n, rest);
    if DecFrom(fs, |data|, model, [], b) == Some((data, rest)) { DecFromExact(fs, |data|, model, [], b); }
  }
}
