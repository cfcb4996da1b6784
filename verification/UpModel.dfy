/** The updated model: a weighted mean of the rounded data and the old model. */
module UpModel {
  import opened Bits
  import opened Bytes
  import opened Words
  import opened Golomb
  import opened Params
  import opened ValueCode
  import opened Samples

  /** cmp_up_model16: all in 32-bit arithmetic, the result cut to 16 bits. */
  function CmpUpModel16(data: word32, model: word32, modelValue: nat, round: nat): (u: word32)
    requires modelValue <= MAX_MODEL_VALUE
  {
    var weightedData: word32 := RoundValue(data, round) * (MAX_MODEL_VALUE - modelValue) % W32;
    var weightedModel: word32 := model * modelValue % W32;
    Add32(weightedModel, weightedData) / MAX_MODEL_VALUE % 0x1_0000
  }

  /** cmp_up_model32: in 64-bit arithmetic, the result cut to 32 bits. */
  function CmpUpModel32(data: word32, model: word32, modelValue: nat, round: nat): (u: word32)
    requires modelValue <= MAX_MODEL_VALUE
  {
    var weightedData := RoundValue(data, round) * (MAX_MODEL_VALUE - modelValue);
    var weightedModel := model * modelValue;
    (weightedModel + weightedData) / MAX_MODEL_VALUE % W32
  }

  /** cmp_up_model: by the size of the field; the 24-bit flags use the 32-bit form. */
  function CmpUpModel(width: nat, data: word32, model: word32, modelValue: nat, round: nat): (u: word32)
    requires modelValue <= MAX_MODEL_VALUE
  {
    if width <= 2 then CmpUpModel16(data, model, modelValue, round)
    else CmpUpModel32(data, model, modelValue, round)
  }

  /** The weighted mean, rounded down. */
  function WeightedMean(a: nat, b: nat, w: nat): (u: nat)
    requires w <= MAX_MODEL_VALUE
  {
    MulNonneg(a, MAX_MODEL_VALUE - w);
    MulNonneg(b, w);
    (a * (MAX_MODEL_VALUE - w) + b * w) / MAX_MODEL_VALUE
  }

  lemma {:induction false} MeanBetween(a: nat, b: nat, w: nat)
    requires w <= MAX_MODEL_VALUE
    ensures (if a <= b then a else b) <= WeightedMean(a, b, w) <= (if a <= b then b else a)
  {
    var lo, hi := if a <= b then a else b, if a <= b then b else a;
    MulMono(lo, a, 16 - w);
    MulMono(lo, b, w);
    MulMono(a, hi, 16 - w);
    MulMono(b, hi, w);
    assert lo * (16 - w) + lo * w == lo * 16;
    assert hi * (16 - w) + hi * w == hi * 16;
  }

  /** For fields that fit their width nothing wraps or is cut off: the updated model is
      the weighted mean and lies between the rounded data and the old model. */
  lemma {:induction false} UpModelExact(width: nat, data: word32, model: word32, modelValue: nat, round: nat)
    requires 1 <= width <= 4 && modelValue <= MAX_MODEL_VALUE && round <= MAX_ROUND
    requires data < Pow2(8 * width) && model < Pow2(8 * width)
    ensures var a := RoundValue(data, round); var u := CmpUpModel(width, data, model, modelValue, round);
      && u == WeightedMean(a, model, modelValue) < Pow2(8 * width)
      && (if a <= model then a else model) <= u <= (if a <= model then model else a)
  {
    var a := RoundValue(data, round);
    RoundValueIs(data, round);
    Pow2Mono(8 * width, 32);
    Pow2Values();
    MeanBetween(a, model, modelValue);
    hide RoundValue, Pow2, CmpUpModel16, CmpUpModel32, WeightedMean;
    if width <= 2 {
      Pow2Mono(8 * width, 16);
      Exact16(data, model, modelValue, round);
    } else {
      Exact32(data, model, modelValue, round);
    }
  }

  lemma {:induction false} Exact16(data: word32, model: word32, w: nat, round: nat)
    requires w <= MAX_MODEL_VALUE && RoundValue(data, round) < 0x1_0000 && model < 0x1_0000
    ensures CmpUpModel16(data, model, w, round) == WeightedMean(RoundValue(data, round), model, w)
  {
    var a := RoundValue(data, round);
    MeanBetween(a, model, w);
    hide RoundValue;
    Weighted(a, 16 - w, 0xFFFF);
    Weighted(model, w, 0xFFFF);
    SmallMod(a * (16 - w), W32);
    SmallMod(model * w, W32);
    SmallMod(WeightedMean(a, model, w), 0x1_0000);
  }

  lemma {:induction false} Exact32(data: word32, model: word32, w: nat, round: nat)
    requires w <= MAX_MODEL_VALUE
    ensures CmpUpModel32(data, model, w, round) == WeightedMean(RoundValue(data, round), model, w)
  {
    var a := RoundValue(data, round);
    MeanBetween(a, model, w);
    hide RoundValue;
    MulNonneg(a, 16 - w);
    MulNonneg(model, w);
    SmallMod(WeightedMean(a, model, w), W32);
  }

  lemma {:induction false} Weighted(a: nat, w: nat, top: nat)
    requires w <= 16 && a <= top
    ensures 0 <= a * w <= top * 16
  {
    MulNonneg(a, w);
    MulMono(a, top, w);
    MulMono(w, 16, top);
    assert top * w == w * top;
  }

  /** The decompressor, which has only the rounded data, computes the same model. */
  lemma {:induction false} UpModelOfRounded(width: nat, data: word32, model: word32, modelValue: nat, round: nat)
    requires modelValue <= MAX_MODEL_VALUE && round <= MAX_ROUND
    ensures CmpUpModel(width, RoundValue(data, round), model, modelValue, round)
         == CmpUpModel(width, data, model, modelValue, round)
  {
    RoundValueIs(data, round);
    assert RoundValue(RoundValue(data, round), round) == RoundValue(data, round);
  }

  //// Whole buffers

  function UpField(f: Field, rec: seq<byte>, model: seq<byte>, mv: nat): (r: seq<byte>)
    requires 1 <= f.width <= 4 && f.width <= |rec| && f.width <= |model| && mv <= MAX_MODEL_VALUE
    ensures |r| == f.width
  {
    ToLittleEndian(CmpUpModel(f.width, FieldAt(f, rec), FieldAt(f, model), mv, f.p.round), f.width)
  }

  function UpRec(fs: seq<Field>, rec: seq<byte>, model: seq<byte>, mv: nat): (r: seq<byte>)
    requires ValidFields(fs) && RecSize(fs) <= |rec| && RecSize(fs) <= |model| && mv <= MAX_MODEL_VALUE
    ensures |r| == RecSize(fs)
  {
    if fs == [] then []
    else UpField(fs[0], rec, model, mv) + UpRec(fs[1..], rec[fs[0].width..], model[fs[0].width..], mv)
  }

  /** The updated model of all records from pos on. */
  function UpFrom(fs: seq<Field>, data: seq<byte>, model: seq<byte>, mv: nat, pos: nat): (r: seq<byte>)
    requires ValidFields(fs) && RecSize(fs) > 0 && |data| <= |model| && mv <= MAX_MODEL_VALUE
    decreases |data| - pos
  {
    var s := RecSize(fs);
    if pos + s > |data| then []
    else UpRec(fs, data[pos..pos + s], model[pos..pos + s], mv) + UpFrom(fs, data, model, mv, pos + s)
  }

  lemma {:induction false} UpFieldOfRounded(f: Field, rec: seq<byte>, rounded: seq<byte>, model: seq<byte>, mv: nat)
    requires ValidField(f) && f.width <= |rec| && f.width <= |rounded| && f.width <= |model| && mv <= MAX_MODEL_VALUE
    requires rounded[..f.width] == RoundField(f, rec)
    ensures UpField(f, rounded, model, mv) == UpField(f, rec, model, mv)
  {
    RoundedField(f, rec);
    assert RoundField(f, rec)[..f.width] == rounded[..f.width];
    UpModelOfRounded(f.width, FieldAt(f, rec), FieldAt(f, model), mv, f.p.round);
  }

  lemma {:induction false} UpRecOfRounded(fs: seq<Field>, rec: seq<byte>, model: seq<byte>, mv: nat)
    requires ValidFields(fs) && RecSize(fs) <= |rec| && RecSize(fs) <= |model| && mv <= MAX_MODEL_VALUE
    ensures UpRec(fs, RoundRec(fs, rec), model, mv) == UpRec(fs, rec, model, mv)
  {
    if fs != [] {
      var f, r := fs[0], RoundRec(fs, rec);
      assert r[..f.width] == RoundField(f, rec) && r[f.width..] == RoundRec(fs[1..], rec[f.width..]);
      UpFieldOfRounded(f, rec, r, model, mv);
      UpRecOfRounded(fs[1..], rec[f.width..], model[f.width..], mv);
    }
  }

  lemma {:induction false} UpFromStep(fs: seq<Field>, data: seq<byte>, model: seq<byte>, mv: nat, pos: nat)
    requires ValidFields(fs) && RecSize(fs) > 0 && |data| <= |model| && mv <= MAX_MODEL_VALUE
    requires pos + RecSize(fs) <= |data|
    ensures UpFrom(fs, data, model, mv, pos)
      == UpRec(fs, data[pos..pos + RecSize(fs)], model[pos..pos + RecSize(fs)], mv)
       + UpFrom(fs, data, model, mv, pos + RecSize(fs))
  {
    hide UpRec, RecSize, ValidFields;
  }

  lemma {:induction false} UpFromEnd(fs: seq<Field>, data: seq<byte>, model: seq<byte>, mv: nat, pos: nat)
    requires ValidFields(fs) && RecSize(fs) > 0 && |data| <= |model| && mv <= MAX_MODEL_VALUE
    requires pos + RecSize(fs) > |data|
    ensures UpFrom(fs, data, model, mv, pos) == []
  {
  }

  lemma {:induction false} UpFromSize(fs: seq<Field>, data: seq<byte>, model: seq<byte>, mv: nat, pos: nat, n: nat)
    requires ValidFields(fs) && RecSize(fs) > 0 && |data| <= |model| && mv <= MAX_MODEL_VALUE && pos + n * RecSize(fs) == |data|
    ensures |UpFrom(fs, data, model, mv, pos)| == |data| - pos
    decreases n
  {
    hide *;
    if n == 0 {
      UpFromEnd(fs, data, model, mv, pos);
    } else {
      TimesStep(n, RecSize(fs));
      UpFromStep(fs, data, model, mv, pos);
      UpFromSize(fs, data, model, mv, pos + RecSize(fs), n - 1);
    }
  }

  /** out holds the rounded records of data from pos on. */
  ghost predicate HoldsRounded(fs: seq<Field>, data: seq<byte>, out: seq<byte>, pos: nat)
    requires ValidFields(fs) && RecSize(fs) > 0 && |out| == |data|
  {
    pos <= |data| && out[pos..] == RoundFrom(fs, data, pos)
  }

  /** Both sides of the codec update the model to the same bytes, from original and
      from rounded data. */
  lemma {:induction false} UpFromOfRounded(fs: seq<Field>, data: seq<byte>, out: seq<byte>, model: seq<byte>, mv: nat, pos: nat)
    requires ValidFields(fs) && RecSize(fs) > 0 && |data| <= |model| && mv <= MAX_MODEL_VALUE
    requires |out| == |data| && HoldsRounded(fs, data, out, pos)
    ensures UpFrom(fs, out, model, mv, pos) == UpFrom(fs, data, model, mv, pos)
    decreases |data| - pos
  {
    hide *;
    var s := RecSize(fs);
    if pos + s <= |data| {
      RoundedPart(fs, data, out, pos);
      UpFromStep(fs, data, model, mv, pos);
      UpFromStep(fs, out, model, mv, pos);
      UpRecOfRounded(fs, data[pos..pos + s], model[pos..pos + s], mv);
      UpFromOfRounded(fs, data, out, model, mv, pos + s);
    } else {
      UpFromEnd(fs, data, model, mv, pos);
      UpFromEnd(fs, out, model, mv, pos);
    }
  }

  lemma {:induction false} RoundedPart(fs: seq<Field>, data: seq<byte>, out: seq<byte>, pos: nat)
    requires ValidFields(fs) && RecSize(fs) > 0 && |out| == |data| && pos + RecSize(fs) <= |data|
    requires HoldsRounded(fs, data, out, pos)
    ensures out[pos..pos + RecSize(fs)] == RoundRec(fs, data[pos..pos + RecSize(fs)])
    ensures HoldsRounded(fs, data, out, pos + RecSize(fs))
  {
    hide RoundRec, RoundFrom, RecSize, ValidFields, EncFrom, EncRec, Prediction;
    SamplesStep(fs, data, None, pos);
    var s := RecSize(fs);
    var a, b := RoundRec(fs, data[pos..pos + s]), RoundFrom(fs, data, pos + s);
    TwoParts(out[pos..], a, b);
    assert out[pos..pos + s] == out[pos..][..s];
    assert out[pos + s..] == out[pos..][s..];
  }

  lemma {:induction false} TwoParts(x: seq<byte>, a: seq<byte>, b: seq<byte>)
    requires x == a + b
    ensures x[..|a|] == a && x[|a|..] == b
  {
  }

  //// The values in the updated model

  /** The new value of a field, in plain numbers. */
  lemma {:induction false} UpFieldValue(f: Field, rec: seq<byte>, model: seq<byte>, mv: nat)
    requires ValidField(f) && f.width <= |rec| && f.width <= |model| && mv <= MAX_MODEL_VALUE
    ensures LittleEndian(UpField(f, rec, model, mv)) == WeightedMean(RoundValue(FieldAt(f, rec), f.p.round), FieldAt(f, model), mv)
  {
    UpModelExact(f.width, FieldAt(f, rec), FieldAt(f, model), mv, f.p.round);
    hide CmpUpModel, WeightedMean, RoundValue, FieldAt, LittleEndian, ToLittleEndian, Pow2;
    LittleEndianRoundTrip(CmpUpModel(f.width, FieldAt(f, rec), FieldAt(f, model), mv, f.p.round), f.width);
  }

  /** Field i of an updated record. */
  lemma {:induction false} UpRecField(fs: seq<Field>, rec: seq<byte>, model: seq<byte>, mv: nat, i: nat)
    requires ValidFields(fs) && RecSize(fs) <= |rec| && RecSize(fs) <= |model| && mv <= MAX_MODEL_VALUE && i < |fs|
    ensures var off, w := FieldStart(fs, i), fs[i].width;
      && ValidField(fs[i]) && off + w <= RecSize(fs)
      && UpRec(fs, rec, model, mv)[off..off + w] == UpField(fs[i], rec[off..off + w], model[off..off + w], mv)
    decreases i
  {
    hide *;
    FieldStartStep(fs, i);
    FieldsStep(fs);
    UpRecStep(fs, rec, model, mv);
    var w0 := fs[0].width;
    if i == 0 {
      UpFieldFront(fs[0], rec, model, mv);
      assert UpRec(fs, rec, model, mv)[0..0 + w0] == UpField(fs[0], rec, model, mv);
      assert rec[0..0 + w0] == rec[..w0] && model[0..0 + w0] == model[..w0];
    } else {
      UpRecField(fs[1..], rec[w0..], model[w0..], mv, i - 1);
      var off, w := FieldStart(fs[1..], i - 1), fs[i].width;
      FieldIsValid(fs, i);
      LaterBytes(UpField(fs[0], rec, model, mv), UpRec(fs[1..], rec[w0..], model[w0..], mv), off, off + w);
      DropThenSlice(rec, w0, off, off + w);
      DropThenSlice(model, w0, off, off + w);
    }
  }

  lemma {:induction false} FieldIsValid(fs: seq<Field>, i: nat)
    requires ValidFields(fs) && i < |fs|
    ensures ValidField(fs[i]) && 1 <= fs[i].width <= 4
  {
  }

  lemma {:induction false} UpRecStep(fs: seq<Field>, rec: seq<byte>, model: seq<byte>, mv: nat)
    requires ValidFields(fs) && RecSize(fs) <= |rec| && RecSize(fs) <= |model| && mv <= MAX_MODEL_VALUE && fs != []
    requires ValidField(fs[0]) && ValidFields(fs[1..]) && 1 <= fs[0].width <= 4 && RecSize(fs) == fs[0].width + RecSize(fs[1..])
    ensures UpRec(fs, rec, model, mv)
      == UpField(fs[0], rec, model, mv) + UpRec(fs[1..], rec[fs[0].width..], model[fs[0].width..], mv)
  {
    hide UpField, ValidField, ValidFields, RecSize;
  }

  /** Only the bytes of the field count. */
  lemma {:induction false} UpFieldFront(f: Field, rec: seq<byte>, model: seq<byte>, mv: nat)
    requires ValidField(f) && 1 <= f.width <= 4 && f.width <= |rec| && f.width <= |model| && mv <= MAX_MODEL_VALUE
    ensures UpField(f, rec[..f.width], model[..f.width], mv) == UpField(f, rec, model, mv)
  {
    assert rec[..f.width][..f.width] == rec[..f.width] && model[..f.width][..f.width] == model[..f.width];
    hide CmpUpModel, LittleEndian;
  }

  lemma {:induction false} DropThenSlice(s: seq<byte>, n: nat, i: nat, j: nat)
    requires i <= j && n + j <= |s|
    ensures s[n..][i..j] == s[n + i..n + j]
  {
    assert s[n..] == s[n..|s|];
    SliceOfSlice(s, n, |s|, i, j);
  }

  /** Record r of n updated records. */
  lemma {:induction false} UpFromRec(fs: seq<Field>, data: seq<byte>, model: seq<byte>, mv: nat, pos: nat, n: nat, r: nat,
    s: nat, base: nat)
    requires ValidFields(fs) && s == RecSize(fs) > 0 && |data| <= |model| && mv <= MAX_MODEL_VALUE
    requires pos <= |data| && pos + BytesOf(n, s) == |data| && r < n && base == BytesOf(r, s)
    ensures pos + base + s <= |data| && |UpFrom(fs, data, model, mv, pos)| == |data| - pos
    ensures UpFrom(fs, data, model, mv, pos)[base..base + s]
      == UpRec(fs, data[pos + base..pos + base + s], model[pos + base..pos + base + s], mv)
    decreases n
  {
    hide *;
    SampleFits(r, n, s);
    BytesStep(n, s);
    UpFromSize(fs, data, model, mv, pos, n);
    UpFromStep(fs, data, model, mv, pos);
    var head := UpRec(fs, data[pos..pos + s], model[pos..pos + s], mv);
    if r == 0 {
      assert UpFrom(fs, data, model, mv, pos)[0..s] == head;
    } else {
      BytesStep(r, s);
      UpFromRec(fs, data, model, mv, pos + s, n - 1, r - 1, s, base - s);
      LaterBytes(head, UpFrom(fs, data, model, mv, pos + s), base - s, base);
    }
  }

  /** The mean of data, whose round low bits are cleared, and model with weights 16 - mv and mv,
      rounded down. */
  ghost predicate IsMean(v: nat, data: nat, model: nat, mv: nat, round: nat)
    requires mv <= 16
  {
    v == (data / Pow2(round) * Pow2(round) * (16 - mv) + model * mv) / 16
  }

  lemma {:induction false} IsMeanParts(v: nat, data: nat, model: nat, mv: nat, round: nat)
    requires mv <= 16 && IsMean(v, data, model, mv, round)
    ensures v == (data / Pow2(round) * Pow2(round) * (16 - mv) + model * mv) / 16
  {
  }

  /** Field i of record r in a buffer, from offset at on, is the mean of data and model there. */
  ghost predicate MeanAt(fs: seq<Field>, data: seq<byte>, model: seq<byte>, mv: nat, buf: seq<byte>, at: nat, r: nat, i: nat)
    requires ValidFields(fs) && i < |fs| && mv <= 16
  {
    FieldStartStep(fs, i);
    var off, w := BytesOf(r, RecSize(fs)) + FieldStart(fs, i), fs[i].width;
    && off + w <= |data| && off + w <= |model| && at + off + w <= |buf|
    && IsMean(ValueAt(buf, at + off, w), ValueAt(data, off, w), ValueAt(model, off, w), mv, fs[i].p.round)
  }

  /** A buffer holds the weighted means of all fields of n records. */
  ghost predicate HoldsMeans(fs: seq<Field>, n: nat, data: seq<byte>, model: seq<byte>, mv: nat, buf: seq<byte>, at: nat)
    requires ValidFields(fs) && mv <= 16
  {
    forall r, i :: 0 <= r < n && 0 <= i < |fs| ==> MeanAt(fs, data, model, mv, buf, at, r, i)
  }

  lemma {:induction false} ModelValueLimit()
    ensures MAX_MODEL_VALUE == 16
  {
  }

  /** The same for a buffer that is updated only if there is one, and a model. */
  ghost predicate StoresMeans(fs: seq<Field>, n: nat, data: seq<byte>, model: Option<seq<byte>>, hasUp: bool, mv: nat,
    buf: seq<byte>, at: nat)
    requires ValidFields(fs) && (model.Some? ==> mv <= 16)
  {
    model.Some? && hasUp ==> HoldsMeans(fs, n, data, model.value, mv, buf, at)
  }

  /** Field i of an updated record is the mean. */
  lemma {:induction false} UpRecMean(fs: seq<Field>, rec: seq<byte>, model: seq<byte>, mv: nat, i: nat, off: nat, w: nat)
    requires ValidFields(fs) && RecSize(fs) <= |rec| && RecSize(fs) <= |model| && mv <= 16 && i < |fs|
    requires off == FieldStart(fs, i) && w == fs[i].width
    ensures ValidField(fs[i]) && 1 <= w <= 4 && off + w <= RecSize(fs) == |UpRec(fs, rec, model, mv)|
    ensures IsMean(LittleEndian(UpRec(fs, rec, model, mv)[off..off + w]), LittleEndian(rec[off..off + w]),
      LittleEndian(model[off..off + w]), mv, fs[i].p.round)
  {
    hide *;
    ModelValueLimit();
    FieldStartStep(fs, i);
    FieldIsValid(fs, i);
    UpRecField(fs, rec, model, mv, i);
    UpFieldValue(fs[i], rec[off..off + w], model[off..off + w], mv);
    IsMeanOf(fs[i], rec[off..off + w], model[off..off + w], mv, LittleEndian(UpRec(fs, rec, model, mv)[off..off + w]));
  }

  lemma {:induction false} UpdateIsMean(fs: seq<Field>, n: nat, data: seq<byte>, model: seq<byte>, mv: nat, r: nat, i: nat)
    requires ValidFields(fs) && RecSize(fs) > 0 && |data| <= |model| && mv <= MAX_MODEL_VALUE && BytesOf(n, RecSize(fs)) == |data|
    requires r < n && i < |fs|
    ensures MeanAt(fs, data, model, mv, UpFrom(fs, data, model, mv, 0), 0, r, i)
  {
    hide *;
    ModelValueLimit();
    var s, base := RecSize(fs), BytesOf(r, RecSize(fs));
    UpFromRec(fs, data, model, mv, 0, n, r, s, base);
    var up := UpFrom(fs, data, model, mv, 0);
    assert 0 + base == base;
    MeanInRec(fs, data, model, mv, up, r, i, base, s);
  }

  lemma {:induction false} MeanInRec(fs: seq<Field>, data: seq<byte>, model: seq<byte>, mv: nat, up: seq<byte>, r: nat, i: nat,
    base: nat, s: nat)
    requires ValidFields(fs) && i < |fs| && mv <= 16 && s == RecSize(fs) && base == BytesOf(r, s)
    requires base + s <= |data| && base + s <= |model| && base + s <= |up|
    requires up[base..base + s] == UpRec(fs, data[base..base + s], model[base..base + s], mv)
    ensures MeanAt(fs, data, model, mv, up, 0, r, i)
  {
    hide *;
    var off, w := FieldStart(fs, i), fs[i].width;
    UpRecMean(fs, data[base..base + s], model[base..base + s], mv, i, off, w);
    SliceOfSlice(up, base, base + s, off, off + w);
    SliceOfSlice(data, base, base + s, off, off + w);
    SliceOfSlice(model, base, base + s, off, off + w);
    MeanOf(fs, data, model, mv, up, r, i, base + off, w);
  }

  lemma {:induction false} MeanOf(fs: seq<Field>, data: seq<byte>, model: seq<byte>, mv: nat, up: seq<byte>, r: nat, i: nat,
    off: nat, w: nat)
    requires ValidFields(fs) && i < |fs| && mv <= 16 && off == BytesOf(r, RecSize(fs)) + FieldStart(fs, i) && w == fs[i].width
    requires off + w <= |data| && off + w <= |model| && off + w <= |up|
    requires IsMean(LittleEndian(up[off..off + w]), LittleEndian(data[off..off + w]), LittleEndian(model[off..off + w]), mv,
      fs[i].p.round)
    ensures MeanAt(fs, data, model, mv, up, 0, r, i)
  {
    hide *;
    ValuesAt(up, 0, data, model, off, w);
    MeanAtParts(fs, data, model, mv, up, 0, r, i, off);
  }

  lemma {:induction false} ValuesAt(buf: seq<byte>, at: nat, data: seq<byte>, model: seq<byte>, off: nat, w: nat)
    requires off + w <= |data| && off + w <= |model| && at + off + w <= |buf|
    ensures ValueAt(data, off, w) == LittleEndian(data[off..off + w]) && ValueAt(model, off, w) == LittleEndian(model[off..off + w])
    ensures ValueAt(buf, at + off, w) == LittleEndian(buf[at + off..at + off + w])
  {
  }

  lemma {:induction false} MeanAtParts(fs: seq<Field>, data: seq<byte>, model: seq<byte>, mv: nat, buf: seq<byte>, at: nat,
    r: nat, i: nat, off: nat)
    requires ValidFields(fs) && i < |fs| && mv <= 16 && off == BytesOf(r, RecSize(fs)) + FieldStart(fs, i)
    ensures MeanAt(fs, data, model, mv, buf, at, r, i) <==>
      && off + fs[i].width <= |data| && off + fs[i].width <= |model| && at + off + fs[i].width <= |buf|
      && IsMean(ValueAt(buf, at + off, fs[i].width), ValueAt(data, off, fs[i].width), ValueAt(model, off, fs[i].width),
           mv, fs[i].p.round)
  {
    hide BytesOf, IsMean, ValueAt, FieldStart, RecSize, ValidFields;
  }

  lemma {:induction false} IsMeanOf(f: Field, a: seq<byte>, b: seq<byte>, mv: nat, v: nat)
    requires ValidField(f) && mv <= MAX_MODEL_VALUE && 1 <= f.width <= 4 && |a| == f.width == |b|
    requires v == WeightedMean(RoundValue(FieldAt(f, a), f.p.round), FieldAt(f, b), mv)
    ensures IsMean(v, LittleEndian(a), LittleEndian(b), mv, f.p.round)
  {
    assert a[..f.width] == a && b[..f.width] == b;
    RoundIsSmall(f);
    RoundValueIs(FieldAt(f, a), f.p.round);
    hide LittleEndian, RoundValue, ValidField, Pow2;
  }

  lemma {:induction false} RoundIsSmall(f: Field)
    requires ValidField(f)
    ensures f.p.round <= 32
  {
  }

  /** What the update of whole records gives are their means. */
  lemma {:induction false} UpFromMeans(fs: seq<Field>, n: nat, data: seq<byte>, model: seq<byte>, mv: nat)
    requires ValidFields(fs) && RecSize(fs) > 0 && |data| <= |model| && mv <= MAX_MODEL_VALUE && BytesOf(n, RecSize(fs)) == |data|
    ensures |UpFrom(fs, data, model, mv, 0)| == |data| && mv <= 16
    ensures HoldsMeans(fs, n, data, model, mv, UpFrom(fs, data, model, mv, 0), 0)
  {
    hide *;
    ModelValueLimit();
    BytesStep(n, RecSize(fs));
    UpFromSize(fs, data, model, mv, 0, n);
    forall r, i | 0 <= r < n && 0 <= i < |fs|
      ensures MeanAt(fs, data, model, mv, UpFrom(fs, data, model, mv, 0), 0, r, i)
    {
      UpdateIsMean(fs, n, data, model, mv, r, i);
    }
    MeansOf(fs, n, data, model, mv, UpFrom(fs, data, model, mv, 0), 0);
  }

  /** After the update of whole records, the buffer of the updated model holds their means. */
  lemma {:induction false} SplicedMeans(fs: seq<Field>, n: nat, data: seq<byte>, model: seq<byte>, mv: nat, before: seq<byte>, at: nat)
    requires ValidFields(fs) && RecSize(fs) > 0 && |data| <= |model| && mv <= MAX_MODEL_VALUE && BytesOf(n, RecSize(fs)) == |data|
    requires |UpFrom(fs, data, model, mv, 0)| == |data| && at + |data| <= |before|
    ensures HoldsMeans(fs, n, data, model, mv, Splice(before, at, UpFrom(fs, data, model, mv, 0)), at)
  {
    hide *;
    ModelValueLimit();
    var up := UpFrom(fs, data, model, mv, 0);
    forall r, i | 0 <= r < n && 0 <= i < |fs|
      ensures MeanAt(fs, data, model, mv, Splice(before, at, up), at, r, i)
    {
      UpdateIsMean(fs, n, data, model, mv, r, i);
      MeanMoved(fs, data, model, mv, up, before, at, r, i);
    }
    MeansOf(fs, n, data, model, mv, Splice(before, at, up), at);
  }

  lemma {:induction false} MeanMoved(fs: seq<Field>, data: seq<byte>, model: seq<byte>, mv: nat, up: seq<byte>, before: seq<byte>,
    at: nat, r: nat, i: nat)
    requires ValidFields(fs) && i < |fs| && mv <= 16 && at + |up| <= |before|
    requires MeanAt(fs, data, model, mv, up, 0, r, i)
    ensures MeanAt(fs, data, model, mv, Splice(before, at, up), at, r, i)
  {
    hide *;
    var off, w := BytesOf(r, RecSize(fs)) + FieldStart(fs, i), fs[i].width;
    MeanAtParts(fs, data, model, mv, up, 0, r, i, off);
    MeanAtParts(fs, data, model, mv, Splice(before, at, up), at, r, i, off);
    ValuesAt(up, 0, data, model, off, w);
    ValuesAt(Splice(before, at, up), at, data, model, off, w);
    SplicedPart(before, at, up, off, off + w);
  }

  lemma {:induction false} MeansOf(fs: seq<Field>, n: nat, data: seq<byte>, model: seq<byte>, mv: nat, buf: seq<byte>, at: nat)
    requires ValidFields(fs) && mv <= 16
    requires forall r, i :: 0 <= r < n && 0 <= i < |fs| ==> MeanAt(fs, data, model, mv, buf, at, r, i)
    ensures HoldsMeans(fs, n, data, model, mv, buf, at)
  {
    hide MeanAt, ValidFields;
  }
}
