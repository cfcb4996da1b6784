/** What a sample stream holds, record by record and field by field. */
module SampleStream {
  import opened Bits
  import opened Bytes
  import opened Words
  import opened Golomb
  import opened Params
  import opened ValueCode
  import opened BitReader
  import opened Samples

  /** The whole records 0..n of a buffer and of its model, if there is one. */
  ghost predicate Whole(fs: seq<Field>, data: seq<byte>, model: Option<seq<byte>>, n: nat)
  {
    && ValidFields(fs) && RecSize(fs) > 0 && BytesOf(n, RecSize(fs)) <= |data|
    && (model.Some? ==> BytesOf(n, RecSize(fs)) <= |model.value|)
  }

  /** Where field j of record i starts. */
  function Place(fs: seq<Field>, i: nat, j: nat): (off: nat)
    requires j <= |fs|
  {
    BytesOf(i, RecSize(fs)) + FieldStart(fs, j)
  }

  lemma {:induction false} PlaceFits(fs: seq<Field>, data: seq<byte>, model: Option<seq<byte>>, n: nat, i: nat, j: nat)
    requires Whole(fs, data, model, n) && i < n && j < |fs|
    ensures var off, w, s := Place(fs, i, j), fs[j].width, RecSize(fs);
      && 1 <= w <= 4 && off + w <= |data| && (model.Some? ==> off + w <= |model.value|) && (i > 0 ==> s <= off)
  {
    hide *;
    WholeParts(fs, data, model, n);
    PlaceIs(fs, i, j);
    FieldStartStep(fs, j);
    SampleFits(i, n, RecSize(fs));
    BytesStep(i, RecSize(fs));
  }

  lemma {:induction false} WholeParts(fs: seq<Field>, data: seq<byte>, model: Option<seq<byte>>, n: nat)
    requires Whole(fs, data, model, n)
    ensures ValidFields(fs) && RecSize(fs) > 0 && BytesOf(n, RecSize(fs)) <= |data|
    ensures model.Some? ==> BytesOf(n, RecSize(fs)) <= |model.value|
  {
    hide ValidFields, RecSize, BytesOf;
  }

  lemma {:induction false} PlaceIs(fs: seq<Field>, i: nat, j: nat)
    requires j <= |fs|
    ensures Place(fs, i, j) == BytesOf(i, RecSize(fs)) + FieldStart(fs, j)
  {
  }

  /** What the field is predicted to be: the model's value there, or else that of the same
      field in the record before, which the first record predicts as 0. */
  function PredictedValue(fs: seq<Field>, data: seq<byte>, model: Option<seq<byte>>, n: nat, i: nat, j: nat): (v: nat)
    requires Whole(fs, data, model, n) && i < n && j < |fs|
  {
    PlaceFits(fs, data, model, n, i, j);
    if model.Some? then ValueAt(model.value, Place(fs, i, j), fs[j].width)
    else if i == 0 then 0
    else ValueAt(data, Place(fs, i, j) - RecSize(fs), fs[j].width)
  }

  lemma {:induction false} ValuesInRange(fs: seq<Field>, data: seq<byte>, model: Option<seq<byte>>, n: nat, i: nat, j: nat)
    requires Whole(fs, data, model, n) && i < n && j < |fs|
    ensures Place(fs, i, j) + fs[j].width <= |data| && ValidPars(fs[j].p)
    ensures ValueAt(data, Place(fs, i, j), fs[j].width) < W32 && PredictedValue(fs, data, model, n, i, j) < W32
    ensures InRange(ValueAt(data, Place(fs, i, j), fs[j].width), fs[j].p)
    ensures InRange(PredictedValue(fs, data, model, n, i, j), fs[j].p)
  {
    hide *;
    PlaceFits(fs, data, model, n, i, j);
    WholeParts(fs, data, model, n);
    ValidAt(fs, j);
    SmallInRange(fs[j], ValueAt(data, Place(fs, i, j), fs[j].width));
    PredictedFits(fs, data, model, n, i, j);
    SmallInRange(fs[j], PredictedValue(fs, data, model, n, i, j));
  }

  lemma {:induction false} ValidAt(fs: seq<Field>, j: nat)
    requires ValidFields(fs) && j < |fs|
    ensures ValidField(fs[j]) && ValidPars(fs[j].p) && 1 <= fs[j].width <= 4
  {
  }

  lemma {:induction false} SmallInRange(f: Field, v: nat)
    requires ValidField(f) && v < Pow2(8 * f.width)
    ensures v < W32 && InRange(v, f.p)
  {
    Pow2Mono(8 * f.width, 32);
    Pow2Values();
    hide Pow2;
    ShrLe(v, f.p.round);
  }

  lemma {:induction false} PredictedFits(fs: seq<Field>, data: seq<byte>, model: Option<seq<byte>>, n: nat, i: nat, j: nat)
    requires Whole(fs, data, model, n) && i < n && j < |fs|
    ensures PredictedValue(fs, data, model, n, i, j) < Pow2(8 * fs[j].width)
  {
    hide Pow2, RecSize, ValidFields, FieldStart, BytesOf;
  }

  /** The code of one field. */
  function FieldCode(fs: seq<Field>, data: seq<byte>, model: Option<seq<byte>>, n: nat, i: nat, j: nat): (b: seq<bool>)
    requires Whole(fs, data, model, n) && i < n && j < |fs|
  {
    ValuesInRange(fs, data, model, n, i, j);
    CodeValue(fs[j].p, ValueAt(data, Place(fs, i, j), fs[j].width), PredictedValue(fs, data, model, n, i, j))
  }

  /** The codes of the first k fields of record i, one behind the other. */
  function RecordCode(fs: seq<Field>, data: seq<byte>, model: Option<seq<byte>>, n: nat, i: nat, k: nat): (b: seq<bool>)
    requires Whole(fs, data, model, n) && i < n && k <= |fs|
  {
    if k == 0 then [] else RecordCode(fs, data, model, n, i, k - 1) + FieldCode(fs, data, model, n, i, k - 1)
  }

  /** The codes of the first k records, one behind the other. */
  function StreamCode(fs: seq<Field>, data: seq<byte>, model: Option<seq<byte>>, n: nat, k: nat): (b: seq<bool>)
    requires Whole(fs, data, model, n) && k <= n
  {
    if k == 0 then [] else StreamCode(fs, data, model, n, k - 1) + RecordCode(fs, data, model, n, k - 1, |fs|)
  }

  //// The closed form is what the compressor writes

  lemma {:induction false} SliceValue(f: Field, rec: seq<byte>, buf: seq<byte>, base: nat, s: nat, off: nat)
    requires 1 <= f.width <= 4 && off + f.width <= s && base + s <= |buf| && rec == buf[base..base + s]
    ensures FieldAt(f, rec[off..]) == ValueAt(buf, base + off, f.width)
  {
    hide LittleEndian;
    assert rec[off..][..f.width] == rec[off..off + f.width];
    SliceOfSlice(buf, base, base + s, off, off + f.width);
  }

  lemma {:induction false} ZeroValue(f: Field, rec: seq<byte>, off: nat)
    requires 1 <= f.width <= 4 && off + f.width <= |rec| && rec == ZeroBytes(|rec|)
    ensures FieldAt(f, rec[off..]) == 0
  {
    var z := rec[off..][..f.width];
    var t := Reversed(z);
    assert t == ZeroBytes(|t|);
    ZeroBytesBits(|t|);
    ValZeros(8 * |t|);
  }

  lemma {:induction false} PredictionIs(s: nat, data: seq<byte>, model: Option<seq<byte>>, pos: nat)
    requires 0 < s && pos + s <= |data| && (model.Some? ==> pos + s <= |model.value|) && (pos == 0 || s <= pos)
    ensures Prediction(s, data, model, pos)
      == if model.Some? then model.value[pos..pos + s] else if pos == 0 then ZeroBytes(s) else data[pos - s..pos - s + s]
  {
  }

  lemma {:induction false} PredictedIs(fs: seq<Field>, data: seq<byte>, model: Option<seq<byte>>, n: nat, i: nat, j: nat)
    requires Whole(fs, data, model, n) && i < n && j < |fs|
    ensures var off, w, s := Place(fs, i, j), fs[j].width, RecSize(fs);
      && off + w <= |data| && (model.Some? ==> off + w <= |model.value|) && (i > 0 ==> s <= off)
      && PredictedValue(fs, data, model, n, i, j)
           == if model.Some? then ValueAt(model.value, off, w) else if i == 0 then 0 else ValueAt(data, off - s, w)
  {
    hide ValueAt, Place, RecSize, ValidFields, BytesOf;
    PlaceFits(fs, data, model, n, i, j);
  }

  /** The prediction record holds the predicted values. */
  lemma {:induction false} PredictedField(fs: seq<Field>, data: seq<byte>, model: Option<seq<byte>>, n: nat, i: nat, j: nat,
    base: nat, s: nat)
    requires Whole(fs, data, model, n) && i < n && j < |fs| && s == RecSize(fs) && base == BytesOf(i, s) && base + s <= |data|
    requires FieldStart(fs, j) + fs[j].width <= s && 1 <= fs[j].width <= 4
    ensures FieldAt(fs[j], Prediction(s, data, model, base)[FieldStart(fs, j)..]) == PredictedValue(fs, data, model, n, i, j)
  {
    hide *;
    var off, pred := FieldStart(fs, j), Prediction(s, data, model, base);
    WholeParts(fs, data, model, n);
    SampleFits(i, n, s);
    BytesStep(i, s);
    PlaceIs(fs, i, j);
    PredictionIs(s, data, model, base);
    PredictedIs(fs, data, model, n, i, j);
    if model.Some? {
      SliceValue(fs[j], pred, model.value, base, s, off);
    } else if i == 0 {
      ZeroValue(fs[j], pred, off);
    } else {
      SliceValue(fs[j], pred, data, base - s, s, off);
      assert base - s + off == Place(fs, i, j) - s;
    }
  }

  lemma {:induction false} FieldIs(fs: seq<Field>, data: seq<byte>, model: Option<seq<byte>>, n: nat, i: nat, j: nat,
    base: nat, s: nat)
    requires Whole(fs, data, model, n) && i < n && j < |fs| && s == RecSize(fs) && base == BytesOf(i, s) && base + s <= |data|
    requires FieldStart(fs, j) + fs[j].width <= s && 1 <= fs[j].width <= 4 && ValidField(fs[j])
    ensures EncField(fs[j], data[base..base + s][FieldStart(fs, j)..], Prediction(s, data, model, base)[FieldStart(fs, j)..])
      == FieldCode(fs, data, model, n, i, j)
  {
    hide *;
    PlaceIs(fs, i, j);
    SliceValue(fs[j], data[base..base + s], data, base, s, FieldStart(fs, j));
    PredictedField(fs, data, model, n, i, j, base, s);
    SameCode(fs, data, model, n, i, j, data[base..base + s][FieldStart(fs, j)..],
      Prediction(s, data, model, base)[FieldStart(fs, j)..]);
  }

  lemma {:induction false} SameCode(fs: seq<Field>, data: seq<byte>, model: Option<seq<byte>>, n: nat, i: nat, j: nat,
    rec: seq<byte>, pred: seq<byte>)
    requires Whole(fs, data, model, n) && i < n && j < |fs| && ValidField(fs[j]) && 1 <= fs[j].width <= 4
    requires fs[j].width <= |rec| && fs[j].width <= |pred| && Place(fs, i, j) + fs[j].width <= |data|
    requires FieldAt(fs[j], rec) == ValueAt(data, Place(fs, i, j), fs[j].width)
    requires FieldAt(fs[j], pred) == PredictedValue(fs, data, model, n, i, j)
    ensures EncField(fs[j], rec, pred) == FieldCode(fs, data, model, n, i, j)
  {
    hide FieldAt, ValueAt, PredictedValue, Place, CodeValue, Whole;
  }

  /** The bits of a record are the codes of its fields. */
  lemma {:induction false} RecordIs(fs: seq<Field>, data: seq<byte>, model: Option<seq<byte>>, n: nat, i: nat, k: nat,
    base: nat, s: nat)
    requires Whole(fs, data, model, n) && i < n && k <= |fs| && s == RecSize(fs) && base == BytesOf(i, s) && base + s <= |data|
    ensures var rec, pred, off := data[base..base + s], Prediction(s, data, model, base), FieldStart(fs, k);
      && ValidFields(fs) && ValidFields(fs[k..]) && RecSize(fs[k..]) == s - off
      && EncRec(fs, rec, pred) == RecordCode(fs, data, model, n, i, k) + EncRec(fs[k..], rec[off..], pred[off..])
  {
    hide *;
    WholeParts(fs, data, model, n);
    var rec, pred := data[base..base + s], Prediction(s, data, model, base);
    NoRecordCode(fs, data, model, n, i);
    if k == 0 {
      NoFieldStart(fs);
      assert fs[0..] == fs && rec[0..] == rec && pred[0..] == pred;
      assert [] + EncRec(fs, rec, pred) == EncRec(fs, rec, pred);
    } else {
      var j := k - 1;
      RecordIs(fs, data, model, n, i, j, base, s);
      var off, f := FieldStart(fs, j), fs[j];
      FieldAfter(fs, j);
      FieldIs(fs, data, model, n, i, j, base, s);
      EncRecStep(fs[j..], rec[off..], pred[off..]);
      assert rec[off..][f.width..] == rec[off + f.width..] && pred[off..][f.width..] == pred[off + f.width..];
      RecordCodeStep(fs, data, model, n, i, k);
      Assoc(RecordCode(fs, data, model, n, i, j), FieldCode(fs, data, model, n, i, j),
        EncRec(fs[k..], rec[off + f.width..], pred[off + f.width..]));
    }
  }

  lemma {:induction false} NoFieldStart(fs: seq<Field>)
    ensures FieldStart(fs, 0) == 0
  {
  }

  /** The fields from j on, and where the next one starts. */
  lemma {:induction false} FieldAfter(fs: seq<Field>, j: nat)
    requires ValidFields(fs) && j < |fs| && ValidFields(fs[j..])
    ensures fs[j..] != [] && fs[j..][0] == fs[j] && fs[j..][1..] == fs[j + 1..] && ValidFields(fs[j + 1..])
    ensures ValidField(fs[j]) && 1 <= fs[j].width <= 4 && RecSize(fs[j..]) == fs[j].width + RecSize(fs[j + 1..])
    ensures FieldStart(fs, j + 1) == FieldStart(fs, j) + fs[j].width <= RecSize(fs)
  {
    FieldStartStep(fs, j);
    FieldStartNext(fs, j);
    FieldsStep(fs[j..]);
  }

  lemma {:induction false} FieldStartNext(fs: seq<Field>, j: nat)
    requires j < |fs|
    ensures FieldStart(fs, j + 1) == FieldStart(fs, j) + fs[j].width
    decreases j
  {
    if j > 0 {
      assert fs[..j][1..] == fs[1..][..j - 1] && fs[..j + 1][1..] == fs[1..][..j];
      FieldStartNext(fs[1..], j - 1);
    } else {
      assert fs[..1][1..] == [];
    }
  }

  lemma {:induction false} NoRecordCode(fs: seq<Field>, data: seq<byte>, model: Option<seq<byte>>, n: nat, i: nat)
    requires Whole(fs, data, model, n) && i < n
    ensures RecordCode(fs, data, model, n, i, 0) == []
  {
  }

  lemma {:induction false} RecordCodeStep(fs: seq<Field>, data: seq<byte>, model: Option<seq<byte>>, n: nat, i: nat, k: nat)
    requires Whole(fs, data, model, n) && i < n && 0 < k <= |fs|
    ensures RecordCode(fs, data, model, n, i, k)
      == RecordCode(fs, data, model, n, i, k - 1) + FieldCode(fs, data, model, n, i, k - 1)
  {
    hide FieldCode, Whole;
  }

  lemma {:induction false} StreamCodeStep(fs: seq<Field>, data: seq<byte>, model: Option<seq<byte>>, n: nat, k: nat)
    requires Whole(fs, data, model, n) && k <= n
    ensures StreamCode(fs, data, model, n, k)
      == if k == 0 then [] else StreamCode(fs, data, model, n, k - 1) + RecordCode(fs, data, model, n, k - 1, |fs|)
  {
    hide RecordCode, Whole;
  }

  lemma {:induction false} WholeRecord(fs: seq<Field>, data: seq<byte>, model: Option<seq<byte>>, n: nat, i: nat, base: nat, s: nat)
    requires Whole(fs, data, model, n) && i < n && s == RecSize(fs) && base == BytesOf(i, s) && base + s <= |data|
    ensures ValidFields(fs) && EncRec(fs, data[base..base + s], Prediction(s, data, model, base)) == RecordCode(fs, data, model, n, i, |fs|)
  {
    hide *;
    RecordIs(fs, data, model, n, i, |fs|, base, s);
    var off, rec, pred := FieldStart(fs, |fs|), data[base..base + s], Prediction(s, data, model, base);
    assert fs[|fs|..] == [];
    NoFields(rec[off..], pred[off..], pred, [], []);
    assert RecordCode(fs, data, model, n, i, |fs|) + [] == RecordCode(fs, data, model, n, i, |fs|);
  }

  /** The first k records are coded first. */
  lemma {:induction false} StreamFront(fs: seq<Field>, data: seq<byte>, model: Option<seq<byte>>, n: nat, k: nat)
    requires Whole(fs, data, model, n) && k <= n
    ensures ValidFields(fs) && RecSize(fs) > 0 && EncFrom(fs, data, model, 0)
      == StreamCode(fs, data, model, n, k) + EncFrom(fs, data, model, BytesOf(k, RecSize(fs)))
    decreases k
  {
    hide *;
    WholeParts(fs, data, model, n);
    StreamCodeStep(fs, data, model, n, k);
    var s := RecSize(fs);
    BytesStep(k, s);
    if k == 0 {
      assert [] + EncFrom(fs, data, model, 0) == EncFrom(fs, data, model, 0);
    } else {
      var i, base := k - 1, BytesOf(k - 1, s);
      SampleFits(i, n, s);
      StreamFront(fs, data, model, n, i);
      SamplesStep(fs, data, model, base);
      WholeRecord(fs, data, model, n, i, base, s);
      Assoc(StreamCode(fs, data, model, n, i), RecordCode(fs, data, model, n, i, |fs|), EncFrom(fs, data, model, base + s));
    }
  }

  /** THE SAMPLE STREAM. What the compressor writes are the codes of all fields of all
      records, in order, each predicted from the model, or from the record before. */
  lemma {:induction false} StreamIs(fs: seq<Field>, data: seq<byte>, model: Option<seq<byte>>, n: nat)
    requires Whole(fs, data, model, n) && BytesOf(n, RecSize(fs)) == |data|
    ensures ValidFields(fs) && RecSize(fs) > 0 && EncFrom(fs, data, model, 0) == StreamCode(fs, data, model, n, n)
  {
    hide *;
    StreamFront(fs, data, model, n, n);
    WholeParts(fs, data, model, n);
    NoSamples(fs, data, model, |data|, data, []);
    assert StreamCode(fs, data, model, n, n) + [] == StreamCode(fs, data, model, n, n);
  }

  //// Imagettes

  /** Buffers with the same n records in front. */
  ghost predicate SameFront(a: seq<byte>, b: seq<byte>, k: nat)
  {
    k <= |a| && k <= |b| && a[..k] == b[..k]
  }

  lemma {:induction false} SameValue(a: seq<byte>, b: seq<byte>, k: nat, off: nat, w: nat)
    requires SameFront(a, b, k) && off + w <= k
    ensures ValueAt(a, off, w) == ValueAt(b, off, w)
  {
    hide LittleEndian;
    SliceOfSlice(a, 0, k, off, off + w);
    SliceOfSlice(b, 0, k, off, off + w);
    assert a[0..k] == a[..k] && b[0..k] == b[..k];
  }

  ghost predicate SameFronts(fs: seq<Field>, a: seq<byte>, ma: Option<seq<byte>>, b: seq<byte>, mb: Option<seq<byte>>, k: nat)
  {
    && SameFront(a, b, BytesOf(k, RecSize(fs))) && ma.Some? == mb.Some?
    && (ma.Some? ==> SameFront(ma.value, mb.value, BytesOf(k, RecSize(fs))))
  }

  lemma {:induction false} SameFrontsParts(fs: seq<Field>, a: seq<byte>, ma: Option<seq<byte>>, b: seq<byte>, mb: Option<seq<byte>>, k: nat)
    requires SameFronts(fs, a, ma, b, mb, k)
    ensures SameFront(a, b, BytesOf(k, RecSize(fs))) && ma.Some? == mb.Some?
    ensures ma.Some? ==> SameFront(ma.value, mb.value, BytesOf(k, RecSize(fs)))
  {
    hide RecSize, BytesOf, SameFront;
  }

  lemma {:induction false} SameFieldCode(fs: seq<Field>, a: seq<byte>, ma: Option<seq<byte>>, na: nat, b: seq<byte>, mb: Option<seq<byte>>,
    nb: nat, k: nat, i: nat, j: nat)
    requires Whole(fs, a, ma, na) && Whole(fs, b, mb, nb) && k <= na && k <= nb && SameFronts(fs, a, ma, b, mb, k)
    requires i < k && j < |fs|
    ensures FieldCode(fs, a, ma, na, i, j) == FieldCode(fs, b, mb, nb, i, j)
  {
    hide *;
    WholeParts(fs, a, ma, na);
    var off, w, s := Place(fs, i, j), fs[j].width, RecSize(fs);
    SameFrontsParts(fs, a, ma, b, mb, k);
    PlaceIs(fs, i, j);
    SampleFits(i, k, s);
    FieldStartStep(fs, j);
    PredictedIs(fs, a, ma, na, i, j);
    PredictedIs(fs, b, mb, nb, i, j);
    SameValue(a, b, BytesOf(k, s), off, w);
    if ma.Some? {
      SameValue(ma.value, mb.value, BytesOf(k, s), off, w);
    } else if i > 0 {
      SameValue(a, b, BytesOf(k, s), off - s, w);
    }
    SameFieldCodeIs(fs, a, ma, na, b, mb, nb, i, j);
  }

  lemma {:induction false} SameFieldCodeIs(fs: seq<Field>, a: seq<byte>, ma: Option<seq<byte>>, na: nat, b: seq<byte>,
    mb: Option<seq<byte>>, nb: nat, i: nat, j: nat)
    requires Whole(fs, a, ma, na) && Whole(fs, b, mb, nb) && i < na && i < nb && j < |fs|
    requires Place(fs, i, j) + fs[j].width <= |a| && Place(fs, i, j) + fs[j].width <= |b|
    requires ValueAt(a, Place(fs, i, j), fs[j].width) == ValueAt(b, Place(fs, i, j), fs[j].width)
    requires PredictedValue(fs, a, ma, na, i, j) == PredictedValue(fs, b, mb, nb, i, j)
    ensures FieldCode(fs, a, ma, na, i, j) == FieldCode(fs, b, mb, nb, i, j)
  {
    hide ValueAt, Place, PredictedValue, CodeValue, Whole;
  }

  lemma {:induction false} SameRecordCode(fs: seq<Field>, a: seq<byte>, ma: Option<seq<byte>>, na: nat, b: seq<byte>, mb: Option<seq<byte>>,
    nb: nat, k: nat, i: nat, j: nat)
    requires Whole(fs, a, ma, na) && Whole(fs, b, mb, nb) && k <= na && k <= nb && SameFronts(fs, a, ma, b, mb, k)
    requires i < k && j <= |fs|
    ensures RecordCode(fs, a, ma, na, i, j) == RecordCode(fs, b, mb, nb, i, j)
    decreases j
  {
    hide *;
    NoRecordCode(fs, a, ma, na, i);
    NoRecordCode(fs, b, mb, nb, i);
    if j > 0 {
      RecordCodeStep(fs, a, ma, na, i, j);
      RecordCodeStep(fs, b, mb, nb, i, j);
      SameFieldCode(fs, a, ma, na, b, mb, nb, k, i, j - 1);
      SameRecordCode(fs, a, ma, na, b, mb, nb, k, i, j - 1);
    }
  }

  /** The codes of the first records do not depend on what follows them. */
  lemma {:induction false} SameStreamCode(fs: seq<Field>, a: seq<byte>, ma: Option<seq<byte>>, na: nat, b: seq<byte>, mb: Option<seq<byte>>,
    nb: nat, k: nat, i: nat)
    requires Whole(fs, a, ma, na) && Whole(fs, b, mb, nb) && k <= na && k <= nb && SameFronts(fs, a, ma, b, mb, k)
    requires i <= k
    ensures StreamCode(fs, a, ma, na, i) == StreamCode(fs, b, mb, nb, i)
    decreases i
  {
    hide *;
    StreamCodeStep(fs, a, ma, na, i);
    StreamCodeStep(fs, b, mb, nb, i);
    if i > 0 {
      SameRecordCode(fs, a, ma, na, b, mb, nb, k, i - 1, |fs|);
      SameStreamCode(fs, a, ma, na, b, mb, nb, k, i - 1);
    }
  }

  function FrontOf(model: Option<seq<byte>>, k: nat): (r: Option<seq<byte>>)
    requires model.Some? ==> k <= |model.value|
  {
    match model
    case None => None
    case Some(m) => Some(m[..k])
  }

  lemma {:induction false} FrontsOf(fs: seq<Field>, data: seq<byte>, model: Option<seq<byte>>, n: nat, k: nat, b: nat)
    requires Whole(fs, data, model, n) && k <= n && b == BytesOf(k, RecSize(fs)) && b <= |data| && (model.Some? ==> b <= |model.value|)
    ensures Whole(fs, data[..b], FrontOf(model, b), k) && SameFronts(fs, data, model, data[..b], FrontOf(model, b), k)
  {
    hide RecSize, BytesOf, ValidFields;
  }

  /** One more record: its field codes come behind the stream of the records before it. */
  lemma {:induction false} StreamGrows(fs: seq<Field>, data: seq<byte>, model: Option<seq<byte>>, i: nat, b: nat)
    requires Whole(fs, data, model, i + 1) && BytesOf(i + 1, RecSize(fs)) == |data| && b == BytesOf(i, RecSize(fs)) <= |data|
    requires model.Some? ==> b <= |model.value|
    ensures ValidFields(fs) && RecSize(fs) > 0
    ensures EncFrom(fs, data, model, 0)
      == EncFrom(fs, data[..b], FrontOf(model, b), 0) + RecordCode(fs, data, model, i + 1, i, |fs|)
  {
    hide *;
    var front, mdl := data[..b], FrontOf(model, b);
    FrontsOf(fs, data, model, i + 1, i, b);
    StreamIs(fs, data, model, i + 1);
    StreamIs(fs, front, mdl, i);
    StreamCodeStep(fs, data, model, i + 1, i + 1);
    SameStreamCode(fs, data, model, i + 1, front, mdl, i, i, i);
  }

  lemma {:induction false} SampleInRange(v: nat, p: CodePars)
    requires v < 0x1_0000 && ValidPars(p) && p.bits == 16
    ensures InRange(v, p)
  {
    Pow2Values();
    hide Pow2;
    ShrLe(v, p.round);
  }

  /** What an imagette sample is predicted to be. */
  function PredictedSample(data: seq<byte>, model: Option<seq<byte>>, i: nat): (v: nat)
    requires 2 * i + 2 <= |data| && (model.Some? ==> 2 * i + 2 <= |model.value|)
    ensures v < 0x1_0000
  {
    if model.Some? then SampleAt(model.value, 2 * i) else if i == 0 then 0 else SampleAt(data, 2 * (i - 1))
  }

  lemma {:induction false} SampleRecord(fs: seq<Field>, data: seq<byte>, model: Option<seq<byte>>, i: nat)
    requires |fs| == 1 && ValidFields(fs) && fs[0].width == 2 && RecSize(fs) == 2
    requires |data| == 2 * (i + 1) && (model.Some? ==> |model.value| == |data|)
    ensures Whole(fs, data, model, i + 1) && Place(fs, i, 0) == 2 * i && BytesOf(i, 2) == 2 * i && BytesOf(i + 1, 2) == |data|
    ensures RecordCode(fs, data, model, i + 1, i, 1) == FieldCode(fs, data, model, i + 1, i, 0)
  {
    BytesStep(i, 2);
    BytesStep(i + 1, 2);
    FieldStartStep(fs, 0);
    PlaceIs(fs, i, 0);
    hide *;
    WholeOf(fs, data, model, i + 1);
    RecordCodeStep(fs, data, model, i + 1, i, 1);
    NoRecordCode(fs, data, model, i + 1, i);
    assert [] + FieldCode(fs, data, model, i + 1, i, 0) == FieldCode(fs, data, model, i + 1, i, 0);
  }

  lemma {:induction false} WholeOf(fs: seq<Field>, data: seq<byte>, model: Option<seq<byte>>, n: nat)
    requires ValidFields(fs) && RecSize(fs) > 0 && BytesOf(n, RecSize(fs)) == |data| && (model.Some? ==> |model.value| == |data|)
    ensures Whole(fs, data, model, n)
  {
    hide ValidFields, RecSize, BytesOf;
  }

  lemma {:induction false} SamplePredicted(fs: seq<Field>, data: seq<byte>, model: Option<seq<byte>>, i: nat)
    requires |fs| == 1 && fs[0].width == 2 && RecSize(fs) == 2 && Whole(fs, data, model, i + 1) && Place(fs, i, 0) == 2 * i
    requires |data| == 2 * (i + 1) && (model.Some? ==> |model.value| == |data|)
    ensures PredictedValue(fs, data, model, i + 1, i, 0) == PredictedSample(data, model, i)
    ensures ValueAt(data, 2 * i, 2) == SampleAt(data, 2 * i)
  {
    PredictedIs(fs, data, model, i + 1, i, 0);
    hide LittleEndian, Place, RecSize, Whole, PredictedValue;
  }

  /** THE IMAGETTE STREAM. i + 1 samples take the bits of the first i, followed by the code of
      sample i under the model's sample there, or under sample i - 1, or under 0. */
  lemma {:induction false} ImagetteStream(fs: seq<Field>, data: seq<byte>, model: Option<seq<byte>>, i: nat)
    requires |fs| == 1 && ValidFields(fs) && fs[0].width == 2 && RecSize(fs) == 2
    requires |data| == 2 * (i + 1) && (model.Some? ==> |model.value| == |data|)
    ensures var v, u := SampleAt(data, 2 * i), PredictedSample(data, model, i);
      && ValidPars(fs[0].p) && fs[0].p.bits == 16 && InRange(v, fs[0].p) && InRange(u, fs[0].p)
      && EncFrom(fs, data, model, 0)
           == EncFrom(fs, data[..2 * i], FrontOf(model, 2 * i), 0) + CodeValue(fs[0].p, v, u)
  {
    hide *;
    SampleRecord(fs, data, model, i);
    StreamGrows(fs, data, model, i, 2 * i);
    ValidAt(fs, 0);
    Bits16(fs[0]);
    SampleInRange(SampleAt(data, 2 * i), fs[0].p);
    SampleInRange(PredictedSample(data, model, i), fs[0].p);
    SamplePredicted(fs, data, model, i);
    SampleCode(fs, data, model, i);
  }

  lemma {:induction false} Bits16(f: Field)
    requires ValidField(f) && f.width == 2
    ensures f.p.bits == 16
  {
  }

  lemma {:induction false} SampleCode(fs: seq<Field>, data: seq<byte>, model: Option<seq<byte>>, i: nat)
    requires |fs| == 1 && fs[0].width == 2 && Whole(fs, data, model, i + 1) && Place(fs, i, 0) == 2 * i && 2 * i + 2 <= |data|
    requires model.Some? ==> 2 * i + 2 <= |model.value|
    requires ValidPars(fs[0].p) && InRange(SampleAt(data, 2 * i), fs[0].p) && InRange(PredictedSample(data, model, i), fs[0].p)
    requires PredictedValue(fs, data, model, i + 1, i, 0) == PredictedSample(data, model, i)
    requires ValueAt(data, 2 * i, 2) == SampleAt(data, 2 * i)
    ensures FieldCode(fs, data, model, i + 1, i, 0) == CodeValue(fs[0].p, SampleAt(data, 2 * i), PredictedSample(data, model, i))
  {
    hide ValueAt, SampleAt, Place, PredictedValue, PredictedSample, CodeValue, Whole;
  }
}
