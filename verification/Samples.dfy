/** Whole sample buffers: the bits they compress to, the reference decoder and the
    model update. A sample is a packed record of CPU-endian (little-endian) fields;
    an imagette sample is a record with one field of two bytes. */
module Samples {
  import opened Bits
  import opened Bytes
  import opened Words
  import opened Golomb
  import opened Params
  import opened ValueCode
  import opened BitReader

  /** One field of a record: its width in bytes and how it is encoded. */
  datatype Field = Field(width: nat, p: CodePars)

  ghost predicate ValidField(f: Field)
  {
    1 <= f.width <= 4 && ValidPars(f.p) && f.p.bits == 8 * f.width
  }

  ghost predicate ValidFields(fs: seq<Field>)
  {
    forall i :: 0 <= i < |fs| ==> ValidField(fs[i])
  }

  /** The size of a record in bytes. */
  function RecSize(fs: seq<Field>): (n: nat)
  {
    if fs == [] then 0 else fs[0].width + RecSize(fs[1..])
  }

  /** Where field i of a record starts. */
  function FieldStart(fs: seq<Field>, i: nat): (off: nat)
    requires i <= |fs|
  {
    RecSize(fs[..i])
  }

  lemma {:induction false} FieldStartStep(fs: seq<Field>, i: nat)
    requires ValidFields(fs) && i < |fs|
    ensures FieldStart(fs, 0) == 0 && FieldStart(fs, i) + fs[i].width <= RecSize(fs) && 1 <= fs[i].width <= 4
    ensures i > 0 ==> ValidFields(fs[1..]) && FieldStart(fs, i) == fs[0].width + FieldStart(fs[1..], i - 1)
    decreases i
  {
    if i > 0 {
      assert fs[..i][1..] == fs[1..][..i - 1];
      FieldStartStep(fs[1..], i - 1);
    } else {
      assert fs[..0] == [];
    }
  }

  /** The little-endian number of w bytes at an offset. */
  function ValueAt(buf: seq<byte>, off: nat, w: nat): (v: nat)
    requires off + w <= |buf|
    ensures v < Pow2(8 * w)
  {
    LittleEndian(buf[off..off + w])
  }

  /** The 16-bit little-endian sample at a byte offset. */
  function SampleAt(data: seq<byte>, off: nat): (v: word32)
    requires off + 2 <= |data|
    ensures v < 0x1_0000
  {
    Pow2Values();
    LittleEndian(data[off..off + 2])
  }

  lemma {:induction false} SampleIsValue(data: seq<byte>, off: nat)
    requires off + 2 <= |data|
    ensures SampleAt(data, off) == ValueAt(data, off, 2)
  {
  }

  //// Records behind each other

  /** The bytes that n records of s bytes take. */
  function BytesOf(n: nat, s: nat): (b: nat)
  {
    MulNonneg(n, s);
    n * s
  }

  lemma {:induction false} SampleFits(i: nat, samples: nat, s: nat)
    requires i < samples
    ensures BytesOf(i, s) + s <= BytesOf(samples, s) && BytesOf(i + 1, s) == BytesOf(i, s) + s
    ensures i == samples - 1 ==> BytesOf(i, s) + s == BytesOf(samples, s)
    ensures BytesOf(0, s) == 0
  {
    MulMono(i + 1, samples, s);
  }

  lemma {:induction false} BytesStep(n: nat, s: nat)
    ensures BytesOf(n, s) == n * s && BytesOf(0, s) == 0
    ensures n > 0 ==> BytesOf(n, s) == BytesOf(n - 1, s) + s
  {
    if n > 0 { SampleFits(n - 1, n, s); }
  }

  //// Compression

  /** The value of a field at the front of a record. */
  function FieldAt(f: Field, rec: seq<byte>): (v: word32)
    requires 1 <= f.width <= 4 && f.width <= |rec|
    ensures v < Pow2(8 * f.width)
  {
    Pow2Mono(8 * f.width, 32);
    Pow2Values();
    LittleEndian(rec[..f.width])
  }

  lemma {:induction false} FieldInRange(f: Field, rec: seq<byte>)
    requires ValidField(f) && f.width <= |rec|
    ensures InRange(FieldAt(f, rec), f.p)
  {
    ShrLe(FieldAt(f, rec), f.p.round);
  }

  /** The bits of one field. */
  function EncField(f: Field, rec: seq<byte>, pred: seq<byte>): (b: seq<bool>)
    requires ValidField(f) && f.width <= |rec| && f.width <= |pred|
    ensures |b| >= 1
  {
    FieldInRange(f, rec);
    FieldInRange(f, pred);
    CodeValue(f.p, FieldAt(f, rec), FieldAt(f, pred))
  }

  /** The bits of one record under a prediction record. */
  function EncRec(fs: seq<Field>, rec: seq<byte>, pred: seq<byte>): (b: seq<bool>)
    requires ValidFields(fs) && RecSize(fs) <= |rec| && RecSize(fs) <= |pred|
    ensures fs != [] ==> |b| >= 1
  {
    if fs == [] then []
    else EncField(fs[0], rec, pred) + EncRec(fs[1..], rec[fs[0].width..], pred[fs[0].width..])
  }

  /** The prediction of the record at pos: the model there, or else the previous
      record, which for the first one is all zeros. */
  function Prediction(s: nat, data: seq<byte>, model: Option<seq<byte>>, pos: nat): (r: seq<byte>)
    ensures |r| == s
  {
    if model.Some? && pos + s <= |model.value| then model.value[pos..pos + s]
    else if model.None? && s <= pos <= |data| then data[pos - s..pos]
    else ZeroBytes(s)
  }

  /** The bits of all records from pos on. */
  function EncFrom(fs: seq<Field>, data: seq<byte>, model: Option<seq<byte>>, pos: nat): (b: seq<bool>)
    requires ValidFields(fs) && RecSize(fs) > 0
    decreases |data| - pos
  {
    var s := RecSize(fs);
    if pos + s > |data| then []
    else EncRec(fs, data[pos..pos + s], Prediction(s, data, model, pos)) + EncFrom(fs, data, model, pos + s)
  }

  //// Reference decoder

  /** Appends the fields of one record to acc; the second part is the unread rest. */
  function DecRec(fs: seq<Field>, pred: seq<byte>, acc: seq<byte>, b: seq<bool>): (r: Option<(seq<byte>, seq<bool>)>)
    requires ValidFields(fs) && RecSize(fs) <= |pred|
    ensures r.Some? ==> |r.value.0| == |acc| + RecSize(fs) && acc <= r.value.0
  {
    if fs == [] then Some((acc, b))
    else
      match ReadValue(fs[0].p, b, FieldAt(fs[0], pred))
      case None => None
      case Some((v, len)) =>
        DecRec(fs[1..], pred[fs[0].width..], acc + ToLittleEndian(v, fs[0].width), b[len..])
  }

  /** Appends records to acc until it has total bytes. */
  function DecFrom(fs: seq<Field>, total: nat, model: Option<seq<byte>>, acc: seq<byte>, b: seq<bool>)
    : (r: Option<(seq<byte>, seq<bool>)>)
    requires ValidFields(fs) && RecSize(fs) > 0
    ensures r.Some? ==> acc <= r.value.0
    decreases total - |acc|
  {
    var s := RecSize(fs);
    if |acc| + s > total then Some((acc, b))
    else
      match DecRec(fs, Prediction(s, acc, model, |acc|), acc, b)
      case None => None
      case Some((acc', b')) => DecFrom(fs, total, model, acc', b')
  }

  //// Lossy rounding of a whole buffer

  function RoundField(f: Field, rec: seq<byte>): (r: seq<byte>)
    requires 1 <= f.width <= 4 && f.width <= |rec|
    ensures |r| == f.width
  {
    ToLittleEndian(RoundValue(FieldAt(f, rec), f.p.round), f.width)
  }

  /** (x >> r) << r */
  function RoundValue(x: word32, r: nat): word32
  {
    Shl32(Shr(x, r), r)
  }

  function RoundRec(fs: seq<Field>, rec: seq<byte>): (r: seq<byte>)
    requires ValidFields(fs) && RecSize(fs) <= |rec|
    ensures |r| == RecSize(fs)
  {
    if fs == [] then [] else RoundField(fs[0], rec) + RoundRec(fs[1..], rec[fs[0].width..])
  }

  function RoundFrom(fs: seq<Field>, data: seq<byte>, pos: nat): (r: seq<byte>)
    requires ValidFields(fs) && RecSize(fs) > 0
    decreases |data| - pos
  {
    var s := RecSize(fs);
    if pos + s > |data| then [] else RoundRec(fs, data[pos..pos + s]) + RoundFrom(fs, data, pos + s)
  }

  //// Round trip

  lemma {:induction false} RoundValueIs(x: word32, r: nat)
    requires r <= 32
    ensures RoundValue(x, r) == Shr(x, r) * Pow2(r) <= x
    ensures Shr(RoundValue(x, r), r) == Shr(x, r)
  {
    DivModParts(x, Pow2(r));
    ShlExact(Shr(x, r), r);
    DivModUnique(Shr(x, r) * Pow2(r), Pow2(r), Shr(x, r), 0);
  }

  lemma {:induction false} RoundZero(x: word32)
    ensures RoundValue(x, 0) == x
  {
    assert Pow2(0) == 1;
    RoundValueIs(x, 0);
  }

  /** Rounding a field keeps what the prediction uses of it. */
  lemma {:induction false} RoundedField(f: Field, rec: seq<byte>)
    requires ValidField(f) && f.width <= |rec|
    ensures FieldAt(f, RoundField(f, rec)) == RoundValue(FieldAt(f, rec), f.p.round)
    ensures Rounded(FieldAt(f, RoundField(f, rec)), f.p) == Rounded(FieldAt(f, rec), f.p)
  {
    var x := FieldAt(f, rec);
    RoundValueIs(x, f.p.round);
    LittleEndianRoundTrip(RoundValue(x, f.p.round), f.width);
    assert RoundField(f, rec)[..f.width] == RoundField(f, rec);
  }

  /** Two prediction records that differ only in bits that rounding drops. */
  ghost predicate SameRounded(fs: seq<Field>, a: seq<byte>, b: seq<byte>)
    requires ValidFields(fs) && RecSize(fs) <= |a| && RecSize(fs) <= |b|
  {
    fs == [] ||
    (Rounded(FieldAt(fs[0], a), fs[0].p) == Rounded(FieldAt(fs[0], b), fs[0].p)
     && SameRounded(fs[1..], a[fs[0].width..], b[fs[0].width..]))
  }

  lemma {:induction false} SameRoundedRefl(fs: seq<Field>, a: seq<byte>)
    requires ValidFields(fs) && RecSize(fs) <= |a|
    ensures SameRounded(fs, a, a)
  {
    if fs != [] { SameRoundedRefl(fs[1..], a[fs[0].width..]); }
  }

  lemma {:induction false} SameRoundedRound(fs: seq<Field>, a: seq<byte>)
    requires ValidFields(fs) && RecSize(fs) <= |a|
    ensures SameRounded(fs, a, RoundRec(fs, a))
  {
    if fs != [] {
      var f, r := fs[0], RoundRec(fs, a);
      assert r[..f.width] == RoundField(f, a) && r[f.width..] == RoundRec(fs[1..], a[f.width..]);
      RoundedField(f, a);
      assert FieldAt(f, r) == FieldAt(f, RoundField(f, a)) by { assert RoundField(f, a)[..f.width] == r[..f.width]; }
      SameRoundedRound(fs[1..], a[f.width..]);
    }
  }

  /** One field is read back up to rounding. */
  lemma {:induction false} DecFieldInverts(f: Field, rec: seq<byte>, pred: seq<byte>, pred': seq<byte>, rest: seq<bool>)
    requires ValidField(f) && f.width <= |rec| && f.width <= |pred| && f.width <= |pred'|
    requires Rounded(FieldAt(f, pred), f.p) == Rounded(FieldAt(f, pred'), f.p)
    ensures ReadValue(f.p, EncField(f, rec, pred) + rest, FieldAt(f, pred'))
         == Some((RoundValue(FieldAt(f, rec), f.p.round), |EncField(f, rec, pred)|))
  {
    FieldInRange(f, rec);
    FieldInRange(f, pred);
    ReadValueInverts(f.p, FieldAt(f, rec), FieldAt(f, pred), FieldAt(f, pred'), rest);
  }

  lemma {:induction false} DecRecInverts(fs: seq<Field>, rec: seq<byte>, pred: seq<byte>, pred': seq<byte>,
    acc: seq<byte>, rest: seq<bool>)
    requires ValidFields(fs) && RecSize(fs) <= |rec| && RecSize(fs) <= |pred| && RecSize(fs) <= |pred'|
    requires SameRounded(fs, pred, pred')
    ensures DecRec(fs, pred', acc, EncRec(fs, rec, pred) + rest) == Some((acc + RoundRec(fs, rec), rest))
    decreases |fs|
  {
    hide *;
    if fs == [] {
      NoFields(rec, pred, pred', acc, rest);
      assert acc + [] == acc && [] + rest == rest;
    } else {
      var f, w := fs[0], fs[0].width;
      FieldsStep(fs);
      var tail := EncRec(fs[1..], rec[w..], pred[w..]);
      EncRecStep(fs, rec, pred);
      var b := EncField(f, rec, pred);
      SameRoundedStep(fs, pred, pred');
      DecFieldInverts(f, rec, pred, pred', tail + rest);
      Assoc(b, tail, rest);
      DropFront(b, tail + rest);
      RoundFieldIs(f, rec);
      DecRecStep(fs, pred', acc, b + (tail + rest), RoundValue(FieldAt(f, rec), f.p.round), |b|);
      DecRecInverts(fs[1..], rec[w..], pred[w..], pred'[w..], acc + RoundField(f, rec), rest);
      RoundRecStep(fs, rec);
      Assoc(acc, RoundField(f, rec), RoundRec(fs[1..], rec[w..]));
    }
  }

  lemma {:induction false} RoundFieldIs(f: Field, rec: seq<byte>)
    requires 1 <= f.width <= 4 && f.width <= |rec|
    ensures RoundField(f, rec) == ToLittleEndian(RoundValue(FieldAt(f, rec), f.p.round), f.width)
  {
  }

  //// One step of each recursion

  lemma {:induction false} FieldsStep(fs: seq<Field>)
    requires ValidFields(fs) && fs != []
    ensures ValidField(fs[0]) && ValidFields(fs[1..]) && 1 <= fs[0].width <= 4
    ensures RecSize(fs) == fs[0].width + RecSize(fs[1..])
  {
  }

  lemma {:induction false} NoFields(rec: seq<byte>, pred: seq<byte>, pred': seq<byte>, acc: seq<byte>, b: seq<bool>)
    ensures ValidFields([]) && RecSize([]) == 0
    ensures EncRec([], rec, pred) == [] && RoundRec([], rec) == [] && DecRec([], pred', acc, b) == Some((acc, b))
  {
  }

  lemma {:induction false} EncRecStep(fs: seq<Field>, rec: seq<byte>, pred: seq<byte>)
    requires ValidFields(fs) && RecSize(fs) <= |rec| && RecSize(fs) <= |pred| && fs != []
    requires ValidField(fs[0]) && ValidFields(fs[1..]) && RecSize(fs) == fs[0].width + RecSize(fs[1..])
    ensures EncRec(fs, rec, pred)
      == EncField(fs[0], rec, pred) + EncRec(fs[1..], rec[fs[0].width..], pred[fs[0].width..])
  {
    hide EncField, ValidField, ValidFields, RecSize;
  }

  lemma {:induction false} RoundRecStep(fs: seq<Field>, rec: seq<byte>)
    requires ValidFields(fs) && RecSize(fs) <= |rec| && fs != []
    requires ValidField(fs[0]) && ValidFields(fs[1..]) && RecSize(fs) == fs[0].width + RecSize(fs[1..])
    requires 1 <= fs[0].width <= 4
    ensures RoundRec(fs, rec) == RoundField(fs[0], rec) + RoundRec(fs[1..], rec[fs[0].width..])
  {
    hide RoundField, ValidField, ValidFields, RecSize;
  }

  lemma {:induction false} DecRecStep(fs: seq<Field>, pred: seq<byte>, acc: seq<byte>, b: seq<bool>, v: word32, len: nat)
    requires ValidFields(fs) && RecSize(fs) <= |pred| && fs != []
    requires ValidField(fs[0]) && ValidFields(fs[1..]) && RecSize(fs) == fs[0].width + RecSize(fs[1..])
    requires 1 <= fs[0].width <= 4
    requires ReadValue(fs[0].p, b, FieldAt(fs[0], pred)) == Some((v, len))
    ensures len <= |b|
    ensures DecRec(fs, pred, acc, b)
      == DecRec(fs[1..], pred[fs[0].width..], acc + ToLittleEndian(v, fs[0].width), b[len..])
  {
    hide ReadValue, FieldAt, ValidFields, RecSize, ToLittleEndian;
  }

  lemma {:induction false} SameRoundedStep(fs: seq<Field>, a: seq<byte>, b: seq<byte>)
    requires ValidFields(fs) && RecSize(fs) <= |a| && RecSize(fs) <= |b| && SameRounded(fs, a, b) && fs != []
    ensures ValidField(fs[0]) && ValidFields(fs[1..])
    ensures Rounded(FieldAt(fs[0], a), fs[0].p) == Rounded(FieldAt(fs[0], b), fs[0].p)
    ensures SameRounded(fs[1..], a[fs[0].width..], b[fs[0].width..])
  {
  }

  /** The reference decoder returns the rounded samples of any buffer and stops exactly
      behind the written bits, whatever follows; also in 1-D differencing, where it
      predicts from rounded samples and the compressor from the original ones. */
  lemma {:induction false} DecFromInverts(fs: seq<Field>, data: seq<byte>, model: Option<seq<byte>>,
    pos: nat, acc: seq<byte>, rest: seq<bool>)
    requires ValidFields(fs) && RecSize(fs) > 0
    requires |acc| == pos <= |data|
    requires pos >= RecSize(fs) && model.None? ==> 
      acc[pos - RecSize(fs)..] == RoundRec(fs, data[pos - RecSize(fs)..pos])
    ensures DecFrom(fs, |data|, model, acc, EncFrom(fs, data, model, pos) + rest)
         == Some((acc + RoundFrom(fs, data, pos), rest))
    decreases |data| - pos
  {
    hide *;
    var s := RecSize(fs);
    if pos + s > |data| {
      NoSamples(fs, data, model, pos, acc, rest);
      assert acc + [] == acc && [] + rest == rest;
    } else {
      var rec := data[pos..pos + s];
      var pred, pred' := Prediction(s, data, model, pos), Prediction(s, acc, model, pos);
      SamePrediction(fs, data, model, pos, acc);
      var b, tail := EncRec(fs, rec, pred), EncFrom(fs, data, model, pos + s);
      var r, more := RoundRec(fs, rec), RoundFrom(fs, data, pos + s);
      SamplesStep(fs, data, model, pos);
      Assoc(b, tail, rest);
      DecRecInverts(fs, rec, pred, pred', acc, tail + rest);
      DecFromStep(fs, |data|, model, acc, b + (tail + rest), acc + r, tail + rest);
      DropFront(acc, r);
      DecFromInverts(fs, data, model, pos + s, acc + r, rest);
      Assoc(acc, r, more);
    }
  }

  lemma {:induction false} NoSamples(fs: seq<Field>, data: seq<byte>, model: Option<seq<byte>>, pos: nat, acc: seq<byte>, b: seq<bool>)
    requires ValidFields(fs) && RecSize(fs) > 0 && |acc| == pos && pos + RecSize(fs) > |data|
    ensures EncFrom(fs, data, model, pos) == [] && RoundFrom(fs, data, pos) == []
    ensures DecFrom(fs, |data|, model, acc, b) == Some((acc, b))
  {
  }

  lemma {:induction false} SamplesStep(fs: seq<Field>, data: seq<byte>, model: Option<seq<byte>>, pos: nat)
    requires ValidFields(fs) && RecSize(fs) > 0 && pos + RecSize(fs) <= |data|
    ensures EncFrom(fs, data, model, pos)
      == EncRec(fs, data[pos..pos + RecSize(fs)], Prediction(RecSize(fs), data, model, pos))
       + EncFrom(fs, data, model, pos + RecSize(fs))
    ensures RoundFrom(fs, data, pos)
      == RoundRec(fs, data[pos..pos + RecSize(fs)]) + RoundFrom(fs, data, pos + RecSize(fs))
  {
    hide EncRec, RoundRec, RecSize, Prediction, ValidFields;
  }

  lemma {:induction false} DecFromStep(fs: seq<Field>, total: nat, model: Option<seq<byte>>, acc: seq<byte>, b: seq<bool>,
    acc': seq<byte>, b': seq<bool>)
    requires ValidFields(fs) && RecSize(fs) > 0 && |acc| + RecSize(fs) <= total
    requires DecRec(fs, Prediction(RecSize(fs), acc, model, |acc|), acc, b) == Some((acc', b'))
    ensures DecFrom(fs, total, model, acc, b) == DecFrom(fs, total, model, acc', b')
  {
    hide DecRec, RecSize, Prediction, ValidFields;
  }

  /** Both sides predict the same, up to what rounding drops. */
  lemma {:induction false} SamePrediction(fs: seq<Field>, data: seq<byte>, model: Option<seq<byte>>, pos: nat, acc: seq<byte>)
    requires ValidFields(fs) && RecSize(fs) > 0
    requires |acc| == pos <= |data|
    requires pos >= RecSize(fs) && model.None? ==>
      acc[pos - RecSize(fs)..] == RoundRec(fs, data[pos - RecSize(fs)..pos])
    ensures SameRounded(fs, Prediction(RecSize(fs), data, model, pos), Prediction(RecSize(fs), acc, model, pos))
  {
    var pred := Prediction(RecSize(fs), data, model, pos);
    if pos >= RecSize(fs) && model.None? {
      SameRoundedRound(fs, pred);
      assert acc[pos - RecSize(fs)..pos] == acc[pos - RecSize(fs)..];
    } else {
      SameRoundedRefl(fs, pred);
    }
  }

  //// Lossless buffers

  ghost predicate Lossless(fs: seq<Field>)
  {
    forall i :: 0 <= i < |fs| ==> fs[i].p.round == 0
  }

  lemma {:induction false} RoundFieldLossless(f: Field, rec: seq<byte>)
    requires ValidField(f) && f.p.round == 0 && f.width <= |rec|
    ensures RoundField(f, rec) == rec[..f.width]
  {
    RoundZero(FieldAt(f, rec));
    ToLittleEndianValue(rec[..f.width]);
  }

  lemma {:induction false} RoundRecLossless(fs: seq<Field>, rec: seq<byte>)
    requires ValidFields(fs) && Lossless(fs) && RecSize(fs) == |rec|
    ensures RoundRec(fs, rec) == rec
  {
    hide *;
    if fs == [] {
      NoFields(rec, rec, rec, rec, []);
    } else {
      var f := fs[0];
      LosslessStep(fs);
      FieldsStep(fs);
      RoundRecStep(fs, rec);
      RoundFieldLossless(f, rec);
      RoundRecLossless(fs[1..], rec[f.width..]);
      assert rec == rec[..f.width] + rec[f.width..];
    }
  }

  lemma {:induction false} LosslessStep(fs: seq<Field>)
    requires Lossless(fs) && fs != []
    ensures fs[0].p.round == 0 && Lossless(fs[1..])
  {
  }

  /** n whole records are left from pos on. */
  lemma {:induction false} RoundFromLossless(fs: seq<Field>, data: seq<byte>, pos: nat, n: nat)
    requires ValidFields(fs) && Lossless(fs) && RecSize(fs) > 0 && pos <= |data| && pos + n * RecSize(fs) == |data|
    ensures RoundFrom(fs, data, pos) == data[pos..]
    decreases n
  {
    hide *;
    var s := RecSize(fs);
    if n == 0 {
      NoSamples(fs, data, None, pos, data[..pos], []);
    } else {
      TimesStep(n, s);
      SamplesStep(fs, data, None, pos);
      RoundRecLossless(fs, data[pos..pos + s]);
      RoundFromLossless(fs, data, pos + s, n - 1);
      assert data[pos..] == data[pos..pos + s] + data[pos + s..];
    }
  }

  lemma {:induction false} TimesStep(n: nat, s: nat)
    requires n > 0
    ensures n * s == (n - 1) * s + s && 0 <= (n - 1) * s
  {
    MulNonneg(n - 1, s);
  }

  /** Without lossy rounding the samples themselves come back. */
  lemma {:induction false} DecFromLossless(fs: seq<Field>, data: seq<byte>, model: Option<seq<byte>>, n: nat, rest: seq<bool>)
    requires ValidFields(fs) && Lossless(fs) && RecSize(fs) > 0 && |data| == n * RecSize(fs)
    ensures DecFrom(fs, |data|, model, [], EncFrom(fs, data, model, 0) + rest) == Some((data, rest))
  {
    hide *;
    DecFromInverts(fs, data, model, 0, [], rest);
    RoundFromLossless(fs, data, 0, n);
    assert data[0..] == data && [] + data == data;
  }
}
