/** The sample loop of the compressor: compress_imagette and the record variants,
    which are this loop over different field lists. */
module CompressLoop {
  import opened Bits
  import opened Bytes
  import opened Words
  import opened Golomb
  import opened Params
  import opened ZigZag
  import opened ValueCode
  import opened Errors
  import opened BitReader
  import opened BitWriter
  import opened ValueEncoder
  import opened Samples
  import opened UpModel

  //// Length bounds

  lemma {:induction false} CodeMappedLength(p: CodePars, u: word32)
    requires ValidPars(p) && u < Pow2(p.bits)
    ensures |CodeMapped(p, u)| <= 64
  {
    hide GolombCode, ToBits, CmpIcuMaxSpill, EscapeOffset, ILog2, Pow2;
    match p.escape {
      case ZeroEscape =>
        SymbolsAreShort(p, if u + 1 < p.spill then u + 1 else 0);
      case MultiEscape =>
        if u < p.spill {
          SymbolsAreShort(p, u);
        } else {
          EscapeFits(u - p.spill, p.bits);
          SymbolsAreShort(p, p.spill + EscapeOffset(u - p.spill));
        }
    }
  }

  lemma {:induction false} EncFieldLength(f: Field, rec: seq<byte>, pred: seq<byte>)
    requires ValidField(f) && f.width <= |rec| && f.width <= |pred|
    ensures |EncField(f, rec, pred)| <= 64
  {
    FieldInRange(f, rec);
    FieldInRange(f, pred);
    hide CodeMapped, Mapped, FieldAt, ValidPars;
    Pow2Mono(f.p.bits, 32);
    Pow2Values();
    hide Pow2;
    CodeMappedLength(f.p, Mapped(Rounded(FieldAt(f, rec), f.p), Rounded(FieldAt(f, pred), f.p), f.p.bits));
  }

  lemma {:induction false} EncRecLength(fs: seq<Field>, rec: seq<byte>, pred: seq<byte>)
    requires ValidFields(fs) && RecSize(fs) <= |rec| && RecSize(fs) <= |pred|
    ensures |EncRec(fs, rec, pred)| <= 64 * RecSize(fs)
  {
    if fs != [] {
      var w := fs[0].width;
      FieldsStep(fs);
      EncRecStep(fs, rec, pred);
      EncFieldLength(fs[0], rec, pred);
      EncRecLength(fs[1..], rec[w..], pred[w..]);
      hide *;
    }
  }

  lemma {:induction false} EncFromLength(fs: seq<Field>, data: seq<byte>, model: Option<seq<byte>>, pos: nat)
    requires ValidFields(fs) && RecSize(fs) > 0 && pos <= |data|
    ensures |EncFrom(fs, data, model, pos)| <= 64 * (|data| - pos)
    decreases |data| - pos
  {
    hide *;
    var s := RecSize(fs);
    if pos + s > |data| {
      NoSamples(fs, data, model, pos, data[..pos], []);
    } else {
      SamplesStep(fs, data, model, pos);
      EncRecLength(fs, data[pos..pos + s], Prediction(s, data, model, pos));
      EncFromLength(fs, data, model, pos + s);
    }
  }

  //// One record

  /** What was emitted by a possibly empty series of writes. */
  ghost predicate Progress(dst: array?<byte>, max: nat, before: seq<byte>, after: seq<byte>, start: nat, bits: seq<bool>,
    r: Outcome<nat>)
  {
    if bits == [] then after == before && r == Ok(start) else Emitted(dst, max, before, after, start, bits, r)
  }

  lemma {:induction false} ProgressThen(dst: array?<byte>, max: nat, m0: seq<byte>, m1: seq<byte>, m2: seq<byte>,
    start: nat, a: seq<bool>, b: seq<bool>, mid: nat, r: Outcome<nat>)
    requires Progress(dst, max, m0, m1, start, a, Ok(mid)) && b != []
    requires Emitted(dst, max, m1, m2, mid, b, r)
    ensures mid == start + |a| && Progress(dst, max, m0, m2, start, a + b, r)
  {
    if a == [] {
      assert a + b == b;
    } else {
      EmittedThen(dst, max, m0, m1, m2, start, a, b, r);
    }
  }

  /** A failure in the middle is a failure of the whole. */
  lemma {:induction false} ProgressFails(dst: array?<byte>, max: nat, m0: seq<byte>, m1: seq<byte>, start: nat,
    a: seq<bool>, all: seq<bool>, rest: seq<bool>, e: CmpError)
    requires Progress(dst, max, m0, m1, start, a, Err(e)) && all == a + rest
    ensures Progress(dst, max, m0, m1, start, all, Err(e))
  {
  }

  /** The setups of all fields, configured before the loop. */
  function Setups(fs: seq<Field>, dst: array?<byte>, streamSize: nat): (s: seq<EncoderSetup>)
    ensures |s| == |fs|
    ensures forall j :: 0 <= j < |fs| ==> s[j] == ConfigureEncoder(fs[j].p, dst, streamSize)
  {
    seq(|fs|, j requires 0 <= j < |fs| => ConfigureEncoder(fs[j].p, dst, streamSize))
  }

  /** Encodes one field. */
  method EncodeField(f: Field, rec: seq<byte>, pred: seq<byte>, streamLen: nat, s: EncoderSetup, ghost streamSize: nat)
    returns (r: Outcome<nat>)
    requires ValidField(f) && f.width <= |rec| && f.width <= |pred| && streamLen + 64 < W32
    requires s == ConfigureEncoder(f.p, s.dst, streamSize) && (s.dst != null ==> streamSize <= s.dst.Length)
    modifies s.dst
    ensures Emitted(s.dst, StreamSizeToBits(streamSize), old(MemOf(s.dst)), MemOf(s.dst), streamLen, EncField(f, rec, pred), r)
  {
    hide ValidPars, Emitted, CodeValue, FieldAt, ILog2, IsAPowOf2, InRange;
    ConfigureEncoderValid(f.p, s.dst, streamSize);
    FieldInRange(f, rec);
    FieldInRange(f, pred);
    assert s.p == f.p && s.maxStreamLen == StreamSizeToBits(streamSize);
    r := EncodeValue(FieldAt(f, rec), FieldAt(f, pred), streamLen, s);
  }

  /** Encodes the fields of one record. */
  method EncodeRecord(fs: seq<Field>, setups: seq<EncoderSetup>, rec: seq<byte>, pred: seq<byte>, streamLen: nat,
    dst: array?<byte>, streamSize: nat) returns (r: Outcome<nat>)
    requires ValidFields(fs) && fs != [] && RecSize(fs) == |rec| == |pred| && streamLen + 64 * |rec| < W32
    requires setups == Setups(fs, dst, streamSize) && (dst != null ==> streamSize <= dst.Length)
    modifies dst
    ensures Emitted(dst, StreamSizeToBits(streamSize), old(MemOf(dst)), MemOf(dst), streamLen, EncRec(fs, rec, pred), r)
  {
    hide Emitted, Progress, EncRec, EncField, RecSize, ValidFields, StreamSizeToBits, ConfigureEncoder, Setups, MemOf;
    ghost var max := StreamSizeToBits(streamSize);
    ghost var mem, all := MemOf(dst), EncRec(fs, rec, pred);
    ghost var bits: seq<bool> := [];
    var j, off := 0, 0;
    StartProgress(dst, max, mem, streamLen, all);
    assert fs[0..] == fs && rec[0..] == rec && pred[0..] == pred;
    r := Ok(streamLen);
    while j < |fs|
      invariant 0 <= j <= |fs| && 0 <= off <= |rec|
      invariant ValidFields(fs[j..]) && RecSize(fs[j..]) == |rec| - off
      invariant r.Ok? && r.value + 64 * (|rec| - off) < W32
      invariant Progress(dst, max, mem, MemOf(dst), streamLen, bits, r)
      invariant bits + EncRec(fs[j..], rec[off..], pred[off..]) == all
      decreases |fs| - j
    {
      var f := fs[j];
      FieldsTail(fs, j);
      ghost var rest := EncRec(fs[j + 1..], rec[off..][f.width..], pred[off..][f.width..]);
      EncRecStep(fs[j..], rec[off..], pred[off..]);
      EncFieldLength(f, rec[off..], pred[off..]);
      ghost var b := EncField(f, rec[off..], pred[off..]);
      Assoc(bits, b, rest);
      ghost var mem1 := MemOf(dst);
      ghost var mid := r.value;
      SameDst(setups, fs, dst, streamSize, j);
      r := EncodeField(f, rec[off..], pred[off..], r.value, setups[j], streamSize);
      ProgressThen(dst, max, mem, mem1, MemOf(dst), streamLen, bits, b, mid, r);
      bits := bits + b;
      if r.Err? {
        ProgressFails(dst, max, mem, MemOf(dst), streamLen, bits, all, rest, r.error);
        break;
      }
      ProgressLength(dst, max, mem, MemOf(dst), streamLen, bits, r);
      assert rec[off..][f.width..] == rec[off + f.width..] && pred[off..][f.width..] == pred[off + f.width..];
      j, off := j + 1, off + f.width;
    }
    if r.Ok? {
      NoFields(rec[off..], pred[off..], pred, [], []);
      assert fs[j..] == [] && bits + [] == bits;
    }
    ProgressEmitted(dst, max, mem, MemOf(dst), streamLen, all, r);
  }

  lemma {:induction false} StartProgress(dst: array?<byte>, max: nat, mem: seq<byte>, start: nat, all: seq<bool>)
    ensures Progress(dst, max, mem, mem, start, [], Ok(start)) && [] + all == all
  {
  }

  lemma {:induction false} ProgressLength(dst: array?<byte>, max: nat, m0: seq<byte>, m1: seq<byte>, start: nat,
    bits: seq<bool>, r: Outcome<nat>)
    requires Progress(dst, max, m0, m1, start, bits, r) && r.Ok?
    ensures r.value == start + |bits|
  {
  }

  lemma {:induction false} FieldsTail(fs: seq<Field>, j: nat)
    requires j < |fs| && ValidFields(fs[j..])
    ensures fs[j..] != [] && fs[j..][0] == fs[j] && fs[j..][1..] == fs[j + 1..]
    ensures ValidField(fs[j]) && ValidFields(fs[j + 1..]) && 1 <= fs[j].width <= 4
    ensures RecSize(fs[j..]) == fs[j].width + RecSize(fs[j + 1..])
  {
    FieldsStep(fs[j..]);
  }

  lemma {:induction false} SameDst(setups: seq<EncoderSetup>, fs: seq<Field>, dst: array?<byte>, streamSize: nat, j: nat)
    requires setups == Setups(fs, dst, streamSize) && j < |fs|
    ensures setups[j] == ConfigureEncoder(fs[j].p, setups[j].dst, streamSize) && setups[j].dst == dst
  {
  }

  //// The updated model

  lemma {:induction false} UpRecNone(rec: seq<byte>, model: seq<byte>, mv: nat)
    requires mv <= MAX_MODEL_VALUE
    ensures ValidFields([]) && RecSize([]) == 0 && UpRec([], rec, model, mv) == []
  {
  }

  /** Stores the updated model of one record. */
  method UpdateRecord(fs: seq<Field>, rec: seq<byte>, model: seq<byte>, mv: nat, up: array<byte>, at: nat)
    requires ValidFields(fs) && RecSize(fs) == |rec| == |model| && mv <= MAX_MODEL_VALUE && at + |rec| <= up.Length
    modifies up
    ensures up[..] == Splice(old(up[..]), at, UpRec(fs, rec, model, mv))
  {
    hide UpRec, UpField, RecSize, ValidFields, Splice;
    ghost var mem := up[..];
    ghost var done: seq<byte> := [];
    var j, off := 0, 0;
    SpliceNothing(mem, at);
    assert fs[0..] == fs && rec[0..] == rec && model[0..] == model;
    assert [] + UpRec(fs, rec, model, mv) == UpRec(fs, rec, model, mv);
    while j < |fs|
      invariant 0 <= j <= |fs| && off == |done| <= |rec|
      invariant ValidFields(fs[j..]) && RecSize(fs[j..]) == |rec| - off
      invariant up[..] == Splice(mem, at, done)
      invariant done + UpRec(fs[j..], rec[off..], model[off..], mv) == UpRec(fs, rec, model, mv)
      decreases |fs| - j
    {
      var f := fs[j];
      FieldsTail(fs, j);
      UpRecStep(fs[j..], rec[off..], model[off..], mv);
      var u := UpField(f, rec[off..], model[off..], mv);
      CopyBytes(up, at + off, u);
      SpliceThen(mem, at, done, u);
      Assoc(done, u, UpRec(fs[j + 1..], rec[off..][f.width..], model[off..][f.width..], mv));
      assert rec[off..][f.width..] == rec[off + f.width..] && model[off..][f.width..] == model[off + f.width..];
      done := done + u;
      j, off := j + 1, off + f.width;
    }
    assert fs[j..] == [];
    UpRecNone(rec[off..], model[off..], mv);
    assert done + [] == done;
  }

  //// The loop over the samples

  /** The model that predicts a buffer: in the model modes the bytes of the model buffer. */
  function ModelOf(useModel: bool, model: array?<byte>, at: nat, n: nat): (m: Option<seq<byte>>)
    requires useModel ==> model != null && at + n <= model.Length
    reads model
  {
    if useModel then Some(model[at..at + n]) else None
  }

  lemma {:induction false} ModelOfIs(useModel: bool, model: array?<byte>, at: nat, n: nat)
    requires useModel ==> model != null && at + n <= model.Length
    ensures ModelOf(useModel, model, at, n) == if useModel then Some(model[at..at + n]) else None
  {
  }

  /** Bytes outside lo..hi are the same. */
  ghost predicate KeepsOutside(before: seq<byte>, after: seq<byte>, lo: nat, hi: nat)
  {
    |after| == |before| && lo <= hi <= |before| && after[..lo] == before[..lo] && after[hi..] == before[hi..]
  }

  lemma {:induction false} SpliceKeeps(mem: seq<byte>, at: nat, s: seq<byte>, hi: nat)
    requires at + |s| <= hi <= |mem|
    ensures KeepsOutside(mem, Splice(mem, at, s), at, hi)
  {
  }

  lemma {:induction false} ModelPrediction(s: nat, src: seq<byte>, model: seq<byte>, pos: nat)
    requires pos + s <= |src| == |model|
    ensures Prediction(s, src, Some(model), pos) == model[pos..pos + s]
  {
  }

  /** One pass of the sample loop that updates the model, possibly in place: the part of
      the model that is still to be read stays as it was. */
  method UpdateSample(fs: seq<Field>, rec: seq<byte>, pred: seq<byte>, mv: nat, model: array<byte>, up: array<byte>,
    at: nat, ghost end: nat)
    requires ValidFields(fs) && RecSize(fs) == |rec| == |pred| && mv <= MAX_MODEL_VALUE
    requires at + |rec| <= end <= up.Length && end <= model.Length
    modifies up
    ensures up[..] == Splice(old(up[..]), at, UpRec(fs, rec, pred, mv))
    ensures model[at + |rec|..end] == old(model[at + |rec|..end])
  {
    hide UpRec, RecSize, ValidFields, Splice;
    ghost var mem := model[..];
    UpdateRecord(fs, rec, pred, mv, up, at);
    if up == model { SpliceAfter(mem, at, UpRec(fs, rec, pred, mv), at + |rec|, end); }
    assert model[at + |rec|..end] == model[..][at + |rec|..end];
    assert mem[at + |rec|..end] == old(model[at + |rec|..end]);
  }

  //// How far the loop has come

  /** All records before pos are encoded. */
  ghost predicate EncState(fs: seq<Field>, src: seq<byte>, model: Option<seq<byte>>, pos: nat,
    dst: array?<byte>, max: nat, before: seq<byte>, now: seq<byte>, start: nat, bits: seq<bool>, r: Outcome<nat>)
    requires ValidFields(fs) && RecSize(fs) > 0
  {
    Progress(dst, max, before, now, start, bits, r)
    && bits + EncFrom(fs, src, model, pos) == EncFrom(fs, src, model, 0)
  }

  lemma {:induction false} EncStart(fs: seq<Field>, src: seq<byte>, model: Option<seq<byte>>,
    dst: array?<byte>, max: nat, mem: seq<byte>, start: nat)
    requires ValidFields(fs) && RecSize(fs) > 0
    ensures EncState(fs, src, model, 0, dst, max, mem, mem, start, [], Ok(start))
  {
    hide EncFrom;
  }

  /** One more record; a failure is a failure of the whole loop. */
  lemma {:induction false} EncStep(fs: seq<Field>, src: seq<byte>, model: Option<seq<byte>>, pos: nat, dst: array?<byte>,
    max: nat, m0: seq<byte>, m1: seq<byte>, m2: seq<byte>, start: nat, bits: seq<bool>, mid: nat, b: seq<bool>, r: Outcome<nat>)
    requires ValidFields(fs) && fs != [] && RecSize(fs) > 0 && pos + RecSize(fs) <= |src|
    requires EncState(fs, src, model, pos, dst, max, m0, m1, start, bits, Ok(mid))
    requires b == EncRec(fs, src[pos..pos + RecSize(fs)], Prediction(RecSize(fs), src, model, pos))
    requires Emitted(dst, max, m1, m2, mid, b, r)
    ensures r.Ok? ==> r.value == mid + |b| && EncState(fs, src, model, pos + RecSize(fs), dst, max, m0, m2, start, bits + b, r)
    ensures r.Err? ==> Emitted(dst, max, m0, m2, start, EncFrom(fs, src, model, 0), r)
  {
    hide *;
    var next := pos + RecSize(fs);
    var rest, all := EncFrom(fs, src, model, next), EncFrom(fs, src, model, 0);
    EncRecNonEmpty(fs, src[pos..next], Prediction(RecSize(fs), src, model, pos));
    SamplesStep(fs, src, model, pos);
    EncStateParts(fs, src, model, pos, dst, max, m0, m1, start, bits, Ok(mid));
    Assoc(bits, b, rest);
    ProgressThen(dst, max, m0, m1, m2, start, bits, b, mid, r);
    if r.Err? {
      ProgressFails(dst, max, m0, m2, start, bits + b, all, rest, r.error);
      ProgressEmitted(dst, max, m0, m2, start, all, r);
    } else {
      ProgressLength(dst, max, m0, m2, start, bits + b, r);
      EncStateOf(fs, src, model, next, dst, max, m0, m2, start, bits + b, r);
    }
  }

  lemma {:induction false} EncRecNonEmpty(fs: seq<Field>, rec: seq<byte>, pred: seq<byte>)
    requires ValidFields(fs) && fs != [] && RecSize(fs) <= |rec| && RecSize(fs) <= |pred|
    ensures |EncRec(fs, rec, pred)| >= 1
  {
  }

  lemma {:induction false} EncStateParts(fs: seq<Field>, src: seq<byte>, model: Option<seq<byte>>, pos: nat,
    dst: array?<byte>, max: nat, before: seq<byte>, now: seq<byte>, start: nat, bits: seq<bool>, r: Outcome<nat>)
    requires ValidFields(fs) && RecSize(fs) > 0 && EncState(fs, src, model, pos, dst, max, before, now, start, bits, r)
    ensures Progress(dst, max, before, now, start, bits, r)
    ensures bits + EncFrom(fs, src, model, pos) == EncFrom(fs, src, model, 0)
  {
  }

  lemma {:induction false} EncStateOf(fs: seq<Field>, src: seq<byte>, model: Option<seq<byte>>, pos: nat,
    dst: array?<byte>, max: nat, before: seq<byte>, now: seq<byte>, start: nat, bits: seq<bool>, r: Outcome<nat>)
    requires ValidFields(fs) && RecSize(fs) > 0 && Progress(dst, max, before, now, start, bits, r)
    requires bits + EncFrom(fs, src, model, pos) == EncFrom(fs, src, model, 0)
    ensures EncState(fs, src, model, pos, dst, max, before, now, start, bits, r)
  {
  }

  lemma {:induction false} ProgressEmitted(dst: array?<byte>, max: nat, m0: seq<byte>, m1: seq<byte>, start: nat,
    bits: seq<bool>, r: Outcome<nat>)
    requires Progress(dst, max, m0, m1, start, bits, r) && bits != []
    ensures Emitted(dst, max, m0, m1, start, bits, r)
  {
  }

  lemma {:induction false} EncEnd(fs: seq<Field>, src: seq<byte>, model: Option<seq<byte>>, pos: nat,
    dst: array?<byte>, max: nat, m0: seq<byte>, m1: seq<byte>, start: nat, bits: seq<bool>, r: Outcome<nat>)
    requires ValidFields(fs) && RecSize(fs) > 0 && pos == |src| && bits != []
    requires EncState(fs, src, model, pos, dst, max, m0, m1, start, bits, r)
    ensures Emitted(dst, max, m0, m1, start, EncFrom(fs, src, model, 0), r)
  {
    NoSamples(fs, src, model, pos, src, []);
    assert bits + [] == bits;
  }

  /** The model of all records before pos is updated, if there is a buffer for it. */
  ghost predicate UpState(fs: seq<Field>, src: seq<byte>, model: Option<seq<byte>>, hasUp: bool, mv: nat, pos: nat, at: nat,
    before: seq<byte>, now: seq<byte>, done: seq<byte>)
    requires ValidFields(fs) && RecSize(fs) > 0 && (model.Some? ==> |model.value| == |src| && mv <= MAX_MODEL_VALUE)
  {
    if model.None? || !hasUp then now == before
    else
      && |done| == pos && at + pos <= |before| && now == Splice(before, at, done)
      && done + UpFrom(fs, src, model.value, mv, pos) == UpFrom(fs, src, model.value, mv, 0)
  }

  lemma {:induction false} UpStart(fs: seq<Field>, src: seq<byte>, model: Option<seq<byte>>, hasUp: bool, mv: nat, at: nat,
    mem: seq<byte>)
    requires ValidFields(fs) && RecSize(fs) > 0 && (model.Some? ==> |model.value| == |src| && mv <= MAX_MODEL_VALUE)
    requires model.Some? && hasUp ==> at <= |mem|
    ensures UpState(fs, src, model, hasUp, mv, 0, at, mem, mem, [])
  {
    hide UpFrom, Splice;
    if model.Some? && hasUp { SpliceNothing(mem, at); }
  }

  /** The update of one record, or none when there is no model or no buffer. */
  ghost predicate Spliced(does: bool, before: seq<byte>, after: seq<byte>, at: nat, u: seq<byte>)
  {
    if does then at + |u| <= |before| && after == Splice(before, at, u) else after == before
  }

  lemma {:induction false} UpStep(fs: seq<Field>, src: seq<byte>, model: Option<seq<byte>>, hasUp: bool, mv: nat, pos: nat,
    at: nat, m0: seq<byte>, m1: seq<byte>, m2: seq<byte>, done: seq<byte>, u: seq<byte>)
    requires ValidFields(fs) && RecSize(fs) > 0 && (model.Some? ==> |model.value| == |src| && mv <= MAX_MODEL_VALUE)
    requires pos + RecSize(fs) <= |src|
    requires model.Some? && hasUp ==> at + |src| <= |m0|
    requires UpState(fs, src, model, hasUp, mv, pos, at, m0, m1, done)
    requires model.Some? ==> u == UpRec(fs, src[pos..pos + RecSize(fs)], model.value[pos..pos + RecSize(fs)], mv)
    requires Spliced(model.Some? && hasUp, m1, m2, at + pos, u)
    ensures UpState(fs, src, model, hasUp, mv, pos + RecSize(fs), at, m0, m2, done + u)
  {
    hide UpFrom, UpRec, Splice, RecSize, ValidFields;
    if model.Some? && hasUp {
      UpFromStep(fs, src, model.value, mv, pos);
      SpliceThen(m0, at, done, u);
      Assoc(done, u, UpFrom(fs, src, model.value, mv, pos + RecSize(fs)));
    }
  }

  lemma {:induction false} UpEnd(fs: seq<Field>, src: seq<byte>, model: Option<seq<byte>>, hasUp: bool, mv: nat, pos: nat,
    at: nat, m0: seq<byte>, m1: seq<byte>, done: seq<byte>)
    requires ValidFields(fs) && RecSize(fs) > 0 && (model.Some? ==> |model.value| == |src| && mv <= MAX_MODEL_VALUE)
    requires model.Some? && hasUp ==> at + |src| <= |m0|
    requires pos <= |src| && UpState(fs, src, model, hasUp, mv, pos, at, m0, m1, done)
    ensures ModelUpdated(fs, src, model, hasUp, mv, at, m0, m1, pos == |src|)
  {
    if model.Some? && hasUp {
      SpliceKeeps(m0, at, done, at + |src|);
      if pos == |src| {
        UpFromEnd(fs, src, model.value, mv, pos);
        assert done + [] == done;
      }
    }
  }

  //// The loop

  /** The result for the model buffer: updated, or at least untouched outside. */
  ghost predicate ModelUpdated(fs: seq<Field>, src: seq<byte>, model: Option<seq<byte>>, hasUp: bool, mv: nat, at: nat,
    before: seq<byte>, after: seq<byte>, ok: bool)
    requires ValidFields(fs) && RecSize(fs) > 0 && (model.Some? ==> |model.value| == |src| && mv <= MAX_MODEL_VALUE)
  {
    if model.None? || !hasUp then after == before
    else
      && KeepsOutside(before, after, at, at + |src|)
      && (ok ==> |UpFrom(fs, src, model.value, mv, 0)| == |src|
                 && after == Splice(before, at, UpFrom(fs, src, model.value, mv, 0)))
  }

  /** Updates the model of one sample, when there is a model and a buffer for it. */
  method StoreModel(fs: seq<Field>, useModel: bool, mv: nat, rec: seq<byte>, pred: seq<byte>,
    model: array?<byte>, up: array?<byte>, at: nat, ghost end: nat)
    requires ValidFields(fs) && RecSize(fs) == |rec| == |pred|
    requires useModel ==> model != null && at + |rec| <= end <= model.Length && mv <= MAX_MODEL_VALUE
    requires useModel && up != null ==> end <= up.Length
    modifies up
    ensures Spliced(useModel && up != null, old(MemOf(up)), MemOf(up), at, if useModel then UpRec(fs, rec, pred, mv) else [])
    ensures useModel ==>
      && end <= |MemOf(model)| == |old(MemOf(model))|
      && MemOf(model)[at + |rec|..end] == old(MemOf(model))[at + |rec|..end]
  {
    hide UpRec, RecSize, ValidFields, Splice;
    if useModel && up != null {
      UpdateSample(fs, rec, pred, mv, model, up, at, end);
      assert model[at + |rec|..end] == model[..][at + |rec|..end];
      assert old(model[at + |rec|..end]) == old(model[..])[at + |rec|..end];
    }
  }

  /** Encodes one sample and updates its model. */
  method CompressSample(fs: seq<Field>, setups: seq<EncoderSetup>, useModel: bool, mv: nat, rec: seq<byte>, pred: seq<byte>,
    model: array?<byte>, up: array?<byte>, at: nat, ghost end: nat, dst: array?<byte>, streamSize: nat, streamLen: nat)
    returns (r: Outcome<nat>)
    requires ValidFields(fs) && fs != [] && RecSize(fs) == |rec| == |pred| && streamLen + 64 * |rec| < W32
    requires setups == Setups(fs, dst, streamSize) && (dst != null ==> streamSize <= dst.Length && dst != model && dst != up)
    requires useModel ==> model != null && at + |rec| <= end <= model.Length && mv <= MAX_MODEL_VALUE
    requires useModel && up != null ==> end <= up.Length
    modifies dst, up
    ensures Emitted(dst, StreamSizeToBits(streamSize), old(MemOf(dst)), MemOf(dst), streamLen, EncRec(fs, rec, pred), r)
    ensures Spliced(useModel && up != null && r.Ok?, old(MemOf(up)), MemOf(up), at,
      if useModel then UpRec(fs, rec, pred, mv) else [])
    ensures useModel ==>
      && end <= |MemOf(model)| == |old(MemOf(model))|
      && MemOf(model)[at + |rec|..end] == old(MemOf(model))[at + |rec|..end]
  {
    hide Emitted, EncRec, UpRec, RecSize, ValidFields, Splice, Setups;
    r := EncodeRecord(fs, setups, rec, pred, streamLen, dst, streamSize);
    if r.Err? { return; }
    StoreModel(fs, useModel, mv, rec, pred, model, up, at, end);
  }

  /** The model of the records from pos on is still as it was, also when it is updated in place. */
  ghost predicate ModelLeft(mdl: Option<seq<byte>>, mem: seq<byte>, at: nat, pos: nat, n: nat)
  {
    mdl.Some? ==> |mdl.value| == n && pos <= n && at + n <= |mem| && mem[at + pos..at + n] == mdl.value[pos..]
  }

  lemma {:induction false} ModelLeftNext(mdl: Option<seq<byte>>, m0: seq<byte>, m1: seq<byte>, at: nat, pos: nat, s: nat, n: nat)
    requires ModelLeft(mdl, m0, at, pos, n) && (mdl.Some? ==> pos + s <= n && |m1| == |m0|)
    requires mdl.Some? ==> at + n <= |m0| && m1[at + pos + s..at + n] == m0[at + pos + s..at + n]
    ensures ModelLeft(mdl, m1, at, pos + s, n)
  {
    if mdl.Some? {
      assert m0[at + pos..at + n][s..] == m0[at + pos + s..at + n] && mdl.value[pos..][s..] == mdl.value[pos + s..];
    }
  }

  lemma {:induction false} ModelLeftStart(mdl: Option<seq<byte>>, mem: seq<byte>, at: nat, n: nat)
    requires mdl.Some? ==> at + n <= |mem| && mdl.value == mem[at..at + n]
    ensures ModelLeft(mdl, mem, at, 0, n)
  {
  }

  /** A record of the part of the model that is still to be read. */
  lemma {:induction false} ModelSlice(mem: seq<byte>, at: nat, pos: nat, s: nat, value: seq<byte>)
    requires pos + s <= |value| && at + |value| <= |mem| && mem[at + pos..at + |value|] == value[pos..]
    ensures mem[at + pos..at + pos + s] == value[pos..pos + s]
  {
    SliceOfSlice(mem, at + pos, at + |value|, 0, s);
    SliceOfSlice(value, pos, |value|, 0, s);
    assert value[pos..] == value[pos..|value|];
  }

  /** The prediction of the record at pos, as the compressor finds it. */
  method PredictionAt(s: nat, src: seq<byte>, useModel: bool, model: array?<byte>, at: nat, pos: nat,
    ghost mdl: Option<seq<byte>>) returns (pred: seq<byte>)
    requires 0 < s && pos + s <= |src| && mdl.Some? == useModel && (useModel ==> model != null) && (pos == 0 || s <= pos)
    requires ModelLeft(mdl, MemOf(model), at, pos, |src|)
    ensures pred == Prediction(s, src, mdl, pos)
  {
    if useModel {
      pred := model[at + pos..at + pos + s];
      ModelSlice(model[..], at, pos, s, mdl.value);
    } else {
      pred := if pos == 0 then ZeroBytes(s) else src[pos - s..pos];
    }
  }

  /** One pass of the loop: from the state before the record at pos to the state behind it. */
  method CompressNext(fs: seq<Field>, setups: seq<EncoderSetup>, useModel: bool, mv: nat, src: seq<byte>,
    ghost mdl: Option<seq<byte>>, pos: nat, pred: seq<byte>, model: array?<byte>, up: array?<byte>, at: nat,
    dst: array?<byte>, streamSize: nat, ghost mem: seq<byte>, ghost upMem: seq<byte>, ghost start: nat,
    ghost bits: seq<bool>, ghost done: seq<byte>, streamLen: nat)
    returns (r: Outcome<nat>, ghost bits': seq<bool>, ghost done': seq<byte>)
    requires ValidFields(fs) && fs != [] && RecSize(fs) > 0 && pos + RecSize(fs) <= |src|
    requires setups == Setups(fs, dst, streamSize) && (dst != null ==> streamSize <= dst.Length && dst != model && dst != up)
    requires useModel ==> model != null && at + |src| <= model.Length && mv <= MAX_MODEL_VALUE
    requires useModel && up != null ==> at + |src| <= up.Length == |upMem|
    requires mdl.Some? == useModel && (useModel ==> |mdl.value| == |src|)
    requires pred == Prediction(RecSize(fs), src, mdl, pos) && streamLen + 64 * (|src| - pos) < W32
    requires ModelLeft(mdl, MemOf(model), at, pos, |src|)
    requires EncState(fs, src, mdl, pos, dst, StreamSizeToBits(streamSize), mem, MemOf(dst), start, bits, Ok(streamLen))
    requires UpState(fs, src, mdl, up != null, mv, pos, at, upMem, MemOf(up), done)
    modifies dst, up
    ensures r.Err? ==>
      && Emitted(dst, StreamSizeToBits(streamSize), mem, MemOf(dst), start, EncFrom(fs, src, mdl, 0), r)
      && ModelUpdated(fs, src, mdl, up != null, mv, at, upMem, MemOf(up), false)
    ensures r.Ok? ==>
      && bits' != [] && r.value + 64 * (|src| - (pos + RecSize(fs))) < W32
      && EncState(fs, src, mdl, pos + RecSize(fs), dst, StreamSizeToBits(streamSize), mem, MemOf(dst), start, bits', r)
      && UpState(fs, src, mdl, up != null, mv, pos + RecSize(fs), at, upMem, MemOf(up), done')
    ensures ModelLeft(mdl, MemOf(model), at, pos + RecSize(fs), |src|)
  {
    ghost var mem0 := MemOf(model);
    hide *;
    var s := RecSize(fs);
    ghost var max, hasUp, mem1, upMem1 := StreamSizeToBits(streamSize), up != null, MemOf(dst), MemOf(up);
    ghost var b := EncRec(fs, src[pos..pos + s], pred);
    ghost var u := if useModel then UpRec(fs, src[pos..pos + s], pred, mv) else [];
    EncRecLength(fs, src[pos..pos + s], pred);
    EncRecNonEmpty(fs, src[pos..pos + s], pred);
    if useModel { ModelPrediction(s, src, mdl.value, pos); }
    r := CompressSample(fs, setups, useModel, mv, src[pos..pos + s], pred, model, up, at + pos, at + |src|, dst,
      streamSize, streamLen);
    ModelLeftNext(mdl, mem0, MemOf(model), at, pos, s, |src|);
    EncStep(fs, src, mdl, pos, dst, max, mem, mem1, MemOf(dst), start, bits, streamLen, b, r);
    bits', done' := bits + b, done + u;
    if r.Err? {
      SplicedNot(upMem1, MemOf(up), at + pos, u);
      UpEnd(fs, src, mdl, hasUp, mv, pos, at, upMem, MemOf(up), done);
      UpdatedPartly(fs, src, mdl, hasUp, mv, at, upMem, MemOf(up), pos == |src|);
    } else {
      UpStep(fs, src, mdl, hasUp, mv, pos, at, upMem, upMem1, MemOf(up), done, u);
    }
  }

  lemma {:induction false} UpdatedPartly(fs: seq<Field>, src: seq<byte>, model: Option<seq<byte>>, hasUp: bool, mv: nat,
    at: nat, before: seq<byte>, after: seq<byte>, ok: bool)
    requires ValidFields(fs) && RecSize(fs) > 0 && (model.Some? ==> |model.value| == |src| && mv <= MAX_MODEL_VALUE)
    requires ModelUpdated(fs, src, model, hasUp, mv, at, before, after, ok)
    ensures ModelUpdated(fs, src, model, hasUp, mv, at, before, after, false)
  {
  }

  /** The loop, from the state before the first record on. */
  method CompressAll(fs: seq<Field>, setups: seq<EncoderSetup>, useModel: bool, mv: nat, src: seq<byte>, samples: nat,
    ghost mdl: Option<seq<byte>>, model: array?<byte>, up: array?<byte>, at: nat, dst: array?<byte>, streamSize: nat,
    streamLen: nat) returns (r: Outcome<nat>)
    requires ValidFields(fs) && fs != [] && RecSize(fs) > 0 && samples > 0 && |src| == BytesOf(samples, RecSize(fs))
    requires setups == Setups(fs, dst, streamSize) && (dst != null ==> streamSize <= dst.Length && dst != model && dst != up)
    requires useModel ==> model != null && at + |src| <= model.Length && mv <= MAX_MODEL_VALUE
    requires useModel && up != null ==> at + |src| <= up.Length == |MemOf(up)|
    requires mdl.Some? == useModel && (useModel ==> |mdl.value| == |src|)
    requires ModelLeft(mdl, MemOf(model), at, 0, |src|) && streamLen + 64 * |src| < W32
    modifies dst, up
    ensures Emitted(dst, StreamSizeToBits(streamSize), old(MemOf(dst)), MemOf(dst), streamLen, EncFrom(fs, src, mdl, 0), r)
    ensures ModelUpdated(fs, src, mdl, up != null, mv, at, old(MemOf(up)), MemOf(up), r.Ok?)
  {
    hide *;
    ghost var max, hasUp, mem, upMem := StreamSizeToBits(streamSize), up != null, MemOf(dst), MemOf(up);
    var s := RecSize(fs);
    EncStart(fs, src, mdl, dst, max, mem, streamLen);
    UpStart(fs, src, mdl, hasUp, mv, at, upMem);
    ghost var bits: seq<bool> := [];
    ghost var done: seq<byte> := [];
    var i, pos := 0, 0;
    SampleFits(i, samples, s);
    var pred := PredictionAt(s, src, useModel, model, at, pos, mdl);
    r := Ok(streamLen);
    while true
      invariant 0 <= i < samples && pos == BytesOf(i, s) && pos + s <= |src|
      invariant r.Ok? && r.value + 64 * (|src| - pos) < W32
      invariant pred == Prediction(s, src, mdl, pos)
      invariant EncState(fs, src, mdl, pos, dst, max, mem, MemOf(dst), streamLen, bits, r)
      invariant ModelLeft(mdl, MemOf(model), at, pos, |src|)
      invariant UpState(fs, src, mdl, hasUp, mv, pos, at, upMem, MemOf(up), done)
      decreases samples - i
    {
      SampleFits(i, samples, s);
      r, bits, done := CompressNext(fs, setups, useModel, mv, src, mdl, pos, pred, model, up, at, dst, streamSize,
        mem, upMem, streamLen, bits, done, r.value);
      if r.Err? { return; }
      pos := pos + s;
      if i >= samples - 1 { break; }
      i := i + 1;
      SampleFits(i, samples, s);
      pred := PredictionAt(s, src, useModel, model, at, pos, mdl);
    }
    EncEnd(fs, src, mdl, pos, dst, max, mem, MemOf(dst), streamLen, bits, r);
    UpEnd(fs, src, mdl, hasUp, mv, pos, at, upMem, MemOf(up), done);
  }

  /** An updated model buffer holds the weighted means. */
  lemma {:induction false} UpdatedMeans(fs: seq<Field>, n: nat, src: seq<byte>, model: Option<seq<byte>>, hasUp: bool, mv: nat,
    at: nat, before: seq<byte>, after: seq<byte>)
    requires ValidFields(fs) && RecSize(fs) > 0 && |src| == BytesOf(n, RecSize(fs))
    requires model.Some? ==> |model.value| == |src| && mv <= MAX_MODEL_VALUE
    requires ModelUpdated(fs, src, model, hasUp, mv, at, before, after, true)
    ensures StoresMeans(fs, n, src, model, hasUp, mv, after, at)
  {
    hide UpFrom, Splice, HoldsMeans, RecSize, BytesOf, ValidFields;
    if model.Some? && hasUp { SplicedMeans(fs, n, src, model.value, mv, before, at); }
  }

  /** compress_imagette and compress_<record>: encodes all samples and, when there is a
      buffer for it, stores the updated model; that buffer may be the model itself. */
  method CompressSamples(fs: seq<Field>, useModel: bool, mv: nat, src: seq<byte>, samples: nat,
    model: array?<byte>, up: array?<byte>, at: nat, dst: array?<byte>, streamSize: nat, streamLen: nat)
    returns (r: Outcome<nat>)
    requires ValidFields(fs) && fs != [] && RecSize(fs) > 0 && samples > 0 && |src| == BytesOf(samples, RecSize(fs))
    requires useModel ==> model != null && at + |src| <= model.Length && mv <= MAX_MODEL_VALUE
    requires useModel && up != null ==> at + |src| <= up.Length
    requires dst != null ==> streamSize <= dst.Length && dst != model && dst != up
    requires streamLen + 64 * |src| < W32
    modifies dst, up
    ensures Emitted(dst, StreamSizeToBits(streamSize), old(MemOf(dst)), MemOf(dst), streamLen,
      EncFrom(fs, src, old(ModelOf(useModel, model, at, |src|)), 0), r)
    ensures ModelUpdated(fs, src, old(ModelOf(useModel, model, at, |src|)), up != null, mv, at,
      old(MemOf(up)), MemOf(up), r.Ok?)
    ensures r.Ok? ==>
      StoresMeans(fs, samples, src, old(ModelOf(useModel, model, at, |src|)), up != null, mv, MemOf(up), at)
  {
    assert up != null ==> |MemOf(up)| == up.Length;
    assert model != null ==> MemOf(model) == model[..];
    hide *;
    ghost var mdl := ModelOf(useModel, model, at, |src|);
    ModelOfIs(useModel, model, at, |src|);
    if useModel { assert model[..][at..at + |src|] == model[at..at + |src|]; }
    ModelLeftStart(mdl, MemOf(model), at, |src|);
    var setups := Setups(fs, dst, streamSize);
    ghost var upMem := MemOf(up);
    r := CompressAll(fs, setups, useModel, mv, src, samples, mdl, model, up, at, dst, streamSize, streamLen);
    if r.Ok? { UpdatedMeans(fs, samples, src, mdl, up != null, mv, at, upMem, MemOf(up)); }
  }

  lemma {:induction false} SplicedNot(m0: seq<byte>, m1: seq<byte>, at: nat, u: seq<byte>)
    requires Spliced(false, m0, m1, at, u)
    ensures m1 == m0
  {
  }
}
