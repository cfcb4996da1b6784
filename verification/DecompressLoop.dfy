/** The sample loop of the decompressor: decompress_imagette and the record variants. */
module DecompressLoop {
  import opened Bits
  import opened Bytes
  import opened Words
  import opened Golomb
  import opened Params
  import opened ValueCode
  import opened BitReader
  import opened ValueEncoder
  import opened ValueDecoder
  import opened Samples
  import opened UpModel
  import opened CompressLoop

  //// One record

  lemma {:induction false} DecRecReads(fs: seq<Field>, pred: seq<byte>, acc: seq<byte>, b: seq<bool>)
    requires ValidFields(fs) && RecSize(fs) <= |pred| && fs != [] && DecRec(fs, pred, acc, b).Some?
    ensures ValidField(fs[0]) && 1 <= fs[0].width <= 4 && fs[0].width <= |pred|
    ensures ReadValue(fs[0].p, b, FieldAt(fs[0], pred)).Some?
  {
    hide ReadValue, FieldAt, ToLittleEndian;
  }

  /** decode_value of one field and the store of its bytes. */
  method DecodeField(f: Field, setup: DecoderSetup, pred: seq<byte>, dst: array<byte>, at: nat, dec: BitDecoder)
    returns (err: bool, bytes: seq<byte>)
    requires ValidField(f) && setup == ConfigureDecoder(f.p) && f.width <= |pred|
    requires at + f.width <= dst.Length && dec.Filled()
    modifies dst, dec
    ensures dec.Valid() && (!err ==> dec.Filled() && old(dec.Pos()) < dec.Pos() <= |dec.Stream()|)
    ensures |bytes| == f.width && dst[..] == if err then old(dst[..]) else Splice(old(dst[..]), at, bytes)
    ensures err <==> ReadValue(f.p, old(dec.Rest()), FieldAt(f, pred)).None?
    ensures !err ==>
      var r := ReadValue(f.p, old(dec.Rest()), FieldAt(f, pred)).value;
      bytes == ToLittleEndian(r.0, f.width) && dec.Rest() == old(dec.Rest())[r.1..]
  {
    hide *;
    FieldParts(f);
    ConfigureDecoderValid(f.p);
    SetupPars(f.p);
    ghost var b := dec.Rest();
    var v;
    err, v := DecodeValue(dec, setup, FieldAt(f, pred));
    AgreesParts(ReadValue(f.p, b, FieldAt(f, pred)), b, err, v, dec.Rest());
    bytes := ToLittleEndian(v, f.width);
    if !err { CopyBytes(dst, at, bytes); }
  }

  lemma {:induction false} AgreesParts(r: Option<(word32, nat)>, b: seq<bool>, err: bool, v: word32, rest: seq<bool>)
    requires Agrees(r, b, err, v, rest)
    ensures err <==> r.None?
    ensures r.Some? ==> v == r.value.0 && r.value.1 <= |b| && rest == b[r.value.1..]
  {
  }

  lemma {:induction false} FieldParts(f: Field)
    requires ValidField(f)
    ensures ValidPars(f.p) && 1 <= f.width <= 4 && f.p.m > 0 && 1 <= f.p.bits <= 32
  {
  }

  lemma {:induction false} SetupPars(p: CodePars)
    ensures ConfigureDecoder(p).p == p
  {
  }

  function DecoderSetups(fs: seq<Field>): (s: seq<DecoderSetup>)
    ensures |s| == |fs| && forall j :: 0 <= j < |fs| ==> s[j] == ConfigureDecoder(fs[j].p)
  {
    seq(|fs|, j requires 0 <= j < |fs| => ConfigureDecoder(fs[j].p))
  }

  /** How far a record is decoded: bytes done are behind acc, and the bits b are left. */
  ghost predicate RecState(fs: seq<Field>, pred: seq<byte>, acc: seq<byte>, b0: seq<bool>, j: nat, off: nat,
    done: seq<byte>, b: seq<bool>)
  {
    j <= |fs| && off <= |pred| && ValidFields(fs) && ValidFields(fs[j..])
    && RecSize(fs) == |pred| && RecSize(fs[j..]) == |pred| - off && |done| == off
    && DecRec(fs, pred, acc, b0) == DecRec(fs[j..], pred[off..], acc + done, b)
  }

  lemma {:induction false} RecStart(fs: seq<Field>, pred: seq<byte>, acc: seq<byte>, b: seq<bool>)
    requires ValidFields(fs) && RecSize(fs) == |pred|
    ensures RecState(fs, pred, acc, b, 0, 0, [], b)
  {
    assert fs[0..] == fs && pred[0..] == pred && acc + [] == acc;
  }

  lemma {:induction false} RecNext(fs: seq<Field>, pred: seq<byte>, acc: seq<byte>, b0: seq<bool>, j: nat, off: nat,
    done: seq<byte>, b: seq<bool>)
    requires RecState(fs, pred, acc, b0, j, off, done, b) && j < |fs|
    ensures ValidField(fs[j]) && off + fs[j].width <= |pred| && 1 <= fs[j].width <= 4
    ensures ReadValue(fs[j].p, b, FieldAt(fs[j], pred[off..])).None? ==> DecRec(fs, pred, acc, b0).None?
  {
    hide ReadValue, FieldAt, DecRec;
    FieldsTail(fs, j);
    if DecRec(fs, pred, acc, b0).Some? { DecRecReads(fs[j..], pred[off..], acc + done, b); }
  }

  lemma {:induction false} RecStep(fs: seq<Field>, pred: seq<byte>, acc: seq<byte>, b0: seq<bool>, j: nat, off: nat,
    done: seq<byte>, b: seq<bool>, bytes: seq<byte>, b': seq<bool>)
    requires RecState(fs, pred, acc, b0, j, off, done, b) && j < |fs|
    requires ValidField(fs[j]) && off + fs[j].width <= |pred| && |bytes| == fs[j].width && 1 <= fs[j].width <= 4
    requires ReadValue(fs[j].p, b, FieldAt(fs[j], pred[off..])).Some?
    requires var r := ReadValue(fs[j].p, b, FieldAt(fs[j], pred[off..])).value;
      bytes == ToLittleEndian(r.0, fs[j].width) && b' == b[r.1..]
    ensures RecState(fs, pred, acc, b0, j + 1, off + fs[j].width, done + bytes, b')
  {
    hide ReadValue, FieldAt, DecRec, RecSize, ValidFields;
    FieldsTail(fs, j);
    var r := ReadValue(fs[j].p, b, FieldAt(fs[j], pred[off..])).value;
    DecRecStep(fs[j..], pred[off..], acc + done, b, r.0, r.1);
    Assoc(acc, done, bytes);
    assert pred[off..][fs[j].width..] == pred[off + fs[j].width..];
  }

  lemma {:induction false} RecEnd(fs: seq<Field>, pred: seq<byte>, acc: seq<byte>, b0: seq<bool>, off: nat,
    done: seq<byte>, b: seq<bool>)
    requires RecState(fs, pred, acc, b0, |fs|, off, done, b)
    ensures RecSize(fs) == |pred| == off
    ensures DecRec(fs, pred, acc, b0) == Some((acc + done, b))
  {
    assert fs[|fs|..] == [];
    NoFields([], [], pred[off..], acc + done, b);
  }

  /** Decodes one record into dst; acc are the bytes decoded before. An error is reported
      exactly if the unread bits hold no record. */
  method DecodeRecord(fs: seq<Field>, setups: seq<DecoderSetup>, pred: seq<byte>, dst: array<byte>, at: nat,
    dec: BitDecoder, ghost acc: seq<byte>) returns (err: bool, rec: seq<byte>)
    requires ValidFields(fs) && fs != [] && setups == DecoderSetups(fs) && RecSize(fs) == |pred|
    requires at + |pred| <= dst.Length && dec.Filled()
    modifies dst, dec
    ensures dec.Valid() && (!err ==> dec.Filled() && old(dec.Pos()) < dec.Pos() <= |dec.Stream()|)
    ensures |rec| <= |pred| && dst[..] == Splice(old(dst[..]), at, rec) && (err <==> |rec| < |pred|)
    ensures DecRec(fs, pred, acc, old(dec.Rest())) == if err then None else Some((acc + rec, dec.Rest()))
  {
    hide *;
    ghost var mem, b0, p0 := dst[..], dec.Rest(), dec.Pos();
    var j, off := 0, 0;
    rec, err := [], false;
    RecStart(fs, pred, acc, b0);
    SpliceNothing(mem, at);
    while j < |fs|
      invariant 0 <= j <= |fs| && off == |rec| && at + |pred| <= |mem| && !err
      invariant dec.Filled() && (j > 0 ==> p0 < dec.Pos() <= |dec.Stream()|)
      invariant p0 <= dec.Pos()
      invariant RecState(fs, pred, acc, b0, j, off, rec, dec.Rest())
      invariant off <= |pred| && dst[..] == Splice(mem, at, rec)
      decreases |fs| - j
    {
      ghost var b := dec.Rest();
      RecNext(fs, pred, acc, b0, j, off, rec, b);
      var bytes;
      err, bytes := DecodeField(fs[j], setups[j], pred[off..], dst, at + off, dec);
      if err { return; }
      SpliceThen(mem, at, rec, bytes);
      RecStep(fs, pred, acc, b0, j, off, rec, b, bytes, dec.Rest());
      rec, off, j := rec + bytes, off + fs[j].width, j + 1;
    }
    RecEnd(fs, pred, acc, b0, off, rec, dec.Rest());
    FilledValid(dec);
  }

  //// The updated model of what is decoded so far

  lemma {:induction false} UpFromAppend(fs: seq<Field>, acc: seq<byte>, rec: seq<byte>, model: seq<byte>, mv: nat, pos: nat,
    n: nat)
    requires ValidFields(fs) && RecSize(fs) > 0 && mv <= MAX_MODEL_VALUE && |rec| == RecSize(fs)
    requires |acc| + |rec| <= |model| && pos + n * RecSize(fs) == |acc|
    ensures UpFrom(fs, acc + rec, model, mv, pos)
      == UpFrom(fs, acc, model, mv, pos) + UpRec(fs, rec, model[|acc|..|acc| + |rec|], mv)
    decreases n
  {
    hide *;
    var s := RecSize(fs);
    var all := acc + rec;
    UpFromStep(fs, all, model, mv, pos) by { if n > 0 { TimesStep(n, s); } }
    if n == 0 {
      assert all[pos..pos + s] == rec;
      UpFromEnd(fs, all, model, mv, pos + s);
      UpFromEnd(fs, acc, model, mv, pos);
      var u := UpRec(fs, rec, model[pos..pos + s], mv);
      assert u + [] == u && [] + u == u;
    } else {
      TimesStep(n, s);
      UpFromAppend(fs, acc, rec, model, mv, pos + s, n - 1);
      UpFromStep(fs, acc, model, mv, pos);
      assert all[pos..pos + s] == acc[pos..pos + s];
      Assoc(UpRec(fs, acc[pos..pos + s], model[pos..pos + s], mv), UpFrom(fs, acc, model, mv, pos + s),
        UpRec(fs, rec, model[|acc|..|acc| + |rec|], mv));
    }
  }

  /** The updated model of the decoded bytes acc is stored, if there is a buffer for it. */
  ghost predicate UpDone(fs: seq<Field>, acc: seq<byte>, model: Option<seq<byte>>, hasUp: bool, mv: nat, at: nat,
    before: seq<byte>, now: seq<byte>)
    requires ValidFields(fs) && RecSize(fs) > 0 && (model.Some? ==> |acc| <= |model.value| && mv <= MAX_MODEL_VALUE)
  {
    if model.None? || !hasUp then now == before
    else
      && |UpFrom(fs, acc, model.value, mv, 0)| == |acc| && at + |acc| <= |before|
      && now == Splice(before, at, UpFrom(fs, acc, model.value, mv, 0))
  }

  lemma {:induction false} UpDoneStart(fs: seq<Field>, model: Option<seq<byte>>, hasUp: bool, mv: nat, at: nat, mem: seq<byte>)
    requires ValidFields(fs) && RecSize(fs) > 0 && (model.Some? ==> mv <= MAX_MODEL_VALUE)
    requires model.Some? && hasUp ==> at <= |mem|
    ensures UpDone(fs, [], model, hasUp, mv, at, mem, mem)
  {
    if model.Some? && hasUp {
      UpFromEnd(fs, [], model.value, mv, 0);
      SpliceNothing(mem, at);
    }
  }

  lemma {:induction false} UpDoneNext(fs: seq<Field>, acc: seq<byte>, rec: seq<byte>, model: Option<seq<byte>>, hasUp: bool,
    mv: nat, at: nat, m0: seq<byte>, m1: seq<byte>, m2: seq<byte>, n: nat)
    requires ValidFields(fs) && RecSize(fs) > 0 && |rec| == RecSize(fs) && |acc| == BytesOf(n, RecSize(fs))
    requires model.Some? ==> |acc| + |rec| <= |model.value| && mv <= MAX_MODEL_VALUE
    requires model.Some? && hasUp ==> at + |acc| + |rec| <= |m0|
    requires UpDone(fs, acc, model, hasUp, mv, at, m0, m1)
    requires Spliced(model.Some? && hasUp, m1, m2, at + |acc|,
      if model.Some? then UpRec(fs, rec, model.value[|acc|..|acc| + |rec|], mv) else [])
    ensures UpDone(fs, acc + rec, model, hasUp, mv, at, m0, m2)
  {
    hide UpFrom, UpRec, RecSize, ValidFields, Splice;
    if model.Some? && hasUp {
      UpFromAppend(fs, acc, rec, model.value, mv, 0, n);
      SpliceThen(m0, at, UpFrom(fs, acc, model.value, mv, 0), UpRec(fs, rec, model.value[|acc|..|acc| + |rec|], mv));
    }
  }

  //// The loop

  /** The records acc are decoded, and what b0 stands for is what follows from b. */
  ghost predicate DecState(fs: seq<Field>, total: nat, model: Option<seq<byte>>, b0: seq<bool>, acc: seq<byte>, b: seq<bool>)
    requires ValidFields(fs) && RecSize(fs) > 0
  {
    DecFrom(fs, total, model, [], b0) == DecFrom(fs, total, model, acc, b)
  }

  lemma {:induction false} DecNext(fs: seq<Field>, total: nat, model: Option<seq<byte>>, b0: seq<bool>, acc: seq<byte>,
    b: seq<bool>, rec: seq<byte>, b': seq<bool>)
    requires ValidFields(fs) && RecSize(fs) > 0 && |acc| + RecSize(fs) <= total
    requires DecState(fs, total, model, b0, acc, b)
    requires var r := DecRec(fs, Prediction(RecSize(fs), acc, model, |acc|), acc, b); r.None? || r == Some((acc + rec, b'))
    ensures DecRec(fs, Prediction(RecSize(fs), acc, model, |acc|), acc, b).None? ==> DecFrom(fs, total, model, [], b0) == None
    ensures DecRec(fs, Prediction(RecSize(fs), acc, model, |acc|), acc, b).Some? ==> DecState(fs, total, model, b0, acc + rec, b')
  {
    hide DecRec, RecSize, ValidFields, Prediction;
  }

  lemma {:induction false} DecEnd(fs: seq<Field>, total: nat, model: Option<seq<byte>>, b0: seq<bool>, acc: seq<byte>, b: seq<bool>)
    requires ValidFields(fs) && RecSize(fs) > 0 && |acc| == total && DecState(fs, total, model, b0, acc, b)
    ensures DecFrom(fs, total, model, [], b0) == Some((acc, b))
  {
  }

  lemma {:induction false} DecStart(fs: seq<Field>, total: nat, model: Option<seq<byte>>, b: seq<bool>)
    requires ValidFields(fs) && RecSize(fs) > 0
    ensures DecState(fs, total, model, b, [], b)
  {
  }

  /** The prediction of the next record: from the model buffer, or from the record
      that was just stored. */
  method NextPrediction(s: nat, useModel: bool, model: array?<byte>, mat: nat, ghost mdl: Option<seq<byte>>,
    dst: array<byte>, at: nat, pos: nat, ghost acc: seq<byte>, ghost mem: seq<byte>, ghost total: nat)
    returns (pred: seq<byte>)
    requires 0 < s && mdl.Some? == useModel && (useModel ==> model != null) && (pos == 0 || s <= pos)
    requires |acc| == pos && pos + s <= total && at + pos <= |mem| && dst[..] == Splice(mem, at, acc)
    requires ModelLeft(mdl, MemOf(model), mat, pos, total)
    ensures pred == Prediction(s, acc, mdl, pos)
  {
    if useModel {
      pred := model[mat + pos..mat + pos + s];
      ModelSlice(model[..], mat, pos, s, mdl.value);
    } else if pos == 0 {
      pred := ZeroBytes(s);
    } else {
      pred := dst[at + pos - s..at + pos];
      SplicedPart(mem, at, acc, pos - s, |acc|);
      ArraySlice(dst, at + pos - s, at + pos);
    }
  }

  /** One pass: decodes a record, stores it and the updated model of it. */
  method DecompressNext(fs: seq<Field>, setups: seq<DecoderSetup>, useModel: bool, mv: nat, ghost mdl: Option<seq<byte>>,
    pred: seq<byte>, dst: array<byte>, at: nat, model: array?<byte>, up: array?<byte>, mat: nat, pos: nat, ghost n: nat,
    ghost total: nat, dec: BitDecoder, ghost b0: seq<bool>, ghost acc: seq<byte>, ghost upMem: seq<byte>)
    returns (err: bool, ghost rec: seq<byte>)
    requires ValidFields(fs) && fs != [] && RecSize(fs) > 0 && setups == DecoderSetups(fs) && dec.Filled()
    requires |acc| == pos == BytesOf(n, RecSize(fs)) && pos + RecSize(fs) <= total && at + pos + RecSize(fs) <= dst.Length
    requires mdl.Some? == useModel && (useModel ==> |mdl.value| == total && mv <= MAX_MODEL_VALUE)
    requires useModel ==> model != null && mat + total <= model.Length
    requires useModel && up != null ==> mat + total <= up.Length == |upMem|
    requires dst != model && dst != up && pred == Prediction(RecSize(fs), acc, mdl, pos)
    requires ModelLeft(mdl, MemOf(model), mat, pos, total)
    requires DecState(fs, total, mdl, b0, acc, dec.Rest())
    requires UpDone(fs, acc, mdl, up != null, mv, mat, upMem, MemOf(up))
    modifies dst, up, dec
    ensures dec.Valid() && (!err ==> dec.Filled() && old(dec.Pos()) < dec.Pos() <= |dec.Stream()|)
    ensures |rec| <= RecSize(fs) && (err <==> |rec| < RecSize(fs)) && dst[..] == Splice(old(dst[..]), at + pos, rec)
    ensures err ==> DecFrom(fs, total, mdl, [], b0) == None
    ensures err ==> MemOf(up) == old(MemOf(up))
    ensures !err ==>
      && DecState(fs, total, mdl, b0, acc + rec, dec.Rest())
      && UpDone(fs, acc + rec, mdl, up != null, mv, mat, upMem, MemOf(up))
      && ModelLeft(mdl, MemOf(model), mat, pos + RecSize(fs), total)
  {
    hide *;
    var s := RecSize(fs);
    ghost var b, upMem1, mdlMem := dec.Rest(), MemOf(up), MemOf(model);
    var r;
    err, r := DecodeRecord(fs, setups, pred, dst, at + pos, dec, acc);
    rec := r;
    DecNext(fs, total, mdl, b0, acc, b, rec, dec.Rest());
    if err { return; }
    if useModel { ModelIsPrediction(s, acc, mdl.value, pos); }
    StoreModel(fs, useModel, mv, r, pred, model, up, mat + pos, mat + total);
    UpDoneNext(fs, acc, rec, mdl, up != null, mv, mat, upMem, upMem1, MemOf(up), n);
    ModelLeftNext(mdl, mdlMem, MemOf(model), mat, pos, s, total);
  }

  lemma {:induction false} ModelIsPrediction(s: nat, acc: seq<byte>, model: seq<byte>, pos: nat)
    requires pos + s <= |model|
    ensures Prediction(s, acc, Some(model), pos) == model[pos..pos + s]
  {
  }

  /** decompress_imagette and decompress_<record>. An error is reported exactly if the
      reference decoder finds no records in the stream; otherwise exactly its records are
      stored, the stream is not read beyond its end, and the updated model is the one of
      the stored records. The updated model may be stored over the model. */
  method DecompressSamples(fs: seq<Field>, useModel: bool, mv: nat, samples: nat, dst: array<byte>, at: nat,
    model: array?<byte>, up: array?<byte>, mat: nat, dec: BitDecoder) returns (err: bool, ghost data: seq<byte>)
    requires ValidFields(fs) && fs != [] && RecSize(fs) > 0 && samples > 0 && dec.Filled()
    requires at + BytesOf(samples, RecSize(fs)) <= dst.Length && dst != model && dst != up
    requires useModel ==> model != null && mat + BytesOf(samples, RecSize(fs)) <= model.Length && mv <= MAX_MODEL_VALUE
    requires useModel && up != null ==> mat + BytesOf(samples, RecSize(fs)) <= up.Length
    modifies dst, up, dec
    ensures dec.Valid() && (!err ==> dec.Filled() && old(dec.Pos()) < dec.Pos() <= |dec.Stream()|)
    ensures |data| <= BytesOf(samples, RecSize(fs)) && (!err ==> |data| == BytesOf(samples, RecSize(fs)))
    ensures dst[..] == Splice(old(dst[..]), at, data)
    ensures UpdatedFrom(fs, data, old(ModelOf(useModel, model, mat, BytesOf(samples, RecSize(fs)))), up != null, mv, mat,
      old(MemOf(up)), MemOf(up))
    ensures !err ==> UpDone(fs, data, old(ModelOf(useModel, model, mat, BytesOf(samples, RecSize(fs)))), up != null, mv, mat,
      old(MemOf(up)), MemOf(up))
    ensures !err ==>
      StoresMeans(fs, samples, data, old(ModelOf(useModel, model, mat, BytesOf(samples, RecSize(fs)))), up != null, mv,
        MemOf(up), mat)
    ensures var spec := DecFrom(fs, BytesOf(samples, RecSize(fs)),
        old(ModelOf(useModel, model, mat, BytesOf(samples, RecSize(fs)))), [], old(dec.Rest()));
      spec == if err then None else Some((data, dec.Rest()))
  {
    assert model != null ==> MemOf(model) == model[..];
    assert up != null ==> MemOf(up) == up[..];
    hide *;
    var s := RecSize(fs);
    ghost var total := BytesOf(samples, s);
    ghost var mdl := ModelOf(useModel, model, mat, total);
    ModelOfIs(useModel, model, mat, total);
    if useModel { assert model[..][mat..mat + total] == model[mat..mat + total]; }
    ModelLeftStart(mdl, MemOf(model), mat, total);
    ghost var upMem := MemOf(up);
    err, data := DecompressAll(fs, DecoderSetups(fs), useModel, mv, samples, mdl, dst, at, model, up, mat, dec);
    if !err { DoneMeans(fs, samples, data, mdl, up != null, mv, mat, upMem, MemOf(up)); }
  }

  lemma {:induction false} DoneMeans(fs: seq<Field>, n: nat, data: seq<byte>, model: Option<seq<byte>>, hasUp: bool, mv: nat,
    at: nat, before: seq<byte>, after: seq<byte>)
    requires ValidFields(fs) && RecSize(fs) > 0 && |data| == BytesOf(n, RecSize(fs))
    requires model.Some? ==> |data| <= |model.value| && mv <= MAX_MODEL_VALUE
    requires UpDone(fs, data, model, hasUp, mv, at, before, after)
    ensures StoresMeans(fs, n, data, model, hasUp, mv, after, at)
  {
    hide UpFrom, Splice, HoldsMeans, RecSize, BytesOf, ValidFields;
    if model.Some? && hasUp { SplicedMeans(fs, n, data, model.value, mv, before, at); }
  }

  /** The updated model of the decoded bytes is stored; if decoding failed, at least
      nothing outside the region of the model changed. */
  ghost predicate UpdatedFrom(fs: seq<Field>, data: seq<byte>, model: Option<seq<byte>>, hasUp: bool, mv: nat, at: nat,
    before: seq<byte>, after: seq<byte>)
  {
    ValidFields(fs) && RecSize(fs) > 0 && (model.Some? ==> |data| <= |model.value| && mv <= MAX_MODEL_VALUE)
    && exists n: nat :: IsDecodedPart(fs, data, model, hasUp, mv, at, before, after, n)
  }

  ghost predicate IsDecodedPart(fs: seq<Field>, data: seq<byte>, model: Option<seq<byte>>, hasUp: bool, mv: nat, at: nat,
    before: seq<byte>, after: seq<byte>, n: nat)
    requires ValidFields(fs) && RecSize(fs) > 0 && (model.Some? ==> |data| <= |model.value| && mv <= MAX_MODEL_VALUE)
  {
    n <= |data| < n + RecSize(fs) && UpDone(fs, data[..n], model, hasUp, mv, at, before, after)
  }

  lemma {:induction false} DecodedPart(fs: seq<Field>, acc: seq<byte>, rec: seq<byte>, model: Option<seq<byte>>, hasUp: bool,
    mv: nat, at: nat, before: seq<byte>, after: seq<byte>)
    requires ValidFields(fs) && RecSize(fs) > 0 && |rec| < RecSize(fs)
    requires model.Some? ==> |acc| + |rec| <= |model.value| && mv <= MAX_MODEL_VALUE
    requires UpDone(fs, acc, model, hasUp, mv, at, before, after)
    ensures UpdatedFrom(fs, acc + rec, model, hasUp, mv, at, before, after)
  {
    hide UpDone, ValidFields, RecSize;
    assert (acc + rec)[..|acc|] == acc;
    assert IsDecodedPart(fs, acc + rec, model, hasUp, mv, at, before, after, |acc|);
  }

  method DecompressAll(fs: seq<Field>, setups: seq<DecoderSetup>, useModel: bool, mv: nat, samples: nat,
    ghost mdl: Option<seq<byte>>, dst: array<byte>, at: nat, model: array?<byte>, up: array?<byte>, mat: nat,
    dec: BitDecoder) returns (err: bool, ghost data: seq<byte>)
    requires ValidFields(fs) && fs != [] && RecSize(fs) > 0 && samples > 0 && setups == DecoderSetups(fs) && dec.Filled()
    requires at + BytesOf(samples, RecSize(fs)) <= dst.Length && dst != model && dst != up
    requires mdl.Some? == useModel && (useModel ==> |mdl.value| == BytesOf(samples, RecSize(fs)) && mv <= MAX_MODEL_VALUE)
    requires useModel ==> model != null && mat + BytesOf(samples, RecSize(fs)) <= model.Length
    requires useModel && up != null ==> mat + BytesOf(samples, RecSize(fs)) <= up.Length == |MemOf(up)|
    requires ModelLeft(mdl, MemOf(model), mat, 0, BytesOf(samples, RecSize(fs)))
    modifies dst, up, dec
    ensures dec.Valid() && (!err ==> dec.Filled() && old(dec.Pos()) < dec.Pos() <= |dec.Stream()|)
    ensures |data| <= BytesOf(samples, RecSize(fs)) && (!err ==> |data| == BytesOf(samples, RecSize(fs)))
    ensures dst[..] == Splice(old(dst[..]), at, data)
    ensures UpdatedFrom(fs, data, mdl, up != null, mv, mat, old(MemOf(up)), MemOf(up))
    ensures !err ==> UpDone(fs, data, mdl, up != null, mv, mat, old(MemOf(up)), MemOf(up))
    ensures DecFrom(fs, BytesOf(samples, RecSize(fs)), mdl, [], old(dec.Rest())) == if err then None else Some((data, dec.Rest()))
  {
    hide *;
    ghost var mem, upMem, b0, hasUp, p0 := dst[..], MemOf(up), dec.Rest(), up != null, dec.Pos();
    var s := RecSize(fs);
    ghost var total := BytesOf(samples, s);
    DecStart(fs, total, mdl, b0);
    UpDoneStart(fs, mdl, hasUp, mv, mat, upMem);
    SpliceNothing(mem, at);
    ghost var acc: seq<byte> := [];
    var i, pos := 0, 0;
    SampleFits(i, samples, s);
    var pred := NextPrediction(s, useModel, model, mat, mdl, dst, at, pos, acc, mem, total);
    while true
      invariant 0 <= i < samples && |acc| == pos == BytesOf(i, s) && pos + s <= total && at + total <= |mem|
      invariant dec.Filled() && p0 <= dec.Pos()
      invariant pred == Prediction(s, acc, mdl, pos) && dst[..] == Splice(mem, at, acc)
      invariant ModelLeft(mdl, MemOf(model), mat, pos, total)
      invariant DecState(fs, total, mdl, b0, acc, dec.Rest())
      invariant UpDone(fs, acc, mdl, hasUp, mv, mat, upMem, MemOf(up))
      decreases samples - i
    {
      SampleFits(i, samples, s);
      ghost var rec;
      err, rec := DecompressNext(fs, setups, useModel, mv, mdl, pred, dst, at, model, up, mat, pos, i, total, dec,
        b0, acc, upMem);
      SpliceThen(mem, at, acc, rec);
      data := acc + rec;
      if err {
        DecodedPart(fs, acc, rec, mdl, hasUp, mv, mat, upMem, MemOf(up));
        return;
      }
      acc, pos := acc + rec, pos + s;
      if i >= samples - 1 { break; }
      i := i + 1;
      SampleFits(i, samples, s);
      pred := NextPrediction(s, useModel, model, mat, mdl, dst, at, pos, acc, mem, total);
    }
    DecEnd(fs, total, mdl, b0, acc, dec.Rest());
    assert acc + [] == acc;
    DecodedPart(fs, acc, [], mdl, hasUp, mv, mat, upMem, MemOf(up));
    data := acc;
    FilledValid(dec);
  }

  /** Whatever was decoded, the updated model stays within the region of the model. */
  lemma {:induction false} UpdatedKeeps(fs: seq<Field>, data: seq<byte>, model: Option<seq<byte>>, hasUp: bool, mv: nat, at: nat,
    before: seq<byte>, after: seq<byte>, n: nat)
    requires UpdatedFrom(fs, data, model, hasUp, mv, at, before, after) && |data| <= n
    requires model.Some? && hasUp ==> at + n <= |before|
    ensures if model.Some? && hasUp then KeepsOutside(before, after, at, at + n) else after == before
  {
    var k: nat :| IsDecodedPart(fs, data, model, hasUp, mv, at, before, after, k);
    if model.Some? && hasUp { SpliceKeeps(before, at, UpFrom(fs, data[..k], model.value, mv, 0), at + n); }
  }
}
