/** The software form of the hardware compressor: compress_like_rdcu and decompress_rdcu_data,
    which also round samples. */
module Rdcu {
  import opened Bits
  import opened Bytes
  import opened Words
  import opened Golomb
  import opened Params
  import opened ValueCode
  import opened Errors
  import opened BitWriter
  import opened BitReader
  import opened ValueEncoder
  import opened Samples
  import opened UpModel
  import opened CompressLoop
  import opened DecompressLoop
  import opened DataTypes
  import opened Endian
  import opened Config
  import opened CollectionCode
  import opened CollectionCompressor
  import opened CollectionWriter
  import opened CollectionDecompressor

  //// What rounding does to imagette samples

  /** The fields of an imagette: one of 16 bits. */
  lemma {:induction false} ImagetteFields(c: CfgSix)
    requires CfgIsValid(c, Imagette) && !c.mode.IsRaw()
    ensures var fs := FieldsOf(Imagette, c);
      && |fs| == 1 && ValidFields(fs) && fs[0].width == 2 && fs[0].p.round == c.round && RecSize(fs) == 2
  {
    FieldsOfValid(Imagette, c);
    assert Layout(Imagette) == [Slot(2, 1)];
    var fs := FieldsOf(Imagette, c);
    assert fs[1..] == [];
  }

  /** The fields of an imagette as the coders use them. */
  function SampleFields(c: CfgSix): (fs: seq<Field>)
    requires CfgIsValid(c, Imagette) && !c.mode.IsRaw()
    ensures fs == FieldsOf(Imagette, c) && ValidFields(fs) && RecSize(fs) == 2
  {
    FieldsOfValid(Imagette, c);
    FieldsOf(Imagette, c)
  }

  lemma {:induction false} RoundOne(fs: seq<Field>, rec: seq<byte>)
    requires |fs| == 1 && ValidFields(fs) && fs[0].width == 2 && RecSize(fs) == 2 == |rec|
    ensures |RoundRec(fs, rec)| == 2 && LittleEndian(RoundRec(fs, rec)) == RoundValue(LittleEndian(rec), fs[0].p.round)
  {
    RoundedField(fs[0], rec);
    assert fs[1..] == [] && RoundRec(fs[1..], rec[2..]) == [];
    assert RoundRec(fs, rec) == RoundField(fs[0], rec);
    assert rec[..2] == rec && RoundRec(fs, rec)[..2] == RoundRec(fs, rec);
  }

  lemma {:induction false} RoundFromSize(fs: seq<Field>, data: seq<byte>, pos: nat, n: nat)
    requires ValidFields(fs) && RecSize(fs) == 2 && pos + 2 * n == |data|
    ensures |RoundFrom(fs, data, pos)| == 2 * n
    decreases n
  {
    hide *;
    if n == 0 {
      NoSamples(fs, data, None, pos, data[..pos], []);
    } else {
      SamplesStep(fs, data, None, pos);
      RoundFromSize(fs, data, pos + 2, n - 1);
    }
  }

  lemma {:induction false} SampleInParts(out: seq<byte>, head: seq<byte>, tail: seq<byte>, off: nat)
    requires out == head + tail && |head| == 2 && off + 2 <= |out|
    ensures off == 0 ==> out[0..2] == head && SampleAt(out, 0) == LittleEndian(head)
    ensures off >= 2 ==> SampleAt(out, off) == SampleAt(tail, off - 2)
  {
    hide LittleEndian;
    if off == 0 { assert out[0..2] == head; }
    if off >= 2 { assert out[off..off + 2] == tail[off - 2..off]; }
  }

  /** Rounding a buffer rounds every sample: its low bits become zero. */
  lemma {:induction false} RoundedSample(fs: seq<Field>, data: seq<byte>, pos: nat, n: nat, i: nat, out: seq<byte>)
    requires |fs| == 1 && ValidFields(fs) && fs[0].width == 2 && RecSize(fs) == 2
    requires pos + 2 * n == |data| && i < n && out == RoundFrom(fs, data, pos) && |out| == 2 * n
    ensures SampleAt(out, 2 * i) == RoundValue(SampleAt(data, pos + 2 * i), fs[0].p.round)
    decreases n
  {
    hide *;
    SamplesStep(fs, data, None, pos);
    RoundOne(fs, data[pos..pos + 2]);
    var head, tail := RoundRec(fs, data[pos..pos + 2]), RoundFrom(fs, data, pos + 2);
    SampleInParts(out, head, tail, 2 * i);
    if i == 0 {
      SampleIs(data, pos);
    } else {
      RoundedSample(fs, data, pos + 2, n - 1, i - 1, tail);
    }
  }

  lemma {:induction false} SampleIs(data: seq<byte>, off: nat)
    requires off + 2 <= |data|
    ensures SampleAt(data, off) == LittleEndian(data[off..off + 2])
  {
  }

  /** The updated model of every imagette sample. */
  lemma {:induction false} UpdatedSample(fs: seq<Field>, data: seq<byte>, model: seq<byte>, mv: nat, n: nat, i: nat)
    requires |fs| == 1 && ValidFields(fs) && fs[0].width == 2 && RecSize(fs) == 2 && mv <= 16
    requires |data| == 2 * n == |model| && i < n
    ensures |UpFrom(fs, data, model, mv, 0)| == 2 * n
    ensures var r := Pow2(fs[0].p.round);
      SampleAt(UpFrom(fs, data, model, mv, 0), 2 * i)
        == (SampleAt(data, 2 * i) / r * r * (16 - mv) + SampleAt(model, 2 * i) * mv) / 16
  {
    hide *;
    ModelValueLimit();
    ImagetteSize(n);
    ImagetteSize(i);
    FieldStartStep(fs, 0);
    var up := UpFrom(fs, data, model, mv, 0);
    BytesStep(n, 2);
    UpFromSize(fs, data, model, mv, 0, n);
    UpdateIsMean(fs, n, data, model, mv, i, 0);
    MeanAtParts(fs, data, model, mv, up, 0, i, 0, 2 * i);
    assert 0 + 2 * i == 2 * i;
    IsMeanParts(ValueAt(up, 2 * i, 2), ValueAt(data, 2 * i, 2), ValueAt(model, 2 * i, 2), mv, fs[0].p.round);
    SampleIsValue(up, 2 * i);
    SampleIsValue(data, 2 * i);
    SampleIsValue(model, 2 * i);
  }

  //// compress_like_rdcu

  /** struct rdcu_cfg, without the buffers; pair is golomb_par and spill. */
  datatype RdcuCfg = RdcuCfg(mode: CmpMode, modelValue: word32, round: word32, pair: ParPair, ap1: ParPair, ap2: ParPair, bufferLength: nat)

  /** struct cmp_info */
  datatype CmpInfo = CmpInfo(mode: CmpMode, modelValue: word32, round: word32, pair: ParPair, samples: nat, cmpErr: bool, cmpSize: nat,
    ap1CmpSize: nat, ap2CmpSize: nat)

  /** The configuration for one parameter pair. */
  function ConfigWith(mode: CmpMode, modelValue: word32, round: word32, pair: ParPair): (c: CfgSix)
    ensures c.mode == mode && c.modelValue == modelValue && c.round == round
  {
    Cfg(mode, modelValue, round, [pair, NO_PAIR, NO_PAIR, NO_PAIR, NO_PAIR, NO_PAIR])
  }

  /** cmp_cfg_icu_is_invalid_error_code for an imagette. */
  function ConfigError(c: CfgSix, hasModel: bool): (e: Option<CmpError>)
    ensures e.None? <==> CfgIsValid(c, Imagette) && (c.mode.IsModel() ==> hasModel)
  {
    if !GenParsAreValid(c) then Some(ParGeneric)
    else if !SpecificParsAreValid(c, Imagette) then Some(ParSpecific)
    else if c.mode.IsModel() && !hasModel then Some(ParNoModel)
    else None
  }

  /** Which configurations are accepted, in the user's terms: one of the five modes, at most 3
      bits of rounding, outside raw mode a Golomb parameter in range with a threshold of at
      least 2 up to which the code words and 16 escape symbols have at most 32 bits; and in the
      model modes a model value of at most 16 and a model. */
  lemma {:induction false} ConfigAccepted(c: CfgSix, hasModel: bool)
    ensures ConfigError(c, hasModel).None? <==>
      && (c.mode == Raw || c.mode == ModelZero || c.mode == DiffZero || c.mode == ModelMulti || c.mode == DiffMulti)
      && c.round <= 3
      && (c.mode == ModelZero || c.mode == ModelMulti ==> c.modelValue <= 16 && hasModel)
      && (c.mode != Raw ==>
           && 1 <= c.pairs[0].par <= 0xFFFF && c.pairs[0].spill >= 2
           && |GolombCode(c.pairs[0].spill + 15, c.pairs[0].par)| <= 32)
  {
    ImagetteSlot(c);
    SlotAccepted(c);
    hide SpecificParsAreValid, GolombCode, SlotIsValid;
  }

  lemma {:induction false} ImagetteSlot(c: CfgSix)
    ensures SpecificParsAreValid(c, Imagette) <==> SlotIsValid(c, Slot(2, 1))
  {
    assert Layout(Imagette) == [Slot(2, 1)];
    hide SlotIsValid;
    assert Layout(Imagette)[0] == Slot(2, 1);
  }

  lemma {:induction false} SlotAccepted(c: CfgSix)
    ensures SlotIsValid(c, Slot(2, 1)) <==>
      c.mode.IsRaw() ||
      (c.mode.IsSupported() && 1 <= c.pairs[0].par <= 0xFFFF && c.pairs[0].spill >= 2
       && |GolombCode(c.pairs[0].spill + 15, c.pairs[0].par)| <= 32)
  {
    hide GolombCode, CmpIcuMaxSpill;
    if 1 <= c.pairs[0].par <= 0xFFFF { ThresholdLimit(c.pairs[0].par, c.pairs[0].spill); }
  }

  /** The bit length that a dry run gives. */
  function DrySize(c: CfgSix, src: seq<byte>, mdl: Option<seq<byte>>): (n: nat)
    requires CfgIsValid(c, Imagette)
  {
    if src == [] then 0
    else if c.mode.IsRaw() then 8 * |src|
    else
      FieldsOfValid(Imagette, c);
      |EncFrom(FieldsOf(Imagette, c), src, mdl, 0)|
  }

  lemma {:induction false} DryDone(c: CfgSix, src: seq<byte>, mdl: Option<seq<byte>>, m0: seq<byte>, m1: seq<byte>, u0: seq<byte>, u1: seq<byte>,
    streamSize: nat, r: Outcome<nat>)
    requires CfgIsValid(c, Imagette)
    requires InternalDone(c, Imagette, src, mdl, false, 0, null, m0, m1, u0, u1, streamSize, 0, r)
    ensures r == Ok(DrySize(c, src, mdl))
  {
    hide EncFrom, FieldsOf, ValidFields, RecSize, ModelUpdated, CfgIsValid;
  }

  lemma {:induction false} ImagetteSize(samples: nat)
    ensures SampleSize(Imagette) == 2 && BytesOf(samples, 2) == 2 * samples
  {
  }

  /** The size under an adaptive parameter pair, as the information structure has it before
      the compression: 0 if the parameter is not set or the configuration is not valid. */
  function AdaptiveSizeOf(c: CfgSix, src: seq<byte>, model: Option<seq<byte>>): (n: nat)
    requires model.Some? ==> |model.value| == |src|
  {
    if c.pairs[0].par != 0 && ConfigError(c, model.Some?).None? then DrySize(c, src, if c.mode.IsModel() then model else None) else 0
  }

  /** The size under other parameters, which are only tried if they are set and valid. */
  method AdaptiveSize(c: CfgSix, src: seq<byte>, samples: nat, model: array?<byte>, streamSize: nat) returns (n: nat)
    requires |src| == 2 * samples && (model != null ==> |src| <= model.Length) && 64 * |src| + 32 < W32
    ensures n == AdaptiveSizeOf(c, src, ModelOf(model != null, model, 0, |src|))
  {
    AdaptiveIs(c, src, model, |src|);
    hide *;
    n := 0;
    if c.pairs[0].par != 0 && ConfigError(c, model != null).None? {
      ImagetteSize(samples);
      ghost var mdl := ModelOf(c.mode.IsModel(), model, 0, |src|);
      ghost var m0, u0 := MemOf(null), MemOf(null);
      var r := CompressDataInternal(c, Imagette, src, samples, model, null, 0, null, streamSize, 0);
      DryDone(c, src, mdl, m0, MemOf(null), u0, MemOf(null), streamSize, r);
      n := r.value;
    }
  }

  lemma {:induction false} AdaptiveIs(c: CfgSix, src: seq<byte>, model: array?<byte>, n: nat)
    requires n == |src| && (model != null ==> n <= model.Length)
    ensures AdaptiveSizeOf(c, src, ModelOf(model != null, model, 0, n))
      == if c.pairs[0].par != 0 && ConfigError(c, model != null).None? then DrySize(c, src, ModelOf(c.mode.IsModel(), model, 0, n)) else 0
  {
    hide DrySize, CfgIsValid;
  }

  /** compress_like_rdcu: one imagette buffer with optional rounding. The information
      structure records what was used, and the sizes that the two adaptive parameter
      pairs would have given. */
  method CompressLikeRdcu(rcfg: RdcuCfg, src: seq<byte>, samples: nat, model: array?<byte>, newModel: array?<byte>, dst: array?<byte>)
    returns (r: Outcome<nat>, info: CmpInfo)
    requires |src| == 2 * samples && 64 * |src| + 32 < W32
    requires (model != null ==> |src| <= model.Length) && (newModel != null ==> |src| <= newModel.Length)
    requires dst != null ==> 2 * rcfg.bufferLength <= dst.Length && dst != model && dst != newModel
    modifies dst, newModel
    ensures var c := ConfigWith(rcfg.mode, rcfg.modelValue, rcfg.round, rcfg.pair);
      if ConfigError(c, model != null).Some? then
        r == Err(ConfigError(c, model != null).value) && MemOf(dst) == old(MemOf(dst)) && MemOf(newModel) == old(MemOf(newModel))
      else
        InternalDone(c, Imagette, src, old(ModelOf(c.mode.IsModel(), model, 0, |src|)), newModel != null, 0, dst,
          old(MemOf(dst)), MemOf(dst), old(MemOf(newModel)), MemOf(newModel), 2 * rcfg.bufferLength, 0, r)
    ensures info.mode == rcfg.mode && info.modelValue == rcfg.modelValue % 0x100 && info.round == rcfg.round % 0x100
    ensures info.pair == rcfg.pair && info.samples == samples
    ensures info.cmpErr <==> r == Err(SmallBuffer)
    ensures info.cmpSize == if r.Ok? then r.value else 0
    ensures var kept := r.Ok? || ConfigError(ConfigWith(rcfg.mode, rcfg.modelValue, rcfg.round, rcfg.pair), model != null).Some?;
      var mdl := old(ModelOf(model != null, model, 0, |src|));
      && info.ap1CmpSize == (if kept then AdaptiveSizeOf(ConfigWith(rcfg.mode, rcfg.modelValue, rcfg.round, rcfg.ap1), src, mdl) else 0)
      && info.ap2CmpSize == (if kept then AdaptiveSizeOf(ConfigWith(rcfg.mode, rcfg.modelValue, rcfg.round, rcfg.ap2), src, mdl) else 0)
  {
    hide *;
    var ap1 := AdaptiveSize(ConfigWith(rcfg.mode, rcfg.modelValue, rcfg.round, rcfg.ap1), src, samples, model, 2 * rcfg.bufferLength);
    var ap2 := AdaptiveSize(ConfigWith(rcfg.mode, rcfg.modelValue, rcfg.round, rcfg.ap2), src, samples, model, 2 * rcfg.bufferLength);
    var c := ConfigWith(rcfg.mode, rcfg.modelValue, rcfg.round, rcfg.pair);
    info := CmpInfo(rcfg.mode, rcfg.modelValue % 0x100, rcfg.round % 0x100, rcfg.pair, samples, false, 0, ap1, ap2);
    var e := ConfigError(c, model != null);
    if e.Some? {
      NotSmallBuffer(c, model != null);
      return Err(e.value), info;
    }
    ImagetteSize(samples);
    r := CompressDataInternal(c, Imagette, src, samples, model, newModel, 0, dst, 2 * rcfg.bufferLength, 0);
    match r {
      case Ok(n) => info := info.(cmpSize := n);
      case Err(e) => info := info.(cmpErr := e == SmallBuffer, ap1CmpSize := 0, ap2CmpSize := 0);
    }
  }

  lemma {:induction false} NotSmallBuffer(c: CfgSix, hasModel: bool)
    ensures ConfigError(c, hasModel) != Some(SmallBuffer)
  {
  }

  //// decompress_rdcu_data

  /** The configuration that the information structure describes. */
  function InfoConfig(info: CmpInfo): (c: CfgSix)
  {
    ConfigWith(info.mode, info.modelValue, info.round, info.pair)
  }

  /** The samples that a bitstream stands for. */
  function ReadSamples(c: CfgSix, bytes: seq<byte>, samples: nat, mdl: Option<seq<byte>>): (s: Option<Packed>)
    requires CfgIsValid(c, Imagette) && !c.mode.IsRaw() && (mdl.Some? ==> |mdl.value| == 2 * samples && c.modelValue <= MAX_MODEL_VALUE)
  {
    FieldsOfValid(Imagette, c);
    match DecFrom(FieldsOf(Imagette, c), 2 * samples, mdl, [], BytesBits(bytes))
    case None => None
    case Some((data, _)) =>
      if |data| != 2 * samples then None
      else Some(Packed(data, if mdl.Some? then UpFrom(FieldsOf(Imagette, c), data, mdl.value, c.modelValue, 0) else []))
  }

  /** The buffers after a decompression, which went well exactly if the samples were readable. */
  ghost predicate SamplesStored(s: Option<Packed>, n: nat, dst: array<byte>, m0: seq<byte>, m1: seq<byte>, does: bool, u0: seq<byte>,
    u1: seq<byte>, err: bool)
  {
    && (s.Some? <==> !err)
    && Region(dst, m0, m1, 0, n, if s.Some? then Some(s.value.bytes) else None)
    && UpRegion(does, u0, u1, 0, n, if s.Some? then Some(s.value.model) else None)
  }

  lemma {:induction false} SamplesStoredOf(c: CfgSix, bytes: seq<byte>, samples: nat, mdl: Option<seq<byte>>, fs: seq<Field>, err: bool,
    data: seq<byte>, rest: seq<bool>, dst: array<byte>, m0: seq<byte>, m1: seq<byte>, hasUp: bool, u0: seq<byte>, u1: seq<byte>)
    requires CfgIsValid(c, Imagette) && !c.mode.IsRaw() && (mdl.Some? ==> |mdl.value| == 2 * samples && c.modelValue <= MAX_MODEL_VALUE)
    requires fs == FieldsOf(Imagette, c) && ValidFields(fs) && RecSize(fs) > 0 && |data| <= 2 * samples && (!err ==> |data| == 2 * samples)
    requires 2 * samples <= |m0| && (mdl.Some? && hasUp ==> 2 * samples <= |u0|) && m1 == Splice(m0, 0, data)
    requires UpdatedFrom(fs, data, mdl, hasUp, c.modelValue, 0, u0, u1)
    requires !err ==> UpDone(fs, data, mdl, hasUp, c.modelValue, 0, u0, u1)
    requires DecFrom(fs, 2 * samples, mdl, [], BytesBits(bytes)) == if err then None else Some((data, rest))
    ensures SamplesStored(ReadSamples(c, bytes, samples, mdl), 2 * samples, dst, m0, m1, mdl.Some? && hasUp, u0, u1, err)
  {
    hide *;
    var s := ReadSamples(c, bytes, samples, mdl);
    ReadSamplesParts(c, bytes, samples, mdl);
    RegionsOf(s, fs, data, mdl, hasUp, c.modelValue, 0, 2 * samples, dst, m0, m1, u0, u1, err);
    SamplesStoredIs(s, 2 * samples, dst, m0, m1, mdl.Some? && hasUp, u0, u1, err);
  }

  lemma {:induction false} SamplesStoredIs(s: Option<Packed>, n: nat, dst: array<byte>, m0: seq<byte>, m1: seq<byte>, does: bool,
    u0: seq<byte>, u1: seq<byte>, err: bool)
    requires (s.Some? <==> !err) && Region(dst, m0, m1, 0, n, if s.Some? then Some(s.value.bytes) else None)
    requires UpRegion(does, u0, u1, 0, n, if s.Some? then Some(s.value.model) else None)
    ensures SamplesStored(s, n, dst, m0, m1, does, u0, u1, err)
  {
    hide Region, UpRegion;
  }

  lemma {:induction false} ReadSamplesParts(c: CfgSix, bytes: seq<byte>, samples: nat, mdl: Option<seq<byte>>)
    requires CfgIsValid(c, Imagette) && !c.mode.IsRaw() && (mdl.Some? ==> |mdl.value| == 2 * samples && c.modelValue <= MAX_MODEL_VALUE)
    requires ValidFields(FieldsOf(Imagette, c)) && RecSize(FieldsOf(Imagette, c)) > 0
    ensures ReadSamples(c, bytes, samples, mdl).None? ==>
      var r := DecFrom(FieldsOf(Imagette, c), 2 * samples, mdl, [], BytesBits(bytes));
      r.Some? ==> |r.value.0| != 2 * samples
    ensures ReadSamples(c, bytes, samples, mdl).Some? ==>
      var fs := FieldsOf(Imagette, c);
      && DecFrom(fs, 2 * samples, mdl, [], BytesBits(bytes)).Some?
      && var (data, rest) := DecFrom(fs, 2 * samples, mdl, [], BytesBits(bytes)).value;
         |data| == 2 * samples
         && ReadSamples(c, bytes, samples, mdl).value
              == Packed(data, if mdl.Some? then UpFrom(fs, data, mdl.value, c.modelValue, 0) else [])
  {
    hide DecFrom, UpFrom, FieldsOf, ValidFields, RecSize, CfgIsValid, BytesBits;
  }

  /** The sample loop of decompressed_data_internal for an imagette without a header. */
  method ReadImagette(c: CfgSix, bytes: seq<byte>, samples: nat, ghost mdl: Option<seq<byte>>, model: array?<byte>, up: array?<byte>,
    dst: array<byte>) returns (err: bool)
    requires CfgIsValid(c, Imagette) && !c.mode.IsRaw() && samples > 0
    requires mdl.Some? == c.mode.IsModel() && (mdl.Some? ==> |mdl.value| == 2 * samples && c.modelValue <= MAX_MODEL_VALUE)
    requires c.mode.IsModel() ==> model != null && 2 * samples <= model.Length
    requires mdl == ModelOf(c.mode.IsModel(), model, 0, 2 * samples)
    requires c.mode.IsModel() && up != null ==> 2 * samples <= up.Length == |MemOf(up)|
    requires 2 * samples <= dst.Length && dst != model && dst != up
    modifies dst, up
    ensures SamplesStored(ReadSamples(c, bytes, samples, mdl), 2 * samples, dst, old(dst[..]), dst[..], c.mode.IsModel() && up != null,
      old(MemOf(up)), MemOf(up), err)
  {
    hide *;
    ghost var m0, u0 := dst[..], MemOf(up);
    ImagetteFields(c);
    FieldsOfValid(Imagette, c);
    ImagetteSize(samples);
    var fs := FieldsOf(Imagette, c);
    var dec := new BitDecoder(bytes);
    ghost var data;
    err, data := DecompressSamples(fs, c.mode.IsModel(), c.modelValue, samples, dst, 0, model, up, 0, dec);
    SamplesStoredOf(c, bytes, samples, mdl, fs, err, data, dec.Rest(), dst, m0, dst[..], up != null, u0, MemOf(up));
  }

  /** What decompress_rdcu_data does: the samples that the bitstream stands for, or in raw
      mode the data in the other byte order. */
  ghost predicate RdcuRead(info: CmpInfo, compressed: seq<byte>, mdl: Option<seq<byte>>, hasModel: bool, dst: array?<byte>,
    m0: seq<byte>, m1: seq<byte>, hasUp: bool, u0: seq<byte>, u1: seq<byte>, r: int)
    requires (info.cmpSize + 7) / 8 <= |compressed|
  {
    var c := InfoConfig(info);
    if info.cmpErr || ConfigError(c, hasModel).Some? then r == -1 && m1 == m0 && u1 == u0
    else if c.mode.IsRaw() then
      && u1 == u0
      && (if dst == null then r == 2 * info.samples && m1 == m0
          else 2 * info.samples <= |compressed| && 2 * info.samples <= |m0| && SwapData(Imagette, compressed[..2 * info.samples]).Some?
               && r == 2 * info.samples && m1 == Splice(m0, 0, SwapData(Imagette, compressed[..2 * info.samples]).value))
    else if dst == null then r == 2 * info.samples && m1 == m0 && u1 == u0
    else CodedRead(c, compressed[..(info.cmpSize + 7) / 8], info.samples, mdl, dst, m0, m1, hasUp, u0, u1, r)
  }

  /** The part of it that reads coded samples. */
  ghost predicate CodedRead(c: CfgSix, bytes: seq<byte>, samples: nat, mdl: Option<seq<byte>>, dst: array<byte>, m0: seq<byte>, m1: seq<byte>,
    hasUp: bool, u0: seq<byte>, u1: seq<byte>, r: int)
  {
    && CfgIsValid(c, Imagette) && !c.mode.IsRaw() && (mdl.Some? ==> |mdl.value| == 2 * samples && c.modelValue <= MAX_MODEL_VALUE)
    && SamplesStored(ReadSamples(c, bytes, samples, mdl), 2 * samples, dst, m0, m1, c.mode.IsModel() && hasUp, u0, u1, r != 2 * samples)
    && (r == 2 * samples || r == -1)
  }

  /** decompress_rdcu_data. Outside raw mode there must be samples, as the loop assumes. */
  method DecompressRdcuData(compressed: seq<byte>, info: CmpInfo, model: array?<byte>, up: array?<byte>, dst: array?<byte>) returns (r: int)
    requires (info.cmpSize + 7) / 8 <= |compressed| && (info.mode.IsRaw() ==> 2 * info.samples <= |compressed|)
    requires info.samples > 0 || info.mode.IsRaw()
    requires model != null ==> 2 * info.samples <= model.Length
    requires up != null ==> 2 * info.samples <= up.Length
    requires dst != null ==> 2 * info.samples <= dst.Length && dst != model && dst != up
    modifies dst, up
    ensures RdcuRead(info, compressed, old(ModelOf(info.mode.IsModel() && model != null, model, 0, 2 * info.samples)), model != null, dst,
      old(MemOf(dst)), MemOf(dst), up != null, old(MemOf(up)), MemOf(up), r)
  {
    hide *;
    var c := InfoConfig(info);
    InfoMode(info);
    ghost var mdl, m0, u0 := ModelOf(info.mode.IsModel() && model != null, model, 0, 2 * info.samples), MemOf(dst), MemOf(up);
    ModelOfIs(info.mode.IsModel() && model != null, model, 0, 2 * info.samples);
    if info.cmpErr || ConfigError(c, model != null).Some? {
      r := -1;
      RdcuRejects(info, compressed, mdl, model != null, dst, m0, up != null, u0);
    } else {
      ValidModelValue(c);
      RawSamples(compressed, info.samples, info.mode);
      if info.mode.IsRaw() {
        if dst != null {
          var data := compressed[..2 * info.samples];
          MemOfA(dst);
          var ok := CopySwapped(dst, 0, data, Imagette);
          MemOfA(dst);
        }
        r := 2 * info.samples;
      } else if dst == null {
        r := 2 * info.samples;
      } else {
        MemSizesOf(dst, up);
        var err := ReadImagette(c, compressed[..(info.cmpSize + 7) / 8], info.samples, mdl, model, up, dst);
        MemSizesOf(dst, up);
        r := if err then -1 else 2 * info.samples;
      }
      RdcuReads(info, compressed, mdl, model != null, dst, m0, MemOf(dst), up != null, u0, MemOf(up), r);
    }
  }

  lemma {:induction false} InfoMode(info: CmpInfo)
    ensures InfoConfig(info).mode == info.mode
  {
  }

  lemma {:induction false} ValidModelValue(c: CfgSix)
    requires CfgIsValid(c, Imagette)
    ensures c.mode.IsModel() ==> c.modelValue <= MAX_MODEL_VALUE && !c.mode.IsRaw()
  {
    hide SpecificParsAreValid;
  }

  lemma {:induction false} RawSamples(compressed: seq<byte>, samples: nat, mode: CmpMode)
    requires mode.IsRaw() ==> 2 * samples <= |compressed|
    ensures mode.IsRaw() ==> SwapData(Imagette, compressed[..2 * samples]).Some?
  {
    ImagetteSize(samples);
    hide SwapRecords, SampleSize;
  }

  lemma {:induction false} RdcuRejects(info: CmpInfo, compressed: seq<byte>, mdl: Option<seq<byte>>, hasModel: bool, dst: array?<byte>,
    m: seq<byte>, hasUp: bool, u: seq<byte>)
    requires (info.cmpSize + 7) / 8 <= |compressed| && (info.cmpErr || ConfigError(InfoConfig(info), hasModel).Some?)
    ensures RdcuRead(info, compressed, mdl, hasModel, dst, m, m, hasUp, u, u, -1)
  {
    hide ConfigError, InfoConfig;
  }

  lemma {:induction false} RdcuReads(info: CmpInfo, compressed: seq<byte>, mdl: Option<seq<byte>>, hasModel: bool, dst: array?<byte>,
    m0: seq<byte>, m1: seq<byte>, hasUp: bool, u0: seq<byte>, u1: seq<byte>, r: int)
    requires (info.cmpSize + 7) / 8 <= |compressed| && !info.cmpErr && ConfigError(InfoConfig(info), hasModel).None?
    requires mdl.Some? ==> |mdl.value| == 2 * info.samples && InfoConfig(info).modelValue <= MAX_MODEL_VALUE
    requires CfgIsValid(InfoConfig(info), Imagette) && InfoConfig(info).mode == info.mode
    requires if info.mode.IsRaw() then
        u1 == u0 && r == 2 * info.samples && (dst == null ==> m1 == m0)
        && (dst != null ==>
              2 * info.samples <= |compressed| && 2 * info.samples <= |m0| && SwapData(Imagette, compressed[..2 * info.samples]).Some?
              && m1 == Splice(m0, 0, SwapData(Imagette, compressed[..2 * info.samples]).value))
      else if dst == null then r == 2 * info.samples && m1 == m0 && u1 == u0
      else
        SamplesStored(ReadSamples(InfoConfig(info), compressed[..(info.cmpSize + 7) / 8], info.samples, mdl), 2 * info.samples, dst, m0, m1,
          info.mode.IsModel() && hasUp, u0, u1, r != 2 * info.samples) && (r == 2 * info.samples || r == -1)
    ensures RdcuRead(info, compressed, mdl, hasModel, dst, m0, m1, hasUp, u0, u1, r)
  {
    hide ConfigError, InfoConfig, ReadSamples, SamplesStored, SwapData, CfgIsValid, Splice;
  }

  //// The lossy round trip

  /** A bitstream of imagette samples is read back as the rounded samples, and the model
      updated from the rounded samples is the one updated from the original ones. */
  lemma {:induction false} ReadBackRounded(c: CfgSix, src: seq<byte>, samples: nat, mdl: Option<seq<byte>>)
    requires CfgIsValid(c, Imagette) && !c.mode.IsRaw() && |src| == 2 * samples
    requires mdl.Some? ==> |mdl.value| == 2 * samples && c.modelValue <= MAX_MODEL_VALUE
    ensures var fs := SampleFields(c);
      ReadSamples(c, PackBits(EncFrom(fs, src, mdl, 0)), samples, mdl)
        == Some(Packed(RoundFrom(fs, src, 0), if mdl.Some? then UpFrom(fs, src, mdl.value, c.modelValue, 0) else []))
    ensures |RoundFrom(SampleFields(c), src, 0)| == 2 * samples
  {
    hide *;
    ImagetteFields(c);
    var fs := SampleFields(c);
    var bits, out := EncFrom(fs, src, mdl, 0), RoundFrom(fs, src, 0);
    RoundFromSize(fs, src, 0, samples);
    DecFromInverts(fs, src, mdl, 0, [], Zeros(PadLen(|bits|, 8)));
    assert [] + out == out;
    if mdl.Some? {
      HoldsAll(fs, src, out);
      UpFromOfRounded(fs, src, out, mdl.value, c.modelValue, 0);
    }
    ReadSamplesIs(c, PackBits(bits), samples, mdl, out, Zeros(PadLen(|bits|, 8)));
  }

  lemma {:induction false} HoldsAll(fs: seq<Field>, data: seq<byte>, out: seq<byte>)
    requires ValidFields(fs) && RecSize(fs) > 0 && out == RoundFrom(fs, data, 0) && |out| == |data|
    ensures HoldsRounded(fs, data, out, 0)
  {
    assert out[0..] == out;
  }

  lemma {:induction false} ReadSamplesIs(c: CfgSix, bytes: seq<byte>, samples: nat, mdl: Option<seq<byte>>, data: seq<byte>, rest: seq<bool>)
    requires CfgIsValid(c, Imagette) && !c.mode.IsRaw() && (mdl.Some? ==> |mdl.value| == 2 * samples && c.modelValue <= MAX_MODEL_VALUE)
    requires ValidFields(FieldsOf(Imagette, c)) && RecSize(FieldsOf(Imagette, c)) > 0 && |data| == 2 * samples
    requires DecFrom(FieldsOf(Imagette, c), 2 * samples, mdl, [], BytesBits(bytes)) == Some((data, rest))
    ensures ReadSamples(c, bytes, samples, mdl)
      == Some(Packed(data, if mdl.Some? then UpFrom(FieldsOf(Imagette, c), data, mdl.value, c.modelValue, 0) else []))
  {
    hide DecFrom, UpFrom, FieldsOf, ValidFields, RecSize, CfgIsValid, BytesBits;
  }

  /** out holds every sample of src with its round low bits cleared. */
  ghost predicate IsRounded(src: seq<byte>, out: seq<byte>, samples: nat, round: nat)
  {
    |src| == |out| == 2 * samples
    && forall i :: 0 <= i < samples ==> SampleAt(out, 2 * i) == SampleAt(src, 2 * i) / Pow2(round) * Pow2(round)
  }

  lemma {:induction false} RoundedOut(c: CfgSix, src: seq<byte>, samples: nat, out: seq<byte>)
    requires CfgIsValid(c, Imagette) && !c.mode.IsRaw() && |src| == 2 * samples
    requires out == RoundFrom(SampleFields(c), src, 0) && |out| == 2 * samples
    ensures IsRounded(src, out, samples, c.round)
  {
    ImagetteFields(c);
    RoundIsSmall(SampleFields(c)[0]);
    hide FieldsOf, RoundFrom, RoundValue, ValidFields, RecSize, CfgIsValid, SampleAt, Pow2;
    forall i: nat | i < samples
      ensures SampleAt(out, 2 * i) == SampleAt(src, 2 * i) / Pow2(c.round) * Pow2(c.round)
    {
      RoundedSample(SampleFields(c), src, 0, samples, i, out);
      RoundValueIs(SampleAt(src, 2 * i), c.round);
    }
  }

  /** THE LOSSY ROUND TRIP. A compressed imagette buffer, rounded by 0 to 3 bits in any
      coding mode, comes back with every sample x as (x >> round) << round, at every
      position and also in 1-D differencing, so errors do not add up; and the updated
      models of both sides are the same bytes. */
  lemma {:induction false} LossyRoundTrip(c: CfgSix, src: seq<byte>, samples: nat, mdl: Option<seq<byte>>)
    requires CfgIsValid(c, Imagette) && !c.mode.IsRaw() && |src| == 2 * samples
    requires mdl.Some? ==> |mdl.value| == 2 * samples && c.modelValue <= MAX_MODEL_VALUE
    ensures var s := ReadSamples(c, PackBits(EncFrom(SampleFields(c), src, mdl, 0)), samples, mdl);
      && s.Some? && IsRounded(src, s.value.bytes, samples, c.round)
      && (mdl.Some? ==> s.value.model == UpFrom(SampleFields(c), src, mdl.value, c.modelValue, 0))
  {
    hide *;
    ReadBackRounded(c, src, samples, mdl);
    RoundedOut(c, src, samples, RoundFrom(SampleFields(c), src, 0));
  }

  //// Both directions on real buffers

  /** The information structure keeps everything the decompressor uses. */
  lemma {:induction false} InfoKeepsConfig(c: CfgSix, info: CmpInfo, hasModel: bool)
    requires ConfigError(c, hasModel).None? && c == ConfigWith(c.mode, c.modelValue, c.round, c.pairs[0])
    requires info.mode == c.mode && info.modelValue == c.modelValue % 0x100 && info.round == c.round % 0x100 && info.pair == c.pairs[0]
    ensures ConfigError(InfoConfig(info), hasModel).None? && InfoConfig(info).mode == c.mode && InfoConfig(info).round == c.round
    ensures c.mode.IsModel() ==> InfoConfig(info) == c && hasModel
    ensures FieldsOf(Imagette, InfoConfig(info)) == FieldsOf(Imagette, c)
  {
    var d := InfoConfig(info);
    assert d.pairs == c.pairs;
    assert Layout(Imagette) == [Slot(2, 1)];
    assert Layout(Imagette)[1..] == [];
  }

  /** A finished compression outside raw mode wrote the bits of the samples. */
  lemma {:induction false} CodedParts(c: CfgSix, src: seq<byte>, mdl: Option<seq<byte>>, hasUp: bool, dst: array<byte>, m0: seq<byte>,
    m1: seq<byte>, u0: seq<byte>, u1: seq<byte>, size: nat, r: Outcome<nat>)
    requires InternalDone(c, Imagette, src, mdl, hasUp, 0, dst, m0, m1, u0, u1, size, 0, r) && r.Ok? && src != [] && !c.mode.IsRaw()
    ensures var fs := FieldsOf(Imagette, c);
      && ValidFields(fs) && RecSize(fs) > 0 && (mdl.Some? ==> |mdl.value| == |src| && c.modelValue <= MAX_MODEL_VALUE)
      && CodedWritten(dst, m0, m1, StreamSizeToBits(size), 0, EncFrom(fs, src, mdl, 0), r)
      && ModelUpdated(fs, src, mdl, hasUp, c.modelValue, 0, u0, u1, true)
  {
    hide EncFrom, FieldsOf, ValidFields, RecSize, ModelUpdated, CodedWritten, StreamSizeToBits;
  }

  lemma {:induction false} FrontBytes(dst: array<byte>, m0: seq<byte>, m1: seq<byte>, size: nat, bits: seq<bool>, r: Outcome<nat>)
    requires CodedWritten(dst, m0, m1, StreamSizeToBits(size), 0, bits, r) && r.Ok? && size <= |m0|
    ensures r.value == |bits| && (r.value + 7) / 8 <= |m1| && m1[..(r.value + 7) / 8] == PackBits(bits)
  {
    hide PutBits, PackBits, StreamSizeToBits;
    CapacityHolds(size);
    PackedAt(m0, 0, bits, |m0|);
    assert m1[0..0 + |PackBits(bits)|] == m1[..|PackBits(bits)|];
  }

  /** A finished compression left the packed bits at the front of the destination. */
  lemma {:induction false} PackedInFront(c: CfgSix, src: seq<byte>, mdl: Option<seq<byte>>, hasUp: bool, dst: array<byte>, m0: seq<byte>,
    m1: seq<byte>, u0: seq<byte>, u1: seq<byte>, size: nat, r: Outcome<nat>)
    requires InternalDone(c, Imagette, src, mdl, hasUp, 0, dst, m0, m1, u0, u1, size, 0, r) && r.Ok?
    requires src != [] && !c.mode.IsRaw() && size <= |m0|
    ensures var fs := FieldsOf(Imagette, c);
      && ValidFields(fs) && RecSize(fs) > 0 && (mdl.Some? ==> |mdl.value| == |src| && c.modelValue <= MAX_MODEL_VALUE)
      && (r.value + 7) / 8 <= |m1| && m1[..(r.value + 7) / 8] == PackBits(EncFrom(fs, src, mdl, 0))
      && ModelUpdated(fs, src, mdl, hasUp, c.modelValue, 0, u0, u1, true)
  {
    hide *;
    CodedParts(c, src, mdl, hasUp, dst, m0, m1, u0, u1, size, r);
    FrontBytes(dst, m0, m1, size, EncFrom(FieldsOf(Imagette, c), src, mdl, 0), r);
  }

  lemma {:induction false} CapacityHolds(size: nat)
    ensures StreamSizeToBits(size) <= 8 * size
  {
  }

  /** What a round trip promises of the data, the updated models and the returned size. */
  ghost predicate CameBack(c: CfgSix, src: seq<byte>, samples: nat, out: seq<byte>, up1: seq<byte>, up2: seq<byte>, hasUps: bool, s: int)
  {
    && s == 2 * samples == |src| && |src| <= |out|
    && (if c.mode.IsRaw() then out[..|src|] == src else IsRounded(src, out[..|src|], samples, c.round))
    && (c.mode.IsModel() && hasUps ==> |src| <= |up1| && |src| <= |up2| && up1[..|src|] == up2[..|src|])
  }

  lemma {:induction false} SpliceFront(m: seq<byte>, s: seq<byte>)
    requires |s| <= |m|
    ensures Splice(m, 0, s)[..|s|] == s
  {
  }

  lemma {:induction false} CodedCameBack(c: CfgSix, src: seq<byte>, samples: nat, mdl: Option<seq<byte>>, dst: array<byte>, d0: seq<byte>,
    d1: seq<byte>, v0: seq<byte>, v1: seq<byte>, size: nat, n: Outcome<nat>, info: CmpInfo, compressed: seq<byte>, out: array<byte>,
    m0: seq<byte>, m1: seq<byte>, u0: seq<byte>, u1: seq<byte>, hasNew: bool, hasUp: bool, hasModel: bool, s: int)
    requires ConfigError(c, hasModel).None? && c == ConfigWith(c.mode, c.modelValue, c.round, c.pairs[0]) && !c.mode.IsRaw()
    requires info.mode == c.mode && info.modelValue == c.modelValue % 0x100 && info.round == c.round % 0x100 && info.pair == c.pairs[0]
    requires |src| == 2 * samples && samples > 0 && size <= |d0| && mdl.Some? == c.mode.IsModel() && info.samples == samples
    requires InternalDone(c, Imagette, src, mdl, hasNew, 0, dst, d0, d1, v0, v1, size, 0, n) && n.Ok?
    requires !info.cmpErr && info.cmpSize == n.value && (n.value + 7) / 8 <= |d1| && compressed == d1[..(n.value + 7) / 8]
    requires RdcuRead(info, compressed, mdl, hasModel, out, m0, m1, hasUp, u0, u1, s)
    ensures CameBack(c, src, samples, m1, v1, u1, hasNew && hasUp, s)
  {
    hide *;
    InfoKeepsConfig(c, info, hasModel);
    assert compressed[..(info.cmpSize + 7) / 8] == compressed;
    PackedInFront(c, src, mdl, hasNew, dst, d0, d1, v0, v1, size, n);
    ConfigIsValid(c, hasModel);
    LossyRoundTrip(c, src, samples, mdl);
    var d := InfoConfig(info);
    ConfigIsValid(d, hasModel);
    SameSamples(c, d, compressed, samples, mdl);
    ReadsOf(d, info, compressed, mdl, hasModel, out, m0, m1, hasUp, u0, u1, s);
    var p := ReadSamples(c, compressed, samples, mdl).value;
    var want := if mdl.Some? then UpFrom(FieldsOf(Imagette, c), src, mdl.value, c.modelValue, 0) else [];
    UpdatedModelIs(c, src, mdl, hasNew, v0, v1, want);
    CodedReadIs(d, compressed, samples, mdl, p, out, m0, m1, hasUp, u0, u1, s);
    CameBackOf(c, src, samples, p.bytes, m1, v1, u1, hasNew && hasUp, s);
  }

  lemma {:induction false} ConfigIsValid(c: CfgSix, hasModel: bool)
    requires ConfigError(c, hasModel).None?
    ensures CfgIsValid(c, Imagette) && (c.mode.IsModel() ==> c.modelValue <= MAX_MODEL_VALUE)
  {
    hide SpecificParsAreValid;
  }

  /** Only the model value may differ, and only when it is not used. */
  lemma {:induction false} SameSamples(c: CfgSix, d: CfgSix, bytes: seq<byte>, samples: nat, mdl: Option<seq<byte>>)
    requires CfgIsValid(c, Imagette) && CfgIsValid(d, Imagette) && !c.mode.IsRaw() && c.mode == d.mode
    requires mdl.Some? ==> |mdl.value| == 2 * samples && c.modelValue <= MAX_MODEL_VALUE && c == d
    requires FieldsOf(Imagette, c) == FieldsOf(Imagette, d)
    ensures ReadSamples(d, bytes, samples, mdl) == ReadSamples(c, bytes, samples, mdl)
  {
    hide DecFrom, UpFrom, FieldsOf, CfgIsValid, BytesBits;
  }

  lemma {:induction false} ReadsOf(c: CfgSix, info: CmpInfo, compressed: seq<byte>, mdl: Option<seq<byte>>, hasModel: bool,
    out: array<byte>, m0: seq<byte>, m1: seq<byte>, hasUp: bool, u0: seq<byte>, u1: seq<byte>, r: int)
    requires (info.cmpSize + 7) / 8 <= |compressed| && !info.cmpErr && c == InfoConfig(info) && ConfigError(c, hasModel).None?
    requires !c.mode.IsRaw() && RdcuRead(info, compressed, mdl, hasModel, out, m0, m1, hasUp, u0, u1, r)
    ensures CodedRead(c, compressed[..(info.cmpSize + 7) / 8], info.samples, mdl, out, m0, m1, hasUp, u0, u1, r)
  {
    hide ConfigError, InfoConfig, SwapData, Splice, CodedRead;
  }

  lemma {:induction false} CodedReadIs(c: CfgSix, bytes: seq<byte>, samples: nat, mdl: Option<seq<byte>>, p: Packed, out: array<byte>,
    m0: seq<byte>, m1: seq<byte>, hasUp: bool, u0: seq<byte>, u1: seq<byte>, r: int)
    requires CodedRead(c, bytes, samples, mdl, out, m0, m1, hasUp, u0, u1, r)
    requires ReadSamples(c, bytes, samples, mdl) == Some(p)
    ensures r == 2 * samples == |p.bytes| <= |m1| && m1[..2 * samples] == p.bytes
    ensures c.mode.IsModel() && hasUp ==> |p.model| == 2 * samples <= |u1| && u1[..2 * samples] == p.model
  {
    hide ReadSamples, SamplesStored, CfgIsValid;
    StoredIs(p, 2 * samples, out, m0, m1, c.mode.IsModel() && hasUp, u0, u1, r != 2 * samples);
  }

  lemma {:induction false} UpdatedModelIs(c: CfgSix, src: seq<byte>, mdl: Option<seq<byte>>, hasUp: bool, u0: seq<byte>, u1: seq<byte>,
    want: seq<byte>)
    requires ValidFields(FieldsOf(Imagette, c)) && RecSize(FieldsOf(Imagette, c)) > 0
    requires mdl.Some? ==> |mdl.value| == |src| && c.modelValue <= MAX_MODEL_VALUE
    requires want == if mdl.Some? then UpFrom(FieldsOf(Imagette, c), src, mdl.value, c.modelValue, 0) else []
    requires ModelUpdated(FieldsOf(Imagette, c), src, mdl, hasUp, c.modelValue, 0, u0, u1, true)
    ensures mdl.Some? && hasUp ==> |want| == |src| <= |u1| && u1[..|src|] == want
  {
    hide FieldsOf, UpFrom, ValidFields, RecSize, Splice;
    if mdl.Some? && hasUp { SpliceFront(u0, want); }
  }

  lemma {:induction false} StoredIs(p: Packed, n: nat, out: array<byte>, m0: seq<byte>, m1: seq<byte>, does: bool, u0: seq<byte>,
    u1: seq<byte>, err: bool)
    requires SamplesStored(Some(p), n, out, m0, m1, does, u0, u1, err)
    ensures !err && |p.bytes| == n <= |m1| && m1[..n] == p.bytes
    ensures does ==> |p.model| == n <= |u1| && u1[..n] == p.model
  {
    hide Splice;
    SpliceFront(m0, p.bytes);
    if does { SpliceFront(u0, p.model); }
  }

  lemma {:induction false} CameBackOf(c: CfgSix, src: seq<byte>, samples: nat, data: seq<byte>, out: seq<byte>, up1: seq<byte>,
    up2: seq<byte>, hasUps: bool, s: int)
    requires |src| == 2 * samples == s && |src| <= |out| && out[..|src|] == data && !c.mode.IsRaw()
    requires IsRounded(src, data, samples, c.round)
    requires c.mode.IsModel() && hasUps ==> |src| <= |up1| && |src| <= |up2| && up1[..|src|] == up2[..|src|]
    ensures CameBack(c, src, samples, out, up1, up2, hasUps, s)
  {
    hide IsRounded;
  }

  lemma {:induction false} RawCameBack(c: CfgSix, src: seq<byte>, samples: nat, mdl: Option<seq<byte>>, dst: array<byte>, d0: seq<byte>,
    d1: seq<byte>, v0: seq<byte>, v1: seq<byte>, size: nat, n: Outcome<nat>, info: CmpInfo, compressed: seq<byte>, out: array<byte>,
    m0: seq<byte>, m1: seq<byte>, u0: seq<byte>, u1: seq<byte>, hasNew: bool, hasUp: bool, hasModel: bool, s: int)
    requires ConfigError(c, hasModel).None? && c == ConfigWith(c.mode, c.modelValue, c.round, c.pairs[0]) && c.mode.IsRaw()
    requires info.mode == c.mode && info.modelValue == c.modelValue % 0x100 && info.round == c.round % 0x100 && info.pair == c.pairs[0]
    requires |src| == 2 * samples && samples > 0 && info.samples == samples
    requires InternalDone(c, Imagette, src, mdl, hasNew, 0, dst, d0, d1, v0, v1, size, 0, n) && n.Ok?
    requires !info.cmpErr && info.cmpSize == n.value && (n.value + 7) / 8 <= |d1| && compressed == d1[..(n.value + 7) / 8]
    requires RdcuRead(info, compressed, mdl, hasModel, out, m0, m1, hasUp, u0, u1, s)
    ensures CameBack(c, src, samples, m1, v1, u1, hasNew && hasUp, s)
  {
    InfoKeepsConfig(c, info, hasModel);
    hide ConfigError, InfoConfig, SwapData, Splice, FieldsOf, CfgIsValid, ReadSamples, SamplesStored;
    var swapped := SwapData(Imagette, src).value;
    SpliceFront(d0, swapped);
    SwapDataTwice(Imagette, src);
    assert compressed[..2 * samples] == swapped;
    SpliceFront(m0, src);
  }

  lemma {:induction false} RawSize(c: CfgSix, src: seq<byte>, mdl: Option<seq<byte>>, hasUp: bool, dst: array<byte>, m0: seq<byte>,
    m1: seq<byte>, u0: seq<byte>, u1: seq<byte>, size: nat, r: Outcome<nat>)
    requires InternalDone(c, Imagette, src, mdl, hasUp, 0, dst, m0, m1, u0, u1, size, 0, r) && r.Ok? && src != []
    requires c.mode.IsRaw()
    ensures |src| <= (r.value + 7) / 8 <= |m1|
  {
    hide SwapData;
  }

  lemma {:induction false} EitherCameBack(c: CfgSix, src: seq<byte>, samples: nat, mdl: Option<seq<byte>>, dst: array<byte>, d0: seq<byte>,
    d1: seq<byte>, v0: seq<byte>, v1: seq<byte>, size: nat, n: Outcome<nat>, info: CmpInfo, compressed: seq<byte>, out: array<byte>,
    m0: seq<byte>, m1: seq<byte>, u0: seq<byte>, u1: seq<byte>, hasNew: bool, hasUp: bool, hasModel: bool, s: int)
    requires ConfigError(c, hasModel).None? && c == ConfigWith(c.mode, c.modelValue, c.round, c.pairs[0])
    requires info.mode == c.mode && info.modelValue == c.modelValue % 0x100 && info.round == c.round % 0x100 && info.pair == c.pairs[0]
    requires |src| == 2 * samples && samples > 0 && size <= |d0| && info.samples == samples
    requires mdl.Some? == (c.mode.IsModel() && hasModel)
    requires InternalDone(c, Imagette, src, mdl, hasNew, 0, dst, d0, d1, v0, v1, size, 0, n) && n.Ok?
    requires !info.cmpErr && info.cmpSize == n.value && (n.value + 7) / 8 <= |d1| && compressed == d1[..(n.value + 7) / 8]
    requires RdcuRead(info, compressed, mdl, hasModel, out, m0, m1, hasUp, u0, u1, s)
    ensures CameBack(c, src, samples, m1, v1, u1, hasNew && hasUp, s)
  {
    ModelGiven(c, hasModel);
    hide *;
    if c.mode.IsRaw() {
      RawCameBack(c, src, samples, mdl, dst, d0, d1, v0, v1, size, n, info, compressed, out, m0, m1, u0, u1, hasNew, hasUp, hasModel, s);
    } else {
      CodedCameBack(c, src, samples, mdl, dst, d0, d1, v0, v1, size, n, info, compressed, out, m0, m1, u0, u1, hasNew, hasUp, hasModel, s);
    }
  }

  lemma {:induction false} ModelGiven(c: CfgSix, hasModel: bool)
    requires ConfigError(c, hasModel).None?
    ensures c.mode.IsModel() ==> hasModel
  {
  }

  /** How much of the destination is used. */
  lemma {:induction false} UsedSize(c: CfgSix, src: seq<byte>, mdl: Option<seq<byte>>, hasUp: bool, dst: array<byte>, m0: seq<byte>,
    m1: seq<byte>, u0: seq<byte>, u1: seq<byte>, size: nat, r: Outcome<nat>)
    requires InternalDone(c, Imagette, src, mdl, hasUp, 0, dst, m0, m1, u0, u1, size, 0, r) && r.Ok? && src != [] && size <= |m0|
    ensures (r.value + 7) / 8 <= |m1| && (c.mode.IsRaw() ==> |src| <= (r.value + 7) / 8)
  {
    if c.mode.IsRaw() {
      RawSize(c, src, mdl, hasUp, dst, m0, m1, u0, u1, size, r);
    } else {
      hide *;
      PackedInFront(c, src, mdl, hasUp, dst, m0, m1, u0, u1, size, r);
    }
  }

  lemma {:induction false} ConfigWithPair(rcfg: RdcuCfg)
    ensures var c := ConfigWith(rcfg.mode, rcfg.modelValue, rcfg.round, rcfg.pair);
      c == ConfigWith(c.mode, c.modelValue, c.round, c.pairs[0]) && c.pairs[0] == rcfg.pair && c.mode == rcfg.mode
  {
  }

  /** Compresses like the hardware does and decompresses again, with a second copy of the
      model: the samples come back rounded, and the updated models are the same. */
  method CheckRdcuRoundTrip(rcfg: RdcuCfg, src: seq<byte>, samples: nat, model: array?<byte>, newModel: array?<byte>, dst: array<byte>,
    modelOfData: array?<byte>, updatedModel: array?<byte>, out: array<byte>) returns (r: Outcome<nat>, s: int)
    requires |src| == 2 * samples && samples > 0 && 64 * |src| + 32 < W32
    requires (model != null ==> |src| <= model.Length) && (newModel != null ==> |src| <= newModel.Length)
    requires 2 * rcfg.bufferLength <= dst.Length && dst != model && dst != newModel
    requires (modelOfData != null <==> model != null) && (updatedModel != null ==> |src| <= updatedModel.Length)
    requires model != null ==> |src| <= modelOfData.Length && modelOfData[..|src|] == model[..|src|]
    requires modelOfData != null ==> modelOfData != newModel && modelOfData != dst
    requires updatedModel != null ==> updatedModel != newModel && updatedModel != dst
    requires |src| <= out.Length && out != dst && out != newModel && out != modelOfData && out != updatedModel
    modifies dst, newModel, updatedModel, out
    ensures r.Ok? ==> CameBack(ConfigWith(rcfg.mode, rcfg.modelValue, rcfg.round, rcfg.pair), src, samples, out[..],
      MemOf(newModel), MemOf(updatedModel), newModel != null && updatedModel != null, s)
  {
    hide *;
    ghost var c := ConfigWith(rcfg.mode, rcfg.modelValue, rcfg.round, rcfg.pair);
    ConfigWithPair(rcfg);
    ghost var size, hasModel := 2 * rcfg.bufferLength, model != null;
    ghost var does := rcfg.mode.IsModel() && hasModel;
    ghost var mdl := if does then Some(model[0..|src|]) else None;
    ModelOfIs(rcfg.mode.IsModel() && hasModel, model, 0, |src|);
    MemOfA(dst);
    ghost var d0, v0, m0, u0 := dst[..], MemOf(newModel), out[..], MemOf(updatedModel);
    var info;
    r, info := CompressLikeRdcu(rcfg, src, samples, model, newModel, dst);
    s := 0;
    if r.Err? { return; }
    MemOfA(dst);
    MemOfA(out);
    ghost var d1, v1 := dst[..], MemOf(newModel);
    UsedSize(c, src, mdl, newModel != null, dst, d0, d1, v0, v1, size, r);
    var compressed := dst[..(info.cmpSize + 7) / 8];
    ModelOfIs(rcfg.mode.IsModel() && modelOfData != null, modelOfData, 0, |src|);
    s := DecompressRdcuData(compressed, info, modelOfData, updatedModel, out);
    MemOfA(out);
    EitherCameBack(c, src, samples, mdl, dst, d0, d1, v0, v1, size, r, info, compressed, out, m0, out[..], u0, MemOf(updatedModel),
      newModel != null, updatedModel != null, hasModel, s);
  }
}
