/** Compressing one collection: compress_data_internal and cmp_collection. */
module CollectionCompressor {
  import opened Bits
  import opened Bytes
  import opened Words
  import opened Golomb
  import opened Params
  import opened Errors
  import opened BitWriter
  import opened ValueEncoder
  import opened Samples
  import opened UpModel
  import opened CompressLoop
  import opened DataTypes
  import opened Endian
  import opened Config
  import opened CollectionCode

  //// compress_data_internal

  /** The data was stored in big-endian order, or there was no room for it. */
  ghost predicate RawWritten(dst: array?<byte>, before: seq<byte>, after: seq<byte>, dt: DataType, src: seq<byte>,
    streamSize: nat, at: nat, r: Outcome<nat>)
  {
    if dst != null && at + |src| > streamSize then r == Err(SmallBuffer) && after == before
    else
      && r == Ok(8 * at + 8 * |src|)
      && (if dst == null then after == before
          else at + |src| <= |before| && SwapData(dt, src).Some? && after == Splice(before, at, SwapData(dt, src).value))
  }

  /** The bits were written and padded with zeros to a whole word, or there was no room for them. */
  ghost predicate CodedWritten(dst: array?<byte>, before: seq<byte>, after: seq<byte>, max: nat, start: nat,
    bits: seq<bool>, r: Outcome<nat>)
  {
    if dst == null then r == Ok(start + |bits|) && after == before
    else if start + |bits| <= max then
      && r == Ok(start + |bits|) && start + |bits| + PadLen(start + |bits|, 32) <= max <= 8 * |before|
      && after == PutBits(before, start, bits + Zeros(PadLen(start + |bits|, 32)))
    else r == Err(SmallBuffer) && SameOutside(before, after, start, max)
  }

  lemma {:induction false} PadAfter(dst: array<byte>, m0: seq<byte>, m1: seq<byte>, m2: seq<byte>, max: nat, start: nat,
    bits: seq<bool>, r: Outcome<nat>)
    requires Emitted(dst, max, m0, m1, start, bits, r) && r.Ok?
    requires r.value + PadLen(r.value, 32) <= max && m2 == PutBits(m1, r.value, Zeros(PadLen(r.value, 32)))
    ensures CodedWritten(dst, m0, m2, max, start, bits, r)
  {
    hide PutBits, PadLen;
    PutBitsCompose(m0, start, bits, Zeros(PadLen(r.value, 32)));
  }

  lemma {:induction false} EmittedOk(dst: array?<byte>, max: nat, m0: seq<byte>, m1: seq<byte>, start: nat,
    bits: seq<bool>, r: Outcome<nat>)
    requires Emitted(dst, max, m0, m1, start, bits, r)
    ensures r.Err? ==> CodedWritten(dst, m0, m1, max, start, bits, r)
    ensures r.Ok? ==> r.value == start + |bits| && (dst != null ==> r.value <= max)
    ensures dst == null && m0 == m1 ==> CodedWritten(dst, m0, m1, max, start, bits, r)
  {
  }

  lemma {:induction false} SpliceAgain(mem: seq<byte>, at: nat, a: seq<byte>, b: seq<byte>)
    requires at + |a| <= |mem| && |b| == |a|
    ensures Splice(mem, at, a)[at..at + |a|] == a
    ensures Splice(Splice(mem, at, a), at, b) == Splice(mem, at, b)
  {
  }

  /** memcpy of the data and the swap of its byte order. */
  method CopySwapped(dst: array<byte>, at: nat, src: seq<byte>, dt: DataType) returns (ok: bool)
    requires at + |src| <= dst.Length && SwapData(dt, src).Some?
    modifies dst
    ensures ok && dst[..] == Splice(old(dst[..]), at, SwapData(dt, src).value)
  {
    hide SwapData, Splice;
    ghost var mem := dst[..];
    CopyBytes(dst, at, src);
    SpliceAgain(mem, at, src, SwapData(dt, src).value);
    assert dst[at..at + |src|] == dst[..][at..at + |src|];
    ok := BeToCpuDataType(dst, at, |src|, dt);
  }

  /** compress_data_internal, in raw mode. */
  method StoreRaw(dt: DataType, src: seq<byte>, dst: array?<byte>, streamSize: nat, streamLen: nat) returns (r: Outcome<nat>)
    requires streamLen % 8 == 0 && SwapData(dt, src).Some? && (dst != null ==> streamSize <= dst.Length)
    modifies dst
    ensures RawWritten(dst, old(MemOf(dst)), MemOf(dst), dt, src, streamSize, streamLen / 8, r)
  {
    hide SwapData, Splice;
    if dst != null {
      var offsetBytes := streamLen / 8;
      var newStreamSize := offsetBytes + |src|;
      if newStreamSize > streamSize { return Err(SmallBuffer); }
      var ok := CopySwapped(dst, offsetBytes, src, dt);
      if !ok { return Err(IntDataTypeUnsupported); }
    }
    return Ok(streamLen + |src| * 8);
  }

  /** compress_data_internal, outside raw mode. */
  method StoreCoded(fs: seq<Field>, useModel: bool, mv: nat, src: seq<byte>, samples: nat, model: array?<byte>, up: array?<byte>,
    mat: nat, dst: array?<byte>, streamSize: nat, streamLen: nat) returns (r: Outcome<nat>)
    requires ValidFields(fs) && fs != [] && RecSize(fs) > 0 && samples > 0 && |src| == BytesOf(samples, RecSize(fs))
    requires useModel ==> model != null && mat + |src| <= model.Length && mv <= MAX_MODEL_VALUE
    requires useModel && up != null ==> mat + |src| <= up.Length
    requires dst != null ==> streamSize <= dst.Length && dst != model && dst != up
    requires streamLen + 64 * |src| + 32 < W32
    modifies dst, up
    ensures CodedWritten(dst, old(MemOf(dst)), MemOf(dst), StreamSizeToBits(streamSize), streamLen,
      EncFrom(fs, src, old(ModelOf(useModel, model, mat, |src|)), 0), r)
    ensures ModelUpdated(fs, src, old(ModelOf(useModel, model, mat, |src|)), up != null, mv, mat, old(MemOf(up)), MemOf(up), r.Ok?)
  {
    hide *;
    ghost var mem, max := MemOf(dst), StreamSizeToBits(streamSize);
    ghost var bits := EncFrom(fs, src, ModelOf(useModel, model, mat, |src|), 0);
    EncFromLength(fs, src, ModelOf(useModel, model, mat, |src|), 0);
    r := CompressSamples(fs, useModel, mv, src, samples, model, up, mat, dst, streamSize, streamLen);
    EmittedOk(dst, max, mem, MemOf(dst), streamLen, bits, r);
    if r.Ok? {
      ghost var mem1 := MemOf(dst);
      if dst != null { MemOfIs(dst); }
      var padded := PadBitstream(dst, streamSize, r.value);
      if dst == null {
        MemOfNull();
        EmittedOk(dst, max, mem, MemOf(dst), streamLen, bits, r);
      } else {
        PadAfter(dst, mem, mem1, MemOf(dst), max, streamLen, bits, r) by { MemOfIs(dst); }
      }
    }
  }

  lemma {:induction false} MemOfIs(a: array<byte>)
    ensures MemOf(a) == a[..]
  {
  }

  lemma {:induction false} MemOfNull()
    ensures MemOf(null) == []
  {
  }

  /** What compress_data_internal does, case by case. */
  ghost predicate InternalDone(c: CfgSix, dt: DataType, src: seq<byte>, mdl: Option<seq<byte>>, hasUp: bool, mat: nat,
    dst: array?<byte>, m0: seq<byte>, m1: seq<byte>, up0: seq<byte>, up1: seq<byte>, streamSize: nat, streamLen: nat, r: Outcome<nat>)
  {
    if streamLen % 8 != 0 then r == Err(Generic) && m1 == m0 && up1 == up0
    else if src == [] then r == Ok(streamLen) && m1 == m0 && up1 == up0
    else if c.mode.IsRaw() then RawWritten(dst, m0, m1, dt, src, streamSize, streamLen / 8, r) && up1 == up0
    else if IsFastCadence(dt) then r == Err(IntDataTypeUnsupported) && m1 == m0 && up1 == up0
    else
      var fs := FieldsOf(dt, c);
      && ValidFields(fs) && RecSize(fs) > 0 && (mdl.Some? ==> |mdl.value| == |src| && c.modelValue <= MAX_MODEL_VALUE)
      && CodedWritten(dst, m0, m1, StreamSizeToBits(streamSize), streamLen, EncFrom(fs, src, mdl, 0), r)
      && ModelUpdated(fs, src, mdl, hasUp, c.modelValue, mat, up0, up1, r.Ok?)
  }

  lemma {:induction false} ModeParts(c: Cfg)
    requires GenParsAreValid(c)
    ensures c.mode.IsModel() ==> c.modelValue <= MAX_MODEL_VALUE && !c.mode.IsRaw()
  {
  }

  lemma {:induction false} SamplesOf(samples: nat, dt: DataType, src: seq<byte>)
    requires !dt.Unknown? && |src| == BytesOf(samples, SampleSize(dt))
    ensures |src| % SampleSize(dt) == 0 && SwapData(dt, src).Some? && (samples == 0 <==> src == [])
  {
    hide SampleSize, SwapRecords;
    DivModUnique(|src|, SampleSize(dt), samples, 0);
  }

  lemma {:induction false} UntouchedDone(c: CfgSix, dt: DataType, src: seq<byte>, mdl: Option<seq<byte>>, hasUp: bool, mat: nat,
    dst: array?<byte>, m: seq<byte>, up: seq<byte>, streamSize: nat, streamLen: nat)
    ensures streamLen % 8 != 0 ==>
      InternalDone(c, dt, src, mdl, hasUp, mat, dst, m, m, up, up, streamSize, streamLen, Err(Generic))
    ensures streamLen % 8 == 0 && src == [] ==>
      InternalDone(c, dt, src, mdl, hasUp, mat, dst, m, m, up, up, streamSize, streamLen, Ok(streamLen))
    ensures streamLen % 8 == 0 && src != [] && !c.mode.IsRaw() && IsFastCadence(dt) ==>
      InternalDone(c, dt, src, mdl, hasUp, mat, dst, m, m, up, up, streamSize, streamLen, Err(IntDataTypeUnsupported))
  {
  }

  lemma {:induction false} RawDone(c: CfgSix, dt: DataType, src: seq<byte>, mdl: Option<seq<byte>>, hasUp: bool, mat: nat,
    dst: array?<byte>, m0: seq<byte>, m1: seq<byte>, up: seq<byte>, streamSize: nat, streamLen: nat, r: Outcome<nat>)
    requires streamLen % 8 == 0 && src != [] && c.mode.IsRaw()
    requires RawWritten(dst, m0, m1, dt, src, streamSize, streamLen / 8, r)
    ensures InternalDone(c, dt, src, mdl, hasUp, mat, dst, m0, m1, up, up, streamSize, streamLen, r)
  {
  }

  lemma {:induction false} CodedDone(c: CfgSix, dt: DataType, src: seq<byte>, mdl: Option<seq<byte>>, hasUp: bool, mat: nat,
    dst: array?<byte>, m0: seq<byte>, m1: seq<byte>, up0: seq<byte>, up1: seq<byte>, streamSize: nat, streamLen: nat, r: Outcome<nat>)
    requires streamLen % 8 == 0 && src != [] && !c.mode.IsRaw() && !IsFastCadence(dt)
    requires ValidFields(FieldsOf(dt, c)) && RecSize(FieldsOf(dt, c)) > 0
    requires mdl.Some? ==> |mdl.value| == |src| && c.modelValue <= MAX_MODEL_VALUE
    requires CodedWritten(dst, m0, m1, StreamSizeToBits(streamSize), streamLen, EncFrom(FieldsOf(dt, c), src, mdl, 0), r)
    requires ModelUpdated(FieldsOf(dt, c), src, mdl, hasUp, c.modelValue, mat, up0, up1, r.Ok?)
    ensures InternalDone(c, dt, src, mdl, hasUp, mat, dst, m0, m1, up0, up1, streamSize, streamLen, r)
  {
  }

  /** The raw branch. */
  method InternalRaw(c: CfgSix, dt: DataType, src: seq<byte>, ghost mdl: Option<seq<byte>>, up: array?<byte>, ghost mat: nat,
    dst: array?<byte>, streamSize: nat, streamLen: nat) returns (r: Outcome<nat>)
    requires streamLen % 8 == 0 && src != [] && c.mode.IsRaw() && SwapData(dt, src).Some?
    requires dst != null ==> streamSize <= dst.Length && dst != up
    modifies dst
    ensures InternalDone(c, dt, src, mdl, up != null, mat, dst, old(MemOf(dst)), MemOf(dst), old(MemOf(up)), MemOf(up),
      streamSize, streamLen, r)
  {
    hide *;
    ghost var mem, upMem := MemOf(dst), MemOf(up);
    r := StoreRaw(dt, src, dst, streamSize, streamLen);
    RawDone(c, dt, src, mdl, up != null, mat, dst, mem, MemOf(dst), upMem, streamSize, streamLen, r);
  }

  /** The branch of the sample loops. */
  method InternalCoded(c: CfgSix, dt: DataType, src: seq<byte>, samples: nat, model: array?<byte>, up: array?<byte>,
    mat: nat, dst: array?<byte>, streamSize: nat, streamLen: nat) returns (r: Outcome<nat>)
    requires streamLen % 8 == 0 && src != [] && samples > 0 && !c.mode.IsRaw() && !IsFastCadence(dt) && !dt.Unknown?
    requires |src| == BytesOf(samples, SampleSize(dt)) && CfgIsValid(c, dt)
    requires c.mode.IsModel() ==> model != null && mat + |src| <= model.Length && c.modelValue <= MAX_MODEL_VALUE
    requires c.mode.IsModel() && up != null ==> mat + |src| <= up.Length
    requires dst != null ==> streamSize <= dst.Length && dst != model && dst != up
    requires streamLen + 64 * |src| + 32 < W32
    modifies dst, up
    ensures InternalDone(c, dt, src, old(ModelOf(c.mode.IsModel(), model, mat, |src|)), up != null, mat,
      dst, old(MemOf(dst)), MemOf(dst), old(MemOf(up)), MemOf(up), streamSize, streamLen, r)
  {
    hide *;
    ghost var mdl, mem, upMem := ModelOf(c.mode.IsModel(), model, mat, |src|), MemOf(dst), MemOf(up);
    ModelOfIs(c.mode.IsModel(), model, mat, |src|);
    FieldsOfValid(dt, c);
    r := StoreCoded(FieldsOf(dt, c), c.mode.IsModel(), c.modelValue, src, samples, model, up, mat, dst, streamSize, streamLen);
    CodedDone(c, dt, src, mdl, up != null, mat, dst, mem, MemOf(dst), upMem, MemOf(up), streamSize, streamLen, r);
  }

  /** compress_data_internal: compresses the data of a collection, without its header. */
  method CompressDataInternal(c: CfgSix, dt: DataType, src: seq<byte>, samples: nat, model: array?<byte>, up: array?<byte>,
    mat: nat, dst: array?<byte>, streamSize: nat, streamLen: nat) returns (r: Outcome<nat>)
    requires !dt.Unknown? && |src| == BytesOf(samples, SampleSize(dt)) && CfgIsValid(c, dt)
    requires c.mode.IsModel() ==> model != null && mat + |src| <= model.Length
    requires c.mode.IsModel() && up != null ==> mat + |src| <= up.Length
    requires dst != null ==> streamSize <= dst.Length && dst != model && dst != up
    requires streamLen + 64 * |src| + 32 < W32
    modifies dst, up
    ensures InternalDone(c, dt, src, old(ModelOf(c.mode.IsModel(), model, mat, |src|)), up != null, mat,
      dst, old(MemOf(dst)), MemOf(dst), old(MemOf(up)), MemOf(up), streamSize, streamLen, r)
  {
    assert GenParsAreValid(c);
    ModeParts(c);
    hide *;
    ghost var mdl := ModelOf(c.mode.IsModel(), model, mat, |src|);
    UntouchedDone(c, dt, src, mdl, up != null, mat, dst, MemOf(dst), MemOf(up), streamSize, streamLen);
    SamplesOf(samples, dt, src);
    if streamLen % 8 != 0 {
      r := Err(Generic);
    } else if samples == 0 {
      r := Ok(streamLen);
    } else if c.mode.IsRaw() {
      r := InternalRaw(c, dt, src, mdl, up, mat, dst, streamSize, streamLen);
    } else if IsFastCadence(dt) {
      r := Err(IntDataTypeUnsupported);
    } else {
      r := InternalCoded(c, dt, src, samples, model, up, mat, dst, streamSize, streamLen);
    }
  }
}
