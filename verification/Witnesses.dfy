/** Concrete chunks and entities on which the code does what a reader might not expect. */
module Witnesses {
  import opened Bits
  import opened Bytes
  import opened Words
  import opened Golomb
  import opened ZigZag
  import opened Params
  import opened ValueCode
  import opened Errors
  import opened BitReader
  import opened BitWriter
  import opened Samples
  import opened UpModel
  import opened CompressLoop
  import opened DataTypes
  import opened Endian
  import opened Config
  import opened CollectionCode
  import opened ChunkCode
  import opened ChunkBounds
  import opened Entity
  import opened CollectionDecompressor
  import opened ChunkDecompressor
  import opened EntityDecompressor
  import opened RoundTrip
  import opened UpdateAlone

  //// A chunk of one imagette collection

  /** The header of an N-camera imagette collection with len bytes of data. */
  function ImagetteHeader(len: nat): (h: seq<byte>)
    ensures |h| == 12
  {
    ZeroBytes(8) + ToBigEndian(3 * 512, 2) + ToBigEndian(len, 2)
  }

  /** One collection of 20 samples, all zero. */
  function ZeroChunk(): (c: seq<byte>)
    ensures |c| == 52
  {
    ImagetteHeader(40) + ZeroBytes(40)
  }

  /** All Golomb parameters are 1. */
  function UnitPar(mode: CmpMode, modelValue: word32): (p: CmpPar)
    ensures p.mode == mode && p.modelValue == modelValue
  {
    CmpPar(mode, modelValue, 0, 1, 1, 1, 1, 1, 1, 1, 1, 1, 1, 1, 1, 1, 1, 1, 1, 1, 1, 1, 1, 1, 1, 1, 1, 1, 1, 1)
  }

  lemma {:induction false} HeaderWords(c: seq<byte>, len: nat)
    requires |c| >= 12 && c[..12] == ImagetteHeader(len) && len < 0x1_0000
    ensures U16At(c, 8) == 3 * 512 && U16At(c, 10) == len
  {
    Pow2Values();
    hide BigEndian, ToBigEndian, Pow2;
    BigEndianRoundTrip(3 * 512, 2);
    BigEndianRoundTrip(len, 2);
    SliceOfSlice(c, 0, 12, 8, 10);
    SliceOfSlice(c, 0, 12, 10, 12);
    assert c[0..12] == c[..12];
    assert ImagetteHeader(len)[8..10] == ToBigEndian(3 * 512, 2);
    assert ImagetteHeader(len)[10..12] == ToBigEndian(len, 2);
  }

  lemma {:induction false} HeaderSays(c: seq<byte>, len: nat)
    requires |c| >= 12 && c[..12] == ImagetteHeader(len) && len < 0x1_0000
    ensures |c| >= COLLECTION_HDR_SIZE && ColSubservice(c) == 3 && ColDataLength(c) == len && ColSize(c) == 12 + len
    ensures ColDataType(c) == Imagette && ColChunkType(c) == NcamImagetteChunk
  {
    hide *;
    ImagetteService();
    HeaderWords(c, len);
    HeaderIs(c);
  }

  lemma {:induction false} HeaderIs(c: seq<byte>)
    requires |c| >= COLLECTION_HDR_SIZE
    ensures |c| >= 12 && ColSubservice(c) == U16At(c, 8) / 512 % 64 && ColDataLength(c) == U16At(c, 10) && ColSize(c) == 12 + ColDataLength(c)
    ensures ColDataType(c) == ConvertSubservice(ColSubservice(c)) && ColChunkType(c) == ChunkTypeOfSubservice(ColSubservice(c))
  {
    hide U16At, ConvertSubservice, ChunkTypeOfSubservice;
  }

  lemma {:induction false} ImagetteService()
    ensures COLLECTION_HDR_SIZE == 12 && ConvertSubservice(3) == Imagette && ChunkTypeOfSubservice(3) == NcamImagetteChunk
  {
  }

  lemma {:induction false} ZeroChunkParts()
    ensures COLLECTION_HDR_SIZE == 12 && CMP_COLLECTION_FILD_SIZE == 2
    ensures var c := ZeroChunk();
      && ColSize(c) == 52 && ColSubservice(c) == 3 && ColDataType(c) == Imagette && ColChunkType(c) == NcamImagetteChunk
      && ColDataLength(c) == 40 && ColBody(c) == ZeroBytes(40) && |ColHeader(c)| == 12
      && c[..52] == c && c[52..] == []
  {
    var c := ZeroChunk();
    hide ImagetteHeader, ZeroBytes, ColDataType, ColChunkType, ColSize, ColSubservice, ColDataLength;
    assert c[..12] == ImagetteHeader(40) && c[12..] == ZeroBytes(40);
    HeaderSays(c, 40);
  }

  //// Zero samples take two bits each

  lemma {:induction false} ZeroMaps(n: nat)
    requires 1 <= n
    ensures Mapped(0, 0, n) == 0
  {
  }

  lemma {:induction false} ZeroCode(p: CodePars)
    requires ValidPars(p) && p.m == 1 && p.escape.ZeroEscape?
    ensures |CodeMapped(p, 0)| == 2
  {
    assert p.spill >= 2;
    hide GolombCode, ToBits, CmpIcuMaxSpill, ILog2;
    OneTakesTwo(p.m);
  }

  lemma {:induction false} OneTakesTwo(m: word32)
    requires m == 1
    ensures |GolombCode(1, m)| == 2
  {
    assert Pow2(0) == 1 && Pow2(1) == 2;
    ILog2Unique(m, 0);
    hide ILog2, Pow2, GolombCode;
    GolombLength(1, m);
    DivModUnique(1, 1, 1, 0);
  }

  lemma {:induction false} ZeroField(f: Field, rec: seq<byte>)
    requires f.width == 2 <= |rec| && rec[0] == 0 && rec[1] == 0
    ensures FieldAt(f, rec) == 0
  {
    assert rec[..2] == [0, 0];
    var r := Reversed(rec[..2]);
    ReversedZeros(rec[..2]);
    assert BytesBits(r) == Zeros(16) by { ZeroBytesBits(2); assert r == ZeroBytes(2); }
    ValZeros(16);
  }

  lemma {:induction false} ReversedZeros(s: seq<byte>)
    requires s == [0, 0]
    ensures Reversed(s) == [0, 0]
  {
    assert s[1..] == [0] && s[1..][1..] == [];
  }

  lemma {:induction false} ZeroSample(fs: seq<Field>, rec: seq<byte>, pred: seq<byte>)
    requires ZeroFields(fs) && |rec| == 2 == |pred| && rec[0] == 0 && rec[1] == 0 && pred[0] == 0 && pred[1] == 0
    ensures |EncRec(fs, rec, pred)| == 2
  {
    var f := fs[0];
    ZeroField(f, rec);
    ZeroField(f, pred);
    assert Rounded(0, f.p) == 0;
    ZeroMaps(f.p.bits);
    ZeroCode(f.p);
    hide CodeMapped, Mapped, FieldAt, Rounded, CmpIcuMaxSpill;
    assert fs[1..] == [];
    assert EncRec(fs, rec, pred) == EncField(f, rec, pred) + [];
  }

  /** One field of 16 bits with Golomb parameter 1 and the zero escape mechanism. */
  ghost predicate ZeroFields(fs: seq<Field>)
  {
    |fs| == 1 && ValidFields(fs) && RecSize(fs) == 2 && fs[0].width == 2 && fs[0].p.m == 1 && fs[0].p.escape.ZeroEscape? && ValidField(fs[0])
  }

  lemma {:induction false} ZeroSamples(fs: seq<Field>, data: seq<byte>, model: Option<seq<byte>>, pos: nat, n: nat)
    requires ZeroFields(fs) && pos + 2 * n == |data| && data == ZeroBytes(|data|) && (model.Some? ==> model.value == data)
    ensures ValidFields(fs) && RecSize(fs) > 0 && |EncFrom(fs, data, model, pos)| == 2 * n
    decreases n
  {
    hide *;
    ZeroFieldsParts(fs);
    if n == 0 {
      NoSamples(fs, data, model, pos, data[..pos], []);
    } else {
      SamplesStep(fs, data, model, pos);
      ZeroPrediction(data, model, pos);
      ZeroSample(fs, data[pos..pos + 2], Prediction(2, data, model, pos));
      ZeroSamples(fs, data, model, pos + 2, n - 1);
    }
  }

  lemma {:induction false} ZeroFieldsParts(fs: seq<Field>)
    requires ZeroFields(fs)
    ensures ValidFields(fs) && RecSize(fs) == 2
  {
    hide ValidFields, RecSize, ValidField;
  }

  lemma {:induction false} ZeroPrediction(data: seq<byte>, model: Option<seq<byte>>, pos: nat)
    requires data == ZeroBytes(|data|) && (model.Some? ==> model.value == data) && pos + 2 <= |data|
    ensures var r := Prediction(2, data, model, pos); r[0] == 0 && r[1] == 0
    ensures data[pos..pos + 2][0] == 0 && data[pos..pos + 2][1] == 0
  {
  }

  //// Packing it

  /** The configuration of the chunk, in a mode with the zero escape mechanism. */
  lemma {:induction false} UnitConfig(mode: CmpMode, modelValue: word32)
    requires mode.IsZero() && (mode.IsModel() ==> modelValue <= MAX_MODEL_VALUE)
    ensures var c := InitCfg(NcamImagetteChunk, UnitPar(mode, modelValue));
      && c.mode == mode && c.round == 0 && !mode.IsRaw() && CfgIsValid(c, Imagette) && ZeroFields(FieldsOf(Imagette, c))
  {
    UnitSlot(mode, modelValue);
    hide *;
    var c := InitCfg(NcamImagetteChunk, UnitPar(mode, modelValue));
    UnitValid(c);
    FieldsOfValid(Imagette, c);
    UnitFields(c);
  }

  lemma {:induction false} UnitSlot(mode: CmpMode, modelValue: word32)
    requires mode.IsZero() && (mode.IsModel() ==> modelValue <= MAX_MODEL_VALUE)
    ensures var c := InitCfg(NcamImagetteChunk, UnitPar(mode, modelValue));
      && c.mode == mode && c.round == 0 && !mode.IsRaw() && SlotIsValid(c, Slot(2, 1)) && c.pairs[0].par == 1 && GenParsAreValid(c)
  {
    var par := UnitPar(mode, modelValue);
    var c := InitCfg(NcamImagetteChunk, par);
    hide CmpGetSpill, SlotIsValid, ConvertSubservice, ChunkTypeOfSubservice;
    ImagetteService();
    assert Layout(Imagette) == [Slot(2, 1)];
    ThresholdsFitFields(3, par, 0);
  }

  lemma {:induction false} UnitValid(c: CfgSix)
    requires SlotIsValid(c, Slot(2, 1)) && GenParsAreValid(c)
    ensures CfgIsValid(c, Imagette) && !Imagette.Unknown?
  {
    hide SlotIsValid, GenParsAreValid;
    assert Layout(Imagette) == [Slot(2, 1)];
  }

  lemma {:induction false} UnitFields(c: CfgSix)
    requires c.pairs[0].par == 1 && c.mode.IsZero() && ValidFields(FieldsOf(Imagette, c)) && RecSize(FieldsOf(Imagette, c)) == SampleSize(Imagette)
    ensures ZeroFields(FieldsOf(Imagette, c))
  {
    assert Layout(Imagette) == [Slot(2, 1)];
    var fs := FieldsOf(Imagette, c);
    assert fs[0] == FieldOf(Slot(2, 1), c);
    hide RecSize, ValidFields, ValidField;
    FieldsStep(fs);
  }

  /** The packed form of the collection in a dry run: a size field, the header and 5 bytes. */
  lemma {:induction false} ZeroPacks(mode: CmpMode, modelValue: word32, model: Option<seq<byte>>) returns (d: Packed)
    requires mode.IsZero() && (mode.IsModel() ==> modelValue <= MAX_MODEL_VALUE)
    requires model == if mode.IsModel() then Some(ZeroChunk()) else None
    ensures |ZeroChunk()| >= COLLECTION_HDR_SIZE && |ZeroChunk()| == ColSize(ZeroChunk()) && ColDataType(ZeroChunk()) == Imagette
    ensures |d.bytes| == 5
    ensures var c := InitCfg(NcamImagetteChunk, UnitPar(mode, modelValue));
      && c.round == 0 && c.mode == mode
      && PackCol(c, ZeroChunk(), model, 64, None)
           == Ok(Packed(ToBigEndian(5, CMP_COLLECTION_FILD_SIZE) + ColHeader(ZeroChunk()) + d.bytes,
                        if mode.IsModel() then ColHeader(ZeroChunk()) + d.model else []))
  {
    hide *;
    ZeroChunkParts();
    UnitConfig(mode, modelValue);
    var c, chunk := InitCfg(NcamImagetteChunk, UnitPar(mode, modelValue)), ZeroChunk();
    ZeroAccepted(c, chunk, model);
    ZeroModelData(c, model);
    ColDataValid(c, chunk, model);
    var data, mdl := ColBody(chunk), ModelData(c, model);
    ZeroSamples(FieldsOf(Imagette, c), data, mdl, 0, 20);
    DataBitsIs(c, Imagette, data, mdl);
    d := Packed(PackBits(DataBits(c, Imagette, data, mdl)), DataModel(c, Imagette, data, mdl));
    CodedOutcome(c, Imagette, data, mdl, 78, None);
    FortyBitsCompress();
    CodedSizeField(c, 5);
    PackColIs(c, chunk, model, 64, None, d);
  }

  lemma {:induction false} ZeroAccepted(c: CfgSix, col: seq<byte>, model: Option<seq<byte>>)
    requires |col| >= COLLECTION_HDR_SIZE && ColDataType(col) == Imagette && ColDataLength(col) == 40 && CfgIsValid(c, Imagette)
    requires c.mode.IsModel() ==> model.Some?
    ensures !ColDataType(col).Unknown? && ColError(c, col, model.Some?).None?
  {
    hide ColDataType, ColDataLength, SpecificParsAreValid, GenParsAreValid;
  }

  lemma {:induction false} ZeroModelData(c: CfgSix, model: Option<seq<byte>>)
    requires model == if c.mode.IsModel() then Some(ZeroChunk()) else None
    ensures model.Some? ==> |model.value| >= COLLECTION_HDR_SIZE
    ensures ModelData(c, model) == if c.mode.IsModel() then Some(ZeroBytes(40)) else None
  {
    ZeroChunkParts();
    hide ZeroBytes, ColBody;
  }

  lemma {:induction false} DataBitsIs(c: CfgSix, dt: DataType, data: seq<byte>, mdl: Option<seq<byte>>)
    requires DataIsValid(c, dt, data, mdl) && !c.mode.IsRaw() && ValidFields(FieldsOf(dt, c)) && RecSize(FieldsOf(dt, c)) > 0
    ensures DataBits(c, dt, data, mdl) == EncFrom(FieldsOf(dt, c), data, mdl, 0)
  {
    hide EncFrom, FieldsOf, DataIsValid;
  }

  lemma {:induction false} FortyBitsCompress()
    ensures Compresses(78, 40, None, 40)
  {
  }

  lemma {:induction false} PackColIs(c: CfgSix, col: seq<byte>, model: Option<seq<byte>>, at: nat, room: Option<nat>, d: Packed)
    requires |col| >= COLLECTION_HDR_SIZE && |col| == ColSize(col) && !ColDataType(col).Unknown? && c.round == 0
    requires (model.Some? ==> |model.value| == |col|) && ColError(c, col, model.Some?).None? && room.None?
    requires DataIsValid(c, ColDataType(col), ColBody(col), ModelData(c, model))
    requires PackData(c, ColDataType(col), ColBody(col), ModelData(c, model), at + SizeFieldSize(c.mode) + COLLECTION_HDR_SIZE, room) == Ok(d)
    ensures PackCol(c, col, model, at, room)
      == Ok(Packed(SizeField(c, |d.bytes|) + ColHeader(col) + d.bytes, if c.mode.IsModel() then ColHeader(col) + d.model else []))
  {
    hide PackData, ColDataType, ColSize, ColHeader, ColBody, SizeField, SizeFieldSize, ColError, DataIsValid, ModelData;
  }

  //// Compressing the chunk

  /** A chunk of one collection packs like the collection. */
  lemma {:induction false} OneColPacks(c: CfgSix, ct: ChunkType, chunk: seq<byte>, model: Option<seq<byte>>, at: nat, p: Packed)
    requires !ct.UnknownChunk? && c.round == 0 && (model.Some? ==> |model.value| == |chunk|)
    requires |chunk| >= COLLECTION_HDR_SIZE && ColChunkType(chunk) == ct && ColSize(chunk) == |chunk| && !ColDataType(chunk).Unknown?
    requires PackCol(c, chunk, model, at, None) == Ok(p)
    ensures PackCols(c, ct, chunk, model, at, None) == Ok(p)
    ensures RawEnd(c, ct, chunk, model, at) == at + SizeFieldSize(c.mode) + |chunk|
  {
    assert COLLECTION_HDR_SIZE > 0;
    hide *;
    WholeChunk(chunk, model);
    var n, r := PackColsCases(c, ct, chunk, model, at, None);
    NothingPacked(c, ct, ModelBack(model, |chunk|), at + |p.bytes|, None);
    ThenNothing(p);
    RawEndStep(c, ct, chunk, model, at, |chunk|, p);
  }

  lemma {:induction false} WholeChunk(chunk: seq<byte>, model: Option<seq<byte>>)
    requires model.Some? ==> |model.value| == |chunk|
    ensures chunk[..|chunk|] == chunk && chunk[|chunk|..] == [] && ModelFront(model, |chunk|) == model
    ensures ModelFront(model, |chunk|).Some? == model.Some? == ModelBack(model, |chunk|).Some?
    ensures model.Some? ==> |ModelFront(model, |chunk|).value| == |chunk| && |ModelBack(model, |chunk|).value| == 0
  {
    if model.Some? { assert model.value[..|chunk|] == model.value; }
  }

  lemma {:induction false} ThenNothing(p: Packed)
    ensures Then(p, Ok(Packed([], []))) == Ok(p)
  {
    assert p.bytes + [] == p.bytes && p.model + [] == p.model;
  }

  /** The dry run of compress_chunk: a header of 64 bytes and 19 bytes of data. */
  lemma {:induction false} ZeroDryRun(mode: CmpMode, modelValue: word32, model: Option<seq<byte>>) returns (d: Packed)
    requires mode.IsZero() && (mode.IsModel() ==> modelValue <= MAX_MODEL_VALUE)
    requires model == if mode.IsModel() then Some(ZeroChunk()) else None
    ensures |d.bytes| == 5
    ensures var dry := CompressSpec(ZeroChunk(), model, None, UnitPar(mode, modelValue));
      && dry.Ok? && dry.value.header.size == 83 && RawSize(ZeroChunk(), model, UnitPar(mode, modelValue)) == 118
      && |ZeroChunk()| >= COLLECTION_HDR_SIZE
      && dry.value.header == ChunkHeader(InitCfg(NcamImagetteChunk, UnitPar(mode, modelValue)), 52, 83)
      && dry.value.data == ToBigEndian(5, CMP_COLLECTION_FILD_SIZE) + ColHeader(ZeroChunk()) + d.bytes
  {
    hide *;
    d := ZeroPacks(mode, modelValue, model);
    ZeroChunkParts();
    var chunk, par := ZeroChunk(), UnitPar(mode, modelValue);
    var c := InitCfg(NcamImagetteChunk, par);
    var p := PackCol(c, chunk, model, 64, None).value;
    NotRaw(mode);
    HeaderIs64(mode);
    KnownImagette(chunk);
    OneColPacks(c, NcamImagetteChunk, chunk, model, 64, p);
    CompressSpecIs(chunk, model, None, par);
    RoomIsNone(64);
    FinishCases(c, 52, None, Ok(p));
    RawSizeIs(chunk, model, par);
  }

  lemma {:induction false} NotRaw(mode: CmpMode)
    requires mode.IsZero()
    ensures !mode.IsRaw() && SizeFieldSize(mode) == 2
  {
  }

  lemma {:induction false} HeaderIs64(mode: CmpMode)
    requires mode.IsZero()
    ensures HeaderSize(mode) == 64
  {
  }

  lemma {:induction false} KnownImagette(chunk: seq<byte>)
    requires |chunk| == 52 && |chunk| >= COLLECTION_HDR_SIZE && ColChunkType(chunk) == NcamImagetteChunk
    ensures IsKnownChunk(chunk) && !NcamImagetteChunk.UnknownChunk?
  {
    hide ColChunkType;
  }

  //// The witnesses

  /** The size of a dry run is no safe capacity: the chunk takes 83 bytes, but a destination
      of 83 bytes is too small, since its whole words end at 80; 84 bytes are enough. */
  lemma {:induction false} CapacityOfSizeFails()
    ensures var par := UnitPar(DiffZero, 0);
      && CompressSpec(ZeroChunk(), None, None, par).Ok? && CompressSpec(ZeroChunk(), None, None, par).value.header.size == 83
      && CompressSpec(ZeroChunk(), None, Some(83), par) == Err(SmallBuffer)
      && CompressSpec(ZeroChunk(), None, Some(84), par) == CompressSpec(ZeroChunk(), None, None, par)
  {
    SizesAround83();
    hide *;
    ZeroModes();
    var par := UnitPar(DiffZero, 0);
    var d := ZeroDryRun(DiffZero, 0, None);
    CapacityIsExact(ZeroChunk(), None, 83, par);
    CapacityIsExact(ZeroChunk(), None, 84, par);
    UnitHeaderFits(DiffZero, 0);
  }

  lemma {:induction false} SizesAround83()
    ensures !EndFits(83, 118, 83) && EndFits(83, 118, 84)
  {
  }

  lemma {:induction false} ZeroModes()
    ensures DiffZero.IsZero() && !DiffZero.IsModel() && ModelZero.IsZero() && ModelZero.IsModel()
  {
  }

  lemma {:induction false} UnitHeaderFits(mode: CmpMode, modelValue: word32)
    requires mode.IsZero() && modelValue <= 0xFF
    ensures HeaderFits(ChunkHeader(InitCfg(NcamImagetteChunk, UnitPar(mode, modelValue)), 52, 83))
  {
    UnitPairs(mode, modelValue);
    hide *;
    HeaderErrorExact(NcamImagetteChunk, UnitPar(mode, modelValue), 52, 83);
  }

  lemma {:induction false} UnitPairs(mode: CmpMode, modelValue: word32)
    requires mode.IsZero()
    ensures var par := UnitPar(mode, modelValue);
      && par.mode.IsSupported() && 52 <= CMP_ENTITY_MAX_ORIGINAL_SIZE && 83 <= CMP_ENTITY_MAX_SIZE
      && forall i :: 0 <= i < 6 ==> InitCfg(NcamImagetteChunk, par).pairs[i].par <= 0xFFFF
  {
    hide CmpGetSpill;
  }

  /** A model value that the mode does not use makes the real run fail after the dry run
      succeeded, however large the destination is. */
  lemma {:induction false} UnusedModelValueFails()
    ensures var par := UnitPar(DiffZero, 256);
      && CompressSpec(ZeroChunk(), None, None, par).Ok?
      && CompressSpec(ZeroChunk(), None, Some(120), par) == Err(EntityHeaderError)
  {
    ZeroBound();
    hide *;
    ZeroModes();
    var par := UnitPar(DiffZero, 256);
    var d := ZeroDryRun(DiffZero, 256, None);
    HeaderErrorCondition(ZeroChunk(), None, 120, par);
  }

  lemma {:induction false} ZeroBound()
    ensures SizeBound(ZeroChunk()) == Ok(120)
  {
    ZeroChunkParts();
    var c := ZeroChunk();
    hide ZeroChunk, ColSize;
    CountStep(c);
    CountNothing();
  }

  /** Without a buffer for the data, the model update of this compressed chunk is lost: an
      update buffer may keep its old bytes although the entity is reported as decompressed. */
  lemma {:induction false} UpdateIsLost()
    ensures var chunk, par := ZeroChunk(), UnitPar(ModelZero, 8);
      && CompressSpec(chunk, Some(chunk), Some(84), par).Ok?
      && var e := CompressSpec(chunk, Some(chunk), Some(84), par).value;
         |e.header.pairs| == 6 && HeaderFits(e.header) && e.header.originalSize == |chunk|
         && DecompressSpec(e.header, e.data, Some(chunk)) == Some(Packed(chunk, e.model))
         && CountCmp(e.data).Some? && |e.model| <= e.header.originalSize && !CompleteAlone(e.data, e.header.originalSize, e.model)
  {
    SizesAround83();
    ModelValueIsValid();
    hide *;
    ZeroModes();
    var chunk, par := ZeroChunk(), UnitPar(ModelZero, 8);
    var d := ZeroDryRun(ModelZero, 8, Some(chunk));
    CapacityIsExact(chunk, Some(chunk), 84, par);
    UnitHeaderFits(ModelZero, 8);
    var e := CompressSpec(chunk, Some(chunk), Some(84), par).value;
    ChunkRoundTrip(chunk, Some(chunk), 84, par);
    UnitHeaderMode(ModelZero, 8);
    UpdateNeedsData(e.header, e.data, Some(chunk), Packed(chunk, e.model));
    CodedBody(e.data, d.bytes);
  }

  lemma {:induction false} ModelValueIsValid()
    ensures 8 <= MAX_MODEL_VALUE
  {
  }

  lemma {:induction false} UnitHeaderMode(mode: CmpMode, modelValue: word32)
    ensures ChunkHeader(InitCfg(NcamImagetteChunk, UnitPar(mode, modelValue)), 52, 83).mode == mode
  {
  }

  /** The body has one collection, which is compressed. */
  lemma {:induction false} CodedBody(data: seq<byte>, bytes: seq<byte>)
    requires |bytes| == 5 && |ZeroChunk()| >= COLLECTION_HDR_SIZE && CountCmp(data).Some?
    requires data == ToBigEndian(5, CMP_COLLECTION_FILD_SIZE) + ColHeader(ZeroChunk()) + bytes
    ensures !AllRaw(data)
  {
    hide *;
    ZeroChunkParts();
    CmpColFields(5, ColHeader(ZeroChunk()), bytes, []);
    assert data + [] == data;
    CmpStartZero(data);
    CountCmpStep(data);
    NothingLeftIsZero();
    RawAtIs(data, 0);
    SameHeader(ColSource(data), ZeroChunk()) by { SourceHeader(data, ZeroChunk()); }
    SourceSize(data);
    if AllRaw(data) { EachRaw(data, 0); }
  }

  lemma {:induction false} NothingLeftIsZero()
    ensures CountCmp([]) == Some(0)
  {
  }

  lemma {:induction false} SourceHeader(b: seq<byte>, col: seq<byte>)
    requires HasCmpCol(b) && |col| >= COLLECTION_HDR_SIZE && b[CMP_COLLECTION_FILD_SIZE..][..COLLECTION_HDR_SIZE] == ColHeader(col)
    ensures |ColSource(b)| >= COLLECTION_HDR_SIZE && ColSource(b)[..COLLECTION_HDR_SIZE] == col[..COLLECTION_HDR_SIZE]
  {
    assert ColSource(b)[..COLLECTION_HDR_SIZE] == b[CMP_COLLECTION_FILD_SIZE..][..COLLECTION_HDR_SIZE];
  }

  /** The header of a raw entity of 12 bytes. */
  function RawHeader(): (h: ChunkEntity)
  {
    EntityHeader(44, 12, true, Raw, 0, 0, [NO_PAIR, NO_PAIR, NO_PAIR, NO_PAIR, NO_PAIR, NO_PAIR])
  }

  /** A raw entity that holds only the header of a collection of 40 bytes is reported as
      decompressed, with and without a buffer, although it holds no chunk. */
  lemma {:induction false} RawMismatchSucceeds()
    ensures var data := ImagetteHeader(40);
      && |data| == CmpDataSize(RawHeader()) && SwapChunk(data).None? && DecompressSpec(RawHeader(), data, None) == None
      && Succeeds(RawHeader(), data, None, false, true) && Succeeds(RawHeader(), data, None, false, false)
  {
    var data := ImagetteHeader(40);
    assert data[..12] == data;
    RawHeaderParts();
    HeaderSays(data, 40);
    NoRoomForData(data);
    hide *;
    RawFails(data);
  }

  lemma {:induction false} RawHeaderParts()
    ensures RawHeader().mode.IsRaw() && CmpDataSize(RawHeader()) == 12 && HeaderIsReadable(RawHeader(), 12)
  {
  }

  lemma {:induction false} NoRoomForData(data: seq<byte>)
    requires |data| >= COLLECTION_HDR_SIZE && ColSize(data) > |data|
    ensures SwapChunk(data).None?
  {
    hide ColSize, SwapData, ColDataType;
    SwapChunkStep(data);
  }

  lemma {:induction false} RawFails(data: seq<byte>)
    requires SwapChunk(data).None? && |data| == 12 && HeaderIsReadable(RawHeader(), 12) && RawHeader().mode.IsRaw()
    ensures DecompressSpec(RawHeader(), data, None) == None
    ensures Succeeds(RawHeader(), data, None, false, true) && Succeeds(RawHeader(), data, None, false, false)
  {
    hide SwapChunk, HeaderIsReadable, RawHeader, CountCmp, UnpackCols, AllAccepted;
  }
}
