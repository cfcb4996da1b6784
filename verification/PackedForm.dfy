/** What the packed form of a collection holds, number by number. */
module PackedForm {
  import opened Bits
  import opened Bytes
  import opened Golomb
  import opened Params
  import opened Errors
  import opened Samples
  import opened SampleStream
  import opened UpModel
  import opened DataTypes
  import opened Endian
  import opened Config
  import opened CollectionCode
  import opened ChunkCode

  /** How many records the data holds. */
  function Records(dt: DataType, data: seq<byte>): (n: nat)
    requires !dt.Unknown?
  {
    Quot(|data|, SampleSize(dt))
  }

  /** Coded data: the codes of all fields of all records, filled up to a byte with zeros. */
  ghost predicate HoldsStream(fs: seq<Field>, data: seq<byte>, mdl: Option<seq<byte>>, n: nat, b: seq<byte>)
  {
    && Whole(fs, data, mdl, n) && |data| == BytesOf(n, RecSize(fs))
    && |StreamCode(fs, data, mdl, n, n)| <= 8 * |b| < |StreamCode(fs, data, mdl, n, n)| + 8
    && BytesBits(b) == StreamCode(fs, data, mdl, n, n) + Zeros(8 * |b| - |StreamCode(fs, data, mdl, n, n)|)
  }

  /** The updated model of coded data. */
  ghost predicate HoldsUpdate(fs: seq<Field>, data: seq<byte>, mdl: Option<seq<byte>>, n: nat, mv: nat, up: seq<byte>)
  {
    if mdl.None? then up == []
    else ValidFields(fs) && mv <= 16 && |up| == |data| && HoldsMeans(fs, n, data, mdl.value, mv, up, 0)
  }

  /** PACKED DATA. It is as long as the data and then the data in the other byte order, with the
      data itself as its updated model, or it is shorter and then the coded records, with the
      weighted means as their updated model. */
  ghost predicate HoldsData(c: CfgSix, dt: DataType, data: seq<byte>, mdl: Option<seq<byte>>, p: Packed)
    requires !dt.Unknown?
  {
    if |p.bytes| == |data| then
      && DataSwapped(dt, data, p.bytes)
      && p.model == if c.mode == ModelZero || c.mode == ModelMulti then data else []
    else
      && |p.bytes| < |data| && c.mode != Raw
      && HoldsStream(FieldsOf(dt, c), data, mdl, Records(dt, data), p.bytes)
      && HoldsUpdate(FieldsOf(dt, c), data, mdl, Records(dt, data), c.modelValue, p.model)
  }

  lemma {:induction false} PackedCases(c: CfgSix, dt: DataType, data: seq<byte>, mdl: Option<seq<byte>>, at: nat, room: Option<nat>)
    requires DataIsValid(c, dt, data, mdl) && PackData(c, dt, data, mdl, at, room).Ok?
    ensures !dt.Unknown? && SwapData(dt, data).Some?
    ensures var p := PackData(c, dt, data, mdl, at, room).value;
      || p == Packed(SwapData(dt, data).value, if c.mode.IsModel() then data else [])
      || (data != [] && !c.mode.IsRaw() && Compresses(at, |data|, room, |DataBits(c, dt, data, mdl)|)
          && p == Packed(PackBits(DataBits(c, dt, data, mdl)), DataModel(c, dt, data, mdl)))
  {
    hide DataBits, DataModel, PackBits, CfgIsValid, SampleSize, Compresses;
    if data == [] { assert SwapData(dt, data).value == []; }
  }

  /** The records of valid data. */
  lemma {:induction false} RecordsOf(c: CfgSix, dt: DataType, data: seq<byte>, mdl: Option<seq<byte>>)
    requires DataIsValid(c, dt, data, mdl) && !c.mode.IsRaw()
    ensures !dt.Unknown? && ValidFields(FieldsOf(dt, c)) && RecSize(FieldsOf(dt, c)) > 0
    ensures mdl.Some? ==> |mdl.value| == |data| && c.modelValue <= MAX_MODEL_VALUE
    ensures BytesOf(Records(dt, data), RecSize(FieldsOf(dt, c))) == |data|
    ensures DataBits(c, dt, data, mdl) == EncFrom(FieldsOf(dt, c), data, mdl, 0)
    ensures DataModel(c, dt, data, mdl) == if mdl.Some? then UpFrom(FieldsOf(dt, c), data, mdl.value, c.modelValue, 0) else []
  {
    FieldsOfValid(dt, c);
    DivModParts(|data|, SampleSize(dt));
    hide EncFrom, UpFrom, FieldsOf, ValidFields, RecSize, SampleSize, SpecificParsAreValid;
  }

  lemma {:induction false} StreamHeld(fs: seq<Field>, data: seq<byte>, mdl: Option<seq<byte>>, n: nat, bits: seq<bool>)
    requires ValidFields(fs) && RecSize(fs) > 0 && BytesOf(n, RecSize(fs)) == |data| && (mdl.Some? ==> |mdl.value| == |data|)
    requires bits == EncFrom(fs, data, mdl, 0)
    ensures HoldsStream(fs, data, mdl, n, PackBits(bits))
  {
    hide *;
    WholeOf(fs, data, mdl, n);
    StreamIs(fs, data, mdl, n);
    PaddedTo8(bits);
    HoldsStreamOf(fs, data, mdl, n, bits);
  }

  lemma {:induction false} PaddedTo8(bits: seq<bool>)
    ensures |bits| <= 8 * |PackBits(bits)| < |bits| + 8
    ensures BytesBits(PackBits(bits)) == bits + Zeros(8 * |PackBits(bits)| - |bits|)
  {
    hide PackBits, PadLen;
    assert |BytesBits(PackBits(bits))| == |bits| + PadLen(|bits|, 8);
  }

  lemma {:induction false} HoldsStreamOf(fs: seq<Field>, data: seq<byte>, mdl: Option<seq<byte>>, n: nat, bits: seq<bool>)
    requires Whole(fs, data, mdl, n) && |data| == BytesOf(n, RecSize(fs)) && bits == StreamCode(fs, data, mdl, n, n)
    requires |bits| <= 8 * |PackBits(bits)| < |bits| + 8 && BytesBits(PackBits(bits)) == bits + Zeros(8 * |PackBits(bits)| - |bits|)
    ensures HoldsStream(fs, data, mdl, n, PackBits(bits))
  {
    hide Whole, BytesOf, RecSize, StreamCode, PackBits, BytesBits;
  }

  lemma {:induction false} UpdateHeld(fs: seq<Field>, data: seq<byte>, mdl: Option<seq<byte>>, n: nat, mv: nat)
    requires ValidFields(fs) && RecSize(fs) > 0 && BytesOf(n, RecSize(fs)) == |data|
    requires mdl.Some? ==> |mdl.value| == |data| && mv <= MAX_MODEL_VALUE
    ensures HoldsUpdate(fs, data, mdl, n, mv, if mdl.Some? then UpFrom(fs, data, mdl.value, mv, 0) else [])
  {
    hide UpFrom, HoldsMeans, ValidFields, RecSize, BytesOf;
    if mdl.Some? { UpFromMeans(fs, n, data, mdl.value, mv); }
  }

  /** Packed data holds what it should, coded or not. */
  lemma {:induction false} PackedDataIs(c: CfgSix, dt: DataType, data: seq<byte>, mdl: Option<seq<byte>>, at: nat, room: Option<nat>)
    requires DataIsValid(c, dt, data, mdl) && PackData(c, dt, data, mdl, at, room).Ok?
    ensures !dt.Unknown? && HoldsData(c, dt, data, mdl, PackData(c, dt, data, mdl, at, room).value)
  {
    hide *;
    PackedCases(c, dt, data, mdl, at, room);
    SwapDataIs(dt, data);
    ModelModes(c.mode);
    var p := PackData(c, dt, data, mdl, at, room).value;
    if p == Packed(SwapData(dt, data).value, if c.mode.IsModel() then data else []) {
      HoldsRaw(c, dt, data, mdl, p);
    } else {
      RecordsOf(c, dt, data, mdl);
      var fs, n, bits := FieldsOf(dt, c), Records(dt, data), DataBits(c, dt, data, mdl);
      StreamHeld(fs, data, mdl, n, bits);
      UpdateHeld(fs, data, mdl, n, c.modelValue);
      CodedSize(at, |data|, room, bits);
      HoldsCoded(c, dt, data, mdl, p);
    }
  }

  lemma {:induction false} ModelModes(mode: CmpMode)
    ensures mode.IsModel() <==> mode == ModelZero || mode == ModelMulti
    ensures mode.IsRaw() <==> mode == Raw
  {
  }

  lemma {:induction false} CodedSize(at: nat, len: nat, room: Option<nat>, bits: seq<bool>)
    requires len > 0 && Compresses(at, len, room, |bits|)
    ensures |PackBits(bits)| < len
  {
    hide PackBits;
  }

  lemma {:induction false} HoldsRaw(c: CfgSix, dt: DataType, data: seq<byte>, mdl: Option<seq<byte>>, p: Packed)
    requires !dt.Unknown? && |p.bytes| == |data| && DataSwapped(dt, data, p.bytes)
    requires p.model == if c.mode == ModelZero || c.mode == ModelMulti then data else []
    ensures HoldsData(c, dt, data, mdl, p)
  {
    hide DataSwapped, HoldsStream, HoldsUpdate;
  }

  lemma {:induction false} HoldsCoded(c: CfgSix, dt: DataType, data: seq<byte>, mdl: Option<seq<byte>>, p: Packed)
    requires !dt.Unknown? && |p.bytes| < |data| && c.mode != Raw
    requires HoldsStream(FieldsOf(dt, c), data, mdl, Records(dt, data), p.bytes)
    requires HoldsUpdate(FieldsOf(dt, c), data, mdl, Records(dt, data), c.modelValue, p.model)
    ensures HoldsData(c, dt, data, mdl, p)
  {
    hide DataSwapped, HoldsStream, HoldsUpdate, FieldsOf, Records;
  }

  //// A packed collection

  /** A PACKED COLLECTION is its size field (outside raw mode), its header as it is, and its
      packed data; the size field counts the bytes of the data. In the model modes its updated
      model is the header and the updated model of the data. */
  ghost predicate HoldsCollection(c: CfgSix, col: seq<byte>, model: Option<seq<byte>>, p: Packed)
    requires |col| >= 12 && |col| >= COLLECTION_HDR_SIZE && !ColDataType(col).Unknown?
    requires model.Some? ==> |model.value| >= COLLECTION_HDR_SIZE
  {
    var at := if c.mode == Raw then 0 else 2;
    && |p.bytes| >= at + 12 && (c.mode != Raw ==> U16At(p.bytes, 0) == |p.bytes| - 14)
    && p.bytes[at..at + 12] == col[..12]
    && (if c.mode == ModelZero || c.mode == ModelMulti then |p.model| == |col| && p.model[..12] == col[..12] else p.model == [])
    && HoldsData(c, ColDataType(col), col[12..], ModelData(c, model),
         Packed(p.bytes[at + 12..], if |p.model| >= 12 then p.model[12..] else []))
  }

  lemma {:induction false} PackedCollectionIs(c: CfgSix, col: seq<byte>, model: Option<seq<byte>>, at: nat, room: Option<nat>)
    requires |col| >= COLLECTION_HDR_SIZE && |col| == ColSize(col) && !ColDataType(col).Unknown? && c.round == 0
    requires (model.Some? ==> |model.value| == |col|) && PackCol(c, col, model, at, room).Ok?
    ensures |col| >= 12 && HoldsCollection(c, col, model, PackCol(c, col, model, at, room).value)
  {
    hide *;
    HeaderIs(c, col);
    var d := PackColParts(c, col, model, at, room);
    DataOf(c, col, model, at + SizeFieldSize(c.mode) + COLLECTION_HDR_SIZE, room, d);
    FormatOf(c, d.bytes, ColHeader(col));
    HoldsCollectionOf(c, col, model, d, PackCol(c, col, model, at, room).value);
  }

  lemma {:induction false} DataOf(c: CfgSix, col: seq<byte>, model: Option<seq<byte>>, start: nat, room: Option<nat>, d: Packed)
    requires |col| >= COLLECTION_HDR_SIZE && |ColBody(col)| < 0x1_0000 && (model.Some? ==> |model.value| == |col|)
    requires DataIsValid(c, ColDataType(col), ColBody(col), ModelData(c, model)) && HasRoom(room, start)
    requires PackData(c, ColDataType(col), ColBody(col), ModelData(c, model), start, room) == Ok(d)
    ensures !ColDataType(col).Unknown? && |d.bytes| < 0x1_0000
    ensures HoldsData(c, ColDataType(col), ColBody(col), ModelData(c, model), d)
    ensures |d.model| == if c.mode.IsModel() then |ColBody(col)| else 0
  {
    hide *;
    PackDataSize(c, ColDataType(col), ColBody(col), ModelData(c, model), start, room);
    PackedDataIs(c, ColDataType(col), ColBody(col), ModelData(c, model), start, room);
    ModelSize(c, ColDataType(col), ColBody(col), ModelData(c, model), d);
  }

  /** The updated model of data has its size. */
  lemma {:induction false} ModelSize(c: CfgSix, dt: DataType, data: seq<byte>, mdl: Option<seq<byte>>, p: Packed)
    requires DataIsValid(c, dt, data, mdl) && HoldsData(c, dt, data, mdl, p)
    ensures |p.model| == if c.mode.IsModel() then |data| else 0
  {
    hide DataSwapped, HoldsStream, FieldsOf, Records, CfgIsValid, SampleSize, HoldsMeans, ValidFields;
  }

  lemma {:induction false} HoldsCollectionOf(c: CfgSix, col: seq<byte>, model: Option<seq<byte>>, d: Packed, p: Packed)
    requires |col| >= 12 && |col| >= COLLECTION_HDR_SIZE == 12 && !ColDataType(col).Unknown?
    requires model.Some? ==> |model.value| >= COLLECTION_HDR_SIZE
    requires HoldsData(c, ColDataType(col), ColBody(col), ModelData(c, model), d)
    requires |d.model| == if c.mode.IsModel() then |ColBody(col)| else 0
    requires |SizeField(c, |d.bytes|)| == (if c.mode.IsRaw() then 0 else 2) && ColHeader(col) == col[..12]
    requires p == Packed(SizeField(c, |d.bytes|) + ColHeader(col) + d.bytes, if c.mode.IsModel() then ColHeader(col) + d.model else [])
    requires !c.mode.IsRaw() ==> |p.bytes| >= 14 && U16At(p.bytes, 0) == |p.bytes| - 14
    ensures HoldsCollection(c, col, model, p)
  {
    hide HoldsData, ColDataType, U16At, SizeField, ModelData;
    var at := if c.mode == Raw then 0 else 2;
    assert p.bytes[at + 12..] == d.bytes;
    assert col[12..] == ColBody(col);
    assert (if |p.model| >= 12 then p.model[12..] else []) == d.model;
  }

  lemma {:induction false} HeaderIs(c: CfgSix, col: seq<byte>)
    requires |col| >= COLLECTION_HDR_SIZE && |col| == ColSize(col)
    ensures |col| >= 12 && ColHeader(col) == col[..12] && |ColBody(col)| < 0x1_0000
    ensures SizeFieldSize(c.mode) == (if c.mode.IsRaw() then 0 else 2) && COLLECTION_HDR_SIZE == 12
  {
  }

  lemma {:induction false} FormatOf(c: CfgSix, data: seq<byte>, h: seq<byte>)
    requires |h| == 12 && |data| < 0x1_0000
    ensures |SizeField(c, |data|)| == if c.mode.IsRaw() then 0 else 2
    ensures var b := SizeField(c, |data|) + h + data;
      if c.mode.IsRaw() then |b| >= 12 && b[..12] == h
      else |b| >= 14 && U16At(b, 0) == |b| - 14 && b[2..14] == h
  {
    if !c.mode.IsRaw() {
      Pow2Values();
      hide ToBigEndian, BigEndian, Pow2;
      BigEndianRoundTrip(|data|, 2);
      var b := SizeField(c, |data|) + h + data;
      assert b[0..2] == ToBigEndian(|data|, 2);
    }
  }
}
