/** What one collection is packed into and what a reader makes of it. */
module CollectionCode {
  import opened Bits
  import opened Bytes
  import opened Golomb
  import opened Params
  import opened BitReader
  import opened BitWriter
  import opened Errors
  import opened Samples
  import opened UpModel
  import opened DataTypes
  import opened Endian
  import opened Config

  const CMP_COLLECTION_FILD_SIZE: nat := 2

  /** The bytes that stand for something, and the updated model that goes with it. */
  datatype Packed = Packed(bytes: seq<byte>, model: seq<byte>)

  /** The destination can hold that many bytes; without a destination everything fits. */
  predicate HasRoom(room: Option<nat>, need: nat)
  {
    room.None? || need <= room.value
  }

  /** Whole samples of a type that the configuration can compress, with the model data
      exactly in the model modes. */
  predicate DataIsValid(c: CfgSix, dt: DataType, data: seq<byte>, mdl: Option<seq<byte>>)
  {
    && !dt.Unknown? && CfgIsValid(c, dt) && c.round == 0 && |data| % SampleSize(dt) == 0
    && mdl.Some? == c.mode.IsModel() && (mdl.Some? ==> |mdl.value| == |data|)
  }

  //// Compression

  /** The bitstream of the samples. */
  function DataBits(c: CfgSix, dt: DataType, data: seq<byte>, mdl: Option<seq<byte>>): (b: seq<bool>)
    requires DataIsValid(c, dt, data, mdl) && !c.mode.IsRaw()
  {
    FieldsOfValid(dt, c);
    EncFrom(FieldsOf(dt, c), data, mdl, 0)
  }

  /** The updated model of the samples; nothing outside the model modes. */
  function DataModel(c: CfgSix, dt: DataType, data: seq<byte>, mdl: Option<seq<byte>>): (m: seq<byte>)
    requires DataIsValid(c, dt, data, mdl) && !c.mode.IsRaw()
  {
    FieldsOfValid(dt, c);
    if mdl.Some? then UpFrom(FieldsOf(dt, c), data, mdl.value, c.modelValue, 0) else []
  }

  /** The size that the data may have in the destination from offset at on: one byte less
      than the data itself, or else what is left of the destination. */
  function DataLimit(at: nat, len: nat, room: Option<nat>): (limit: nat)
    requires len > 0
  {
    if HasRoom(room, at + len) then at + len - 1 else room.value
  }

  /** The data is compressed if its bits fit the limit, counted in whole 32-bit words. */
  predicate Compresses(at: nat, len: nat, room: Option<nat>, nBits: nat)
    requires len > 0
  {
    8 * at + nBits <= StreamSizeToBits(DataLimit(at, len, room))
  }

  /** The packed data of a collection at offset at of the destination. */
  function PackData(c: CfgSix, dt: DataType, data: seq<byte>, mdl: Option<seq<byte>>, at: nat, room: Option<nat>)
    : (r: Outcome<Packed>)
    requires DataIsValid(c, dt, data, mdl)
  {
    if data == [] then Ok(Packed([], []))
    else if c.mode.IsRaw() then
      if HasRoom(room, at + |data|) then Ok(Packed(SwapData(dt, data).value, [])) else Err(SmallBuffer)
    else
      var bits := DataBits(c, dt, data, mdl);
      if Compresses(at, |data|, room, |bits|) then Ok(Packed(PackBits(bits), DataModel(c, dt, data, mdl)))
      else if HasRoom(room, at + |data|) then
        Ok(Packed(SwapData(dt, data).value, if c.mode.IsModel() then data else []))
      else Err(SmallBuffer)
  }

  /** The first check that a collection fails. */
  function ColError(c: CfgSix, col: seq<byte>, hasModel: bool): (e: Option<CmpError>)
    requires |col| >= COLLECTION_HDR_SIZE && !ColDataType(col).Unknown?
  {
    if ColDataLength(col) % SampleSize(ColDataType(col)) != 0 then Some(ColSizeInconsistent)
    else if !GenParsAreValid(c) then Some(ParGeneric)
    else if !SpecificParsAreValid(c, ColDataType(col)) then Some(ParSpecific)
    else if c.mode.IsModel() && !hasModel then Some(ParNoModel)
    else None
  }

  /** The model data of a collection, in the model modes. */
  function ModelData(c: CfgSix, model: Option<seq<byte>>): (m: Option<seq<byte>>)
    requires model.Some? ==> |model.value| >= COLLECTION_HDR_SIZE
  {
    if c.mode.IsModel() && model.Some? then Some(ColBody(model.value)) else None
  }

  /** The bytes of the field with the size of the compressed data. */
  function SizeField(c: CfgSix, n: nat): (s: seq<byte>)
    ensures |s| == SizeFieldSize(c.mode)
  {
    if c.mode.IsRaw() then [] else ToBigEndian(n, CMP_COLLECTION_FILD_SIZE)
  }

  function SizeFieldSize(mode: CmpMode): nat
  {
    if mode.IsRaw() then 0 else CMP_COLLECTION_FILD_SIZE
  }

  lemma {:induction false} ColDataValid(c: CfgSix, col: seq<byte>, model: Option<seq<byte>>)
    requires |col| >= COLLECTION_HDR_SIZE && |col| == ColSize(col) && !ColDataType(col).Unknown? && c.round == 0
    requires (model.Some? ==> |model.value| == |col|) && ColError(c, col, model.Some?).None?
    ensures DataIsValid(c, ColDataType(col), ColBody(col), ModelData(c, model))
  {
  }

  /** cmp_collection: the packed form of a collection at offset at of the destination. */
  function PackCol(c: CfgSix, col: seq<byte>, model: Option<seq<byte>>, at: nat, room: Option<nat>): (r: Outcome<Packed>)
    requires |col| >= COLLECTION_HDR_SIZE && |col| == ColSize(col) && !ColDataType(col).Unknown? && c.round == 0
    requires model.Some? ==> |model.value| == |col|
  {
    var hdr, data := ColHeader(col), ColBody(col);
    var start := at + SizeFieldSize(c.mode) + COLLECTION_HDR_SIZE;
    var e := ColError(c, col, model.Some?);
    if e.Some? then Err(e.value)
    else if !HasRoom(room, start) then Err(SmallBuffer)
    else
      ColDataValid(c, col, model);
      match PackData(c, ColDataType(col), data, ModelData(c, model), start, room)
      case Err(e) => Err(e)
      case Ok(p) => Ok(Packed(SizeField(c, |p.bytes|) + hdr + p.bytes, if c.mode.IsModel() then hdr + p.model else []))
  }

  //// Sizes

  /** Compressed data is always smaller than the data, and data of the same size is
      stored as it is: the size alone tells the reader which it is. */
  lemma {:induction false} PackDataSize(c: CfgSix, dt: DataType, data: seq<byte>, mdl: Option<seq<byte>>, at: nat, room: Option<nat>)
    requires DataIsValid(c, dt, data, mdl) && PackData(c, dt, data, mdl, at, room).Ok? && HasRoom(room, at)
    ensures var p := PackData(c, dt, data, mdl, at, room).value;
      && |p.bytes| <= |data| && HasRoom(room, at + |p.bytes|)
      && (!c.mode.IsRaw() ==>
           (|p.bytes| < |data| <==>
              data != [] && Compresses(at, |data|, room, |DataBits(c, dt, data, mdl)|)))
  {
    hide PackBits, DataIsValid, DataBits, DataModel;
    SwapKeepsSize(c, dt, data, mdl);
    hide Compresses, SwapData;
    if data != [] && !c.mode.IsRaw() {
      var n := |DataBits(c, dt, data, mdl)|;
      if Compresses(at, |data|, room, n) { CompressedSize(at, |data|, room, n); }
    }
  }

  lemma {:induction false} SwapKeepsSize(c: CfgSix, dt: DataType, data: seq<byte>, mdl: Option<seq<byte>>)
    requires DataIsValid(c, dt, data, mdl)
    ensures SwapData(dt, data).Some? && |SwapData(dt, data).value| == |data|
  {
    hide SampleSize, SwapRecords;
  }

  lemma {:induction false} CompressedSize(at: nat, len: nat, room: Option<nat>, n: nat)
    requires len > 0 && Compresses(at, len, room, n) && HasRoom(room, at)
    ensures (n + 7) / 8 < len && HasRoom(room, at + (n + 7) / 8)
  {
  }

  //// Reading

  /** The data that n packed bytes stand for: as many bytes as the original are the data
      itself in the other byte order, fewer are a bitstream. */
  function UnpackData(c: CfgSix, dt: DataType, bytes: seq<byte>, len: nat, mdl: Option<seq<byte>>): (r: Option<Packed>)
    requires !dt.Unknown? && len % SampleSize(dt) == 0 && (mdl.Some? ==> |mdl.value| == len)
  {
    if |bytes| > len then None
    else if |bytes| == len then
      var d := SwapData(dt, bytes).value;
      Some(Packed(d, if c.mode.IsModel() then d else []))
    else if c.mode.IsRaw() || !CfgIsValid(c, dt) || IsFastCadence(dt) || mdl.Some? != c.mode.IsModel() then None
    else
      FieldsOfValid(dt, c);
      match DecFrom(FieldsOf(dt, c), len, mdl, [], BytesBits(bytes))
      case None => None
      case Some((data, _)) =>
        if |data| > len then None
        else
          Some(Packed(data, if mdl.Some? then UpFrom(FieldsOf(dt, c), data, mdl.value, c.modelValue, 0) else []))
  }

  lemma {:induction false} WholeSamples(n: nat, s: nat)
    requires s > 0 && n % s == 0
    ensures n == (n / s) * s && 0 <= n / s
  {
    DivModParts(n, s);
  }

  lemma {:induction false} UnpackStream(c: CfgSix, dt: DataType, bytes: seq<byte>, mdl: Option<seq<byte>>, data: seq<byte>, rest: seq<bool>)
    requires DataIsValid(c, dt, data, mdl) && !c.mode.IsRaw() && !IsFastCadence(dt) && |bytes| < |data|
    requires ValidFields(FieldsOf(dt, c)) && RecSize(FieldsOf(dt, c)) > 0
    requires DecFrom(FieldsOf(dt, c), |data|, mdl, [], BytesBits(bytes)) == Some((data, rest))
    ensures UnpackData(c, dt, bytes, |data|, mdl) == Some(Packed(data, DataModel(c, dt, data, mdl)))
  {
    hide DecFrom, UpFrom, BytesBits, CfgIsValid, FieldsOf, SampleSize, RecSize, Lossless, ValidFields, SwapData;
  }

  /** A bitstream is read back as the data it was written from. */
  lemma {:induction false} UnpackCompressed(c: CfgSix, dt: DataType, data: seq<byte>, mdl: Option<seq<byte>>)
    requires DataIsValid(c, dt, data, mdl) && !c.mode.IsRaw() && !IsFastCadence(dt)
    requires |PackBits(DataBits(c, dt, data, mdl))| < |data|
    ensures UnpackData(c, dt, PackBits(DataBits(c, dt, data, mdl)), |data|, mdl)
         == Some(Packed(data, DataModel(c, dt, data, mdl)))
  {
    assert !dt.Unknown? && CfgIsValid(c, dt) && c.round == 0 && |data| % SampleSize(dt) == 0;
    FieldsOfValid(dt, c);
    var fs, bits := FieldsOf(dt, c), DataBits(c, dt, data, mdl);
    assert bits == EncFrom(fs, data, mdl, 0);
    hide *;
    WholeSamples(|data|, SampleSize(dt));
    DecFromLossless(fs, data, mdl, |data| / SampleSize(dt), Zeros(PadLen(|bits|, 8)));
    UnpackStream(c, dt, PackBits(bits), mdl, data, Zeros(PadLen(|bits|, 8)));
  }

  /** Outside raw mode, data is packed as a bitstream, or as it is, or there is no room. */
  lemma {:induction false} CodedOutcome(c: CfgSix, dt: DataType, data: seq<byte>, mdl: Option<seq<byte>>, at: nat, room: Option<nat>)
    requires DataIsValid(c, dt, data, mdl) && !c.mode.IsRaw() && data != []
    ensures SwapData(dt, data).Some?
    ensures PackData(c, dt, data, mdl, at, room)
      == if Compresses(at, |data|, room, |DataBits(c, dt, data, mdl)|) then
           Ok(Packed(PackBits(DataBits(c, dt, data, mdl)), DataModel(c, dt, data, mdl)))
         else if HasRoom(room, at + |data|) then Ok(Packed(SwapData(dt, data).value, if c.mode.IsModel() then data else []))
         else Err(SmallBuffer)
  {
    SwapKeepsSize(c, dt, data, mdl);
    hide Compresses, DataBits, DataModel, PackBits, DataIsValid, SwapData;
  }

  lemma {:induction false} EmptyData(c: CfgSix, dt: DataType, mdl: Option<seq<byte>>, at: nat, room: Option<nat>)
    requires DataIsValid(c, dt, [], mdl)
    ensures PackData(c, dt, [], mdl, at, room) == Ok(Packed([], [])) && SwapData(dt, []) == Some([])
  {
    hide SampleSize;
  }

  lemma {:induction false} UnpackSwapped(c: CfgSix, dt: DataType, data: seq<byte>, mdl: Option<seq<byte>>)
    requires DataIsValid(c, dt, data, mdl) && SwapData(dt, data).Some?
    requires SwapData(dt, SwapData(dt, data).value) == Some(data)
    ensures UnpackData(c, dt, SwapData(dt, data).value, |data|, mdl) == Some(Packed(data, if c.mode.IsModel() then data else []))
  {
    hide SwapData, SampleSize, CfgIsValid;
  }

  /** The packed data is read back exactly, with the same updated model, whatever the
      offset and the room were and whether or not it was compressed. */
  lemma {:induction false} UnpackDataInverts(c: CfgSix, dt: DataType, data: seq<byte>, mdl: Option<seq<byte>>, at: nat, room: Option<nat>)
    requires DataIsValid(c, dt, data, mdl) && !c.mode.IsRaw() && !IsFastCadence(dt) && HasRoom(room, at)
    requires PackData(c, dt, data, mdl, at, room).Ok?
    ensures var p := PackData(c, dt, data, mdl, at, room).value;
      UnpackData(c, dt, p.bytes, |data|, mdl) == Some(Packed(data, p.model))
  {
    hide *;
    PackDataSize(c, dt, data, mdl, at, room);
    SwapKeepsSize(c, dt, data, mdl);
    if data == [] { EmptyData(c, dt, mdl, at, room); } else { CodedOutcome(c, dt, data, mdl, at, room); }
    var p := PackData(c, dt, data, mdl, at, room).value;
    if |p.bytes| < |data| {
      UnpackCompressed(c, dt, data, mdl);
    } else {
      SwapDataTwice(dt, data);
      UnpackSwapped(c, dt, data, mdl);
    }
  }

  //// The packed form in plain terms

  /** Data at offset at is stored as its bitstream exactly if the bits, counted from the start
      of the destination, fit the whole 32-bit words in front of the last byte that the raw data
      would take; and if the raw data does not fit the room, then the whole words of the room. */
  lemma {:induction false} CompressesExactly(at: nat, len: nat, room: Option<nat>, n: nat)
    requires len > 0
    ensures room.None? || at + len <= room.value ==> (Compresses(at, len, room, n) <==> 8 * at + n <= 32 * ((at + len - 1) / 4))
    ensures room.Some? && room.value < at + len ==> (Compresses(at, len, room, n) <==> 8 * at + n <= 32 * (room.value / 4))
  {
  }
}
