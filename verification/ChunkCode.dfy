/** What a chunk of any number of collections is packed into, what a reader makes of it,
    and how large it can get. */
module ChunkCode {
  import opened Bits
  import opened Bytes
  import opened Golomb
  import opened Params
  import opened Errors
  import opened Samples
  import opened DataTypes
  import opened Endian
  import opened Config
  import opened CollectionCode

  //// Compression

  /** The model of the same bytes, cut like the chunk. */
  function ModelFront(model: Option<seq<byte>>, n: nat): Option<seq<byte>>
    requires model.Some? ==> n <= |model.value|
  {
    if model.Some? then Some(model.value[..n]) else None
  }

  function ModelBack(model: Option<seq<byte>>, n: nat): Option<seq<byte>>
    requires model.Some? ==> n <= |model.value|
  {
    if model.Some? then Some(model.value[n..]) else None
  }

  /** One more packed collection. */
  function Plus(done: Packed, p: Packed): Packed
  {
    Packed(done.bytes + p.bytes, done.model + p.model)
  }

  /** One packed collection followed by the result for the others. */
  function Then(p: Packed, rest: Outcome<Packed>): Outcome<Packed>
  {
    match rest
    case Err(e) => Err(e)
    case Ok(q) => Ok(Packed(p.bytes + q.bytes, p.model + q.model))
  }

  lemma {:induction false} FirstCollection(chunk: seq<byte>)
    requires |chunk| >= COLLECTION_HDR_SIZE && ColSize(chunk) <= |chunk|
    ensures var col := chunk[..ColSize(chunk)];
      && |col| == ColSize(col) == ColSize(chunk) >= COLLECTION_HDR_SIZE
      && ColSubservice(col) == ColSubservice(chunk)
      && ColDataType(col) == ColDataType(chunk) && ColChunkType(col) == ColChunkType(chunk)
      && ColDataLength(col) == ColDataLength(chunk)
      && ColHeader(col) == chunk[..COLLECTION_HDR_SIZE] && ColBody(col) == chunk[COLLECTION_HDR_SIZE..ColSize(chunk)]
      && (!ColChunkType(chunk).UnknownChunk? ==> !ColDataType(col).Unknown? && !IsFastCadence(ColDataType(col)))
  {
    var col := chunk[..ColSize(chunk)];
    assert ColHeader(col) == chunk[..COLLECTION_HDR_SIZE];
    SameHeader(col, chunk);
    ChunkTypesAreCompressible(ColSubservice(chunk));
  }

  /** The loop of compress_chunk over the collections, from offset at of the destination on. */
  function PackCols(c: CfgSix, ct: ChunkType, chunk: seq<byte>, model: Option<seq<byte>>, at: nat, room: Option<nat>)
    : (r: Outcome<Packed>)
    requires !ct.UnknownChunk? && c.round == 0 && (model.Some? ==> |model.value| == |chunk|)
    decreases |chunk|
  {
    if chunk == [] then Ok(Packed([], []))
    else if |chunk| < COLLECTION_HDR_SIZE then Err(ChunkSizeInconsistent)
    else if ColChunkType(chunk) != ct then Err(ChunkSubserviceInconsistent)
    else if ColSize(chunk) > |chunk| then Err(ChunkSizeInconsistent)
    else
      FirstCollection(chunk);
      var n := ColSize(chunk);
      match PackCol(c, chunk[..n], ModelFront(model, n), at, room)
      case Err(e) => Err(e)
      case Ok(p) => Then(p, PackCols(c, ct, chunk[n..], ModelBack(model, n), at + |p.bytes|, room))
  }

  lemma {:induction false} ModelParts(model: Option<seq<byte>>, n: nat)
    requires model.Some? ==> n <= |model.value|
    ensures ModelFront(model, n).Some? == model.Some? == ModelBack(model, n).Some?
    ensures model.Some? ==> |ModelFront(model, n).value| == n && |ModelBack(model, n).value| == |model.value| - n
  {
  }

  /** A chunk that packs is a collection that packs, followed by a chunk that packs. */
  lemma {:induction false} PackColsStep(c: CfgSix, ct: ChunkType, chunk: seq<byte>, model: Option<seq<byte>>, at: nat, room: Option<nat>)
    returns (n: nat, p: Packed, q: Packed)
    requires !ct.UnknownChunk? && c.round == 0 && (model.Some? ==> |model.value| == |chunk|) && chunk != []
    requires PackCols(c, ct, chunk, model, at, room).Ok?
    ensures |chunk| >= COLLECTION_HDR_SIZE && 0 < n == ColSize(chunk) <= |chunk|
    ensures ModelFront(model, n).Some? == model.Some? == ModelBack(model, n).Some?
    ensures model.Some? ==> |ModelFront(model, n).value| == n && |ModelBack(model, n).value| == |model.value| - n
    ensures |chunk[..n]| == ColSize(chunk[..n]) == n >= COLLECTION_HDR_SIZE
    ensures !ColDataType(chunk[..n]).Unknown? && !IsFastCadence(ColDataType(chunk[..n]))
    ensures PackCol(c, chunk[..n], ModelFront(model, n), at, room) == Ok(p)
    ensures PackCols(c, ct, chunk[n..], ModelBack(model, n), at + |p.bytes|, room) == Ok(q)
    ensures PackCols(c, ct, chunk, model, at, room) == Ok(Packed(p.bytes + q.bytes, p.model + q.model))
  {
    hide PackCol, ConvertSubservice, ChunkTypeOfSubservice, ColDataLength;
    FirstCollection(chunk);
    n := ColSize(chunk);
    p := PackCol(c, chunk[..n], ModelFront(model, n), at, room).value;
    q := PackCols(c, ct, chunk[n..], ModelBack(model, n), at + |p.bytes|, room).value;
  }

  //// Reading

  /** The size field and the header of the compressed collection at the front of body. */
  predicate HasCmpCol(body: seq<byte>)
  {
    |body| >= CMP_COLLECTION_FILD_SIZE + COLLECTION_HDR_SIZE && CmpColSize(body) <= |body|
  }

  /** get_cmp_collection_data_length and get_cmp_collection_size */
  function CmpColDataLength(body: seq<byte>): (n: nat)
    requires |body| >= CMP_COLLECTION_FILD_SIZE
  {
    U16At(body, 0)
  }

  function CmpColSize(body: seq<byte>): (n: nat)
    requires |body| >= CMP_COLLECTION_FILD_SIZE
    ensures n >= CMP_COLLECTION_FILD_SIZE + COLLECTION_HDR_SIZE
  {
    CMP_COLLECTION_FILD_SIZE + COLLECTION_HDR_SIZE + CmpColDataLength(body)
  }

  /** The collection at the front of body, when at most total bytes are left for it. */
  function UnpackCol(c: CfgSix, body: seq<byte>, total: nat, model: Option<seq<byte>>): (r: Option<Packed>)
    requires HasCmpCol(body) && (model.Some? ==> |model.value| == total)
  {
    var col := body[CMP_COLLECTION_FILD_SIZE..];
    var hdr, dt, len := ColHeader(col), ColDataType(col), ColDataLength(col);
    if CmpColDataLength(body) > len || dt.Unknown? || len % SampleSize(dt) != 0 || COLLECTION_HDR_SIZE + len > total then None
    else
      var bytes := body[CMP_COLLECTION_FILD_SIZE + COLLECTION_HDR_SIZE..CmpColSize(body)];
      match UnpackData(c, dt, bytes, len, ModelData(c, ModelFront(model, COLLECTION_HDR_SIZE + len)))
      case None => None
      case Some(p) => Some(Packed(hdr + p.bytes, if c.mode.IsModel() then hdr + p.model else []))
  }

  /** All collections of a compressed chunk, when at most total bytes are left for them. */
  function UnpackCols(c: CfgSix, body: seq<byte>, total: nat, model: Option<seq<byte>>): (r: Option<Packed>)
    requires model.Some? ==> |model.value| == total
    decreases |body|
  {
    if body == [] then Some(Packed([], []))
    else if !HasCmpCol(body) then None
    else
      match UnpackCol(c, body, total, model)
      case None => None
      case Some(p) =>
        if |p.bytes| > total then None
        else
          match UnpackCols(c, body[CmpColSize(body)..], total - |p.bytes|, ModelBack(model, |p.bytes|))
          case None => None
          case Some(q) => Some(Packed(p.bytes + q.bytes, p.model + q.model))
  }

  //// Round trip of a collection

  /** The parts of a packed collection. */
  lemma {:induction false} PackColParts(c: CfgSix, col: seq<byte>, model: Option<seq<byte>>, at: nat, room: Option<nat>) returns (d: Packed)
    requires |col| >= COLLECTION_HDR_SIZE && |col| == ColSize(col) && !ColDataType(col).Unknown? && c.round == 0
    requires (model.Some? ==> |model.value| == |col|) && PackCol(c, col, model, at, room).Ok?
    ensures DataIsValid(c, ColDataType(col), ColBody(col), ModelData(c, model)) && GenParsAreValid(c)
    ensures HasRoom(room, at + SizeFieldSize(c.mode) + COLLECTION_HDR_SIZE)
    ensures PackData(c, ColDataType(col), ColBody(col), ModelData(c, model), at + SizeFieldSize(c.mode) + COLLECTION_HDR_SIZE, room) == Ok(d)
    ensures PackCol(c, col, model, at, room)
      == Ok(Packed(SizeField(c, |d.bytes|) + ColHeader(col) + d.bytes, if c.mode.IsModel() then ColHeader(col) + d.model else []))
  {
    hide PackData, ColDataType, GenParsAreValid, SpecificParsAreValid, ColSize, ColHeader, ColBody, SizeField, SizeFieldSize, SampleSize;
    ColDataValid(c, col, model);
    d := PackData(c, ColDataType(col), ColBody(col), ModelData(c, model), at + SizeFieldSize(c.mode) + COLLECTION_HDR_SIZE, room).value;
  }

  lemma {:induction false} CodedSizeField(c: CfgSix, n: nat)
    requires !c.mode.IsRaw()
    ensures SizeField(c, n) == ToBigEndian(n, CMP_COLLECTION_FILD_SIZE) && SizeFieldSize(c.mode) == CMP_COLLECTION_FILD_SIZE
  {
  }

  lemma {:induction false} BodySize(c: CfgSix, col: seq<byte>, model: Option<seq<byte>>)
    requires |col| >= COLLECTION_HDR_SIZE && |col| == ColSize(col) && (model.Some? ==> |model.value| == |col|)
    requires DataIsValid(c, ColDataType(col), ColBody(col), ModelData(c, model))
    ensures !ColDataType(col).Unknown? && |ColBody(col)| == ColDataLength(col) < 0x1_0000
    ensures ColDataLength(col) % SampleSize(ColDataType(col)) == 0
  {
    hide ColDataType, SampleSize, SpecificParsAreValid, GenParsAreValid;
  }

  /** The size field of a packed collection tells the size of the packed data, and the
      header behind it is the one of the collection. */
  lemma {:induction false} CmpColFields(n: nat, hdr: seq<byte>, bytes: seq<byte>, rest: seq<byte>)
    requires n == |bytes| < 0x1_0000 && |hdr| == COLLECTION_HDR_SIZE
    ensures var b := ToBigEndian(n, CMP_COLLECTION_FILD_SIZE) + hdr + bytes + rest;
      && HasCmpCol(b) && CmpColDataLength(b) == n
      && b[CMP_COLLECTION_FILD_SIZE..][..COLLECTION_HDR_SIZE] == hdr
      && b[CMP_COLLECTION_FILD_SIZE + COLLECTION_HDR_SIZE..CmpColSize(b)] == bytes
      && b[CmpColSize(b)..] == rest
  {
    Pow2Values();
    BigEndianRoundTrip(n, CMP_COLLECTION_FILD_SIZE);
    hide ToBigEndian, BigEndian, Pow2;
    var b := ToBigEndian(n, CMP_COLLECTION_FILD_SIZE) + hdr + bytes + rest;
    assert b[0..2] == ToBigEndian(n, CMP_COLLECTION_FILD_SIZE);
  }

  /** A packed collection, whatever follows it, is read back with its updated model. */
  lemma {:induction false} UnpackColInverts(c: CfgSix, col: seq<byte>, model: Option<seq<byte>>, at: nat, room: Option<nat>,
    total: nat, whole: Option<seq<byte>>, rest: seq<byte>, p: Packed)
    requires |col| >= COLLECTION_HDR_SIZE && |col| == ColSize(col) && c.round == 0 && !c.mode.IsRaw()
    requires !ColDataType(col).Unknown? && !IsFastCadence(ColDataType(col)) && |col| <= total
    requires (whole.Some? ==> |whole.value| == total) && model == ModelFront(whole, |col|)
    requires PackCol(c, col, model, at, room) == Ok(p)
    ensures HasCmpCol(p.bytes + rest) && (p.bytes + rest)[CmpColSize(p.bytes + rest)..] == rest
    ensures UnpackCol(c, p.bytes + rest, total, whole) == Some(Packed(col, p.model))
  {
    hide *;
    ModelParts(whole, |col|);
    var d := PackColParts(c, col, model, at, room);
    var hdr, data := ColHeader(col), ColBody(col);
    var start := at + SizeFieldSize(c.mode) + COLLECTION_HDR_SIZE;
    var dt, mdl := ColDataType(col), ModelData(c, model);
    BodySize(c, col, model);
    PackDataSize(c, dt, data, mdl, start, room);
    UnpackDataInverts(c, dt, data, mdl, start, room);
    CodedSizeField(c, |d.bytes|);
    CmpColFields(|d.bytes|, hdr, d.bytes, rest);
    UnpackColIs(c, p.bytes + rest, total, whole, col, d);
  }

  /** UnpackCol on a readable collection of n bytes. */
  lemma {:induction false} UnpackColOf(c: CfgSix, b: seq<byte>, total: nat, whole: Option<seq<byte>>, h: seq<byte>, n: nat, p: Packed)
    requires HasCmpCol(b) && h == b[CMP_COLLECTION_FILD_SIZE..] && |h| >= COLLECTION_HDR_SIZE
    requires n == COLLECTION_HDR_SIZE + ColDataLength(h) <= total && (whole.Some? ==> |whole.value| == total)
    requires CmpColDataLength(b) <= ColDataLength(h) && !ColDataType(h).Unknown? && ColDataLength(h) % SampleSize(ColDataType(h)) == 0
    requires UnpackData(c, ColDataType(h), b[CMP_COLLECTION_FILD_SIZE + COLLECTION_HDR_SIZE..CmpColSize(b)], ColDataLength(h),
        ModelData(c, ModelFront(whole, n))) == Some(p)
    ensures UnpackCol(c, b, total, whole)
      == Some(Packed(ColHeader(h) + p.bytes, if c.mode.IsModel() then ColHeader(h) + p.model else []))
  {
    hide UnpackData, SampleSize, ColDataType, ColDataLength, ColHeader, ModelFront, ModelData, CmpColSize, CmpColDataLength, HasCmpCol;
  }

  lemma {:induction false} UnpackColIs(c: CfgSix, b: seq<byte>, total: nat, whole: Option<seq<byte>>, col: seq<byte>, d: Packed)
    requires |col| >= COLLECTION_HDR_SIZE && |col| == ColSize(col) <= total && !ColDataType(col).Unknown?
    requires (whole.Some? ==> |whole.value| == total) && ColDataLength(col) % SampleSize(ColDataType(col)) == 0
    requires HasCmpCol(b) && b[CMP_COLLECTION_FILD_SIZE..][..COLLECTION_HDR_SIZE] == ColHeader(col)
    requires b[CMP_COLLECTION_FILD_SIZE + COLLECTION_HDR_SIZE..CmpColSize(b)] == d.bytes
    requires CmpColDataLength(b) == |d.bytes| <= ColDataLength(col)
    requires UnpackData(c, ColDataType(col), d.bytes, ColDataLength(col), ModelData(c, ModelFront(whole, |col|)))
      == Some(Packed(ColBody(col), d.model))
    ensures UnpackCol(c, b, total, whole) == Some(Packed(col, if c.mode.IsModel() then ColHeader(col) + d.model else []))
  {
    var h := b[CMP_COLLECTION_FILD_SIZE..];
    assert |h| >= COLLECTION_HDR_SIZE && ColHeader(h) == ColHeader(col);
    assert |col| == COLLECTION_HDR_SIZE + ColDataLength(col);
    SameHeader(h, col);
    hide *;
    TwoParts(col);
    UnpackColOf(c, b, total, whole, h, |col|, Packed(ColBody(col), d.model));
  }

  lemma {:induction false} TwoParts(col: seq<byte>)
    requires |col| >= COLLECTION_HDR_SIZE
    ensures ColHeader(col) + ColBody(col) == col
  {
  }

  //// Round trip of a chunk

  /** Every chunk that packs, of any number of collections and with any mix of compressed
      and raw ones, is read back exactly, with the same updated model. */
  lemma {:induction false} UnpackColsInverts(c: CfgSix, ct: ChunkType, chunk: seq<byte>, model: Option<seq<byte>>, at: nat, room: Option<nat>)
    requires !ct.UnknownChunk? && c.round == 0 && !c.mode.IsRaw() && (model.Some? ==> |model.value| == |chunk|)
    requires PackCols(c, ct, chunk, model, at, room).Ok?
    ensures var p := PackCols(c, ct, chunk, model, at, room).value;
      UnpackCols(c, p.bytes, |chunk|, model) == Some(Packed(chunk, p.model))
    decreases |chunk|
  {
    hide *;
    if chunk == [] {
      NothingPacked(c, ct, model, at, room);
    } else {
      var n, p, q := PackColsStep(c, ct, chunk, model, at, room);
      UnpackColInverts(c, chunk[..n], ModelFront(model, n), at, room, |chunk|, model, q.bytes, p);
      UnpackColsInverts(c, ct, chunk[n..], ModelBack(model, n), at + |p.bytes|, room);
      UnpackColsStep(c, p.bytes + q.bytes, |chunk|, model, Packed(chunk[..n], p.model), Packed(chunk[n..], q.model));
      assert chunk == chunk[..n] + chunk[n..];
    }
  }

  lemma {:induction false} NothingPacked(c: CfgSix, ct: ChunkType, model: Option<seq<byte>>, at: nat, room: Option<nat>)
    requires !ct.UnknownChunk? && c.round == 0 && (model.Some? ==> |model.value| == 0)
    ensures PackCols(c, ct, [], model, at, room) == Ok(Packed([], [])) && UnpackCols(c, [], 0, model) == Some(Packed([], []))
  {
  }

  lemma {:induction false} UnpackColsStep(c: CfgSix, body: seq<byte>, total: nat, model: Option<seq<byte>>, p: Packed, q: Packed)
    requires (model.Some? ==> |model.value| == total) && HasCmpCol(body) && |p.bytes| <= total
    requires UnpackCol(c, body, total, model) == Some(p)
    requires UnpackCols(c, body[CmpColSize(body)..], total - |p.bytes|, ModelBack(model, |p.bytes|)) == Some(q)
    ensures UnpackCols(c, body, total, model) == Some(Packed(p.bytes + q.bytes, p.model + q.model))
  {
    hide UnpackCol, CmpColSize;
  }

  /** In raw mode the packed chunk is the chunk in the other byte order. */
  lemma {:induction false} RawIsSwapped(c: CfgSix, ct: ChunkType, chunk: seq<byte>, model: Option<seq<byte>>, at: nat, room: Option<nat>)
    requires !ct.UnknownChunk? && c.round == 0 && c.mode.IsRaw() && (model.Some? ==> |model.value| == |chunk|)
    requires PackCols(c, ct, chunk, model, at, room).Ok?
    ensures SwapChunk(chunk).Some?
    ensures PackCols(c, ct, chunk, model, at, room) == Ok(Packed(SwapChunk(chunk).value, []))
    ensures ChunkSwapped(chunk, PackCols(c, ct, chunk, model, at, room).value.bytes)
    decreases |chunk|
  {
    hide *;
    SwapChunkIs(chunk);
    if chunk == [] {
      NothingPacked(c, ct, model, at, room);
      SwapChunkStep(chunk);
    } else {
      var n, p, q := PackColsStep(c, ct, chunk, model, at, room);
      RawCol(c, chunk[..n], ModelFront(model, n), at, room);
      RawIsSwapped(c, ct, chunk[n..], ModelBack(model, n), at + |p.bytes|, room);
      FirstCollection(chunk);
      SwapChunkStep(chunk);
      assert p.model + q.model == [];
    }
  }

  lemma {:induction false} RawCol(c: CfgSix, col: seq<byte>, model: Option<seq<byte>>, at: nat, room: Option<nat>)
    requires |col| >= COLLECTION_HDR_SIZE && |col| == ColSize(col) && !ColDataType(col).Unknown? && c.round == 0
    requires c.mode.IsRaw() && (model.Some? ==> |model.value| == |col|) && PackCol(c, col, model, at, room).Ok?
    ensures var d := SwapData(ColDataType(col), ColBody(col));
      d.Some? && PackCol(c, col, model, at, room) == Ok(Packed(ColHeader(col) + d.value, []))
  {
    hide SwapRecords, SampleSize, ConvertSubservice, SpecificParsAreValid;
    var d := PackColParts(c, col, model, at, room);
    var data := ColBody(col);
    assert [] + ColHeader(col) == ColHeader(col);
    if data == [] { assert SwapData(ColDataType(col), data).value == []; }
  }
}
