/** The main results: whole chunks and whole runs of chunks. */
module RoundTrip {
  import opened Bits
  import opened Bytes
  import opened Words
  import opened Golomb
  import opened Params
  import opened Errors
  import opened DataTypes
  import opened Endian
  import opened Config
  import opened CollectionCode
  import opened ChunkCode
  import opened ChunkBounds
  import opened Entity
  import opened ChunkDecompressor
  import opened EntityDecompressor

  //// Walking the size fields of a compressed chunk

  /** Walking the size fields of a packed chunk finds exactly its collections. */
  lemma {:induction false} WalkFindsCollections(c: CfgSix, ct: ChunkType, chunk: seq<byte>, model: Option<seq<byte>>, at: nat, room: Option<nat>)
    requires !ct.UnknownChunk? && c.round == 0 && !c.mode.IsRaw() && (model.Some? ==> |model.value| == |chunk|)
    requires PackCols(c, ct, chunk, model, at, room).Ok?
    ensures CountCols(chunk).Some? && CountCmp(PackCols(c, ct, chunk, model, at, room).value.bytes) == CountCols(chunk)
    decreases |chunk|
  {
    hide *;
    if chunk == [] {
      NothingPacked(c, ct, model, at, room);
      CountNothing();
      CountCmpStep([]);
    } else {
      var n, p, q := PackColsStep(c, ct, chunk, model, at, room);
      WalkFindsCollections(c, ct, chunk[n..], ModelBack(model, n), at + |p.bytes|, room);
      UnpackColInverts(c, chunk[..n], ModelFront(model, n), at, room, |chunk|, model, q.bytes, p);
      CountStep(chunk);
      CountCmpStep(p.bytes + q.bytes);
    }
  }

  /** The header behind a size field is the header of the collection. */
  lemma {:induction false} PackedHeader(c: CfgSix, col: seq<byte>, model: Option<seq<byte>>, at: nat, room: Option<nat>, p: Packed, rest: seq<byte>)
    requires |col| >= COLLECTION_HDR_SIZE && |col| == ColSize(col) && c.round == 0 && !c.mode.IsRaw()
    requires !ColDataType(col).Unknown? && !IsFastCadence(ColDataType(col)) && (model.Some? ==> |model.value| == |col|)
    requires PackCol(c, col, model, at, room) == Ok(p)
    ensures HasCmpCol(p.bytes + rest) && (p.bytes + rest)[CmpColSize(p.bytes + rest)..] == rest
    ensures |(p.bytes + rest)[CMP_COLLECTION_FILD_SIZE..]| >= COLLECTION_HDR_SIZE
    ensures ColSize((p.bytes + rest)[CMP_COLLECTION_FILD_SIZE..]) == |col|
    ensures CmpColDataLength(p.bytes + rest) <= ColDataLength(col)
  {
    UnpackColInverts(c, col, model, at, room, |col|, model, rest, p) by { ModelWhole(model, |col|); }
    hide *;
    UnpackColSize(c, p.bytes + rest, |col|, model);
    ParsesLength(p.bytes + rest, |col|);
    HeaderOf(c, col, model, at, room, p, rest);
  }

  lemma {:induction false} ModelWhole(model: Option<seq<byte>>, n: nat)
    requires model.Some? ==> |model.value| == n
    ensures ModelFront(model, n) == model
  {
    if model.Some? { assert model.value[..n] == model.value; }
  }

  lemma {:induction false} ParsesLength(b: seq<byte>, total: nat)
    requires HasCmpCol(b) && ColParses(b, 0, total)
    ensures |b[CMP_COLLECTION_FILD_SIZE..]| >= COLLECTION_HDR_SIZE
    ensures CmpColDataLength(b) <= ColDataLength(b[CMP_COLLECTION_FILD_SIZE..])
  {
  }

  lemma {:induction false} HeaderBehind(field: seq<byte>, col: seq<byte>, data: seq<byte>, rest: seq<byte>)
    requires |field| == CMP_COLLECTION_FILD_SIZE && |col| >= COLLECTION_HDR_SIZE
    ensures var h := (field + ColHeader(col) + data + rest)[CMP_COLLECTION_FILD_SIZE..];
      |h| >= COLLECTION_HDR_SIZE && ColDataLength(h) == ColDataLength(col) && ColSize(h) == ColSize(col)
  {
    var h := (field + ColHeader(col) + data + rest)[CMP_COLLECTION_FILD_SIZE..];
    assert h[..COLLECTION_HDR_SIZE] == ColHeader(col) == col[..COLLECTION_HDR_SIZE];
    SameHeader(h, col);
  }

  lemma {:induction false} HeaderOf(c: CfgSix, col: seq<byte>, model: Option<seq<byte>>, at: nat, room: Option<nat>, p: Packed, rest: seq<byte>)
    requires |col| >= COLLECTION_HDR_SIZE && |col| == ColSize(col) && c.round == 0 && !c.mode.IsRaw() && !ColDataType(col).Unknown?
    requires (model.Some? ==> |model.value| == |col|) && PackCol(c, col, model, at, room) == Ok(p)
    requires |(p.bytes + rest)[CMP_COLLECTION_FILD_SIZE..]| >= COLLECTION_HDR_SIZE
    ensures ColDataLength((p.bytes + rest)[CMP_COLLECTION_FILD_SIZE..]) == ColDataLength(col)
    ensures ColSize((p.bytes + rest)[CMP_COLLECTION_FILD_SIZE..]) == |col|
  {
    hide *;
    var d := PackColParts(c, col, model, at, room);
    CodedSizeField(c, |d.bytes|);
    HeaderBehind(ToBigEndian(|d.bytes|, CMP_COLLECTION_FILD_SIZE), col, d.bytes, rest);
  }

  /** Every collection that the walk finds starts where it started in the original chunk. */
  lemma {:induction false} WalkFindsOffsets(c: CfgSix, ct: ChunkType, chunk: seq<byte>, model: Option<seq<byte>>, at: nat, room: Option<nat>, i: nat)
    requires !ct.UnknownChunk? && c.round == 0 && !c.mode.IsRaw() && (model.Some? ==> |model.value| == |chunk|)
    requires PackCols(c, ct, chunk, model, at, room).Ok? && CountCols(chunk).Some? && i <= CountCols(chunk).value
    requires CountCmp(PackCols(c, ct, chunk, model, at, room).value.bytes) == CountCols(chunk)
    ensures CmpStart(PackCols(c, ct, chunk, model, at, room).value.bytes, i).1 == ColStart(chunk, i)
    decreases i
  {
    hide *;
    var b := PackCols(c, ct, chunk, model, at, room).value.bytes;
    if i == 0 {
      CmpStartZero(b);
      ColStartZero(chunk);
    } else {
      if chunk == [] { CountNothing(); }
      var n, p, q := PackColsStep(c, ct, chunk, model, at, room);
      WalkFindsCollections(c, ct, chunk[n..], ModelBack(model, n), at + |p.bytes|, room);
      PackedHeader(c, chunk[..n], ModelFront(model, n), at, room, p, q.bytes);
      CountStep(chunk);
      WalkFindsOffsets(c, ct, chunk[n..], ModelBack(model, n), at + |p.bytes|, room, i - 1);
      CmpStartStep(b, i);
      ColStartStep(chunk, i);
    }
  }

  //// A whole chunk

  /** What a successful compression consists of. */
  lemma {:induction false} CompressedParts(chunk: seq<byte>, model: Option<seq<byte>>, room: Option<nat>, par: CmpPar)
    requires (model.Some? ==> |model.value| == |chunk|) && CompressSpec(chunk, model, room, par).Ok?
    ensures IsKnownChunk(chunk) && 0 < COLLECTION_HDR_SIZE <= |chunk| && !ColChunkType(chunk).UnknownChunk?
    ensures var ct := ColChunkType(chunk); var c := InitCfg(ct, par); var e := CompressSpec(chunk, model, room, par).value;
      && c.round == 0 && c.mode == par.mode && HasRoom(room, HeaderSize(c.mode))
      && PackCols(c, ct, chunk, model, HeaderSize(c.mode), room) == Ok(Packed(e.data, e.model))
      && e.header == ChunkHeader(c, |chunk|, HeaderSize(c.mode) + |e.data|)
      && (room.Some? ==> HeaderFits(e.header))
  {
    hide *;
    CompressSpecIs(chunk, model, room, par);
    var c := InitCfg(ColChunkType(chunk), par);
    FinishCases(c, |chunk|, room, PackCols(c, ColChunkType(chunk), chunk, model, HeaderSize(c.mode), room));
  }

  /** The header gives back the configuration that made it. */
  lemma {:induction false} HeaderCfgOf(c: CfgSix, chunkSize: nat, size: nat, h: EntityHeader)
    requires h == ChunkHeader(c, chunkSize, size) && HeaderFits(h) && size >= HeaderSize(c.mode)
    ensures |h.pairs| == 6 && h.originalSize == chunkSize && h.mode == c.mode && h.rawBit == c.mode.IsRaw() && h.size == size
    ensures var e: ChunkEntity := h; CmpDataSize(e) == size - HeaderSize(c.mode) && (!c.mode.IsRaw() ==> HeaderCfg(e) == c)
    ensures GenParsAreValid(c) ==> GenParsAreValid(HeaderCfg(h))
  {
    hide HeaderFits;
  }

  /** A chunk only packs under valid general parameters. */
  lemma {:induction false} PackedMeansValid(c: CfgSix, ct: ChunkType, chunk: seq<byte>, model: Option<seq<byte>>, at: nat, room: Option<nat>)
    requires !ct.UnknownChunk? && c.round == 0 && (model.Some? ==> |model.value| == |chunk|) && |chunk| > 0
    requires PackCols(c, ct, chunk, model, at, room).Ok?
    ensures GenParsAreValid(c) && |chunk| >= COLLECTION_HDR_SIZE
    ensures !c.mode.IsRaw() ==> |PackCols(c, ct, chunk, model, at, room).value.bytes| >= CMP_COLLECTION_FILD_SIZE + COLLECTION_HDR_SIZE
  {
    hide *;
    var n, p, q := PackColsStep(c, ct, chunk, model, at, room);
    PackColMeansValid(c, chunk[..n], ModelFront(model, n), at, room);
    if !c.mode.IsRaw() {
      PackedHeader(c, chunk[..n], ModelFront(model, n), at, room, p, []);
      NonEmptyBody(p.bytes);
      assert p.bytes + [] == p.bytes;
    }
  }

  lemma {:induction false} NonEmptyBody(b: seq<byte>)
    requires HasCmpCol(b + [])
    ensures |b| >= CMP_COLLECTION_FILD_SIZE + COLLECTION_HDR_SIZE
  {
    assert b + [] == b;
  }

  lemma {:induction false} PackColMeansValid(c: CfgSix, col: seq<byte>, model: Option<seq<byte>>, at: nat, room: Option<nat>)
    requires |col| >= COLLECTION_HDR_SIZE && |col| == ColSize(col) && !ColDataType(col).Unknown? && c.round == 0
    requires (model.Some? ==> |model.value| == |col|) && PackCol(c, col, model, at, room).Ok?
    ensures GenParsAreValid(c)
  {
    hide *;
    var d := PackColParts(c, col, model, at, room);
  }

  /** THE ROUND TRIP. Whatever compress_chunk accepts, in any of the five modes and with
      any mix of compressed and raw collections, decompress_cmp_entiy with the same model
      gives back: the chunk, byte for byte, and the same updated model. */
  lemma {:induction false} ChunkRoundTrip(chunk: seq<byte>, model: Option<seq<byte>>, capacity: nat, par: CmpPar)
    requires (model.Some? ==> |model.value| == |chunk|) && CompressSpec(chunk, model, Some(capacity), par).Ok?
    ensures var e := CompressSpec(chunk, model, Some(capacity), par).value;
      && |e.header.pairs| == 6 && HeaderFits(e.header) && |e.data| == CmpDataSize(e.header) && e.header.originalSize == |chunk|
      && DecompressSpec(e.header, e.data, model) == Some(Packed(chunk, e.model))
  {
    CompressedParts(chunk, model, Some(capacity), par);
    var ct := ColChunkType(chunk);
    var c := InitCfg(ct, par);
    var e := CompressSpec(chunk, model, Some(capacity), par).value;
    assert COLLECTION_HDR_SIZE > 0;
    hide *;
    HeaderCfgOf(c, |chunk|, HeaderSize(c.mode) + |e.data|, e.header);
    PackedMeansValid(c, ct, chunk, model, HeaderSize(c.mode), Some(capacity));
    if c.mode.IsRaw() {
      RawIsSwapped(c, ct, chunk, model, HeaderSize(c.mode), Some(capacity));
      SwapChunkTwice(chunk);
      RawEntityReads(c, chunk, e.header, e.data, model);
    } else {
      WalkFindsCollections(c, ct, chunk, model, HeaderSize(c.mode), Some(capacity));
      UnpackColsInverts(c, ct, chunk, model, HeaderSize(c.mode), Some(capacity));
      CodedEntityReads(c, chunk, e.header, e.data, model, Packed(chunk, e.model));
    }
  }

  lemma {:induction false} RawEntityReads(c: CfgSix, chunk: seq<byte>, h: ChunkEntity, data: seq<byte>, model: Option<seq<byte>>)
    requires h == ChunkHeader(c, |chunk|, HeaderSize(c.mode) + |data|) && c.mode.IsRaw() && GenParsAreValid(HeaderCfg(h))
    requires |chunk| >= COLLECTION_HDR_SIZE && (model.Some? ==> |model.value| == |chunk|) && |data| == |chunk|
    requires SwapChunk(data) == Some(chunk)
    ensures h.originalSize == |chunk| && DecompressSpec(h, data, model) == Some(Packed(chunk, []))
  {
    hide GenParsAreValid, SwapChunk, HeaderFits;
  }

  lemma {:induction false} CodedEntityReads(c: CfgSix, chunk: seq<byte>, h: ChunkEntity, data: seq<byte>, model: Option<seq<byte>>, p: Packed)
    requires h == ChunkHeader(c, |chunk|, HeaderSize(c.mode) + |data|) && !c.mode.IsRaw() && GenParsAreValid(c) && HeaderCfg(h) == c
    requires |chunk| >= COLLECTION_HDR_SIZE && (model.Some? ==> |model.value| == |chunk|)
    requires |data| >= CMP_COLLECTION_FILD_SIZE + COLLECTION_HDR_SIZE && CountCmp(data).Some?
    requires UnpackCols(c, data, |chunk|, model) == Some(p)
    ensures h.originalSize == |chunk| && DecompressSpec(h, data, model) == Some(p)
  {
    hide GenParsAreValid, UnpackCols, CountCmp, HeaderFits;
  }

  //// Dry runs, capacity and errors

  /** A dry run gives the same size and the same compressed chunk, unless the real run
      fails for lack of room or because its header does not fit. */
  lemma {:induction false} DryRunIsRealRun(chunk: seq<byte>, model: Option<seq<byte>>, capacity: nat, par: CmpPar)
    requires model.Some? ==> |model.value| == |chunk|
    ensures var full, dry := CompressSpec(chunk, model, Some(capacity), par), CompressSpec(chunk, model, None, par);
      full == dry || full == Err(SmallBuffer) || full == Err(EntityHeaderError)
  {
    if IsKnownChunk(chunk) {
      hide *;
      CompressSpecIs(chunk, model, Some(capacity), par);
      CompressSpecIs(chunk, model, None, par);
      var ct := ColChunkType(chunk);
      var c := InitCfg(ct, par);
      DryRunAgrees(c, ct, chunk, model, HeaderSize(c.mode), Some(capacity));
      FinishCases(c, |chunk|, Some(capacity), PackCols(c, ct, chunk, model, HeaderSize(c.mode), Some(capacity)));
      FinishCases(c, |chunk|, None, PackCols(c, ct, chunk, model, HeaderSize(c.mode), None));
      RoomIsNone(HeaderSize(c.mode));
    }
  }

  /** The size of a compressed chunk if its last collection were stored raw. */
  function RawSize(chunk: seq<byte>, model: Option<seq<byte>>, par: CmpPar): (size: nat)
    requires (model.Some? ==> |model.value| == |chunk|) && CompressSpec(chunk, model, None, par).Ok?
  {
    CompressedParts(chunk, model, None, par);
    var c := InitCfg(ColChunkType(chunk), par);
    RawEnd(c, ColChunkType(chunk), chunk, model, HeaderSize(c.mode))
  }

  lemma {:induction false} RawSizeIs(chunk: seq<byte>, model: Option<seq<byte>>, par: CmpPar)
    requires (model.Some? ==> |model.value| == |chunk|) && CompressSpec(chunk, model, None, par).Ok?
    ensures |chunk| >= COLLECTION_HDR_SIZE && !ColChunkType(chunk).UnknownChunk?
    ensures var c := InitCfg(ColChunkType(chunk), par);
      && c.round == 0 && PackCols(c, ColChunkType(chunk), chunk, model, HeaderSize(c.mode), None).Ok?
      && RawSize(chunk, model, par) == RawEnd(c, ColChunkType(chunk), chunk, model, HeaderSize(c.mode))
  {
    CompressedParts(chunk, model, None, par);
    hide CompressSpec, PackCols, InitCfg, ColChunkType, RawEnd, HeaderSize;
  }

  /** For every capacity, compress_chunk succeeds exactly if a dry run succeeds, its size
      fits the capacity and its header can be stored; and then both give the same result. */
  lemma {:induction false} CapacityIsExact(chunk: seq<byte>, model: Option<seq<byte>>, capacity: nat, par: CmpPar)
    requires model.Some? ==> |model.value| == |chunk|
    ensures var full, dry := CompressSpec(chunk, model, Some(capacity), par), CompressSpec(chunk, model, None, par);
      && (full.Ok? <==> dry.Ok? && EndFits(dry.value.header.size, RawSize(chunk, model, par), capacity) && HeaderFits(dry.value.header))
      && (full.Ok? ==> full == dry)
      && (dry.Ok? && !EndFits(dry.value.header.size, RawSize(chunk, model, par), capacity) ==> full == Err(SmallBuffer))
  {
    hide *;
    DryRunIsRealRun(chunk, model, capacity, par);
    if CompressSpec(chunk, model, None, par).Ok? {
      RawSizeIs(chunk, model, par);
      CompressedParts(chunk, model, None, par);
      CompressSpecIs(chunk, model, Some(capacity), par);
      var ct := ColChunkType(chunk);
      var c := InitCfg(ct, par);
      var at := HeaderSize(c.mode);
      var dry := PackCols(c, ct, chunk, model, at, None);
      RoomIsSome(capacity, at);
      HeaderSizeOf(c, |chunk|, at + |dry.value.bytes|);
      EndFitsIs(at + |dry.value.bytes|, RawSize(chunk, model, par), capacity);
      FinishCases(c, |chunk|, Some(capacity), PackCols(c, ct, chunk, model, at, Some(capacity)));
      if at <= capacity { RoomIsExact(c, ct, chunk, model, at, capacity); }
    }
  }

  lemma {:induction false} HeaderSizeOf(c: CfgSix, chunkSize: nat, size: nat)
    ensures ChunkHeader(c, chunkSize, size).size == size
  {
  }

  lemma {:induction false} RoomIsNone(need: nat)
    ensures HasRoom(None, need)
  {
  }

  lemma {:induction false} RoomIsSome(cap: nat, need: nat)
    ensures HasRoom(Some(cap), need) <==> need <= cap
  {
  }

  /** The parts of a size bound. */
  lemma {:induction false} SizeBoundParts(chunk: seq<byte>)
    requires SizeBound(chunk).Ok?
    ensures COLLECTION_HDR_SIZE <= |chunk| <= CMP_ENTITY_MAX_ORIGINAL_SIZE && CountCols(chunk).Some?
    ensures SizeBound(chunk).value == BoundUnsafe(|chunk|, CountCols(chunk).value) <= CMP_ENTITY_MAX_SIZE
  {
    hide CountCols, BoundUnsafe;
  }

  /** The room that the bound leaves for the collections. */
  lemma {:induction false} BoundForCols(c: CfgSix, ct: ChunkType, chunk: seq<byte>, model: Option<seq<byte>>, capacity: nat)
    requires !ct.UnknownChunk? && c.round == 0 && (model.Some? ==> |model.value| == |chunk|)
    requires SizeBound(chunk).Ok? && SizeBound(chunk).value <= capacity
    ensures CountCols(chunk).Some? && HeaderSize(c.mode) <= capacity
    ensures var p := PackCols(c, ct, chunk, model, HeaderSize(c.mode), Some(capacity));
      && p != Err(SmallBuffer) && (p.Ok? ==> HeaderSize(c.mode) + |p.value.bytes| <= SizeBound(chunk).value <= CMP_ENTITY_MAX_SIZE)
  {
    hide *;
    SizeBoundParts(chunk);
    var k := CountCols(chunk).value;
    BoundCoversWorst(c.mode, |chunk|, k);
    RoomIsSome(capacity, HeaderSize(c.mode) + WorstCase(c.mode, |chunk|, k));
    RoomIsSome(capacity, HeaderSize(c.mode));
    EnoughRoom(c, ct, chunk, model, HeaderSize(c.mode), Some(capacity));
    if PackCols(c, ct, chunk, model, HeaderSize(c.mode), Some(capacity)).Ok? {
      PackedSize(c, ct, chunk, model, HeaderSize(c.mode), Some(capacity));
    }
  }

  /** A destination of the size that compress_chunk_cmp_size_bound gives is always large
      enough, and no result is larger than it. */
  lemma {:induction false} BoundIsEnough(chunk: seq<byte>, model: Option<seq<byte>>, capacity: nat, par: CmpPar)
    requires (model.Some? ==> |model.value| == |chunk|) && SizeBound(chunk).Ok? && SizeBound(chunk).value <= capacity
    ensures CompressSpec(chunk, model, Some(capacity), par) != Err(SmallBuffer)
    ensures CompressSpec(chunk, model, Some(capacity), par).Ok? ==>
      CompressSpec(chunk, model, Some(capacity), par).value.header.size <= SizeBound(chunk).value
  {
    hide *;
    CompressSpecIs(chunk, model, Some(capacity), par);
    if IsKnownChunk(chunk) {
      var ct := ColChunkType(chunk);
      var c := InitCfg(ct, par);
      BoundForCols(c, ct, chunk, model, capacity);
      RoomIsSome(capacity, HeaderSize(c.mode));
      FinishCases(c, |chunk|, Some(capacity), PackCols(c, ct, chunk, model, HeaderSize(c.mode), Some(capacity)));
    }
  }

  /** With enough room, the header is the only thing that can fail after the collections:
      it does so exactly if the model value or a Golomb parameter of the chunk type, used
      or not, is too large for its field. */
  lemma {:induction false} HeaderErrorCondition(chunk: seq<byte>, model: Option<seq<byte>>, capacity: nat, par: CmpPar)
    requires (model.Some? ==> |model.value| == |chunk|) && SizeBound(chunk).Ok? && SizeBound(chunk).value <= capacity
    requires CompressSpec(chunk, model, None, par).Ok?
    ensures CompressSpec(chunk, model, Some(capacity), par) == Err(EntityHeaderError) <==>
      !(par.modelValue <= 0xFF && (par.mode.IsRaw() || forall i :: 0 <= i < 6 ==> InitCfg(ColChunkType(chunk), par).pairs[i].par <= 0xFFFF))
  {
    hide *;
    CompressedParts(chunk, model, None, par);
    var ct := ColChunkType(chunk);
    var c := InitCfg(ct, par);
    var p := PackCols(c, ct, chunk, model, HeaderSize(c.mode), None);
    CompressSpecIs(chunk, model, Some(capacity), par);
    BoundForCols(c, ct, chunk, model, capacity);
    RoomIsSome(capacity, HeaderSize(c.mode));
    DryRunAgrees(c, ct, chunk, model, HeaderSize(c.mode), Some(capacity));
    PackedMeansValid(c, ct, chunk, model, HeaderSize(c.mode), None);
    ValidIsSupported(c);
    KnownSize(chunk);
    FinishCases(c, |chunk|, Some(capacity), p);
    HeaderErrorExact(ct, par, |chunk|, HeaderSize(c.mode) + |p.value.bytes|);
  }

  lemma {:induction false} ValidIsSupported(c: CfgSix)
    requires GenParsAreValid(c)
    ensures c.mode.IsSupported()
  {
  }

  lemma {:induction false} KnownSize(chunk: seq<byte>)
    requires IsKnownChunk(chunk)
    ensures |chunk| <= CMP_ENTITY_MAX_ORIGINAL_SIZE
  {
  }
}
