/** decompress_cmp_entiy for entities that hold a chunk. */
module EntityDecompressor {
  import opened Bits
  import opened Bytes
  import opened Words
  import opened Golomb
  import opened Params
  import opened ValueEncoder
  import opened CompressLoop
  import opened DataTypes
  import opened Endian
  import opened Config
  import opened CollectionCode
  import opened ChunkCode
  import opened ChunkBounds
  import opened Entity
  import opened CollectionPacker
  import opened CollectionDecompressor
  import opened ChunkDecompressor

  /** A header as it is stored: six parameter pairs, and every value fits its field. */
  type ChunkEntity = h: EntityHeader | |h.pairs| == 6 && HeaderFits(h)
    witness EntityHeader(0, 0, true, Raw, 0, 0, [NO_PAIR, NO_PAIR, NO_PAIR, NO_PAIR, NO_PAIR, NO_PAIR])

  /** cmp_ent_get_cmp_data_size */
  function CmpDataSize(h: ChunkEntity): nat
  {
    if HeaderSize(h.mode) > h.size then 0 else h.size - HeaderSize(h.mode)
  }

  /** The configuration that cmp_ent_read_header sets up. */
  function HeaderCfg(h: ChunkEntity): CfgSix
  {
    Cfg(h.mode, h.modelValue, h.lossyPar, h.pairs)
  }

  /** The checks of cmp_ent_read_header for a chunk with streamSize bytes of data. */
  predicate HeaderIsReadable(h: ChunkEntity, streamSize: nat)
  {
    && h.rawBit == h.mode.IsRaw() && GenParsAreValid(HeaderCfg(h))
    && (if h.mode.IsRaw() then COLLECTION_HDR_SIZE <= streamSize
        else CMP_COLLECTION_FILD_SIZE + COLLECTION_HDR_SIZE <= streamSize)
    && h.originalSize >= COLLECTION_HDR_SIZE
    && (h.mode.IsRaw() ==> h.originalSize == streamSize)
    && (!h.mode.IsRaw() ==> HeaderSize(h.mode) <= h.size)
  }

  /** Which headers are accepted, in plain numbers, for n bytes of data. */
  lemma {:induction false} ReadableHeaders(h: ChunkEntity, n: nat)
    ensures HeaderIsReadable(h, n) <==>
      && (h.mode == Raw || h.mode == ModelZero || h.mode == DiffZero || h.mode == ModelMulti || h.mode == DiffMulti)
      && (h.rawBit <==> h.mode == Raw) && h.lossyPar <= 3
      && (h.mode == ModelZero || h.mode == ModelMulti ==> h.modelValue <= 16)
      && h.originalSize >= 12
      && (if h.mode == Raw then n == h.originalSize else n >= 14 && h.size >= 64)
  {
  }

  /** The chunk and the updated model that an entity stands for. */
  function DecompressSpec(h: ChunkEntity, data: seq<byte>, model: Option<seq<byte>>): (s: Option<Packed>)
    requires model.Some? ==> |model.value| == h.originalSize
  {
    if !HeaderIsReadable(h, |data|) then None
    else if h.mode.IsRaw() then
      match SwapChunk(data)
      case None => None
      case Some(d) => Some(Packed(d, []))
    else if CountCmp(data).None? then None
    else UnpackCols(HeaderCfg(h), data, h.originalSize, model)
  }

  /** Which entities are reported as decompressed: raw ones by their header alone, others if
      they can be read, or without a buffer for the data if their collections are accepted. */
  ghost predicate Succeeds(h: ChunkEntity, data: seq<byte>, s: Option<Packed>, hasModel: bool, hasDst: bool)
  {
    if h.mode.IsRaw() then HeaderIsReadable(h, |data|)
    else if hasDst then s.Some?
    else
      HeaderIsReadable(h, |data|) && CountCmp(data).Some? && AllAccepted(HeaderCfg(h), data, h.originalSize, hasModel)
  }

  /** The result and the buffers, for every entity. */
  ghost predicate EntityRead(h: ChunkEntity, data: seq<byte>, s: Option<Packed>, hasModel: bool, dst: array?<byte>, m0: seq<byte>,
    m1: seq<byte>, hasUp: bool, u0: seq<byte>, u1: seq<byte>, r: int)
  {
    && (r == h.originalSize || (r < 0 && s.None?)) && (h.originalSize == 0 ==> r == 0)
    && (h.originalSize > 0 ==> (r >= 0 <==> Succeeds(h, data, s, hasModel, dst != null)))
    && (dst == null && r > 0 && h.mode.IsModel() && hasUp ==> CountCmp(data).Some? && u1 == AloneAfter(data, CountCmp(data).value, u0))
    && Region(dst, m0, m1, 0, h.originalSize, None) && UpRegion(h.mode.IsModel() && hasUp, u0, u1, 0, h.originalSize, None)
    && (s.Some? && dst != null ==>
          && |s.value.bytes| <= |m0| && m1 == Splice(m0, 0, s.value.bytes)
          && (h.mode.IsModel() && hasUp ==> |s.value.model| <= |u0| && u1 == Splice(u0, 0, s.value.model)))
  }

  lemma {:induction false} NotRead(h: ChunkEntity, data: seq<byte>, hasModel: bool, dst: array?<byte>, m: seq<byte>, hasUp: bool,
    u: seq<byte>, r: int)
    requires (dst != null ==> h.originalSize <= |m|) && (hasUp ==> h.originalSize <= |u|)
    requires r == (if h.originalSize == 0 then 0 else -1) && !Succeeds(h, data, None, hasModel, dst != null)
    ensures EntityRead(h, data, None, hasModel, dst, m, m, hasUp, u, u, r)
  {
    hide Succeeds, AloneAfter, CountCmp;
  }

  /** The raw branch: the result of the byte swap is not checked. */
  method ReadRaw(h: ChunkEntity, data: seq<byte>, ghost hasModel: bool, ghost hasUp: bool, ghost u: seq<byte>, dst: array?<byte>) returns (r: int)
    requires h.mode.IsRaw() && HeaderIsReadable(h, |data|) && h.originalSize == |data| >= COLLECTION_HDR_SIZE && (hasUp ==> h.originalSize <= |u|)
    requires dst != null ==> h.originalSize <= dst.Length
    modifies dst
    ensures r == h.originalSize
    ensures EntityRead(h, data, if SwapChunk(data).Some? then Some(Packed(SwapChunk(data).value, [])) else None, hasModel,
      dst, old(MemOf(dst)), MemOf(dst), hasUp, u, u, r)
  {
    hide SwapChunk, Splice, HeaderIsReadable, AloneAfter, CountCmp;
    ghost var m0 := MemOf(dst);
    if dst != null {
      CopyBytes(dst, 0, data);
      ghost var m1 := dst[..];
      CopiedSlice(dst, m0, 0, data);
      assert dst[0..0 + |data|] == dst[0..|data|];
      var ok := BeToCpuChunk(dst, 0, |data|);
      RawRead(m0, m1, MemOf(dst), data);
    }
    r := |data|;
  }

  lemma {:induction false} RawRead(m0: seq<byte>, m1: seq<byte>, m2: seq<byte>, data: seq<byte>)
    requires |data| <= |m0| && m1 == Splice(m0, 0, data) && |m2| == |m0|
    requires SwapChunk(data).Some? ==> m2 == Splice(m1, 0, SwapChunk(data).value)
    requires m2[|data|..] == m1[|data|..]
    ensures KeepsOutside(m0, m2, 0, |data|)
    ensures SwapChunk(data).Some? ==> m2 == Splice(m0, 0, SwapChunk(data).value)
  {
    hide SwapChunk;
  }

  lemma {:induction false} ReadingIs(h: ChunkEntity, data: seq<byte>, model: array?<byte>, up: array?<byte>, dst: array?<byte>)
    requires (model != null ==> h.originalSize <= model.Length) && (up != null ==> h.originalSize <= up.Length)
    requires dst != null ==> h.originalSize <= dst.Length && dst != model && dst != up
    requires CountCmp(data).Some? && HeaderIsReadable(h, |data|) && !h.mode.IsRaw()
    ensures var j := Reading(HeaderCfg(h), data, h.originalSize, model, up, dst);
      var b := Start(ModelOf(model != null, model, 0, h.originalSize), MemOf(dst), MemOf(up));
      && (b.mopt.Some? ==> |b.mopt.value| == h.originalSize) && ValidReading(j, b)
      && LoopAt(j, b, 0, Packed([], []), MemOf(dst), MemOf(up), MemOf(model))
      && Whole(j, b) == DecompressSpec(h, data, b.mopt) && b.u0 == MemOf(up)
  {
    var j := Reading(HeaderCfg(h), data, h.originalSize, model, up, dst);
    var b := Start(ModelOf(model != null, model, 0, h.originalSize), MemOf(dst), MemOf(up));
    assert ValidReading(j, b) by { hide CountCmp, GenParsAreValid; assert GenParsAreValid(HeaderCfg(h)); }
    if model != null { assert model[0..h.originalSize] == model[..][0..h.originalSize]; }
    ModelLeftStart(b.mopt, MemOf(model), 0, h.originalSize);
    LoopAtStart(j, b, MemOf(model));
    hide UnpackCols, CountCmp, GenParsAreValid, LoopAt, ModelLeft;
  }

  lemma {:induction false} ReadIsEntity(h: ChunkEntity, data: seq<byte>, j: Reading, b: Start, s: Option<Packed>, m1: seq<byte>, u1: seq<byte>, r: int)
    requires ChunkRead(j, b, m1, u1, r) && j.total == h.originalSize && j.c == HeaderCfg(h) && j.c.mode == h.mode && Whole(j, b) == s
    requires j.data == data && HeaderIsReadable(h, |data|) && !h.mode.IsRaw() && h.originalSize > 0 && CountCmp(data).Some?
    ensures EntityRead(h, data, s, j.model != null, j.dst, b.m0, m1, j.up != null, b.u0, u1, r)
  {
    AloneModelIs(j, b);
    ReadSucceeds(h, data, j, b, s, m1, u1, r);
    hide Region, UpRegion, Whole, Splice, ValidReading, Succeeds, ColReads, HeaderIsReadable, HeaderCfg, CountCmp, AloneModel, AloneAfter;
  }

  lemma {:induction false} ReadSucceeds(h: ChunkEntity, data: seq<byte>, j: Reading, b: Start, s: Option<Packed>, m1: seq<byte>, u1: seq<byte>, r: int)
    requires ChunkRead(j, b, m1, u1, r) && j.total == h.originalSize && j.c == HeaderCfg(h) && Whole(j, b) == s
    requires j.data == data && HeaderIsReadable(h, |data|) && !h.mode.IsRaw() && CountCmp(data).Some?
    ensures r >= 0 <==> Succeeds(h, data, s, j.model != null, j.dst != null)
  {
    if j.dst == null { AcceptsEach(j, b); }
    hide Region, UpRegion, Whole, Splice, ValidReading, AllAccepted, ColReads, HeaderIsReadable, HeaderCfg, CountCmp, AloneModel;
  }

  lemma {:induction false} AcceptsEach(j: Reading, b: Start)
    requires ValidReading(j, b) && j.dst == null && CountCmp(j.data).Some?
    ensures (forall k :: 0 <= k < CountCmp(j.data).value ==> ColReads(j, b, k))
      <==> AllAccepted(j.c, j.data, j.total, j.model != null)
  {
    hide AcceptedAt, ValidReading, CountCmp, Next, CmpStart;
    var n, hasModel := CountCmp(j.data).value, j.model != null;
    assert forall k :: 0 <= k < n ==> (ColReads(j, b, k) <==> AcceptedAt(j.c, j.data, j.total, hasModel, k));
  }

  lemma {:induction false} AloneModelIs(j: Reading, b: Start)
    requires ValidReading(j, b)
    ensures CountCmp(j.data).Some?
    ensures j.c.mode.IsModel() && j.up != null ==> AloneModel(j, b, CountCmp(j.data).value) == AloneAfter(j.data, CountCmp(j.data).value, b.u0)
  {
    hide AloneAfter, CountCmp, GenParsAreValid;
  }

  lemma {:induction false} SpecCases(h: ChunkEntity, data: seq<byte>, model: Option<seq<byte>>)
    requires model.Some? ==> |model.value| == h.originalSize
    ensures h.originalSize == 0 || !HeaderIsReadable(h, |data|) ==> DecompressSpec(h, data, model) == None
    ensures HeaderIsReadable(h, |data|) ==> h.originalSize > 0 && |data| > 0 && (h.mode.IsRaw() ==> h.originalSize == |data| >= COLLECTION_HDR_SIZE)
    ensures HeaderIsReadable(h, |data|) && h.mode.IsRaw() ==>
      DecompressSpec(h, data, model) == if SwapChunk(data).Some? then Some(Packed(SwapChunk(data).value, [])) else None
    ensures HeaderIsReadable(h, |data|) && !h.mode.IsRaw() && CountCmp(data).None? ==> DecompressSpec(h, data, model) == None
    ensures CountCmp(data) == Some(0) ==> data == []
  {
    CountCmpStep(data);
    hide SwapChunk, CountCmp, UnpackCols, GenParsAreValid;
  }

  /** decompress_cmp_entiy for a chunk entity with its data: a readable entity gives
      exactly its chunk and its updated model, and no entity ever makes it write outside
      the regions of the chunk. Outside raw mode an entity is reported as decompressed into
      a buffer exactly if it can be read. The model may be updated in place. */
  method DecompressCmpEntity(h: ChunkEntity, data: seq<byte>, model: array?<byte>, up: array?<byte>, dst: array?<byte>) returns (r: int)
    requires |data| == CmpDataSize(h)
    requires (model != null ==> h.originalSize <= model.Length) && (up != null ==> h.originalSize <= up.Length)
    requires dst != null ==> h.originalSize <= dst.Length && dst != model && dst != up
    modifies dst, up
    ensures old(ModelOf(model != null, model, 0, h.originalSize)).Some? ==> |old(ModelOf(model != null, model, 0, h.originalSize)).value| == h.originalSize
    ensures EntityRead(h, data, DecompressSpec(h, data, old(ModelOf(model != null, model, 0, h.originalSize))), model != null, dst,
      old(MemOf(dst)), MemOf(dst), up != null, old(MemOf(up)), MemOf(up), r)
    ensures h.mode.IsRaw() && h.originalSize > 0 ==> (r == h.originalSize <==> HeaderIsReadable(h, |data|))
  {
    hide *;
    ghost var mopt := ModelOf(model != null, model, 0, h.originalSize);
    ModelOfIs(model != null, model, 0, h.originalSize);
    SpecCases(h, data, mopt);
    var decmpSize := h.originalSize;
    if decmpSize == 0 || !HeaderIsReadable(h, |data|) {
      MemBounds(dst, up, h.originalSize);
      r := if decmpSize == 0 then 0 else -1;
      FailsWithout(h, data, model != null, dst != null);
      NotRead(h, data, model != null, dst, MemOf(dst), up != null, MemOf(up), r);
    } else if h.mode.IsRaw() {
      MemBounds(dst, up, h.originalSize);
      r := ReadRaw(h, data, model != null, up != null, MemOf(up), dst);
    } else {
      var nChunks := GetNumOfChunks(data);
      if nChunks <= 0 {
        MemBounds(dst, up, h.originalSize);
        r := -1;
        FailsWithout(h, data, model != null, dst != null);
        NotRead(h, data, model != null, dst, MemOf(dst), up != null, MemOf(up), r);
      } else {
        r := ReadChunks(h, data, model, up, dst, nChunks);
      }
    }
  }

  lemma {:induction false} FailsWithout(h: ChunkEntity, data: seq<byte>, hasModel: bool, hasDst: bool)
    requires !HeaderIsReadable(h, |data|) || (!h.mode.IsRaw() && CountCmp(data).None?)
    ensures !Succeeds(h, data, None, hasModel, hasDst)
  {
    hide HeaderIsReadable, CountCmp, AllAccepted;
  }

  lemma {:induction false} MemBounds(dst: array?<byte>, up: array?<byte>, n: nat)
    requires (dst != null ==> n <= dst.Length) && (up != null ==> n <= up.Length)
    ensures (dst != null ==> n <= |MemOf(dst)|) && (up != null ==> n <= |MemOf(up)|)
  {
  }

  method ReadChunks(h: ChunkEntity, data: seq<byte>, model: array?<byte>, up: array?<byte>, dst: array?<byte>, nChunks: nat) returns (r: int)
    requires (model != null ==> h.originalSize <= model.Length) && (up != null ==> h.originalSize <= up.Length)
    requires dst != null ==> h.originalSize <= dst.Length && dst != model && dst != up
    requires CountCmp(data) == Some(nChunks) && HeaderIsReadable(h, |data|) && !h.mode.IsRaw()
    requires ModelOf(model != null, model, 0, h.originalSize).Some? ==> |ModelOf(model != null, model, 0, h.originalSize).value| == h.originalSize
    modifies dst, up
    ensures EntityRead(h, data, DecompressSpec(h, data, old(ModelOf(model != null, model, 0, h.originalSize))), model != null, dst,
      old(MemOf(dst)), MemOf(dst), up != null, old(MemOf(up)), MemOf(up), r)
  {
    hide *;
    SpecCases(h, data, ModelOf(model != null, model, 0, h.originalSize));
    var j := Reading(HeaderCfg(h), data, h.originalSize, model, up, dst);
    ghost var b := Start(ModelOf(model != null, model, 0, h.originalSize), MemOf(dst), MemOf(up));
    ReadingIs(h, data, model, up, dst);
    HeaderCfgMode(h);
    r := ReadCollections(j, b, nChunks);
    ReadIsEntity(h, data, j, b, DecompressSpec(h, data, b.mopt), MemOf(dst), MemOf(up), r);
  }

  lemma {:induction false} HeaderCfgMode(h: ChunkEntity)
    ensures HeaderCfg(h).mode == h.mode
  {
  }
}
