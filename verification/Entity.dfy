/** The entity header as a record, and what compressing a whole chunk gives. */
module Entity {
  import opened Bits
  import opened Bytes
  import opened Words
  import opened Golomb
  import opened Params
  import opened Errors
  import opened DataTypes
  import opened Config
  import opened CollectionCode
  import opened ChunkCode
  import opened ChunkBounds

  /** The fields of struct cmp_entity that decompression uses. */
  datatype EntityHeader = EntityHeader(size: nat, originalSize: nat, rawBit: bool, mode: CmpMode, modelValue: nat,
    lossyPar: nat, pairs: seq<ParPair>)

  /** A compressed chunk with its updated model. */
  datatype Compressed = Compressed(header: EntityHeader, data: seq<byte>, model: seq<byte>)

  /** The fields that cmp_ent_build_chunk_header sets; the parameter pairs only outside raw mode. */
  function ChunkHeader(c: CfgSix, chunkSize: nat, size: nat): (h: EntityHeader)
  {
    EntityHeader(size, chunkSize, c.mode.IsRaw(), c.mode, c.modelValue, c.round,
      if c.mode.IsRaw() then [NO_PAIR, NO_PAIR, NO_PAIR, NO_PAIR, NO_PAIR, NO_PAIR] else c.pairs)
  }

  /** Every value fits the width of its field in the header. */
  predicate HeaderFits(h: EntityHeader)
  {
    && h.size <= CMP_ENTITY_MAX_SIZE && h.originalSize <= 0xFF_FFFF
    && (h.mode.Unsupported? ==> h.mode.code <= 0xFF)
    && h.modelValue <= 0xFF && h.lossyPar <= 0xFFFF
    && forall i :: 0 <= i < |h.pairs| ==> h.pairs[i].spill <= 0xFF_FFFF && h.pairs[i].par <= 0xFFFF
  }

  /** The end of compress_chunk: the entity header of the packed collections. */
  function Finish(c: CfgSix, chunkSize: nat, room: Option<nat>, p: Outcome<Packed>): (r: Outcome<Compressed>)
  {
    match p
    case Err(e) => Err(e)
    case Ok(p) =>
      var h := ChunkHeader(c, chunkSize, HeaderSize(c.mode) + |p.bytes|);
      if room.Some? && !HeaderFits(h) then Err(EntityHeaderError) else Ok(Compressed(h, p.bytes, p.model))
  }

  /** compress_chunk; room is None for a dry run, which has no destination. */
  function CompressSpec(chunk: seq<byte>, model: Option<seq<byte>>, room: Option<nat>, par: CmpPar): (r: Outcome<Compressed>)
    requires model.Some? ==> |model.value| == |chunk|
  {
    if |chunk| < COLLECTION_HDR_SIZE then Err(ChunkSizeInconsistent)
    else if |chunk| > CMP_ENTITY_MAX_ORIGINAL_SIZE then Err(ChunkTooLarge)
    else if ColChunkType(chunk).UnknownChunk? then Err(ColSubserviceUnsupported)
    else
      var c := InitCfg(ColChunkType(chunk), par);
      if !HasRoom(room, HeaderSize(c.mode)) then Err(SmallBuffer)
      else Finish(c, |chunk|, room, PackCols(c, ColChunkType(chunk), chunk, model, HeaderSize(c.mode), room))
  }

  /** A chunk that passes the first checks. */
  predicate IsKnownChunk(chunk: seq<byte>)
  {
    COLLECTION_HDR_SIZE <= |chunk| <= CMP_ENTITY_MAX_ORIGINAL_SIZE && !ColChunkType(chunk).UnknownChunk?
  }

  /** The specification in two stages. */
  lemma {:induction false} CompressSpecIs(chunk: seq<byte>, model: Option<seq<byte>>, room: Option<nat>, par: CmpPar)
    requires model.Some? ==> |model.value| == |chunk|
    ensures !IsKnownChunk(chunk) ==>
      CompressSpec(chunk, model, room, par) in {Err(ChunkSizeInconsistent), Err(ChunkTooLarge), Err(ColSubserviceUnsupported)}
    ensures IsKnownChunk(chunk) ==>
      |chunk| >= COLLECTION_HDR_SIZE > 0 && !ColChunkType(chunk).UnknownChunk? && |chunk| <= CMP_ENTITY_MAX_ORIGINAL_SIZE
      && var c := InitCfg(ColChunkType(chunk), par);
         c.mode == par.mode && c.round == 0
         && CompressSpec(chunk, model, room, par)
              == if !HasRoom(room, HeaderSize(c.mode)) then Err(SmallBuffer)
                 else Finish(c, |chunk|, room, PackCols(c, ColChunkType(chunk), chunk, model, HeaderSize(c.mode), room))
  {
    hide Finish, PackCols, ColChunkType, InitCfg, HeaderSize;
  }

  lemma {:induction false} FinishCases(c: CfgSix, chunkSize: nat, room: Option<nat>, p: Outcome<Packed>)
    ensures p.Err? ==> Finish(c, chunkSize, room, p) == Err(p.error)
    ensures p.Ok? ==>
      var h := ChunkHeader(c, chunkSize, HeaderSize(c.mode) + |p.value.bytes|);
      && h.size == HeaderSize(c.mode) + |p.value.bytes|
      && Finish(c, chunkSize, room, p)
           == if room.Some? && !HeaderFits(h) then Err(EntityHeaderError) else Ok(Compressed(h, p.value.bytes, p.value.model))
  {
    hide HeaderFits, HeaderSize;
  }

  /** What the header of a compressed chunk says. */
  lemma {:induction false} HeaderOfChunk(chunk: seq<byte>, model: Option<seq<byte>>, room: Option<nat>, par: CmpPar)
    requires (model.Some? ==> |model.value| == |chunk|) && CompressSpec(chunk, model, room, par).Ok?
    ensures var r := CompressSpec(chunk, model, room, par).value; var h := r.header;
      && h.size == |r.data| + (if par.mode == Raw then 32 else 64) && h.originalSize == |chunk|
      && h.mode == par.mode && (h.rawBit <==> par.mode == Raw) && h.modelValue == par.modelValue && h.lossyPar == 0
  {
    CompressSpecIs(chunk, model, room, par);
    hide CompressSpec, PackCols, InitCfg, ColChunkType, HeaderFits;
  }

  //// When the header fits

  /** Every threshold that init_cmp_cfg_from_cmp_par chooses fits 24 bits. */
  lemma {:induction false} SpillFits(par: word32, mode: CmpMode, bits: nat)
    requires bits <= 32
    ensures CmpGetSpill(par, mode, bits) <= 0xFF_FFFF
  {
    assert CmpIcuMaxSpill(par) <= 0x20_0000;
    hide CmpIcuMaxSpill;
  }

  lemma {:induction false} PairsFit(ct: ChunkType, par: CmpPar, i: nat)
    requires i < 6
    ensures InitCfg(ct, par).pairs[i].spill <= 0xFF_FFFF
  {
    hide CmpGetSpill;
    var p := InitCfg(ct, par).pairs[i];
    forall v: word32, m: CmpMode, b: nat | b <= 32
      ensures CmpGetSpill(v, m, b) <= 0xFF_FFFF
    {
      SpillFits(v, m, b);
    }
  }

  /** The header of a compressed chunk can be stored exactly if the size, the model value
      and all Golomb parameters of the chunk type fit their fields, used or not; the
      compressor does not check the unused ones before. */
  lemma {:induction false} HeaderErrorExact(ct: ChunkType, par: CmpPar, chunkSize: nat, size: nat)
    requires par.mode.IsSupported() && chunkSize <= CMP_ENTITY_MAX_ORIGINAL_SIZE
    ensures HeaderFits(ChunkHeader(InitCfg(ct, par), chunkSize, size)) <==>
      && size <= CMP_ENTITY_MAX_SIZE && par.modelValue <= 0xFF
      && (par.mode.IsRaw() || forall i :: 0 <= i < 6 ==> InitCfg(ct, par).pairs[i].par <= 0xFFFF)
  {
    hide InitCfg;
    forall i: nat | i < 6
      ensures InitCfg(ct, par).pairs[i].spill <= 0xFF_FFFF
    {
      PairsFit(ct, par, i);
    }
    var h := ChunkHeader(InitCfg(ct, par), chunkSize, size);
    if par.mode.IsRaw() {
      assert h.pairs == [NO_PAIR, NO_PAIR, NO_PAIR, NO_PAIR, NO_PAIR, NO_PAIR];
    }
  }

  //// Errors

  /** The errors that compress_chunk can give. */
  predicate IsChunkError(e: CmpError)
  {
    IsExpectedError(e) || e == ChunkTooLarge || e == ColSubserviceUnsupported || e == EntityHeaderError
  }

  /** compress_chunk never gives an internal error, for any chunk and any parameters. */
  lemma {:induction false} NoInternalErrors(chunk: seq<byte>, model: Option<seq<byte>>, room: Option<nat>, par: CmpPar)
    requires (model.Some? ==> |model.value| == |chunk|) && CompressSpec(chunk, model, room, par).Err?
    ensures IsChunkError(CompressSpec(chunk, model, room, par).error)
    ensures CompressSpec(chunk, model, room, par).error
      !in {IntDecoder, IntDataTypeUnsupported, IntCmpColTooLarge, DataValueTooLarge, Generic}
  {
    ChunkErrors();
    hide *;
    CompressSpecIs(chunk, model, room, par);
    if IsKnownChunk(chunk) {
      var ct := ColChunkType(chunk);
      var c := InitCfg(ct, par);
      var p := PackCols(c, ct, chunk, model, HeaderSize(c.mode), room);
      FinishCases(c, |chunk|, room, p);
      if p.Err? { OnlyExpectedErrors(c, ct, chunk, model, HeaderSize(c.mode), room); }
    }
  }

  lemma {:induction false} ChunkErrors()
    ensures forall e :: IsChunkError(e) ==> e !in {IntDecoder, IntDataTypeUnsupported, IntCmpColTooLarge, DataValueTooLarge, Generic}
    ensures forall e :: IsExpectedError(e) ==> IsChunkError(e)
    ensures IsChunkError(ChunkSizeInconsistent) && IsChunkError(ChunkTooLarge) && IsChunkError(ColSubserviceUnsupported)
    ensures IsChunkError(EntityHeaderError) && IsChunkError(SmallBuffer)
  {
  }
}
