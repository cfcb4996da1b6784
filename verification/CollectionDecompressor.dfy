/** Decompressing one collection: decompressed_data_internal for a collection of a chunk. */
module CollectionDecompressor {
  import opened Bits
  import opened Bytes
  import opened Words
  import opened Golomb
  import opened Params
  import opened BitReader
  import opened ValueEncoder
  import opened Samples
  import opened UpModel
  import opened CompressLoop
  import opened DecompressLoop
  import opened DataTypes
  import opened Endian
  import opened Config
  import opened CollectionCode
  import opened ChunkCode
  import opened CollectionPacker

  //// What decompressing does to the buffers

  /** A region of an optional buffer holds s, or at least nothing outside n bytes changed. */
  ghost predicate Region(a: array?<byte>, m0: seq<byte>, m1: seq<byte>, off: nat, n: nat, s: Option<seq<byte>>)
  {
    if a == null then m1 == m0
    else
      && KeepsOutside(m0, m1, off, off + n)
      && (s.Some? ==> |s.value| == n && off + n <= |m0| && m1 == Splice(m0, off, s.value))
  }

  lemma {:induction false} RegionIs(a: array<byte>, m: seq<byte>, off: nat, s: seq<byte>, n: nat)
    requires |s| <= n && off + n <= |m|
    ensures Region(a, m, Splice(m, off, s), off, n, if |s| == n then Some(s) else None)
  {
    SpliceKeeps(m, off, s, off + n);
  }

  /** A header and then the data. */
  lemma {:induction false} RegionThen(a: array?<byte>, m0: seq<byte>, m1: seq<byte>, off: nat, hdr: seq<byte>, n: nat, s: Option<seq<byte>>)
    requires a != null ==> off + |hdr| + n <= |m0|
    requires Region(a, WithHeader(a != null, m0, off, hdr), m1, off + |hdr|, n, s)
    ensures Region(a, m0, m1, off, |hdr| + n, if s.Some? then Some(hdr + s.value) else None)
  {
    if a != null {
      var w := Splice(m0, off, hdr);
      assert m1[..off] == m1[..off + |hdr|][..off] == w[..off + |hdr|][..off] == m0[..off];
      assert m1[off + |hdr| + n..] == w[off + |hdr| + n..] == m0[off + |hdr| + n..];
      if s.Some? { SpliceThen(m0, off, hdr, s.value); }
    }
  }

  //// The raw form

  /** The collection src stored by memcpy and swapped by be_to_cpu_chunk. */
  method StoreSwapped(a: array?<byte>, off: nat, src: seq<byte>) returns (ok: bool)
    requires |src| >= COLLECTION_HDR_SIZE && |src| == ColSize(src) && SwapData(ColDataType(src), ColBody(src)).Some?
    requires a != null ==> off + |src| <= a.Length
    modifies a
    ensures ok
    ensures Region(a, old(MemOf(a)), MemOf(a), off, |src|, Some(ColHeader(src) + SwapData(ColDataType(src), ColBody(src)).value))
  {
    hide *;
    ok := true;
    OneCollection(src);
    if a != null {
      ghost var m := MemOf(a);
      MemOfA(a);
      CopyBytes(a, off, src);
      ghost var m1 := a[..];
      CopiedSlice(a, m, off, src);
      ok := BeToCpuChunk(a, off, |src|);
      MemOfA(a);
      SwappedRegion(a, m, m1, off, src);
    } else {
      RegionNull(MemOf(a), off, |src|, Some(ColHeader(src) + SwapData(ColDataType(src), ColBody(src)).value));
    }
  }

  lemma {:induction false} RegionNull(m: seq<byte>, off: nat, n: nat, s: Option<seq<byte>>)
    ensures Region(null, m, m, off, n, s)
  {
  }

  lemma {:induction false} MemOfA(a: array<byte>)
    ensures MemOf(a) == a[..] && |MemOf(a)| == a.Length
  {
  }

  lemma {:induction false} CopiedSlice(a: array<byte>, m: seq<byte>, off: nat, src: seq<byte>)
    requires off + |src| <= |m| == a.Length && a[..] == Splice(m, off, src)
    ensures a[off..off + |src|] == src
  {
    assert a[off..off + |src|] == a[..][off..off + |src|];
  }

  lemma {:induction false} SwappedRegion(a: array<byte>, m: seq<byte>, m1: seq<byte>, off: nat, src: seq<byte>)
    requires off + |src| <= |m| && m1 == Splice(m, off, src) && SwapChunk(src).Some?
    ensures Region(a, m, Splice(m1, off, SwapChunk(src).value), off, |src|, Some(SwapChunk(src).value))
  {
    hide SwapChunk;
    assert Splice(m1, off, SwapChunk(src).value) == Splice(m, off, SwapChunk(src).value);
    RegionIs(a, m, off, SwapChunk(src).value, |src|);
  }

  /** A chunk of one collection. */
  lemma {:induction false} OneCollection(src: seq<byte>)
    requires |src| >= COLLECTION_HDR_SIZE && |src| == ColSize(src) && SwapData(ColDataType(src), ColBody(src)).Some?
    ensures SwapChunk(src) == Some(ColHeader(src) + SwapData(ColDataType(src), ColBody(src)).value)
  {
    hide SwapData, ColDataType;
    SwapChunkStep(src);
    assert src[COLLECTION_HDR_SIZE..|src|] == ColBody(src) && src[|src|..] == [];
    var d := SwapData(ColDataType(src), ColBody(src)).value;
    assert ColHeader(src) + d + [] == ColHeader(src) + d;
  }

  //// The bitstream

  /** The buffer of the updated model, if the mode has one. */
  ghost predicate UpRegion(does: bool, u0: seq<byte>, u1: seq<byte>, off: nat, n: nat, s: Option<seq<byte>>)
  {
    if does then KeepsOutside(u0, u1, off, off + n) && (s.Some? ==> |s.value| == n && off + n <= |u0| && u1 == Splice(u0, off, s.value))
    else u1 == u0
  }

  lemma {:induction false} UpRegionThen(does: bool, u0: seq<byte>, u1: seq<byte>, off: nat, hdr: seq<byte>, n: nat, s: Option<seq<byte>>)
    requires does ==> off + |hdr| + n <= |u0|
    requires UpRegion(does, WithHeader(does, u0, off, hdr), u1, off + |hdr|, n, s)
    ensures UpRegion(does, u0, u1, off, |hdr| + n, if s.Some? then Some(hdr + s.value) else None)
  {
    if does {
      var w := Splice(u0, off, hdr);
      assert u1[..off] == u1[..off + |hdr|][..off] == w[..off + |hdr|][..off] == u0[..off];
      assert u1[off + |hdr| + n..] == w[off + |hdr| + n..] == u0[off + |hdr| + n..];
      if s.Some? { SpliceThen(u0, off, hdr, s.value); }
    }
  }

  /** What the sample loop did, in terms of the packed bytes. */
  ghost predicate Decoded(c: CfgSix, dt: DataType, bytes: seq<byte>, len: nat, mdl: Option<seq<byte>>, err: bool, data: seq<byte>, model: seq<byte>)
    requires !dt.Unknown? && len % SampleSize(dt) == 0 && (mdl.Some? ==> |mdl.value| == len)
  {
    UnpackData(c, dt, bytes, len, mdl) == if err then None else Some(Packed(data, model))
  }

  lemma {:induction false} DecodedIs(c: CfgSix, dt: DataType, bytes: seq<byte>, len: nat, mdl: Option<seq<byte>>, fs: seq<Field>,
    err: bool, data: seq<byte>, rest: seq<bool>)
    requires !dt.Unknown? && len % SampleSize(dt) == 0 && (mdl.Some? ==> |mdl.value| == len) && |bytes| < len
    requires CfgIsValid(c, dt) && !c.mode.IsRaw() && !IsFastCadence(dt) && mdl.Some? == c.mode.IsModel()
    requires fs == FieldsOf(dt, c) && ValidFields(fs) && RecSize(fs) > 0 && |data| <= len && (mdl.Some? ==> c.modelValue <= MAX_MODEL_VALUE)
    requires DecFrom(fs, len, mdl, [], BytesBits(bytes)) == if err then None else Some((data, rest))
    ensures Decoded(c, dt, bytes, len, mdl, err, data, if mdl.Some? then UpFrom(fs, data, mdl.value, c.modelValue, 0) else [])
  {
    hide DecFrom, UpFrom, BytesBits, FieldsOf, RecSize, ValidFields, SampleSize, SwapData, SpecificParsAreValid;
  }

  /** The buffers after the sample loop, given what the packed bytes stand for. */
  lemma {:induction false} RegionsOf(s: Option<Packed>, fs: seq<Field>, data: seq<byte>, mdl: Option<seq<byte>>, hasUp: bool, mv: nat, at: nat,
    len: nat, dst: array<byte>, m0: seq<byte>, m1: seq<byte>, u0: seq<byte>, u1: seq<byte>, err: bool)
    requires ValidFields(fs) && RecSize(fs) > 0 && (mdl.Some? ==> |mdl.value| == len && mv <= MAX_MODEL_VALUE)
    requires |data| <= len && (!err ==> |data| == len) && at + len <= |m0| && (mdl.Some? && hasUp ==> at + len <= |u0|)
    requires m1 == Splice(m0, at, data) && UpdatedFrom(fs, data, mdl, hasUp, mv, at, u0, u1)
    requires !err ==> UpDone(fs, data, mdl, hasUp, mv, at, u0, u1)
    requires s.Some? ==> !err && s.value == Packed(data, if mdl.Some? then UpFrom(fs, data, mdl.value, mv, 0) else [])
    ensures Region(dst, m0, m1, at, len, if s.Some? then Some(s.value.bytes) else None)
    ensures UpRegion(mdl.Some? && hasUp, u0, u1, at, len, if s.Some? then Some(s.value.model) else None)
  {
    UpdatedKeeps(fs, data, mdl, hasUp, mv, at, u0, u1, len);
    RegionIs(dst, m0, at, data, len);
    hide UpFrom, ValidFields, RecSize, UpdatedFrom, Splice, KeepsOutside;
  }

  lemma {:induction false} DecodedRegions(c: CfgSix, dt: DataType, bytes: seq<byte>, len: nat, mdl: Option<seq<byte>>, fs: seq<Field>,
    err: bool, data: seq<byte>, dst: array<byte>, m0: seq<byte>, m1: seq<byte>, hasUp: bool, u0: seq<byte>, u1: seq<byte>, at: nat)
    requires !dt.Unknown? && len % SampleSize(dt) == 0 && (mdl.Some? ==> |mdl.value| == len && c.modelValue <= MAX_MODEL_VALUE)
    requires ValidFields(fs) && RecSize(fs) > 0 && |data| <= len && (!err ==> |data| == len) && at + len <= |m0|
    requires (mdl.Some? && hasUp ==> at + len <= |u0|) && mdl.Some? == c.mode.IsModel()
    requires m1 == Splice(m0, at, data)
    requires UpdatedFrom(fs, data, mdl, hasUp, c.modelValue, at, u0, u1)
    requires !err ==> UpDone(fs, data, mdl, hasUp, c.modelValue, at, u0, u1)
    requires Decoded(c, dt, bytes, len, mdl, err, data, if mdl.Some? then UpFrom(fs, data, mdl.value, c.modelValue, 0) else [])
    ensures var s := UnpackData(c, dt, bytes, len, mdl);
      && (s.Some? <==> !err)
      && Region(dst, m0, m1, at, len, if s.Some? then Some(s.value.bytes) else None)
      && UpRegion(mdl.Some? && hasUp, u0, u1, at, len, if s.Some? then Some(s.value.model) else None)
  {
    hide *;
    var model := if mdl.Some? then UpFrom(fs, data, mdl.value, c.modelValue, 0) else [];
    var s := UnpackData(c, dt, bytes, len, mdl);
    DecodedParts(c, dt, bytes, len, mdl, err, data, model);
    RegionsOf(s, fs, data, mdl, hasUp, c.modelValue, at, len, dst, m0, m1, u0, u1, err);
  }

  lemma {:induction false} DecodedParts(c: CfgSix, dt: DataType, bytes: seq<byte>, len: nat, mdl: Option<seq<byte>>, err: bool, data: seq<byte>,
    model: seq<byte>)
    requires !dt.Unknown? && len % SampleSize(dt) == 0 && (mdl.Some? ==> |mdl.value| == len)
    requires Decoded(c, dt, bytes, len, mdl, err, data, model)
    ensures UnpackData(c, dt, bytes, len, mdl) == if err then None else Some(Packed(data, model))
  {
    hide UnpackData, SampleSize;
  }

  /** The sample loop on the packed bytes: an error exactly if they cannot be read. */
  method DecodeBody(c: CfgSix, dt: DataType, bytes: seq<byte>, samples: nat, ghost len: nat, ghost mdl: Option<seq<byte>>,
    model: array?<byte>, up: array?<byte>, dst: array<byte>, at: nat) returns (err: bool)
    requires !dt.Unknown? && len == BytesOf(samples, SampleSize(dt)) && len % SampleSize(dt) == 0 && samples > 0 && |bytes| < len
    requires CfgIsValid(c, dt) && !c.mode.IsRaw() && !IsFastCadence(dt)
    requires (mdl.Some? ==> |mdl.value| == len) && mdl.Some? == c.mode.IsModel() && (c.mode.IsModel() ==> c.modelValue <= MAX_MODEL_VALUE)
    requires c.mode.IsModel() ==> model != null && at + len <= model.Length
    requires mdl == ModelOf(c.mode.IsModel(), model, at, len)
    requires c.mode.IsModel() && up != null ==> at + len <= up.Length == |MemOf(up)|
    requires at + len <= dst.Length && dst != model && dst != up
    modifies dst, up
    ensures var s := UnpackData(c, dt, bytes, len, mdl);
      && (s.Some? <==> !err)
      && Region(dst, old(dst[..]), dst[..], at, len, if s.Some? then Some(s.value.bytes) else None)
      && UpRegion(c.mode.IsModel() && up != null, old(MemOf(up)), MemOf(up), at, len, if s.Some? then Some(s.value.model) else None)
  {
    hide *;
    ghost var m0, u0 := dst[..], MemOf(up);
    FieldsOfValid(dt, c);
    var fs := FieldsOf(dt, c);
    var dec := new BitDecoder(bytes);
    ghost var data;
    err, data := DecompressSamples(fs, c.mode.IsModel(), c.modelValue, samples, dst, at, model, up, at, dec);
    DecodedIs(c, dt, bytes, len, mdl, fs, err, data, dec.Rest());
    DecodedRegions(c, dt, bytes, len, mdl, fs, err, data, dst, m0, dst[..], up != null, u0, MemOf(up), at);
  }

  //// decompressed_data_internal

  /** A collection with n packed bytes behind its header, as the size field announced it. */
  ghost predicate ValidSource(c: CfgSix, src: seq<byte>, samples: nat, len: nat)
  {
    && |src| >= COLLECTION_HDR_SIZE && len == ColDataLength(src) && |src| <= COLLECTION_HDR_SIZE + len
    && !ColDataType(src).Unknown? && len % SampleSize(ColDataType(src)) == 0 && len == BytesOf(samples, SampleSize(ColDataType(src)))
    && GenParsAreValid(c)
  }

  ghost predicate ValidBuffers(c: CfgSix, model: array?<byte>, up: array?<byte>, dst: array?<byte>, off: nat, n: nat, m0: seq<byte>,
    u0: seq<byte>)
  {
    && (model != null ==> off + n <= model.Length)
    && (up != null ==> off + n <= up.Length == |u0|)
    && (dst != null ==> off + n <= dst.Length == |m0| && dst != model && dst != up)
  }

  /** The model data for a collection, if the mode uses the model and there is one. */
  ghost function ModelBytes(c: CfgSix, model: array?<byte>, off: nat, len: nat): (m: Option<seq<byte>>)
    requires model != null ==> off + COLLECTION_HDR_SIZE + len <= model.Length
    reads model
    ensures m.Some? ==> |m.value| == len
  {
    if c.mode.IsModel() && model != null then Some(model[off + COLLECTION_HDR_SIZE..off + COLLECTION_HDR_SIZE + len]) else None
  }

  /** What the packed bytes of a collection stand for. */
  ghost function SourceData(c: CfgSix, src: seq<byte>, samples: nat, len: nat, mdl: Option<seq<byte>>): (s: Option<Packed>)
    requires ValidSource(c, src, samples, len) && (mdl.Some? ==> |mdl.value| == len)
  {
    UnpackData(c, ColDataType(src), ColBody(src), len, mdl)
  }

  /** Without a buffer for the data only the parameters are checked, and only those of a
      compressed collection. */
  ghost predicate Accepts(c: CfgSix, src: seq<byte>, len: nat, hasModel: bool)
    requires |src| >= COLLECTION_HDR_SIZE
  {
    |src| == COLLECTION_HDR_SIZE + len || (SpecificParsAreValid(c, ColDataType(src)) && (c.mode.IsModel() ==> hasModel))
  }

  /** The updated model after a collection, without a buffer for the data: a raw collection
      is stored, a compressed one is not. */
  function StoredAlone(src: seq<byte>, len: nat, u: seq<byte>, off: nat): (v: seq<byte>)
    requires |src| >= COLLECTION_HDR_SIZE
    ensures |v| == |u|
  {
    var d := SwapData(ColDataType(src), ColBody(src));
    if |src| == COLLECTION_HDR_SIZE + len && d.Some? && off + |src| <= |u| then Splice(u, off, ColHeader(src) + d.value) else u
  }

  /** The result and the buffers after decompressing a collection. With a buffer for the
      data, success means that the collection can be read. */
  ghost predicate ColUnpacked(c: CfgSix, src: seq<byte>, len: nat, s: Option<Packed>, hasModel: bool, dst: array?<byte>, m0: seq<byte>,
    m1: seq<byte>, hasUp: bool, u0: seq<byte>, u1: seq<byte>, off: nat, r: int)
  {
    && |src| >= COLLECTION_HDR_SIZE && (s.Some? ==> r == COLLECTION_HDR_SIZE + len) && (r == COLLECTION_HDR_SIZE + len || r < 0)
    && (r >= 0 <==> if dst != null then s.Some? else Accepts(c, src, len, hasModel))
    && (dst == null ==> u1 == if c.mode.IsModel() && hasUp then StoredAlone(src, len, u0, off) else u0)
    && Region(dst, m0, m1, off, COLLECTION_HDR_SIZE + len, if s.Some? then Some(ColHeader(src) + s.value.bytes) else None)
    && UpRegion(c.mode.IsModel() && hasUp, u0, u1, off, COLLECTION_HDR_SIZE + len,
         if s.Some? && dst != null then Some(ColHeader(src) + s.value.model) else None)
  }

  lemma {:induction false} SourceParts(c: CfgSix, src: seq<byte>, samples: nat, len: nat)
    requires ValidSource(c, src, samples, len)
    ensures |src| >= COLLECTION_HDR_SIZE && len == ColDataLength(src) && |src| == COLLECTION_HDR_SIZE + |ColBody(src)|
    ensures |ColHeader(src)| == COLLECTION_HDR_SIZE
    ensures !ColDataType(src).Unknown? && len % SampleSize(ColDataType(src)) == 0 && len == BytesOf(samples, SampleSize(ColDataType(src)))
    ensures GenParsAreValid(c) && |ColBody(src)| <= len && ColSize(src) == COLLECTION_HDR_SIZE + len && (samples == 0 ==> len == 0)
    ensures c.mode.IsModel() ==> c.modelValue <= MAX_MODEL_VALUE && !c.mode.IsRaw()
  {
    hide ColDataType, SampleSize, ColDataLength;
  }

  lemma {:induction false} SourceRaw(c: CfgSix, src: seq<byte>, samples: nat, len: nat, mdl: Option<seq<byte>>)
    requires ValidSource(c, src, samples, len) && |src| == COLLECTION_HDR_SIZE + len && (mdl.Some? ==> |mdl.value| == len)
    ensures |src| >= COLLECTION_HDR_SIZE && |src| == ColSize(src) && SwapData(ColDataType(src), ColBody(src)).Some?
    ensures var d := SwapData(ColDataType(src), ColBody(src)).value;
      SourceData(c, src, samples, len, mdl) == Some(Packed(d, if c.mode.IsModel() then d else []))
  {
    hide ColDataType, SampleSize, SwapRecords, ColDataLength;
  }

  /** The collection is stored as it is: the swapped copy is also the updated model. */
  method DecompressRaw(c: CfgSix, src: seq<byte>, ghost samples: nat, ghost len: nat, ghost mdl: Option<seq<byte>>, ghost hasModel: bool,
    up: array?<byte>, off: nat, dst: array?<byte>) returns (r: int)
    requires ValidSource(c, src, samples, len) && |src| == COLLECTION_HDR_SIZE + len && (mdl.Some? ==> |mdl.value| == len)
    requires (up != null ==> off + |src| <= up.Length) && (dst != null ==> off + |src| <= dst.Length && dst != up)
    modifies dst, up
    ensures ColUnpacked(c, src, len, SourceData(c, src, samples, len, mdl), hasModel, dst, old(MemOf(dst)), MemOf(dst), up != null,
      old(MemOf(up)), MemOf(up), off, r)
  {
    hide *;
    ghost var m0, u0 := MemOf(dst), MemOf(up);
    if up != null { MemOfA(up); }
    SourceRaw(c, src, samples, len, mdl);
    var ok := true;
    if up != null && c.mode.IsModel() { ok := StoreSwapped(up, off, src); }
    if !ok { return -1; }
    ghost var u1 := MemOf(up);
    ok := StoreSwapped(dst, off, src);
    if !ok { return -1; }
    r := |src|;
    RawUnpacked(c, src, samples, len, mdl, hasModel, dst, m0, MemOf(dst), up, u0, u1, off);
  }

  lemma {:induction false} RawUnpacked(c: CfgSix, src: seq<byte>, samples: nat, len: nat, mdl: Option<seq<byte>>, hasModel: bool,
    dst: array?<byte>, m0: seq<byte>, m1: seq<byte>, up: array?<byte>, u0: seq<byte>, u1: seq<byte>, off: nat)
    requires ValidSource(c, src, samples, len) && |src| == COLLECTION_HDR_SIZE + len && (mdl.Some? ==> |mdl.value| == len)
    requires |src| == ColSize(src) && SwapData(ColDataType(src), ColBody(src)).Some?
    requires Region(dst, m0, m1, off, |src|, Some(ColHeader(src) + SwapData(ColDataType(src), ColBody(src)).value))
    requires up != null ==> off + |src| <= |u0|
    requires if up != null && c.mode.IsModel() then
      Region(up, u0, u1, off, |src|, Some(ColHeader(src) + SwapData(ColDataType(src), ColBody(src)).value))
      else u1 == u0
    ensures ColUnpacked(c, src, len, SourceData(c, src, samples, len, mdl), hasModel, dst, m0, m1, up != null, u0, u1, off, |src|)
  {
    SourceRaw(c, src, samples, len, mdl);
    hide SourceData, SwapData, ColDataType, ColHeader, ColBody, ColSize, KeepsOutside, Splice;
  }

  lemma {:induction false} NothingUnpacked(c: CfgSix, src: seq<byte>, len: nat, s: Option<Packed>, hasModel: bool, dst: array?<byte>,
    m: seq<byte>, hasUp: bool, u: seq<byte>, off: nat, r: int)
    requires |src| >= COLLECTION_HDR_SIZE && (s.Some? ==> dst == null && r == COLLECTION_HDR_SIZE + len)
    requires |src| != COLLECTION_HDR_SIZE + len && (r == COLLECTION_HDR_SIZE + len || r < 0) && (dst != null ==> r < 0)
    requires dst == null ==> (r >= 0 <==> Accepts(c, src, len, hasModel))
    requires (dst != null ==> off + COLLECTION_HDR_SIZE + len <= |m|) && (hasUp ==> off + COLLECTION_HDR_SIZE + len <= |u|)
    ensures ColUnpacked(c, src, len, s, hasModel, dst, m, m, hasUp, u, u, off, r)
  {
  }

  /** Parameters that the decompressor rejects. */
  lemma {:induction false} Rejected(c: CfgSix, src: seq<byte>, samples: nat, len: nat, mdl: Option<seq<byte>>)
    requires ValidSource(c, src, samples, len) && (mdl.Some? ==> |mdl.value| == len) && |src| < COLLECTION_HDR_SIZE + len
    ensures !SpecificParsAreValid(c, ColDataType(src)) || mdl.Some? != c.mode.IsModel() || IsFastCadence(ColDataType(src)) ==>
      SourceData(c, src, samples, len, mdl) == None
  {
    hide ColDataType, SampleSize, SpecificParsAreValid, DecFrom, ColDataLength;
  }

  lemma {:induction false} ModelBytesIs(c: CfgSix, model: array?<byte>, off: nat, len: nat)
    requires model != null ==> off + COLLECTION_HDR_SIZE + len <= model.Length
    ensures ModelBytes(c, model, off, len).Some? == (c.mode.IsModel() && model != null)
    ensures c.mode.IsModel() && model != null ==> ModelAt(true, MemOf(model), off, COLLECTION_HDR_SIZE, len, ModelBytes(c, model, off, len))
    ensures !c.mode.IsModel() ==> ModelAt(false, MemOf(model), off, COLLECTION_HDR_SIZE, len, ModelBytes(c, model, off, len))
  {
    if model != null {
      assert model[off + COLLECTION_HDR_SIZE..off + COLLECTION_HDR_SIZE + len] == model[..][off + COLLECTION_HDR_SIZE..off + COLLECTION_HDR_SIZE + len];
    }
  }

  /** The header and the decoded data together. */
  lemma {:induction false} CodedUnpacked(c: CfgSix, src: seq<byte>, samples: nat, len: nat, mdl: Option<seq<byte>>, hasModel: bool,
    dst: array?<byte>, m0: seq<byte>, m1: seq<byte>, hasUp: bool, u0: seq<byte>, u1: seq<byte>, off: nat, s: Option<Packed>, r: int)
    requires |src| >= COLLECTION_HDR_SIZE && dst != null && off + COLLECTION_HDR_SIZE + len <= |m0|
    requires c.mode.IsModel() && hasUp ==> off + COLLECTION_HDR_SIZE + len <= |u0|
    requires r == if s.Some? then COLLECTION_HDR_SIZE + len else -1
    requires Region(dst, WithHeader(true, m0, off, ColHeader(src)), m1, off + COLLECTION_HDR_SIZE, len,
      if s.Some? then Some(s.value.bytes) else None)
    requires UpRegion(c.mode.IsModel() && hasUp, WithHeader(c.mode.IsModel() && hasUp, u0, off, ColHeader(src)), u1,
      off + COLLECTION_HDR_SIZE, len, if s.Some? then Some(s.value.model) else None)
    ensures ColUnpacked(c, src, len, s, hasModel, dst, m0, m1, hasUp, u0, u1, off, r)
  {
    hide Region, UpRegion, WithHeader;
    RegionThen(dst, m0, m1, off, ColHeader(src), len, if s.Some? then Some(s.value.bytes) else None);
    UpRegionThen(c.mode.IsModel() && hasUp, u0, u1, off, ColHeader(src), len, if s.Some? then Some(s.value.model) else None);
  }

  /** decompress_collection_hdr and the sample loop. */
  method DecompressCoded(c: CfgSix, src: seq<byte>, samples: nat, ghost len: nat, ghost mdl: Option<seq<byte>>, model: array?<byte>,
    up: array?<byte>, off: nat, dst: array<byte>) returns (r: int)
    requires ValidSource(c, src, samples, len) && (mdl.Some? ==> |mdl.value| == len) && |src| < COLLECTION_HDR_SIZE + len
    requires !c.mode.IsRaw() && SpecificParsAreValid(c, ColDataType(src)) && (c.mode.IsModel() ==> model != null)
    requires ValidBuffers(c, model, up, dst, off, COLLECTION_HDR_SIZE + len, MemOf(dst), MemOf(up))
    requires ModelAt(c.mode.IsModel(), MemOf(model), off, COLLECTION_HDR_SIZE, len, mdl)
    modifies dst, up
    ensures ColUnpacked(c, src, len, SourceData(c, src, samples, len, mdl), model != null, dst, old(MemOf(dst)), MemOf(dst), up != null,
      old(MemOf(up)), MemOf(up), off, r)
  {
    hide *;
    SourceParts(c, src, samples, len);
    BufferParts(c, model, up, dst, off, COLLECTION_HDR_SIZE + len, MemOf(dst), MemOf(up));
    ModelAtSome(c.mode.IsModel(), MemOf(model), off, COLLECTION_HDR_SIZE, len, mdl);
    Rejected(c, src, samples, len, mdl);
    ghost var m0, u0, s := MemOf(dst), MemOf(up), SourceData(c, src, samples, len, mdl);
    var hdr, dt := ColHeader(src), ColDataType(src);
    StoreHeaders(hdr, c.mode.IsModel() && up != null, model, up, off, dst, off, c.mode.IsModel(), len, mdl);
    var err;
    if IsFastCadence(dt) {
      err := true;
      HeaderRegions(dst, MemOf(dst), c.mode.IsModel() && up != null, MemOf(up), off + COLLECTION_HDR_SIZE, len) by { MemSizesOf(dst, up); }
    } else {
      MemSizesOf(dst, up);
      CfgIsValidOf(c, dt);
      SourceDataIs(c, src, samples, len, mdl);
      err := DecodeBody(c, dt, ColBody(src), samples, len, mdl, model, up, dst, off + COLLECTION_HDR_SIZE);
      MemSizesOf(dst, up);
    }
    r := if err then -1 else COLLECTION_HDR_SIZE + samples * SampleSize(dt);
    BytesOfIs(samples, SampleSize(dt));
    CodedUnpacked(c, src, samples, len, mdl, model != null, dst, m0, MemOf(dst), up != null, u0, MemOf(up), off, s, r);
  }

  lemma {:induction false} BytesOfIs(n: nat, s: nat)
    ensures BytesOf(n, s) == n * s
  {
  }

  lemma {:induction false} CfgIsValidOf(c: CfgSix, dt: DataType)
    requires GenParsAreValid(c) && SpecificParsAreValid(c, dt)
    ensures CfgIsValid(c, dt)
  {
  }

  lemma {:induction false} SourceDataIs(c: CfgSix, src: seq<byte>, samples: nat, len: nat, mdl: Option<seq<byte>>)
    requires ValidSource(c, src, samples, len) && (mdl.Some? ==> |mdl.value| == len)
    ensures !ColDataType(src).Unknown? && len % SampleSize(ColDataType(src)) == 0
    ensures SourceData(c, src, samples, len, mdl) == UnpackData(c, ColDataType(src), ColBody(src), len, mdl)
  {
    hide UnpackData, ColDataType, SampleSize;
  }

  lemma {:induction false} ModelAtSome(useModel: bool, mem: seq<byte>, off: nat, h: nat, n: nat, mdl: Option<seq<byte>>)
    requires ModelAt(useModel, mem, off, h, n, mdl)
    ensures mdl.Some? == useModel && (mdl.Some? ==> |mdl.value| == n)
  {
  }

  lemma {:induction false} BufferParts(c: CfgSix, model: array?<byte>, up: array?<byte>, dst: array?<byte>, off: nat, n: nat, m0: seq<byte>,
    u0: seq<byte>)
    requires ValidBuffers(c, model, up, dst, off, n, m0, u0)
    ensures model != null ==> off + n <= model.Length
    ensures up != null ==> off + n <= up.Length == |u0|
    ensures dst != null ==> off + n <= dst.Length == |m0| && dst != model && dst != up
  {
  }

  lemma {:induction false} MemSizesOf(dst: array<byte>, up: array?<byte>)
    ensures MemOf(dst) == dst[..] && |dst[..]| == dst.Length && (up != null ==> |MemOf(up)| == up.Length)
  {
  }

  lemma {:induction false} HeaderRegions(dst: array<byte>, m: seq<byte>, does: bool, u: seq<byte>, at: nat, len: nat)
    requires at + len <= |m| && (does ==> at + len <= |u|)
    ensures Region(dst, m, m, at, len, None) && UpRegion(does, u, u, at, len, None)
  {
  }

  lemma {:induction false} AcceptsIs(c: CfgSix, src: seq<byte>, len: nat, hasModel: bool)
    requires |src| >= COLLECTION_HDR_SIZE
    ensures Accepts(c, src, len, hasModel)
      <==> |src| == COLLECTION_HDR_SIZE + len || (SpecificParsAreValid(c, ColDataType(src)) && (c.mode.IsModel() ==> hasModel))
  {
  }

  /** The parameter checks, and the choice between the raw and the coded form: as many
      packed bytes as the data has mean raw. */
  method DecompressCollection(c: CfgSix, src: seq<byte>, samples: nat, ghost len: nat, ghost mdl: Option<seq<byte>>, model: array?<byte>,
    up: array?<byte>, off: nat, dst: array?<byte>, uncompressed: bool) returns (r: int)
    requires ValidSource(c, src, samples, len) && !c.mode.IsRaw() && (uncompressed <==> |src| == COLLECTION_HDR_SIZE + len)
    requires ValidBuffers(c, model, up, dst, off, COLLECTION_HDR_SIZE + len, MemOf(dst), MemOf(up))
    requires mdl == ModelBytes(c, model, off, len) && (mdl.Some? ==> |mdl.value| == len)
    modifies dst, up
    ensures ColUnpacked(c, src, len, SourceData(c, src, samples, len, mdl), model != null, dst, old(MemOf(dst)), MemOf(dst), up != null,
      old(MemOf(up)), MemOf(up), off, r)
  {
    hide *;
    SourceParts(c, src, samples, len);
    BufferParts(c, model, up, dst, off, COLLECTION_HDR_SIZE + len, MemOf(dst), MemOf(up));
    ModelBytesIs(c, model, off, len);
    if uncompressed {
      r := DecompressRaw(c, src, samples, len, mdl, model != null, up, off, dst);
    } else {
      Rejected(c, src, samples, len, mdl);
      BytesOfIs(samples, SampleSize(ColDataType(src)));
      ghost var s := SourceData(c, src, samples, len, mdl);
      AcceptsIs(c, src, len, model != null);
      if !GenParsAreValid(c) || !SpecificParsAreValid(c, ColDataType(src)) || (c.mode.IsModel() && model == null) {
        r := -1;
        NothingUnpacked(c, src, len, s, model != null, dst, MemOf(dst), up != null, MemOf(up), off, r);
      } else if dst == null {
        r := COLLECTION_HDR_SIZE + samples * SampleSize(ColDataType(src));
        NothingUnpacked(c, src, len, s, model != null, dst, MemOf(dst), up != null, MemOf(up), off, r);
      } else {
        r := DecompressCoded(c, src, samples, len, mdl, model, up, off, dst);
      }
    }
  }
}
