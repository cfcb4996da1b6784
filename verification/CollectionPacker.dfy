/** cmp_collection: packs one collection, header and data, into the destination. */
module CollectionPacker {
  import opened Bits
  import opened Bytes
  import opened Words
  import opened Golomb
  import opened Params
  import opened Errors
  import opened BitWriter
  import opened ValueEncoder
  import opened Samples
  import opened CompressLoop
  import opened DataTypes
  import opened Config
  import opened CollectionCode
  import opened CollectionWriter

  /** memcpy into an optional buffer. */
  method CopyInto(a: array?<byte>, at: nat, s: seq<byte>)
    requires a != null ==> at + |s| <= a.Length
    modifies a
    ensures a != null ==> at + |s| <= |old(MemOf(a))| && MemOf(a) == Splice(old(MemOf(a)), at, s)
    ensures a == null ==> MemOf(a) == old(MemOf(a))
  {
    hide Splice;
    if a != null { CopyBytes(a, at, s); }
  }

  //// The destination

  lemma {:induction false} ThreeSlices(m: seq<byte>, i: nat, j: nat, k: nat, l: nat)
    requires i <= j <= k <= l <= |m|
    ensures m[i..l] == m[i..j] + m[j..k] + m[k..l]
  {
  }

  /** The header, the data behind it and the size field in front of it. */
  lemma {:induction false} Assembled(m0: seq<byte>, m1: seq<byte>, m2: seq<byte>, m3: seq<byte>, at: nat, cap: nat,
    field: seq<byte>, hdr: seq<byte>, bytes: seq<byte>)
    requires at + |field| + |hdr| <= cap <= |m0| && m1 == Splice(m0, at + |field|, hdr)
    requires Kept(m1, m2, at + |field| + |hdr|, cap)
    requires at + |field| + |hdr| + |bytes| <= cap && m2[at + |field| + |hdr|..at + |field| + |hdr| + |bytes|] == bytes
    requires m3 == Splice(m2, at, field)
    ensures Kept(m0, m3, at, cap) && m3[at..at + |field + hdr + bytes|] == field + hdr + bytes
  {
    var start := at + |field| + |hdr|;
    assert m2[..start] == m1[..start];
    assert m1[at + |field|..start] == hdr && m1[..at] == m0[..at] && m1[cap..] == m0[cap..];
    assert m2[at + |field|..start] == m2[..start][at + |field|..] == m1[..start][at + |field|..] == hdr;
    assert m3[at..at + |field|] == field && m3[at + |field|..] == m2[at + |field|..];
    assert m3[at + |field|..start] == m2[at + |field|..start];
    assert m3[start..start + |bytes|] == m2[start..start + |bytes|];
    ThreeSlices(m3, at, at + |field|, start, start + |bytes|);
    assert m3[..at] == m2[..at] == m2[..start][..at] == m1[..start][..at] == m0[..at];
    assert m3[cap..] == m2[cap..];
  }

  lemma {:induction false} HeaderKept(m0: seq<byte>, m1: seq<byte>, m2: seq<byte>, at: nat, h: nat, cap: nat, hdr: seq<byte>)
    requires at <= h && h + |hdr| <= cap <= |m0| && m1 == Splice(m0, h, hdr) && Kept(m1, m2, h + |hdr|, cap)
    ensures Kept(m0, m2, at, cap)
  {
    var start := h + |hdr|;
    assert m2[..at] == m2[..start][..at] == m1[..start][..at] == m0[..at];
    assert m1[cap..] == m0[cap..];
  }

  //// The updated model

  lemma {:induction false} ModelWithHeader(does: bool, u0: seq<byte>, u1: seq<byte>, u2: seq<byte>, off: nat, hdr: seq<byte>, n: nat,
    d: Outcome<Packed>, p: Outcome<Packed>)
    requires if does then off + |hdr| + n <= |u0| && u1 == Splice(u0, off, hdr) else u1 == u0
    requires ModelDone(does, u1, u2, off + |hdr|, n, d)
    requires if d.Ok? then p.Ok? && (does ==> p.value.model == hdr + d.value.model) else p.Err?
    ensures ModelDone(does, u0, u2, off, |hdr| + n, p)
  {
    if does {
      if d.Ok? {
        SpliceThen(u0, off, hdr, d.value.model);
      } else {
        SpliceKeeps(u0, off, hdr, off + |hdr| + n);
        var h := off + |hdr|;
        assert u2[..off] == u2[..h][..off] == u1[..h][..off] == u0[..off];
      }
    }
  }

  //// The specification, by the steps of the code

  lemma {:induction false} PackColFails(c: CfgSix, col: seq<byte>, model: Option<seq<byte>>, at: nat, room: Option<nat>)
    requires |col| >= COLLECTION_HDR_SIZE && |col| == ColSize(col) && !ColDataType(col).Unknown? && c.round == 0
    requires model.Some? ==> |model.value| == |col|
    ensures ColError(c, col, model.Some?).Some? ==> PackCol(c, col, model, at, room) == Err(ColError(c, col, model.Some?).value)
    ensures ColError(c, col, model.Some?).None? && !HasRoom(room, at + SizeFieldSize(c.mode) + COLLECTION_HDR_SIZE) ==>
      PackCol(c, col, model, at, room) == Err(SmallBuffer)
  {
    hide PackData, ColError, ConvertSubservice;
  }

  /** The packed form p of a collection with packed data d. */
  ghost predicate IsPackedCol(c: CfgSix, hdr: seq<byte>, d: Outcome<Packed>, p: Outcome<Packed>)
  {
    p == if d.Err? then Err(d.error)
      else Ok(Packed(SizeField(c, |d.value.bytes|) + hdr + d.value.bytes, if c.mode.IsModel() then hdr + d.value.model else []))
  }

  /** The packed data of a collection behind its size field and header. */
  ghost function PackedBody(c: CfgSix, col: seq<byte>, model: Option<seq<byte>>, at: nat, room: Option<nat>): (d: Outcome<Packed>)
    requires |col| >= COLLECTION_HDR_SIZE && (model.Some? ==> |model.value| == |col|)
    requires DataIsValid(c, ColDataType(col), ColBody(col), ModelData(c, model))
  {
    PackData(c, ColDataType(col), ColBody(col), ModelData(c, model), at + SizeFieldSize(c.mode) + COLLECTION_HDR_SIZE, room)
  }

  lemma {:induction false} PackColOf(c: CfgSix, col: seq<byte>, model: Option<seq<byte>>, at: nat, room: Option<nat>)
    requires |col| >= COLLECTION_HDR_SIZE && |col| == ColSize(col) && !ColDataType(col).Unknown? && c.round == 0
    requires model.Some? ==> |model.value| == |col|
    requires ColError(c, col, model.Some?).None? && HasRoom(room, at + SizeFieldSize(c.mode) + COLLECTION_HDR_SIZE)
    ensures DataIsValid(c, ColDataType(col), ColBody(col), ModelData(c, model))
    ensures IsPackedCol(c, ColHeader(col), PackedBody(c, col, model, at, room), PackCol(c, col, model, at, room))
  {
    ColDataValid(c, col, model);
    hide PackData, ColError, ConvertSubservice, DataIsValid;
  }

  /** The checks of the collection and the configuration. */
  method CheckCollection(c: CfgSix, col: seq<byte>, hasModel: bool) returns (e: Option<CmpError>)
    requires |col| >= COLLECTION_HDR_SIZE && !ColDataType(col).Unknown?
    ensures e == ColError(c, col, hasModel)
  {
    hide ConvertSubservice, ColSubservice, ColDataLength, GenParsAreValid, SpecificParsAreValid;
    if ColDataLength(col) % SampleSize(ColDataType(col)) != 0 { return Some(ColSizeInconsistent); }
    if !GenParsAreValid(c) { return Some(ParGeneric); }
    if !SpecificParsAreValid(c, ColDataType(col)) { return Some(ParSpecific); }
    if c.mode.IsModel() && !hasModel { return Some(ParNoModel); }
    return None;
  }

  /** The size field in front of a packed collection. */
  method SetCmpColSize(dst: array<byte>, at: nat, cmpColSize: nat) returns (r: Outcome<nat>)
    requires at + CMP_COLLECTION_FILD_SIZE <= dst.Length
    modifies dst
    ensures r == if cmpColSize > 0xFFFF then Err(IntCmpColTooLarge) else Ok(0)
    ensures dst[..] == if r.Err? then old(dst[..]) else Splice(old(dst[..]), at, ToBigEndian(cmpColSize, CMP_COLLECTION_FILD_SIZE))
  {
    if cmpColSize > 0xFFFF { return Err(IntCmpColTooLarge); }
    CopyBytes(dst, at, ToBigEndian(cmpColSize, CMP_COLLECTION_FILD_SIZE));
    return Ok(0);
  }

  /** A buffer with the header stored at an offset, if there is a buffer. */
  ghost function WithHeader(does: bool, m: seq<byte>, at: nat, hdr: seq<byte>): (r: seq<byte>)
    requires does ==> at + |hdr| <= |m|
    ensures |r| == |m|
  {
    if does then Splice(m, at, hdr) else m
  }

  lemma {:induction false} WithHeaderIs(does: bool, m: seq<byte>, at: nat, hdr: seq<byte>)
    requires does ==> at + |hdr| <= |m|
    ensures does ==> WithHeader(does, m, at, hdr) == Splice(m, at, hdr)
    ensures !does ==> WithHeader(does, m, at, hdr) == m
  {
  }

  /** In the model modes mdl is the model data at an offset of the model, behind h header bytes. */
  ghost predicate ModelAt(useModel: bool, mem: seq<byte>, off: nat, h: nat, n: nat, mdl: Option<seq<byte>>)
  {
    if useModel then off + h + n <= |mem| && mdl == Some(mem[off + h..off + h + n]) else mdl == None
  }

  /** The model data is read behind the header, so a header stored over the model does not matter. */
  lemma {:induction false} SameModelData(useModel: bool, model: array?<byte>, off: nat, hdr: seq<byte>, n: nat, m0: seq<byte>,
    mdl: Option<seq<byte>>)
    requires ModelAt(useModel, m0, off, |hdr|, n, mdl)
    requires useModel ==> model != null && model.Length == |m0| && (model[..] == m0 || model[..] == Splice(m0, off, hdr))
    ensures ModelOf(useModel, model, off + |hdr|, n) == mdl
  {
    if useModel {
      SpliceAfter(m0, off, hdr, off + |hdr|, off + |hdr| + n);
      assert model[off + |hdr|..off + |hdr| + n] == model[..][off + |hdr|..off + |hdr| + n];
    }
  }

  /** Stores the header in the destination and in the updated model. */
  method StoreHeaders(hdr: seq<byte>, useUp: bool, model: array?<byte>, up: array?<byte>, off: nat, dst: array?<byte>, h: nat,
    ghost useModel: bool, ghost n: nat, ghost mdl: Option<seq<byte>>)
    requires dst != null ==> h + |hdr| <= dst.Length && dst != up && dst != model
    requires useUp ==> up != null && off + |hdr| + n <= up.Length
    requires useModel ==> model != null && off + |hdr| + n <= model.Length
    requires ModelAt(useModel, MemOf(model), off, |hdr|, n, mdl)
    modifies dst, up
    ensures dst != null ==> h + |hdr| <= |old(MemOf(dst))|
    ensures useUp ==> off + |hdr| <= |old(MemOf(up))|
    ensures MemOf(dst) == WithHeader(dst != null, old(MemOf(dst)), h, hdr)
    ensures MemOf(up) == WithHeader(useUp, old(MemOf(up)), off, hdr)
    ensures ModelOf(useModel, model, off + |hdr|, n) == mdl
  {
    hide Splice, ModelOf, ModelAt;
    ghost var m0 := MemOf(model);
    CopyInto(dst, h, hdr);
    if useUp { CopyInto(up, off, hdr); }
    SameModelData(useModel, model, off, hdr, n, m0, mdl);
  }

  /** The header is stored at offset h and the packed data d behind it. */
  ghost predicate Stored(does: bool, dst: array?<byte>, m0: seq<byte>, m1: seq<byte>, u0: seq<byte>, u1: seq<byte>, off: nat,
    h: nat, cap: nat, hdr: seq<byte>, n: nat, r: Outcome<nat>, d: Outcome<Packed>)
  {
    && (dst != null ==> h + |hdr| <= cap <= |m0|) && (does ==> off + |hdr| + n <= |u0|)
    && r == NewSize(h + |hdr|, d)
    && DstDone(dst, WithHeader(dst != null, m0, h, hdr), m1, h + |hdr|, cap, d)
    && ModelDone(does, WithHeader(does, u0, off, hdr), u1, off + |hdr|, n, d)
  }

  lemma {:induction false} StoredOf(does: bool, dst: array?<byte>, m0: seq<byte>, m1: seq<byte>, u0: seq<byte>, u1: seq<byte>, off: nat,
    h: nat, cap: nat, hdr: seq<byte>, n: nat, r: Outcome<nat>, d: Outcome<Packed>)
    requires (dst != null ==> h + |hdr| <= cap <= |m0|) && (does ==> off + |hdr| + n <= |u0|)
    requires r == NewSize(h + |hdr|, d)
    requires DstDone(dst, WithHeader(dst != null, m0, h, hdr), m1, h + |hdr|, cap, d)
    requires ModelDone(does, WithHeader(does, u0, off, hdr), u1, off + |hdr|, n, d)
    ensures Stored(does, dst, m0, m1, u0, u1, off, h, cap, hdr, n, r, d)
  {
    hide DstDone, ModelDone, NewSize, WithHeader;
  }

  /** Stores the header and the data of a collection from offset h of the destination on. */
  method StorePacked(c: CfgSix, dt: DataType, hdr: seq<byte>, data: seq<byte>, samples: nat, ghost mdl: Option<seq<byte>>,
    model: array?<byte>, up: array?<byte>, off: nat, dst: array?<byte>, cap: nat, h: nat) returns (r: Outcome<nat>)
    requires DataIsValid(c, dt, data, mdl) && !IsFastCadence(dt) && |data| == BytesOf(samples, SampleSize(dt)) && |hdr| > 0
    requires c.mode.IsModel() ==> model != null && off + |hdr| + |data| <= model.Length
    requires ModelAt(c.mode.IsModel(), MemOf(model), off, |hdr|, |data|, mdl)
    requires c.mode.IsModel() && up != null ==> off + |hdr| + |data| <= up.Length == |MemOf(up)|
    requires dst != null ==> h + |hdr| <= cap <= dst.Length == |MemOf(dst)| && dst != model && dst != up
    requires 8 * (h + |hdr|) + 64 * |data| + 32 < W32
    modifies dst, up
    ensures Stored(c.mode.IsModel() && up != null, dst, old(MemOf(dst)), MemOf(dst), old(MemOf(up)), MemOf(up), off, h, cap, hdr,
      |data|, r, PackData(c, dt, data, mdl, h + |hdr|, Room(dst, cap)))
  {
    hide *;
    ghost var mem, upMem, does := MemOf(dst), MemOf(up), c.mode.IsModel() && up != null;
    DataParts(c, dt, data, mdl);
    StoreHeaders(hdr, c.mode.IsModel() && up != null, model, up, off, dst, h, c.mode.IsModel(), |data|, mdl);
    var at := h + |hdr|;
    ghost var m0, u0 := MemOf(dst), MemOf(up);
    ghost var spec := PackData(c, dt, data, mdl, at, Room(dst, cap));
    var bits;
    if (dst == null || at + |data| <= cap) && !c.mode.IsRaw() {
      bits := StoreOrFallBack(c, dt, data, samples, mdl, model, up, off + |hdr|, dst, cap, at);
    } else {
      bits := StoreDirect(c, dt, data, samples, mdl, model, up, off + |hdr|, dst, cap, at);
    }
    IntoParts(does, off + |hdr|, dst, m0, MemOf(dst), u0, MemOf(up), at, cap, |data|, bits, spec);
    r := if bits.Err? then bits else Ok(BitToByte(bits.value));
    StoredOf(does, dst, mem, MemOf(dst), upMem, MemOf(up), off, h, cap, hdr, |data|, r, spec);
  }

  lemma {:induction false} IntoParts(does: bool, mat: nat, dst: array?<byte>, m0: seq<byte>, m1: seq<byte>, u0: seq<byte>,
    u1: seq<byte>, at: nat, cap: nat, len: nat, r: Outcome<nat>, p: Outcome<Packed>)
    requires PackedInto(does, mat, dst, m0, m1, u0, u1, at, cap, len, r, p)
    ensures DstDone(dst, m0, m1, at, cap, p) && ModelDone(does, u0, u1, mat, len, p)
    ensures if p.Ok? then r.Ok? && Ok(BitToByte(r.value)) == NewSize(at, p) else r == NewSize(at, p) == Err(p.error)
  {
    hide DstDone, ModelDone, BitToByte;
  }

  /** The buffers hold a packed collection, or an error left them untouched outside its regions. */
  ghost predicate ColDone(c: CfgSix, dst: array?<byte>, m0: seq<byte>, m1: seq<byte>, hasUp: bool, u0: seq<byte>, u1: seq<byte>,
    off: nat, at: nat, cap: nat, n: nat, r: Outcome<nat>, p: Outcome<Packed>)
  {
    && r == NewSize(at, p) && DstDone(dst, m0, m1, at, cap, p)
    && ModelDone(c.mode.IsModel() && hasUp, u0, u1, off, n, p)
  }

  lemma {:induction false} ColFails(c: CfgSix, dst: array?<byte>, m: seq<byte>, hasUp: bool, u: seq<byte>,
    off: nat, at: nat, cap: nat, n: nat, e: CmpError)
    requires (dst != null ==> at <= cap <= |m|) && (c.mode.IsModel() && hasUp ==> off + n <= |u|)
    ensures ColDone(c, dst, m, m, hasUp, u, u, off, at, cap, n, Err(e), Err(e))
  {
  }

  /** The destination behind a failure of the data. */
  lemma {:induction false} DstFailed(dst: array?<byte>, m0: seq<byte>, m1: seq<byte>, at: nat, f: nat, hdr: seq<byte>, cap: nat, d: Outcome<Packed>, e: CmpError)
    requires dst != null ==> at + f + |hdr| <= cap <= |m0|
    requires d.Err? && DstDone(dst, WithHeader(dst != null, m0, at + f, hdr), m1, at + f + |hdr|, cap, d)
    ensures DstDone(dst, m0, m1, at, cap, Err(e))
  {
    hide Splice, Kept;
    if dst != null { HeaderKept(m0, Splice(m0, at + f, hdr), m1, at, at + f, cap, hdr); }
  }

  /** The destination behind a success, when the size field is stored as well. */
  lemma {:induction false} DstAssembled(dst: array?<byte>, m0: seq<byte>, m2: seq<byte>, m3: seq<byte>, at: nat, field: seq<byte>, hdr: seq<byte>, cap: nat,
    d: Packed, model: seq<byte>)
    requires dst != null ==> at + |field| + |hdr| <= cap <= |m0|
    requires DstDone(dst, WithHeader(dst != null, m0, at + |field|, hdr), m2, at + |field| + |hdr|, cap, Ok(d))
    requires if dst == null then m3 == m2 else at + |field| <= |m2| && m3 == Splice(m2, at, field)
    ensures DstDone(dst, m0, m3, at, cap, Ok(Packed(field + hdr + d.bytes, model)))
  {
    hide Splice, Kept;
    if dst != null { Assembled(m0, Splice(m0, at + |field|, hdr), m2, m3, at, cap, field, hdr, d.bytes); }
  }

  lemma {:induction false} UpWithHeader(does: bool, u0: seq<byte>, u1: seq<byte>, off: nat, hdr: seq<byte>, n: nat, d: Outcome<Packed>, p: Outcome<Packed>)
    requires does ==> off + |hdr| + n <= |u0|
    requires ModelDone(does, WithHeader(does, u0, off, hdr), u1, off + |hdr|, n, d)
    requires if d.Ok? then p.Ok? && (does ==> p.value.model == hdr + d.value.model) else p.Err?
    ensures ModelDone(does, u0, u1, off, |hdr| + n, p)
  {
    WithHeaderIs(does, u0, off, hdr);
    hide ModelDone, Splice, WithHeader;
    ModelWithHeader(does, u0, WithHeader(does, u0, off, hdr), u1, off, hdr, n, d, p);
  }

  function NumSamples(len: nat, sampleSize: nat): (n: nat)
    requires sampleSize > 0
  {
    DivModParts(len, sampleSize);
    len / sampleSize
  }

  /** The samples of a collection that passed the checks. */
  lemma {:induction false} CheckedSamples(c: CfgSix, col: seq<byte>, hasModel: bool)
    requires |col| >= COLLECTION_HDR_SIZE && |col| == ColSize(col) && !ColDataType(col).Unknown?
    requires ColError(c, col, hasModel).None?
    ensures SampleSize(ColDataType(col)) > 0 && (c.mode.IsModel() ==> hasModel)
    ensures |col| - COLLECTION_HDR_SIZE == BytesOf(NumSamples(ColDataLength(col), SampleSize(ColDataType(col))), SampleSize(ColDataType(col)))
  {
    hide ColDataType, GenParsAreValid, SpecificParsAreValid, U16At, SampleSize;
    WholeSamples(ColDataLength(col), SampleSize(ColDataType(col)));
  }

  lemma {:induction false} ModelDataOf(c: CfgSix, model: array?<byte>, off: nat, n: nat)
    requires (model != null ==> off + n <= model.Length) && n >= COLLECTION_HDR_SIZE
    requires c.mode.IsModel() ==> model != null
    ensures var m := ModelOf(model != null, model, off, n);
      && (m.Some? ==> |m.value| == n) && m.Some? == (model != null)
      && ModelAt(c.mode.IsModel(), MemOf(model), off, COLLECTION_HDR_SIZE, n - COLLECTION_HDR_SIZE, ModelData(c, m))
  {
    if c.mode.IsModel() { assert model[off..off + n][COLLECTION_HDR_SIZE..] == model[..][off + COLLECTION_HDR_SIZE..off + n]; }
  }

  /** The size field of what was just packed, when the mode has one. */
  method StoreSize(c: CfgSix, dst: array?<byte>, dstSizeBegin: nat, n: nat) returns (r: Outcome<nat>)
    requires dst != null ==> dstSizeBegin + CMP_COLLECTION_FILD_SIZE <= dst.Length
    requires n < 0x1_0000
    modifies dst
    ensures r == Ok(0)
    ensures dst == null ==> MemOf(dst) == old(MemOf(dst))
    ensures dst != null ==>
      && dstSizeBegin + |SizeField(c, n)| <= |old(MemOf(dst))|
      && MemOf(dst) == Splice(old(MemOf(dst)), dstSizeBegin, SizeField(c, n))
  {
    hide Splice;
    if !c.mode.IsRaw() && dst != null {
      r := SetCmpColSize(dst, dstSizeBegin, n);
    } else {
      if dst != null { SpliceNothing(dst[..], dstSizeBegin); }
      r := Ok(0);
    }
  }

  /** cmp_collection: checks, headers, data and size field of one collection. The result
      is the new size of the destination. */
  method CmpCollection(c: CfgSix, col: seq<byte>, model: array?<byte>, up: array?<byte>, off: nat,
    dst: array?<byte>, dstCapacity: nat, dstSize: nat) returns (r: Outcome<nat>)
    requires |col| >= COLLECTION_HDR_SIZE && |col| == ColSize(col) && c.round == 0
    requires !ColDataType(col).Unknown? && !IsFastCadence(ColDataType(col))
    requires model != null ==> off + |col| <= model.Length
    requires up != null ==> off + |col| <= up.Length == |MemOf(up)|
    requires dst != null ==> dstSize <= dstCapacity <= dst.Length == |MemOf(dst)| && dst != model && dst != up
    requires 8 * dstSize + 64 * |col| + 256 < W32
    modifies dst, up
    ensures ColDone(c, dst, old(MemOf(dst)), MemOf(dst), up != null, old(MemOf(up)), MemOf(up), off, dstSize, dstCapacity, |col|, r,
      PackCol(c, col, old(ModelOf(model != null, model, off, |col|)), dstSize, Room(dst, dstCapacity)))
  {
    assert COLLECTION_HDR_SIZE == 12 && CMP_COLLECTION_FILD_SIZE == 2;
    ColSizeParts(c, col, dst, dstCapacity);
    hide *;
    ghost var m0, u0, mopt, does := MemOf(dst), MemOf(up), ModelOf(model != null, model, off, |col|), c.mode.IsModel() && up != null;
    ghost var room := Room(dst, dstCapacity);
    assert mopt.Some? ==> |mopt.value| == |col| by { ModelOfIs(model != null, model, off, |col|); }
    assert mopt.Some? == (model != null) by { ModelOfIs(model != null, model, off, |col|); }
    var e := CheckCollection(c, col, model != null);
    PackColFails(c, col, mopt, dstSize, room);
    var h := dstSize + SizeFieldSize(c.mode);
    RoomOf(dst, dstCapacity, h + COLLECTION_HDR_SIZE);
    if e.Some? {
      ColFails(c, dst, m0, up != null, u0, off, dstSize, dstCapacity, |col|, e.value);
      r := Err(e.value);
    } else if dst != null && h + COLLECTION_HDR_SIZE > dstCapacity {
      ColFails(c, dst, m0, up != null, u0, off, dstSize, dstCapacity, |col|, SmallBuffer);
      r := Err(SmallBuffer);
    } else {
      PackColOf(c, col, mopt, dstSize, room);
      CheckedOf(c, col, model, off);
      r := StoreCollection(c, col, mopt, model, up, off, dst, dstCapacity, dstSize, PackCol(c, col, mopt, dstSize, room));
    }
  }

  lemma {:induction false} CheckedOf(c: CfgSix, col: seq<byte>, model: array?<byte>, off: nat)
    requires |col| >= COLLECTION_HDR_SIZE && |col| == ColSize(col) && c.round == 0
    requires !ColDataType(col).Unknown? && !IsFastCadence(ColDataType(col)) && (model != null ==> off + |col| <= model.Length)
    requires ColError(c, col, model != null).None?
    ensures Checked(c, col, ModelOf(model != null, model, off, |col|), MemOf(model), off) && (c.mode.IsModel() ==> model != null)
  {
    hide *;
    CheckedSamples(c, col, model != null);
    ModelDataOf(c, model, off, |col|);
    ColDataValid(c, col, ModelOf(model != null, model, off, |col|));
    CheckedIs(c, col, ModelOf(model != null, model, off, |col|), MemOf(model), off);
  }

  lemma {:induction false} CheckedIs(c: CfgSix, col: seq<byte>, mopt: Option<seq<byte>>, mem: seq<byte>, off: nat)
    requires |col| >= COLLECTION_HDR_SIZE && |col| == ColSize(col) && c.round == 0
    requires !ColDataType(col).Unknown? && !IsFastCadence(ColDataType(col)) && SampleSize(ColDataType(col)) > 0
    requires |col| - COLLECTION_HDR_SIZE == BytesOf(NumSamples(ColDataLength(col), SampleSize(ColDataType(col))), SampleSize(ColDataType(col)))
    requires mopt.Some? ==> |mopt.value| == |col|
    requires DataIsValid(c, ColDataType(col), ColBody(col), ModelData(c, mopt))
    requires ModelAt(c.mode.IsModel(), mem, off, COLLECTION_HDR_SIZE, |col| - COLLECTION_HDR_SIZE, ModelData(c, mopt))
    ensures Checked(c, col, mopt, mem, off)
  {
    hide DataIsValid, ModelAt, ColDataType, SampleSize, ModelData, BytesOf, NumSamples, ColBody, ColDataLength, ColSize;
  }

  lemma {:induction false} RoomOf(dst: array?<byte>, cap: nat, need: nat)
    ensures HasRoom(Room(dst, cap), need) <==> dst == null || need <= cap
  {
  }

  lemma {:induction false} ColSizeParts(c: CfgSix, col: seq<byte>, dst: array?<byte>, cap: nat)
    requires |col| >= COLLECTION_HDR_SIZE && |col| == ColSize(col)
    ensures |col| - COLLECTION_HDR_SIZE == ColDataLength(col) < 0x1_0000 && SizeFieldSize(c.mode) <= 2
  {
  }

  lemma {:induction false} PackedBodyIs(c: CfgSix, col: seq<byte>, model: Option<seq<byte>>, at: nat, dst: array?<byte>, cap: nat)
    requires |col| >= COLLECTION_HDR_SIZE && (model.Some? ==> |model.value| == |col|)
    requires DataIsValid(c, ColDataType(col), ColBody(col), ModelData(c, model))
    requires dst != null ==> at + SizeFieldSize(c.mode) + COLLECTION_HDR_SIZE <= cap
    ensures var d := PackedBody(c, col, model, at, Room(dst, cap));
      && d == PackData(c, ColDataType(col), ColBody(col), ModelData(c, model), at + SizeFieldSize(c.mode) + COLLECTION_HDR_SIZE, Room(dst, cap))
      && (d.Ok? ==> |d.value.bytes| <= |ColBody(col)|)
  {
    hide PackData, Room, ColDataType, ColBody, ModelData, DataIsValid;
    PackedIsSmall(c, ColDataType(col), ColBody(col), ModelData(c, model), at + SizeFieldSize(c.mode) + COLLECTION_HDR_SIZE, dst, cap);
  }

  /** What the checks of a collection and its model establish. */
  ghost predicate Checked(c: CfgSix, col: seq<byte>, mopt: Option<seq<byte>>, mem: seq<byte>, off: nat)
  {
    && |col| >= COLLECTION_HDR_SIZE && |col| == ColSize(col) && c.round == 0
    && !ColDataType(col).Unknown? && !IsFastCadence(ColDataType(col)) && SampleSize(ColDataType(col)) > 0
    && |col| - COLLECTION_HDR_SIZE == BytesOf(NumSamples(ColDataLength(col), SampleSize(ColDataType(col))), SampleSize(ColDataType(col)))
    && (mopt.Some? ==> |mopt.value| == |col|)
    && DataIsValid(c, ColDataType(col), ColBody(col), ModelData(c, mopt))
    && ModelAt(c.mode.IsModel(), mem, off, COLLECTION_HDR_SIZE, |col| - COLLECTION_HDR_SIZE, ModelData(c, mopt))
  }

  lemma {:induction false} CheckedParts(c: CfgSix, col: seq<byte>, mopt: Option<seq<byte>>, mem: seq<byte>, off: nat)
    requires Checked(c, col, mopt, mem, off)
    ensures |col| >= COLLECTION_HDR_SIZE && |col| == ColSize(col) && c.round == 0
    ensures !ColDataType(col).Unknown? && !IsFastCadence(ColDataType(col)) && SampleSize(ColDataType(col)) > 0
    ensures |ColBody(col)| == BytesOf(NumSamples(ColDataLength(col), SampleSize(ColDataType(col))), SampleSize(ColDataType(col)))
    ensures |ColHeader(col)| == COLLECTION_HDR_SIZE == 12 && |col| == COLLECTION_HDR_SIZE + |ColBody(col)| && |ColBody(col)| < 0x1_0000
    ensures mopt.Some? ==> |mopt.value| == |col|
    ensures DataIsValid(c, ColDataType(col), ColBody(col), ModelData(c, mopt))
    ensures ModelAt(c.mode.IsModel(), mem, off, |ColHeader(col)|, |ColBody(col)|, ModelData(c, mopt))
  {
    hide DataIsValid, ModelAt, ColDataType, SampleSize, ModelData, BytesOf, NumSamples;
  }

  /** Stores the header and the data of a checked collection. */
  method StoreBody(c: CfgSix, col: seq<byte>, ghost mopt: Option<seq<byte>>, model: array?<byte>, up: array?<byte>, off: nat,
    dst: array?<byte>, cap: nat, dstSize: nat) returns (r: Outcome<nat>)
    requires Checked(c, col, mopt, MemOf(model), off) && (c.mode.IsModel() ==> model != null)
    requires model != null ==> off + |col| <= model.Length
    requires up != null ==> off + |col| <= up.Length == |MemOf(up)|
    requires dst != null ==> dstSize + SizeFieldSize(c.mode) + COLLECTION_HDR_SIZE <= cap <= dst.Length == |MemOf(dst)|
    requires dst != null ==> dst != model && dst != up
    requires 8 * dstSize + 64 * |col| + 256 < W32 && SizeFieldSize(c.mode) <= 2
    modifies dst, up
    ensures |col| >= COLLECTION_HDR_SIZE && (mopt.Some? ==> |mopt.value| == |col|)
    ensures DataIsValid(c, ColDataType(col), ColBody(col), ModelData(c, mopt))
    ensures Stored(c.mode.IsModel() && up != null, dst, old(MemOf(dst)), MemOf(dst), old(MemOf(up)), MemOf(up), off,
      dstSize + SizeFieldSize(c.mode), cap, ColHeader(col), |ColBody(col)|, r, PackedBody(c, col, mopt, dstSize, Room(dst, cap)))
  {
    ghost var mem := MemOf(model);
    hide *;
    CheckedParts(c, col, mopt, mem, off);
    var hdr, data, dt, n := ColHeader(col), ColBody(col), ColDataType(col), NumSamples(ColDataLength(col), SampleSize(ColDataType(col)));
    PackedBodyIs(c, col, mopt, dstSize, dst, cap);
    r := StorePacked(c, dt, hdr, data, n, ModelData(c, mopt), model, up, off, dst, cap, dstSize + SizeFieldSize(c.mode));
  }

  /** The part of cmp_collection behind the checks. */
  method StoreCollection(c: CfgSix, col: seq<byte>, ghost mopt: Option<seq<byte>>, model: array?<byte>, up: array?<byte>, off: nat,
    dst: array?<byte>, cap: nat, dstSize: nat, ghost p: Outcome<Packed>) returns (r: Outcome<nat>)
    requires Checked(c, col, mopt, MemOf(model), off) && (c.mode.IsModel() ==> model != null)
    requires model != null ==> off + |col| <= model.Length
    requires up != null ==> off + |col| <= up.Length == |MemOf(up)|
    requires dst != null ==> dstSize + SizeFieldSize(c.mode) + COLLECTION_HDR_SIZE <= cap <= dst.Length == |MemOf(dst)|
    requires dst != null ==> dst != model && dst != up
    requires 8 * dstSize + 64 * |col| + 256 < W32 && SizeFieldSize(c.mode) <= 2
    requires |col| >= COLLECTION_HDR_SIZE && (mopt.Some? ==> |mopt.value| == |col|)
    requires DataIsValid(c, ColDataType(col), ColBody(col), ModelData(c, mopt))
    requires IsPackedCol(c, ColHeader(col), PackedBody(c, col, mopt, dstSize, Room(dst, cap)), p)
    modifies dst, up
    ensures ColDone(c, dst, old(MemOf(dst)), MemOf(dst), up != null, old(MemOf(up)), MemOf(up), off, dstSize, cap, |col|, r, p)
  {
    ghost var mem := MemOf(model);
    hide *;
    ghost var m0, u0, d := MemOf(dst), MemOf(up), PackedBody(c, col, mopt, dstSize, Room(dst, cap));
    CheckedParts(c, col, mopt, mem, off);
    PackedBodyIs(c, col, mopt, dstSize, dst, cap);
    r := StoreBody(c, col, mopt, model, up, off, dst, cap, dstSize);
    r := FinishCollection(c, ColHeader(col), |ColBody(col)|, d, p, up, off, dst, cap, dstSize, r, m0, u0);
  }

  /** The size field is stored last, in front of the header. */
  method FinishCollection(c: CfgSix, ghost hdr: seq<byte>, ghost n: nat, ghost d: Outcome<Packed>, ghost p: Outcome<Packed>,
    up: array?<byte>, ghost off: nat, dst: array?<byte>, ghost cap: nat, dstSize: nat, packed: Outcome<nat>,
    ghost m0: seq<byte>, ghost u0: seq<byte>) returns (r: Outcome<nat>)
    requires |hdr| == COLLECTION_HDR_SIZE && (d.Ok? ==> |d.value.bytes| < 0x1_0000) && (dst != null ==> dstSize + |hdr| <= dst.Length && dst != up)
    requires IsPackedCol(c, hdr, d, p)
    requires Stored(c.mode.IsModel() && up != null, dst, m0, MemOf(dst), u0, MemOf(up), off, dstSize + SizeFieldSize(c.mode), cap,
      hdr, n, packed, d)
    modifies dst
    ensures ColDone(c, dst, m0, MemOf(dst), up != null, u0, MemOf(up), off, dstSize, cap, |hdr| + n, r, p)
  {
    assert CMP_COLLECTION_FILD_SIZE == 2;
    hide *;
    ghost var m2 := MemOf(dst);
    r := packed;
    if r.Err? {
      StoredErr(c, dst, m0, m2, up != null, u0, MemOf(up), off, dstSize, cap, hdr, n, r, d, p);
    } else {
      StoredSize(c.mode.IsModel() && up != null, dst, m0, m2, u0, MemOf(up), off, dstSize + SizeFieldSize(c.mode), cap, hdr, n, r, d);
      var cmpColSize := r.value - dstSize - SizeFieldSize(c.mode) - COLLECTION_HDR_SIZE;
      var s := StoreSize(c, dst, dstSize, cmpColSize);
      if s.Err? { r := s; }
      StoredOk(c, dst, m0, m2, MemOf(dst), up != null, u0, MemOf(up), off, dstSize, cap, hdr, n, r, d, p);
    }
  }

  lemma {:induction false} StoredSize(does: bool, dst: array?<byte>, m0: seq<byte>, m1: seq<byte>, u0: seq<byte>, u1: seq<byte>, off: nat,
    h: nat, cap: nat, hdr: seq<byte>, n: nat, r: Outcome<nat>, d: Outcome<Packed>)
    requires Stored(does, dst, m0, m1, u0, u1, off, h, cap, hdr, n, r, d) && r.Ok?
    ensures d.Ok? && r.value == h + |hdr| + |d.value.bytes|
  {
  }

  lemma {:induction false} StoredErr(c: CfgSix, dst: array?<byte>, m0: seq<byte>, m1: seq<byte>, hasUp: bool, u0: seq<byte>, u1: seq<byte>,
    off: nat, at: nat, cap: nat, hdr: seq<byte>, n: nat, r: Outcome<nat>, d: Outcome<Packed>, p: Outcome<Packed>)
    requires Stored(c.mode.IsModel() && hasUp, dst, m0, m1, u0, u1, off, at + SizeFieldSize(c.mode), cap, hdr, n, r, d) && r.Err?
    requires IsPackedCol(c, hdr, d, p)
    ensures ColDone(c, dst, m0, m1, hasUp, u0, u1, off, at, cap, |hdr| + n, r, p)
  {
    hide DstDone, ModelDone, WithHeader, SizeFieldSize;
    DstFailed(dst, m0, m1, at, SizeFieldSize(c.mode), hdr, cap, d, r.error);
    UpWithHeader(c.mode.IsModel() && hasUp, u0, u1, off, hdr, n, d, p);
  }

  lemma {:induction false} StoredOk(c: CfgSix, dst: array?<byte>, m0: seq<byte>, m2: seq<byte>, m3: seq<byte>, hasUp: bool,
    u0: seq<byte>, u1: seq<byte>, off: nat, at: nat, cap: nat, hdr: seq<byte>, n: nat, r: Outcome<nat>, d: Outcome<Packed>, p: Outcome<Packed>)
    requires Stored(c.mode.IsModel() && hasUp, dst, m0, m2, u0, u1, off, at + SizeFieldSize(c.mode), cap, hdr, n, r, d) && d.Ok?
    requires IsPackedCol(c, hdr, d, p)
    requires if dst == null then m3 == m2 else
      at + |SizeField(c, |d.value.bytes|)| <= |m2| && m3 == Splice(m2, at, SizeField(c, |d.value.bytes|))
    ensures ColDone(c, dst, m0, m3, hasUp, u0, u1, off, at, cap, |hdr| + n, r, p)
  {
    hide DstDone, ModelDone, WithHeader, SizeField, SizeFieldSize, Splice;
    DstAssembled(dst, m0, m2, m3, at, SizeField(c, |d.value.bytes|), hdr, cap, d.value, p.value.model);
    UpWithHeader(c.mode.IsModel() && hasUp, u0, u1, off, hdr, n, d, p);
  }

  lemma {:induction false} PackedIsSmall(c: CfgSix, dt: DataType, data: seq<byte>, mdl: Option<seq<byte>>, at: nat, dst: array?<byte>, cap: nat)
    requires DataIsValid(c, dt, data, mdl) && (dst != null ==> at <= cap)
    ensures PackData(c, dt, data, mdl, at, Room(dst, cap)).Ok? ==>
      |PackData(c, dt, data, mdl, at, Room(dst, cap)).value.bytes| <= |data|
  {
    hide *;
    RoomOf(dst, cap, at);
    if PackData(c, dt, data, mdl, at, Room(dst, cap)).Ok? { PackDataSize(c, dt, data, mdl, at, Room(dst, cap)); }
  }
}
