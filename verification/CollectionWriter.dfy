/** cmp_collection: the choice between the compressed and the raw form of a collection. */
module CollectionWriter {
  import opened Bits
  import opened Bytes
  import opened Words
  import opened Golomb
  import opened Params
  import opened Errors
  import opened BitWriter
  import opened ValueEncoder
  import opened Samples
  import opened UpModel
  import opened CompressLoop
  import opened DataTypes
  import opened Endian
  import opened Config
  import opened CollectionCode
  import opened CollectionCompressor

  //// What packing does to the buffers

  /** Only the destination between at and its capacity changed. */
  ghost predicate Kept(m0: seq<byte>, m1: seq<byte>, at: nat, cap: nat)
  {
    |m1| == |m0| && at <= cap <= |m0| && m1[..at] == m0[..at] && m1[cap..] == m0[cap..]
  }

  /** The destination holds the packed bytes. */
  ghost predicate DstDone(dst: array?<byte>, m0: seq<byte>, m1: seq<byte>, at: nat, cap: nat, p: Outcome<Packed>)
  {
    if dst == null then m1 == m0
    else
      && Kept(m0, m1, at, cap)
      && (p.Ok? ==> at + |p.value.bytes| <= cap && m1[at..at + |p.value.bytes|] == p.value.bytes)
  }

  /** The buffer for the updated model holds it; after an error it may hold a part. */
  ghost predicate ModelDone(does: bool, m0: seq<byte>, m1: seq<byte>, at: nat, n: nat, p: Outcome<Packed>)
  {
    if !does then m1 == m0
    else if p.Ok? then |p.value.model| == n && at + n <= |m0| && m1 == Splice(m0, at, p.value.model)
    else KeepsOutside(m0, m1, at, at + n)
  }

  /** The new size of the destination. */
  function NewSize(at: nat, p: Outcome<Packed>): Outcome<nat>
  {
    match p
    case Err(e) => Err(e)
    case Ok(p) => Ok(at + |p.bytes|)
  }

  /** The capacity, if there is a destination. */
  function Room(dst: array?<byte>, cap: nat): Option<nat>
  {
    if dst == null then None else Some(cap)
  }

  //// From bits to bytes

  lemma {:induction false} ByteEnd(at: nat, n: nat)
    ensures BitToByte(8 * at + n) == at + (n + 7) / 8
    ensures PadLen(n, 8) <= PadLen(8 * at + n, 32)
    ensures 8 * ((n + 7) / 8) == n + PadLen(n, 8)
  {
  }

  /** The padded bits at a byte offset are the packed bytes, and whole bytes before and
      behind them are untouched. */
  lemma {:induction false} PackedAt(m0: seq<byte>, at: nat, bits: seq<bool>, cap: nat)
    requires 8 * at + |bits| + PadLen(8 * at + |bits|, 32) <= 8 * cap <= 8 * |m0|
    ensures var m1 := PutBits(m0, 8 * at, bits + Zeros(PadLen(8 * at + |bits|, 32)));
      && Kept(m0, m1, at, cap) && at + |PackBits(bits)| <= cap && m1[at..at + |PackBits(bits)|] == PackBits(bits)
  {
    hide *;
    var all := bits + Zeros(PadLen(8 * at + |bits|, 32));
    var m1 := PutBits(m0, 8 * at, all);
    ByteEnd(at, |bits|);
    PutKeeps(m0, at, all, cap);
    ZerosPrefix(bits, PadLen(|bits|, 8), PadLen(8 * at + |bits|, 32));
    PrefixBits(m0, 8 * at, all, bits + Zeros(PadLen(|bits|, 8)));
    BytesAre(m1, at, PackBits(bits));
  }

  lemma {:induction false} ZerosPrefix(bits: seq<bool>, k: nat, n: nat)
    requires k <= n
    ensures (bits + Zeros(n))[..|bits + Zeros(k)|] == bits + Zeros(k)
  {
  }

  lemma {:induction false} PutKeeps(m0: seq<byte>, at: nat, all: seq<bool>, cap: nat)
    requires 8 * at + |all| <= 8 * cap <= 8 * |m0|
    ensures Kept(m0, PutBits(m0, 8 * at, all), at, cap)
  {
    hide PutBits;
    var m1 := PutBits(m0, 8 * at, all);
    PutBitsFrame(m0, 8 * at, all, 0, at);
    PutBitsFrame(m0, 8 * at, all, cap, |m0|);
    assert m1[0..at] == m1[..at] && m0[0..at] == m0[..at];
    assert m1[cap..|m0|] == m1[cap..] && m0[cap..|m0|] == m0[cap..];
  }

  /** Memory with the bits of s at a byte offset has the bytes of s there. */
  lemma {:induction false} BytesAre(m: seq<byte>, at: nat, s: seq<byte>)
    requires at + |s| <= |m| && BytesBits(m)[8 * at..8 * at + |BytesBits(s)|] == BytesBits(s)
    ensures m[at..at + |s|] == s
  {
    hide BytesBits;
    BytesBitsSlice(m, at, at + |s|);
    FromBytesBits(m[at..at + |s|]);
    FromBytesBits(s);
  }

  lemma {:induction false} PrefixBits(m0: seq<byte>, off: nat, all: seq<bool>, part: seq<bool>)
    requires off + |all| <= 8 * |m0| && |part| <= |all| && all[..|part|] == part
    ensures BytesBits(PutBits(m0, off, all))[off..off + |part|] == part
  {
    var b := BytesBits(PutBits(m0, off, all));
    assert b[off..off + |all|] == all;
    assert b[off..off + |part|] == b[off..off + |all|][..|part|];
  }

  lemma {:induction false} SameOutsideKept(m0: seq<byte>, m1: seq<byte>, at: nat, max: nat, cap: nat)
    requires SameOutside(m0, m1, 8 * at, max) && max <= 8 * cap <= 8 * |m0| && at <= cap
    ensures Kept(m0, m1, at, cap)
  {
  }

  //// The data

  /** The result of the bitstream writer, as bytes. */
  lemma {:induction false} CodedBytes(dst: array?<byte>, m0: seq<byte>, m1: seq<byte>, limit: nat, cap: nat, at: nat,
    bits: seq<bool>, model: seq<byte>, r: Outcome<nat>)
    requires CodedWritten(dst, m0, m1, StreamSizeToBits(limit), 8 * at, bits, r)
    requires dst != null ==> at <= cap <= |m0| && limit <= cap
    ensures dst == null || 8 * at + |bits| <= StreamSizeToBits(limit) ==>
      r == Ok(8 * at + |bits|) && Ok(BitToByte(r.value)) == NewSize(at, Ok(Packed(PackBits(bits), model)))
    ensures 8 * at + |bits| <= StreamSizeToBits(limit) ==> DstDone(dst, m0, m1, at, cap, Ok(Packed(PackBits(bits), model)))
    ensures 8 * at + |bits| > StreamSizeToBits(limit) ==> DstDone(dst, m0, m1, at, cap, Err(SmallBuffer))
    ensures dst != null && 8 * at + |bits| > StreamSizeToBits(limit) ==> r == Err(SmallBuffer)
  {
    ByteEnd(at, |bits|);
    hide PutBits, PackBits, PadLen, Kept, StreamSizeToBits;
    if dst != null {
      if 8 * at + |bits| <= StreamSizeToBits(limit) {
        PackedAt(m0, at, bits, cap);
      } else {
        SameOutsideKept(m0, m1, at, StreamSizeToBits(limit), cap);
      }
    }
  }

  /** The result of the raw copy, as bytes. */
  lemma {:induction false} RawBytes(dst: array?<byte>, m0: seq<byte>, m1: seq<byte>, dt: DataType, data: seq<byte>,
    size: nat, cap: nat, at: nat, model: seq<byte>, r: Outcome<nat>)
    requires RawWritten(dst, m0, m1, dt, data, size, at, r) && SwapData(dt, data).Some?
    requires dst != null ==> at <= cap <= |m0| && size <= cap
    ensures dst == null || at + |data| <= size ==>
      r.Ok? && Ok(BitToByte(r.value)) == NewSize(at, Ok(Packed(SwapData(dt, data).value, model)))
      && DstDone(dst, m0, m1, at, cap, Ok(Packed(SwapData(dt, data).value, model)))
    ensures dst != null && at + |data| > size ==> r == Err(SmallBuffer) && DstDone(dst, m0, m1, at, cap, Err(SmallBuffer))
  {
    hide SwapData;
    ByteEnd(at, 8 * |data|);
    assert 8 * at + 8 * |data| == 8 * (at + |data|);
  }

  /** Replacing the whole region after a part of it was changed. */
  lemma {:induction false} SpliceOver(m0: seq<byte>, m1: seq<byte>, at: nat, s: seq<byte>)
    requires KeepsOutside(m0, m1, at, at + |s|)
    ensures Splice(m1, at, s) == Splice(m0, at, s)
  {
  }

  /** A bitstream attempt below a limit: it fits, with all its effects, or it does not, and
      then only the regions of the collection may have changed. */
  ghost predicate Tried(c: CfgSix, dt: DataType, data: seq<byte>, mdl: Option<seq<byte>>, does: bool, mat: nat,
    dst: array?<byte>, m0: seq<byte>, m1: seq<byte>, u0: seq<byte>, u1: seq<byte>, at: nat, cap: nat, limit: nat, r: Outcome<nat>)
    requires DataIsValid(c, dt, data, mdl) && !c.mode.IsRaw()
  {
    var bits := DataBits(c, dt, data, mdl);
    if 8 * at + |bits| <= StreamSizeToBits(limit) then
      PackedInto(does, mat, dst, m0, m1, u0, u1, at, cap, |data|, r, Ok(Packed(PackBits(bits), DataModel(c, dt, data, mdl))))
      && r.value <= StreamSizeToBits(limit)
    else
      && DstDone(dst, m0, m1, at, cap, Err(SmallBuffer)) && ModelDone(does, u0, u1, mat, |data|, Err(SmallBuffer))
      && (if dst == null then r.Ok? && r.value > StreamSizeToBits(limit) else r == Err(SmallBuffer))
  }

  /** The buffers and the bit length r are what a packing says. */
  ghost predicate PackedInto(does: bool, mat: nat, dst: array?<byte>, m0: seq<byte>, m1: seq<byte>, u0: seq<byte>, u1: seq<byte>,
    at: nat, cap: nat, len: nat, r: Outcome<nat>, p: Outcome<Packed>)
  {
    && DstDone(dst, m0, m1, at, cap, p) && ModelDone(does, u0, u1, mat, len, p)
    && (if p.Ok? then r.Ok? && Ok(BitToByte(r.value)) == NewSize(at, p) else r == Err(p.error))
  }

  lemma {:induction false} UpdatedIsDone(c: CfgSix, dt: DataType, data: seq<byte>, mdl: Option<seq<byte>>, hasUp: bool, mat: nat,
    u0: seq<byte>, u1: seq<byte>, ok: bool, bytes: seq<byte>, e: CmpError)
    requires DataIsValid(c, dt, data, mdl) && !c.mode.IsRaw()
    requires ValidFields(FieldsOf(dt, c)) && RecSize(FieldsOf(dt, c)) > 0 && (mdl.Some? ==> c.modelValue <= MAX_MODEL_VALUE)
    requires ModelUpdated(FieldsOf(dt, c), data, mdl, hasUp, c.modelValue, mat, u0, u1, ok)
    ensures ok ==> ModelDone(mdl.Some? && hasUp, u0, u1, mat, |data|, Ok(Packed(bytes, DataModel(c, dt, data, mdl))))
    ensures ModelDone(mdl.Some? && hasUp, u0, u1, mat, |data|, Err(e))
  {
    hide FieldsOf, UpFrom, RecSize, ValidFields, CfgIsValid, SampleSize;
  }

  /** The attempt of compress_data_internal. */
  lemma {:induction false} InternalTried(c: CfgSix, dt: DataType, data: seq<byte>, mdl: Option<seq<byte>>, hasUp: bool, mat: nat,
    dst: array?<byte>, m0: seq<byte>, m1: seq<byte>, u0: seq<byte>, u1: seq<byte>, at: nat, cap: nat, limit: nat, r: Outcome<nat>)
    requires DataIsValid(c, dt, data, mdl) && !c.mode.IsRaw() && !IsFastCadence(dt) && data != []
    requires InternalDone(c, dt, data, mdl, hasUp, mat, dst, m0, m1, u0, u1, limit, 8 * at, r)
    requires dst != null ==> at <= cap <= |m0| && limit <= cap
    ensures Tried(c, dt, data, mdl, mdl.Some? && hasUp, mat, dst, m0, m1, u0, u1, at, cap, limit, r)
  {
    hide *;
    EightfoldStart(at);
    InternalParts(c, dt, data, mdl, hasUp, mat, dst, m0, m1, u0, u1, limit, 8 * at, r);
    WrittenTried(c, dt, data, mdl, hasUp, mat, dst, m0, m1, u0, u1, at, cap, limit, r);
  }

  lemma {:induction false} EightfoldStart(at: nat)
    ensures (8 * at) % 8 == 0 && (8 * at) / 8 == at
  {
  }

  lemma {:induction false} WrittenTried(c: CfgSix, dt: DataType, data: seq<byte>, mdl: Option<seq<byte>>, hasUp: bool, mat: nat,
    dst: array?<byte>, m0: seq<byte>, m1: seq<byte>, u0: seq<byte>, u1: seq<byte>, at: nat, cap: nat, limit: nat, r: Outcome<nat>)
    requires DataIsValid(c, dt, data, mdl) && !c.mode.IsRaw() && (dst != null ==> at <= cap <= |m0| && limit <= cap)
    requires ValidFields(FieldsOf(dt, c)) && RecSize(FieldsOf(dt, c)) > 0 && (mdl.Some? ==> |mdl.value| == |data| && c.modelValue <= MAX_MODEL_VALUE)
    requires CodedWritten(dst, m0, m1, StreamSizeToBits(limit), 8 * at, DataBits(c, dt, data, mdl), r)
    requires ModelUpdated(FieldsOf(dt, c), data, mdl, hasUp, c.modelValue, mat, u0, u1, r.Ok?)
    ensures Tried(c, dt, data, mdl, mdl.Some? && hasUp, mat, dst, m0, m1, u0, u1, at, cap, limit, r)
  {
    hide *;
    var bits, model := DataBits(c, dt, data, mdl), DataModel(c, dt, data, mdl);
    CodedBytes(dst, m0, m1, limit, cap, at, bits, model, r);
    UpdatedIsDone(c, dt, data, mdl, hasUp, mat, u0, u1, r.Ok?, PackBits(bits), SmallBuffer);
    TriedOf(c, dt, data, mdl, mdl.Some? && hasUp, mat, dst, m0, m1, u0, u1, at, cap, limit, r);
  }

  lemma {:induction false} InternalParts(c: CfgSix, dt: DataType, data: seq<byte>, mdl: Option<seq<byte>>, hasUp: bool, mat: nat,
    dst: array?<byte>, m0: seq<byte>, m1: seq<byte>, u0: seq<byte>, u1: seq<byte>, limit: nat, start: nat, r: Outcome<nat>)
    requires DataIsValid(c, dt, data, mdl) && !c.mode.IsRaw() && !IsFastCadence(dt) && data != [] && start % 8 == 0
    requires InternalDone(c, dt, data, mdl, hasUp, mat, dst, m0, m1, u0, u1, limit, start, r)
    ensures ValidFields(FieldsOf(dt, c)) && RecSize(FieldsOf(dt, c)) > 0
    ensures mdl.Some? ==> |mdl.value| == |data| && c.modelValue <= MAX_MODEL_VALUE
    ensures CodedWritten(dst, m0, m1, StreamSizeToBits(limit), start, DataBits(c, dt, data, mdl), r)
    ensures ModelUpdated(FieldsOf(dt, c), data, mdl, hasUp, c.modelValue, mat, u0, u1, r.Ok?)
  {
    hide FieldsOf, UpFrom, EncFrom, RecSize, ValidFields, SampleSize, CodedWritten, ModelUpdated, SpecificParsAreValid;
  }

  lemma {:induction false} TriedOf(c: CfgSix, dt: DataType, data: seq<byte>, mdl: Option<seq<byte>>, does: bool, mat: nat,
    dst: array?<byte>, m0: seq<byte>, m1: seq<byte>, u0: seq<byte>, u1: seq<byte>, at: nat, cap: nat, limit: nat, r: Outcome<nat>)
    requires DataIsValid(c, dt, data, mdl) && !c.mode.IsRaw()
    requires var n := 8 * at + |DataBits(c, dt, data, mdl)|;
      var p := Packed(PackBits(DataBits(c, dt, data, mdl)), DataModel(c, dt, data, mdl));
      if dst == null || n <= StreamSizeToBits(limit) then r == Ok(n) && Ok(BitToByte(r.value)) == NewSize(at, Ok(p))
      else r == Err(SmallBuffer)
    requires var p := Packed(PackBits(DataBits(c, dt, data, mdl)), DataModel(c, dt, data, mdl));
      if 8 * at + |DataBits(c, dt, data, mdl)| <= StreamSizeToBits(limit) then
        DstDone(dst, m0, m1, at, cap, Ok(p)) && ModelDone(does, u0, u1, mat, |data|, Ok(p))
      else
        DstDone(dst, m0, m1, at, cap, Err(SmallBuffer)) && ModelDone(does, u0, u1, mat, |data|, Err(SmallBuffer))
    ensures Tried(c, dt, data, mdl, does, mat, dst, m0, m1, u0, u1, at, cap, limit, r)
  {
    hide DstDone, ModelDone, DataBits, DataModel, PackBits, StreamSizeToBits, DataIsValid, BitToByte, NewSize;
  }

  //// The choice

  /** What the specification says, by the branches of cmp_collection. */
  lemma {:induction false} PackDataBranches(c: CfgSix, dt: DataType, data: seq<byte>, mdl: Option<seq<byte>>, at: nat,
    dst: array?<byte>, cap: nat)
    requires DataIsValid(c, dt, data, mdl)
    ensures SwapData(dt, data).Some?
    ensures data == [] ==> PackData(c, dt, data, mdl, at, Room(dst, cap)) == Ok(Packed([], []))
    ensures data != [] && c.mode.IsRaw() ==>
      PackData(c, dt, data, mdl, at, Room(dst, cap))
        == if dst == null || at + |data| <= cap then Ok(Packed(SwapData(dt, data).value, [])) else Err(SmallBuffer)
    ensures data != [] && !c.mode.IsRaw() ==>
      var limit := if dst == null || at + |data| <= cap then at + |data| - 1 else cap;
      var bits := DataBits(c, dt, data, mdl);
      PackData(c, dt, data, mdl, at, Room(dst, cap))
        == if 8 * at + |bits| <= StreamSizeToBits(limit) then Ok(Packed(PackBits(bits), DataModel(c, dt, data, mdl)))
           else if dst == null || at + |data| <= cap then Ok(Packed(SwapData(dt, data).value, if c.mode.IsModel() then data else []))
           else Err(SmallBuffer)
  {
    hide DataBits, DataModel, PackBits, SwapRecords, CfgIsValid, SampleSize, StreamSizeToBits;
  }

  lemma {:induction false} EmptyInternal(c: CfgSix, dt: DataType, mdl: Option<seq<byte>>, hasUp: bool, mat: nat,
    dst: array?<byte>, m0: seq<byte>, m1: seq<byte>, u0: seq<byte>, u1: seq<byte>, size: nat, at: nat, r: Outcome<nat>)
    requires InternalDone(c, dt, [], mdl, hasUp, mat, dst, m0, m1, u0, u1, size, 8 * at, r)
    ensures r == Ok(8 * at) && m1 == m0 && u1 == u0
  {
  }

  /** Nothing to store. */
  lemma {:induction false} EmptyPacked(does: bool, mat: nat, dst: array?<byte>, m: seq<byte>, u: seq<byte>, at: nat, cap: nat)
    requires (dst != null ==> at <= cap <= |m|) && (does ==> mat <= |u|)
    ensures PackedInto(does, mat, dst, m, m, u, u, at, cap, 0, Ok(8 * at), Ok(Packed([], [])))
  {
    ByteEnd(at, 0);
    hide Splice;
    if does { SpliceNothing(u, mat); }
    if dst != null { assert m[at..at + 0] == []; }
  }

  lemma {:induction false} RawInternal(c: CfgSix, dt: DataType, data: seq<byte>, mdl: Option<seq<byte>>, hasUp: bool, mat: nat,
    dst: array?<byte>, m0: seq<byte>, m1: seq<byte>, u0: seq<byte>, u1: seq<byte>, size: nat, at: nat, r: Outcome<nat>)
    requires data != [] && c.mode.IsRaw()
    requires InternalDone(c, dt, data, mdl, hasUp, mat, dst, m0, m1, u0, u1, size, 8 * at, r)
    ensures RawWritten(dst, m0, m1, dt, data, size, at, r) && u1 == u0
  {
    hide RawWritten;
  }

  /** Raw data after a failed attempt. */
  lemma {:induction false} FallBackDone(dt: DataType, data: seq<byte>, does: bool, mat: nat, dst: array?<byte>,
    m0: seq<byte>, m1: seq<byte>, m2: seq<byte>, u0: seq<byte>, u1: seq<byte>, u2: seq<byte>, at: nat, cap: nat, r: Outcome<nat>,
    model: seq<byte>)
    requires SwapData(dt, data).Some? && (dst != null ==> at + |data| <= cap <= |m1| && |m1| == |m0|)
    requires DstDone(dst, m0, m1, at, cap, Err(SmallBuffer)) && ModelDone(does, u0, u1, mat, |data|, Err(SmallBuffer))
    requires RawWritten(dst, m1, m2, dt, data, at + |data|, at, r)
    requires does ==> model == data && mat + |data| <= |u1| && u2 == Splice(u1, mat, data)
    requires !does ==> u2 == u1
    ensures PackedInto(does, mat, dst, m0, m2, u0, u2, at, cap, |data|, r, Ok(Packed(SwapData(dt, data).value, model)))
  {
    RawBytes(dst, m1, m2, dt, data, at + |data|, cap, at, model, r);
    hide SwapData, RawWritten, Splice, BitToByte;
    if does { SpliceOver(u0, u1, mat, data); }
  }

  lemma {:induction false} RawDirect(dt: DataType, data: seq<byte>, does: bool, mat: nat, dst: array?<byte>,
    m0: seq<byte>, m1: seq<byte>, u: seq<byte>, at: nat, cap: nat, r: Outcome<nat>)
    requires SwapData(dt, data).Some? && (dst != null ==> at <= cap <= |m0|) && !does
    requires RawWritten(dst, m0, m1, dt, data, cap, at, r)
    ensures PackedInto(does, mat, dst, m0, m1, u, u, at, cap, |data|, r,
      if dst == null || at + |data| <= cap then Ok(Packed(SwapData(dt, data).value, [])) else Err(SmallBuffer))
  {
    RawBytes(dst, m0, m1, dt, data, cap, cap, at, [], r);
    hide SwapData, RawWritten, BitToByte;
  }

  lemma {:induction false} RawConfig(c: CfgSix, dt: DataType)
    requires CfgIsValid(c, dt) && !dt.Unknown?
    ensures CfgIsValid(c.(mode := Raw), dt) && !Raw.IsModel() && Raw.IsRaw()
  {
    LayoutValid(dt);
    hide Layout;
  }

  lemma {:induction false} DataParts(c: CfgSix, dt: DataType, data: seq<byte>, mdl: Option<seq<byte>>)
    requires DataIsValid(c, dt, data, mdl)
    ensures !dt.Unknown? && CfgIsValid(c, dt) && mdl.Some? == c.mode.IsModel() && (mdl.Some? ==> |mdl.value| == |data|)
    ensures c.mode.IsRaw() ==> !c.mode.IsModel()
  {
  }

  /** The first try: a bitstream that is at least one byte smaller than the data. */
  method TryCoded(c: CfgSix, dt: DataType, data: seq<byte>, samples: nat, ghost mdl: Option<seq<byte>>,
    model: array?<byte>, up: array?<byte>, mat: nat, dst: array?<byte>, ghost cap: nat, limit: nat, at: nat)
    returns (r: Outcome<nat>)
    requires DataIsValid(c, dt, data, mdl) && !c.mode.IsRaw() && !IsFastCadence(dt) && |data| == BytesOf(samples, SampleSize(dt))
    requires c.mode.IsModel() ==> model != null && mat + |data| <= model.Length
    requires mdl == ModelOf(c.mode.IsModel(), model, mat, |data|)
    requires c.mode.IsModel() && up != null ==> mat + |data| <= up.Length
    requires dst != null ==> at <= cap <= |MemOf(dst)| == dst.Length && limit <= cap && dst != model && dst != up
    requires 8 * at + 64 * |data| + 32 < W32
    modifies dst, up
    ensures data != [] ==> Tried(c, dt, data, mdl, c.mode.IsModel() && up != null, mat,
      dst, old(MemOf(dst)), MemOf(dst), old(MemOf(up)), MemOf(up), at, cap, limit, r)
    ensures data == [] ==> r == Ok(8 * at) && MemOf(dst) == old(MemOf(dst)) && MemOf(up) == old(MemOf(up))
  {
    hide *;
    ghost var m0, u0 := MemOf(dst), MemOf(up);
    DataParts(c, dt, data, mdl);
    r := CompressDataInternal(c, dt, data, samples, model, up, mat, dst, limit, 8 * at);
    if data == [] {
      EmptyInternal(c, dt, mdl, up != null, mat, dst, m0, MemOf(dst), u0, MemOf(up), limit, at, r);
    } else {
      InternalTried(c, dt, data, mdl, up != null, mat, dst, m0, MemOf(dst), u0, MemOf(up), at, cap, limit, r);
    }
  }

  /** The fallback: the data as it is, which also becomes the updated model. */
  method FallBack(c: CfgSix, dt: DataType, data: seq<byte>, samples: nat, up: array?<byte>, mat: nat,
    dst: array?<byte>, ghost cap: nat, at: nat, ghost m0: seq<byte>, ghost u0: seq<byte>) returns (r: Outcome<nat>)
    requires !dt.Unknown? && CfgIsValid(c, dt) && data != [] && |data| == BytesOf(samples, SampleSize(dt)) && SwapData(dt, data).Some?
    requires c.mode.IsModel() && up != null ==> mat + |data| <= up.Length == |MemOf(up)| && MemOf(up) == up[..]
    requires dst != null ==> at + |data| <= cap <= |MemOf(dst)| == dst.Length == |m0| && dst != up
    requires DstDone(dst, m0, MemOf(dst), at, cap, Err(SmallBuffer))
    requires ModelDone(c.mode.IsModel() && up != null, u0, MemOf(up), mat, |data|, Err(SmallBuffer))
    requires 8 * at + 64 * |data| + 32 < W32
    modifies dst, up
    ensures PackedInto(c.mode.IsModel() && up != null, mat, dst, m0, MemOf(dst), u0, MemOf(up), at, cap, |data|, r,
      Ok(Packed(SwapData(dt, data).value, if c.mode.IsModel() then data else [])))
  {
    hide *;
    ghost var m1, u1 := MemOf(dst), MemOf(up);
    RawConfig(c, dt);
    ghost var none := ModelOf(false, null, mat, |data|);
    r := CompressDataInternal(c.(mode := Raw), dt, data, samples, null, up, mat, dst, at + |data|, 8 * at);
    RawInternal(c.(mode := Raw), dt, data, none, up != null, mat, dst, m1, MemOf(dst), u1, MemOf(up), at + |data|, at, r);
    if c.mode.IsModel() && up != null {
      assert MemOf(up) == up[..] by { MemOfIs(up); }
      CopyBytes(up, mat, data);
      MemOfIs(up);
    }
    FallBackDone(dt, data, c.mode.IsModel() && up != null, mat, dst, m0, m1, MemOf(dst), u0, u1, MemOf(up), at, cap, r,
      if c.mode.IsModel() then data else []);
  }

  /** Outside raw mode with room for the raw data: the first try, and the fallback if it failed. */
  method StoreOrFallBack(c: CfgSix, dt: DataType, data: seq<byte>, samples: nat, ghost mdl: Option<seq<byte>>,
    model: array?<byte>, up: array?<byte>, mat: nat, dst: array?<byte>, ghost cap: nat, at: nat) returns (bits: Outcome<nat>)
    requires DataIsValid(c, dt, data, mdl) && !c.mode.IsRaw() && !IsFastCadence(dt) && |data| == BytesOf(samples, SampleSize(dt))
    requires c.mode.IsModel() ==> model != null && mat + |data| <= model.Length
    requires mdl == ModelOf(c.mode.IsModel(), model, mat, |data|)
    requires c.mode.IsModel() && up != null ==> mat + |data| <= up.Length == |MemOf(up)|
    requires dst != null ==> at + |data| <= cap <= |MemOf(dst)| == dst.Length && dst != model && dst != up
    requires at > 0 && 8 * at + 64 * |data| + 32 < W32
    modifies dst, up
    ensures PackedInto(c.mode.IsModel() && up != null, mat, dst, old(MemOf(dst)), MemOf(dst), old(MemOf(up)), MemOf(up),
      at, cap, |data|, bits, PackData(c, dt, data, mdl, at, Room(dst, cap)))
  {
    hide *;
    ghost var m0, u0, does := MemOf(dst), MemOf(up), c.mode.IsModel() && up != null;
    DataParts(c, dt, data, mdl);
    PackDataBranches(c, dt, data, mdl, at, dst, cap);
    var limit := at + |data| - 1;
    bits := TryCoded(c, dt, data, samples, mdl, model, up, mat, dst, cap, limit, at);
    if data != [] { TriedParts(c, dt, data, mdl, does, mat, dst, m0, MemOf(dst), u0, MemOf(up), at, cap, limit, bits); }
    if bits == Err(SmallBuffer) || (dst == null && (bits.Err? || bits.value > StreamSizeToBits(limit))) {
      if data == [] {
        bits := FallBackEmpty(c, dt, samples, up, mat, dst, at);
      } else {
        MemSizes(dst, up);
        bits := FallBack(c, dt, data, samples, up, mat, dst, cap, at, m0, u0);
      }
    }
    if data == [] { EmptyPacked(does, mat, dst, m0, u0, at, cap); }
  }

  lemma {:induction false} MemSizes(dst: array?<byte>, up: array?<byte>)
    ensures dst != null ==> |MemOf(dst)| == dst.Length
    ensures up != null ==> |MemOf(up)| == up.Length && MemOf(up) == up[..]
  {
  }

  lemma {:induction false} TriedParts(c: CfgSix, dt: DataType, data: seq<byte>, mdl: Option<seq<byte>>, does: bool, mat: nat,
    dst: array?<byte>, m0: seq<byte>, m1: seq<byte>, u0: seq<byte>, u1: seq<byte>, at: nat, cap: nat, limit: nat, r: Outcome<nat>)
    requires DataIsValid(c, dt, data, mdl) && !c.mode.IsRaw()
    requires Tried(c, dt, data, mdl, does, mat, dst, m0, m1, u0, u1, at, cap, limit, r)
    ensures var bits := DataBits(c, dt, data, mdl);
      if 8 * at + |bits| <= StreamSizeToBits(limit) then
        r.Ok? && r.value <= StreamSizeToBits(limit)
        && PackedInto(does, mat, dst, m0, m1, u0, u1, at, cap, |data|, r, Ok(Packed(PackBits(bits), DataModel(c, dt, data, mdl))))
      else
        && DstDone(dst, m0, m1, at, cap, Err(SmallBuffer)) && ModelDone(does, u0, u1, mat, |data|, Err(SmallBuffer))
        && (if dst == null then r.Ok? && r.value > StreamSizeToBits(limit) else r == Err(SmallBuffer))
  {
    hide DstDone, ModelDone, DataBits, DataModel, PackBits, StreamSizeToBits, DataIsValid, BitToByte, NewSize;
  }

  /** The fallback of an empty collection stores nothing. */
  method FallBackEmpty(c: CfgSix, dt: DataType, samples: nat, up: array?<byte>, mat: nat, dst: array?<byte>, at: nat)
    returns (r: Outcome<nat>)
    requires !dt.Unknown? && CfgIsValid(c, dt) && 0 == BytesOf(samples, SampleSize(dt)) && at > 0 && 8 * at + 32 < W32
    requires c.mode.IsModel() && up != null ==> mat <= up.Length
    requires dst != null ==> at <= dst.Length && dst != up
    modifies dst, up
    ensures r == Ok(8 * at) && MemOf(dst) == old(MemOf(dst)) && MemOf(up) == old(MemOf(up))
  {
    hide *;
    ghost var m0, u0 := MemOf(dst), MemOf(up);
    RawConfig(c, dt);
    ghost var none := ModelOf(false, null, mat, 0);
    r := CompressDataInternal(c.(mode := Raw), dt, [], samples, null, up, mat, dst, at, 8 * at);
    EmptyInternal(c.(mode := Raw), dt, none, up != null, mat, dst, m0, MemOf(dst), u0, MemOf(up), at, at, r);
    if c.mode.IsModel() && up != null {
      SpliceNothing(up[..], mat);
      MemOfIs(up);
      CopyBytes(up, mat, []);
      MemOfIs(up);
    }
  }

  /** All other cases: the capacity of the destination is the limit. */
  method StoreDirect(c: CfgSix, dt: DataType, data: seq<byte>, samples: nat, ghost mdl: Option<seq<byte>>,
    model: array?<byte>, up: array?<byte>, mat: nat, dst: array?<byte>, cap: nat, at: nat) returns (bits: Outcome<nat>)
    requires DataIsValid(c, dt, data, mdl) && !IsFastCadence(dt) && |data| == BytesOf(samples, SampleSize(dt))
    requires !c.mode.IsRaw() ==> dst != null && at + |data| > cap
    requires c.mode.IsModel() ==> model != null && mat + |data| <= model.Length
    requires mdl == ModelOf(c.mode.IsModel(), model, mat, |data|)
    requires c.mode.IsModel() && up != null ==> mat + |data| <= up.Length == |MemOf(up)|
    requires dst != null ==> at <= cap <= |MemOf(dst)| == dst.Length && dst != model && dst != up
    requires 8 * at + 64 * |data| + 32 < W32
    modifies dst, up
    ensures PackedInto(c.mode.IsModel() && up != null, mat, dst, old(MemOf(dst)), MemOf(dst), old(MemOf(up)), MemOf(up),
      at, cap, |data|, bits, PackData(c, dt, data, mdl, at, Room(dst, cap)))
  {
    hide *;
    ghost var m0, u0, does := MemOf(dst), MemOf(up), c.mode.IsModel() && up != null;
    DataParts(c, dt, data, mdl);
    PackDataBranches(c, dt, data, mdl, at, dst, cap);
    if c.mode.IsRaw() {
      bits := CompressDataInternal(c, dt, data, samples, model, up, mat, dst, cap, 8 * at);
      if data == [] {
        EmptyInternal(c, dt, mdl, up != null, mat, dst, m0, MemOf(dst), u0, MemOf(up), cap, at, bits);
        EmptyPacked(does, mat, dst, m0, u0, at, cap);
      } else {
        RawInternal(c, dt, data, mdl, up != null, mat, dst, m0, MemOf(dst), u0, MemOf(up), cap, at, bits);
        RawDirect(dt, data, does, mat, dst, m0, MemOf(dst), u0, at, cap, bits);
      }
    } else {
      bits := TryCoded(c, dt, data, samples, mdl, model, up, mat, dst, cap, cap, at);
      if data != [] {
        TriedParts(c, dt, data, mdl, does, mat, dst, m0, MemOf(dst), u0, MemOf(up), at, cap, cap, bits);
        if bits.Err? { FailedInto(does, mat, dst, m0, MemOf(dst), u0, MemOf(up), at, cap, |data|); }
      }
    }
  }

  lemma {:induction false} FailedInto(does: bool, mat: nat, dst: array?<byte>, m0: seq<byte>, m1: seq<byte>, u0: seq<byte>,
    u1: seq<byte>, at: nat, cap: nat, len: nat)
    requires DstDone(dst, m0, m1, at, cap, Err(SmallBuffer)) && ModelDone(does, u0, u1, mat, len, Err(SmallBuffer))
    ensures PackedInto(does, mat, dst, m0, m1, u0, u1, at, cap, len, Err(SmallBuffer), Err(SmallBuffer))
  {
  }
}
