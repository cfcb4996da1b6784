/** compress_chunk: one collection after the other, then the entity header. */
module ChunkCompressor {
  import opened Bits
  import opened Bytes
  import opened Words
  import opened Golomb
  import opened Params
  import opened Errors
  import opened ValueEncoder
  import opened Samples
  import opened UpModel
  import opened CompressLoop
  import opened DataTypes
  import opened Config
  import opened CollectionCode
  import opened CollectionWriter
  import opened CollectionPacker
  import opened ChunkCode
  import opened ChunkBounds
  import opened Entity
  import opened Acceptance

  //// How far the loop has come

  /** The collections before offset pos of the chunk are packed as done. */
  ghost predicate PackedTo(c: CfgSix, ct: ChunkType, chunk: seq<byte>, model: Option<seq<byte>>, at: nat, room: Option<nat>,
    pos: nat, done: Packed)
  {
    && !ct.UnknownChunk? && c.round == 0 && (model.Some? ==> |model.value| == |chunk|) && pos <= |chunk|
    && |done.bytes| <= 2 * pos && HasRoom(room, at + |done.bytes|) && (c.mode.IsModel() ==> |done.model| == pos)
    && PackCols(c, ct, chunk, model, at, room)
         == Then(done, PackCols(c, ct, chunk[pos..], ModelBack(model, pos), at + |done.bytes|, room))
  }

  lemma {:induction false} PackedStart(c: CfgSix, ct: ChunkType, chunk: seq<byte>, model: Option<seq<byte>>, at: nat, room: Option<nat>)
    requires !ct.UnknownChunk? && c.round == 0 && (model.Some? ==> |model.value| == |chunk|) && HasRoom(room, at)
    ensures PackedTo(c, ct, chunk, model, at, room, 0, Packed([], []))
  {
    hide PackCols;
    assert chunk[0..] == chunk;
    if model.Some? { assert model.value[0..] == model.value; }
    var r := PackCols(c, ct, chunk, model, at, room);
    if r.Ok? { assert [] + r.value.bytes == r.value.bytes && [] + r.value.model == r.value.model; }
  }

  lemma {:induction false} ThenThen(p: Packed, q: Packed, r: Outcome<Packed>)
    ensures Then(p, Then(q, r)) == Then(Packed(p.bytes + q.bytes, p.model + q.model), r)
  {
    if r.Ok? {
      assert p.bytes + (q.bytes + r.value.bytes) == p.bytes + q.bytes + r.value.bytes;
      assert p.model + (q.model + r.value.model) == p.model + q.model + r.value.model;
    }
  }

  lemma {:induction false} BackBack(model: Option<seq<byte>>, chunk: seq<byte>, pos: nat, n: nat)
    requires pos + n <= |chunk| && (model.Some? ==> |model.value| == |chunk|)
    ensures chunk[pos..][n..] == chunk[pos + n..] && |chunk[pos..]| == |chunk| - pos
    ensures ModelBack(model, pos).Some? ==> |ModelBack(model, pos).value| == |chunk| - pos
    ensures ModelBack(ModelBack(model, pos), n) == ModelBack(model, pos + n)
  {
    if model.Some? { assert model.value[pos..][n..] == model.value[pos + n..]; }
  }

  /** col is the next collection and p what it is packed into, with the consequence for the whole chunk. */
  ghost predicate IsNext(c: CfgSix, ct: ChunkType, chunk: seq<byte>, model: Option<seq<byte>>, at: nat, room: Option<nat>,
    pos: nat, done: Packed, col: seq<byte>, p: Outcome<Packed>)
  {
    && !ct.UnknownChunk? && c.round == 0 && (model.Some? ==> |model.value| == |chunk|)
    && pos + |col| <= |chunk| && COLLECTION_HDR_SIZE <= |col| == ColSize(col)
    && !ColDataType(col).Unknown? && !IsFastCadence(ColDataType(col))
    && (ModelFrontAt(model, chunk, pos, |col|).Some? ==> |ModelFrontAt(model, chunk, pos, |col|).value| == |col|)
    && p == PackCol(c, col, ModelFrontAt(model, chunk, pos, |col|), at + |done.bytes|, room)
    && (p.Err? ==> PackCols(c, ct, chunk, model, at, room) == Err(p.error))
    && (p.Ok? ==> PackedTo(c, ct, chunk, model, at, room, pos + |col|, Plus(done, p.value)))
  }

  lemma {:induction false} IsNextFrom(c: CfgSix, ct: ChunkType, chunk: seq<byte>, model: Option<seq<byte>>, at: nat, room: Option<nat>,
    pos: nat, done: Packed, col: seq<byte>, p: Outcome<Packed>)
    requires !ct.UnknownChunk? && c.round == 0 && (model.Some? ==> |model.value| == |chunk|) && pos + |col| <= |chunk|
    requires COLLECTION_HDR_SIZE <= |col| == ColSize(col) && !ColDataType(col).Unknown? && !IsFastCadence(ColDataType(col))
    requires ModelFrontAt(model, chunk, pos, |col|).Some? ==> |ModelFrontAt(model, chunk, pos, |col|).value| == |col|
    requires p == PackCol(c, col, ModelFrontAt(model, chunk, pos, |col|), at + |done.bytes|, room)
    requires p.Err? ==> PackCols(c, ct, chunk, model, at, room) == Err(p.error)
    requires p.Ok? ==> PackedTo(c, ct, chunk, model, at, room, pos + |col|, Plus(done, p.value))
    ensures IsNext(c, ct, chunk, model, at, room, pos, done, col, p)
  {
    hide PackedTo, PackCols, PackCol, ModelFrontAt, ColDataType, ColSize, IsFastCadence, Plus;
  }

  /** The next collection: its result decides, or is added to what is done; n is 0 if
      there is no collection of the chunk. */
  lemma {:induction false} PackedNext(c: CfgSix, ct: ChunkType, chunk: seq<byte>, model: Option<seq<byte>>, at: nat, room: Option<nat>,
    pos: nat, done: Packed) returns (n: nat, r: Outcome<Packed>)
    requires PackedTo(c, ct, chunk, model, at, room, pos, done) && pos < |chunk|
    requires !ct.UnknownChunk? && c.round == 0 && (model.Some? ==> |model.value| == |chunk|)
    ensures n == 0 <==> |chunk| - pos < COLLECTION_HDR_SIZE || ColChunkType(chunk[pos..]) != ct || ColSize(chunk[pos..]) > |chunk| - pos
    ensures n == 0 ==> PackCols(c, ct, chunk, model, at, room) == Err(NoColError(ct, chunk[pos..]))
    ensures n > 0 ==> pos + n <= |chunk| && n == ColSize(chunk[pos..]) && IsNext(c, ct, chunk, model, at, room, pos, done, chunk[pos..][..n], r)
  {
    hide *;
    PackedParts(c, ct, chunk, model, at, room, pos, done);
    BackBack(model, chunk, pos, 0);
    n, r := PackColsCases(c, ct, chunk[pos..], ModelBack(model, pos), at + |done.bytes|, room);
    ThenFails(done, PackCols(c, ct, chunk[pos..], ModelBack(model, pos), at + |done.bytes|, room));
    if n > 0 {
      BackBack(model, chunk, pos, n);
      FrontIs(model, chunk, pos, n);
      if r.Ok? {
        PackColSize(c, chunk[pos..][..n], ModelFrontAt(model, chunk, pos, n), at + |done.bytes|, room);
        PackedModelSize(c, chunk[pos..][..n], ModelFrontAt(model, chunk, pos, n), at + |done.bytes|, room);
        PackedOn(c, ct, chunk, model, at, room, pos, done, n, r.value);
      }
      IsNextFrom(c, ct, chunk, model, at, room, pos, done, chunk[pos..][..n], r);
    }
  }

  /** The model of the n bytes at an offset. */
  ghost function ModelFrontAt(model: Option<seq<byte>>, chunk: seq<byte>, pos: nat, n: nat): (m: Option<seq<byte>>)
    requires pos + n <= |chunk| && (model.Some? ==> |model.value| == |chunk|)
  {
    ModelFront(ModelBack(model, pos), n)
  }

  lemma {:induction false} FrontIs(model: Option<seq<byte>>, chunk: seq<byte>, pos: nat, n: nat)
    requires pos + n <= |chunk| && (model.Some? ==> |model.value| == |chunk|)
    ensures ModelBack(model, pos).Some? ==> n <= |ModelBack(model, pos).value|
    ensures ModelFrontAt(model, chunk, pos, n) == ModelFront(ModelBack(model, pos), n)
    ensures ModelFrontAt(model, chunk, pos, n).Some? ==> |ModelFrontAt(model, chunk, pos, n).value| == n
    ensures ModelFrontAt(model, chunk, pos, n) == if model.Some? then Some(model.value[pos..pos + n]) else None
  {
    if model.Some? { assert model.value[pos..][..n] == model.value[pos..pos + n]; }
  }

  lemma {:induction false} PackedParts(c: CfgSix, ct: ChunkType, chunk: seq<byte>, model: Option<seq<byte>>, at: nat, room: Option<nat>,
    pos: nat, done: Packed)
    requires PackedTo(c, ct, chunk, model, at, room, pos, done)
    ensures !ct.UnknownChunk? && c.round == 0 && (model.Some? ==> |model.value| == |chunk|) && pos <= |chunk|
    ensures ModelBack(model, pos).Some? ==> |ModelBack(model, pos).value| == |chunk[pos..]|
    ensures |done.bytes| <= 2 * pos && HasRoom(room, at + |done.bytes|) && (c.mode.IsModel() ==> |done.model| == pos)
    ensures PackCols(c, ct, chunk, model, at, room)
         == Then(done, PackCols(c, ct, chunk[pos..], ModelBack(model, pos), at + |done.bytes|, room))
  {
    hide PackCols, Then;
  }

  lemma {:induction false} PackedModelSize(c: CfgSix, col: seq<byte>, model: Option<seq<byte>>, at: nat, room: Option<nat>)
    requires |col| >= COLLECTION_HDR_SIZE && |col| == ColSize(col) && !ColDataType(col).Unknown? && !IsFastCadence(ColDataType(col))
    requires c.round == 0 && (model.Some? ==> |model.value| == |col|) && PackCol(c, col, model, at, room).Ok?
    ensures c.mode.IsModel() ==> |PackCol(c, col, model, at, room).value.model| == |col|
  {
    if c.mode.IsModel() {
      PackColOf(c, col, model, at, room) by { PackColFails(c, col, model, at, room); }
      var dt, data, mdl := ColDataType(col), ColBody(col), ModelData(c, model);
      hide *;
      PackedBodyModel(c, col, model, at, room);
      PackedColModel(c, ColHeader(col), PackedBody(c, col, model, at, room), PackCol(c, col, model, at, room), |col|);
    }
  }

  lemma {:induction false} PackedColModel(c: CfgSix, hdr: seq<byte>, d: Outcome<Packed>, p: Outcome<Packed>, n: nat)
    requires IsPackedCol(c, hdr, d, p) && p.Ok? && c.mode.IsModel() && (d.Ok? ==> |hdr| + |d.value.model| == n)
    ensures |p.value.model| == n
  {
  }

  /** The updated model of packed data is as large as the data. */
  lemma {:induction false} PackedBodyModel(c: CfgSix, col: seq<byte>, model: Option<seq<byte>>, at: nat, room: Option<nat>)
    requires |col| >= COLLECTION_HDR_SIZE && (model.Some? ==> |model.value| == |col|) && c.mode.IsModel()
    requires !IsFastCadence(ColDataType(col)) && DataIsValid(c, ColDataType(col), ColBody(col), ModelData(c, model))
    ensures PackedBody(c, col, model, at, room).Ok? ==>
      |ColHeader(col)| + |PackedBody(c, col, model, at, room).value.model| == |col|
  {
    hide ColDataType;
    DataModelSize(c, ColDataType(col), ColBody(col), ModelData(c, model));
    hide DataIsValid, DataBits, DataModel, Compresses, PackBits, CfgIsValid, SampleSize;
  }

  lemma {:induction false} DataModelSize(c: CfgSix, dt: DataType, data: seq<byte>, mdl: Option<seq<byte>>)
    requires DataIsValid(c, dt, data, mdl) && c.mode.IsModel()
    ensures !c.mode.IsRaw() && |DataModel(c, dt, data, mdl)| == |data|
  {
    ModelModeParts(c, dt, data, mdl);
    FieldsOfValid(dt, c);
    var fs := FieldsOf(dt, c);
    hide UpFrom, CfgIsValid, FieldsOf, RecSize, ValidFields, Lossless;
    WholeSamples(|data|, SampleSize(dt));
    UpFromSize(fs, data, mdl.value, c.modelValue, 0, |data| / SampleSize(dt));
  }

  lemma {:induction false} ModelModeParts(c: CfgSix, dt: DataType, data: seq<byte>, mdl: Option<seq<byte>>)
    requires DataIsValid(c, dt, data, mdl) && c.mode.IsModel()
    ensures !c.mode.IsRaw() && !dt.Unknown? && mdl.Some? && |mdl.value| == |data| && c.modelValue <= MAX_MODEL_VALUE
    ensures |data| % SampleSize(dt) == 0 && CfgIsValid(c, dt)
  {
  }

  lemma {:induction false} PackedOn(c: CfgSix, ct: ChunkType, chunk: seq<byte>, model: Option<seq<byte>>, at: nat, room: Option<nat>,
    pos: nat, done: Packed, n: nat, p: Packed)
    requires PackedTo(c, ct, chunk, model, at, room, pos, done) && pos + n <= |chunk| && n >= COLLECTION_HDR_SIZE
    requires |p.bytes| <= Worst(c.mode, n) && HasRoom(room, at + |done.bytes| + |p.bytes|) && (c.mode.IsModel() ==> |p.model| == n)
    requires ModelBack(model, pos).Some? ==> |ModelBack(model, pos).value| == |chunk[pos..]|
    requires |chunk[pos..]| >= n && (ModelBack(model, pos).Some? ==> n <= |ModelBack(model, pos).value|)
    requires ModelBack(ModelBack(model, pos), n).Some? ==> |ModelBack(ModelBack(model, pos), n).value| == |chunk[pos..][n..]|
    requires PackCols(c, ct, chunk[pos..], ModelBack(model, pos), at + |done.bytes|, room)
      == Then(p, PackCols(c, ct, chunk[pos..][n..], ModelBack(ModelBack(model, pos), n), at + |done.bytes| + |p.bytes|, room))
    ensures PackedTo(c, ct, chunk, model, at, room, pos + n, Plus(done, p))
  {
    hide PackCols, Then;
    BackBack(model, chunk, pos, n);
    ThenThen(done, p, PackCols(c, ct, chunk[pos + n..], ModelBack(model, pos + n), at + |done.bytes| + |p.bytes|, room));
  }

  lemma {:induction false} PackedEnd(c: CfgSix, ct: ChunkType, chunk: seq<byte>, model: Option<seq<byte>>, at: nat, room: Option<nat>,
    pos: nat, done: Packed)
    requires PackedTo(c, ct, chunk, model, at, room, pos, done) && pos == |chunk|
    ensures PackCols(c, ct, chunk, model, at, room) == Ok(done)
  {
    assert chunk[pos..] == [];
    assert done.bytes + [] == done.bytes && done.model + [] == done.model;
  }

  //// The buffers

  lemma {:induction false} DstThen(dst: array?<byte>, m0: seq<byte>, m1: seq<byte>, m2: seq<byte>, at: nat, cap: nat, done: Packed,
    p: Outcome<Packed>)
    requires DstDone(dst, m0, m1, at, cap, Ok(done)) && DstDone(dst, m1, m2, at + |done.bytes|, cap, p)
    ensures DstDone(dst, m0, m2, at, cap,
      if p.Ok? then Ok(Plus(done, p.value)) else p)
  {
    if dst != null {
      var mid := at + |done.bytes|;
      assert m2[..at] == m2[..mid][..at] == m1[..mid][..at] == m0[..at];
      assert m2[at..mid] == m2[..mid][at..] == m1[..mid][at..] == done.bytes;
      if p.Ok? {
        var end := mid + |p.value.bytes|;
        assert m2[at..end] == m2[at..mid] + m2[mid..end];
      }
    }
  }

  lemma {:induction false} ModelThen(does: bool, u0: seq<byte>, u1: seq<byte>, u2: seq<byte>, pos: nat, n: nat, total: nat,
    done: Packed, p: Outcome<Packed>)
    requires ModelDone(does, u0, u1, 0, pos, Ok(done)) && ModelDone(does, u1, u2, pos, n, p)
    requires pos + n <= total && (does ==> total <= |u0|)
    ensures p.Ok? ==> ModelDone(does, u0, u2, 0, pos + n, Ok(Plus(done, p.value)))
    ensures p.Err? ==> ModelDone(does, u0, u2, 0, total, p)
  {
    if does {
      if p.Ok? {
        SpliceThen(u0, 0, done.model, p.value.model);
      } else {
        assert u2[total..] == u2[pos + n..][total - pos - n..] == u1[pos + n..][total - pos - n..] == u1[total..] == u0[total..];
      }
    }
  }

  /** An error of the loop itself leaves what was done before. */
  lemma {:induction false} StoppedAt(dst: array?<byte>, m0: seq<byte>, m1: seq<byte>, at: nat, cap: nat, does: bool, u0: seq<byte>,
    u1: seq<byte>, pos: nat, total: nat, done: Packed, e: CmpError)
    requires DstDone(dst, m0, m1, at, cap, Ok(done)) && ModelDone(does, u0, u1, 0, pos, Ok(done))
    requires pos <= total && (does ==> total <= |u0|)
    ensures DstDone(dst, m0, m1, at, cap, Err(e)) && ModelDone(does, u0, u1, 0, total, Err(e))
  {
    if does { assert u1[total..] == u0[total..]; }
  }

  /** The model behind the collection just packed is still as it was, also when it is updated in place. */
  lemma {:induction false} ModelLeftBehind(mopt: Option<seq<byte>>, mem0: seq<byte>, mem1: seq<byte>, does: bool, pos: nat, n: nat,
    total: nat, p: Outcome<Packed>)
    requires ModelLeft(mopt, mem0, 0, pos, total) && pos + n <= total
    requires mem1 == mem0 || ModelDone(does, mem0, mem1, pos, n, p)
    ensures ModelLeft(mopt, mem1, 0, pos + n, total)
  {
    if mopt.Some? {
      assert mem0[pos..total][n..] == mem0[pos + n..total] && mopt.value[pos..][n..] == mopt.value[pos + n..];
      if mem1 != mem0 {
        assert mem1[pos + n..] == mem0[pos + n..];
        assert mem1[pos + n..total] == mem1[pos + n..][..total - pos - n] == mem0[pos + n..][..total - pos - n];
      }
    }
  }

  lemma {:induction false} ModelHere(model: array?<byte>, mopt: Option<seq<byte>>, chunk: seq<byte>, pos: nat, n: nat)
    requires pos + n <= |chunk| && (mopt.Some? ==> |mopt.value| == |chunk|) && mopt.Some? == (model != null)
    requires (model != null ==> pos + n <= model.Length) && ModelLeft(mopt, MemOf(model), 0, pos, |chunk|)
    ensures ModelOf(model != null, model, pos, n) == ModelFrontAt(mopt, chunk, pos, n)
  {
    FrontIs(mopt, chunk, pos, n);
    hide ModelFrontAt, ModelFront, ModelBack;
    if model != null {
      assert model[pos..pos + n] == model[..][pos..|chunk|][..n];
      assert mopt.value[pos..pos + n] == mopt.value[pos..][..n];
    }
  }

  //// The loop

  /** What the loop works on: the chunk, its configuration and the buffers; at is where
      the packed data starts in the destination. */
  datatype Job = Job(c: CfgSix, ct: ChunkType, chunk: seq<byte>, model: array?<byte>, up: array?<byte>, dst: array?<byte>,
    cap: nat, at: nat)

  /** The contents of the model, the destination and the updated model before the loop. */
  datatype Before = Before(mopt: Option<seq<byte>>, m0: seq<byte>, u0: seq<byte>)

  ghost predicate ValidJob(j: Job, b: Before)
  {
    && !j.ct.UnknownChunk? && j.c.round == 0 && |j.chunk| <= 0xFF_FFFF && j.at <= 64
    && (b.mopt.Some? ==> |b.mopt.value| == |j.chunk|) && b.mopt.Some? == (j.model != null)
    && (j.model != null ==> |j.chunk| <= j.model.Length)
    && (j.up != null ==> |j.chunk| <= j.up.Length == |b.u0|)
    && (j.dst != null ==> j.cap <= j.dst.Length == |b.m0| && j.dst != j.model && j.dst != j.up)
  }

  ghost predicate UpdatesModel(j: Job)
  {
    j.c.mode.IsModel() && j.up != null
  }

  /** What the chunk is packed into. */
  ghost function Spec(j: Job, b: Before): (p: Outcome<Packed>)
    requires ValidJob(j, b)
  {
    PackCols(j.c, j.ct, j.chunk, b.mopt, j.at, Room(j.dst, j.cap))
  }

  /** What the next collection is packed into. */
  ghost function SpecNext(j: Job, b: Before, pos: nat, done: Packed, col: seq<byte>): (p: Outcome<Packed>)
    requires ValidJob(j, b) && pos + |col| <= |j.chunk| && |col| >= COLLECTION_HDR_SIZE && |col| == ColSize(col)
    requires !ColDataType(col).Unknown?
  {
    FrontIs(b.mopt, j.chunk, pos, |col|);
    PackCol(j.c, col, ModelFrontAt(b.mopt, j.chunk, pos, |col|), j.at + |done.bytes|, Room(j.dst, j.cap))
  }

  /** The state of the loop: what is packed before pos, and the buffers that hold it. */
  ghost predicate LoopState(j: Job, b: Before, pos: nat, done: Packed, m1: seq<byte>, u1: seq<byte>, mem: seq<byte>)
  {
    && ValidJob(j, b)
    && PackedTo(j.c, j.ct, j.chunk, b.mopt, j.at, Room(j.dst, j.cap), pos, done)
    && DstDone(j.dst, b.m0, m1, j.at, j.cap, Ok(done)) && ModelDone(UpdatesModel(j), b.u0, u1, 0, pos, Ok(done))
    && ModelLeft(b.mopt, mem, 0, pos, |j.chunk|)
  }

  /** The loop is over: everything is packed, or there was an error. */
  ghost predicate LoopOver(j: Job, b: Before, m1: seq<byte>, u1: seq<byte>, p: Outcome<Packed>)
  {
    && ValidJob(j, b) && Spec(j, b) == p
    && DstDone(j.dst, b.m0, m1, j.at, j.cap, p) && ModelDone(UpdatesModel(j), b.u0, u1, 0, |j.chunk|, p)
  }

  lemma {:induction false} LoopParts(j: Job, b: Before, pos: nat, done: Packed, m1: seq<byte>, u1: seq<byte>, mem: seq<byte>)
    requires LoopState(j, b, pos, done, m1, u1, mem)
    ensures ValidJob(j, b)
    ensures PackedTo(j.c, j.ct, j.chunk, b.mopt, j.at, Room(j.dst, j.cap), pos, done) && |done.bytes| <= 2 * pos && pos <= |j.chunk|
    ensures DstDone(j.dst, b.m0, m1, j.at, j.cap, Ok(done)) && ModelDone(UpdatesModel(j), b.u0, u1, 0, pos, Ok(done))
    ensures ModelLeft(b.mopt, mem, 0, pos, |j.chunk|)
    ensures j.dst != null ==> j.at + |done.bytes| <= j.cap
  {
    hide DstDone, ModelDone, ModelLeft, PackCols;
  }

  lemma {:induction false} JobParts(j: Job, b: Before)
    requires ValidJob(j, b)
    ensures !j.ct.UnknownChunk? && j.c.round == 0 && |j.chunk| <= 0xFF_FFFF && j.at <= 64
    ensures (b.mopt.Some? ==> |b.mopt.value| == |j.chunk|) && b.mopt.Some? == (j.model != null)
    ensures j.model != null ==> |j.chunk| <= j.model.Length
    ensures j.up != null ==> |j.chunk| <= j.up.Length == |b.u0|
    ensures j.dst != null ==> j.cap <= j.dst.Length == |b.m0| && j.dst != j.model && j.dst != j.up
    ensures UpdatesModel(j) == (j.c.mode.IsModel() && j.up != null)
    ensures Spec(j, b) == PackCols(j.c, j.ct, j.chunk, b.mopt, j.at, Room(j.dst, j.cap))
  {
    hide PackCols;
  }

  /** What the specification says about a collection at pos, and about the whole. */
  ghost predicate SpecStep(j: Job, b: Before, pos: nat, done: Packed, n: nat, p: Outcome<Packed>)
  {
    && ValidJob(j, b)
    && (p.Err? ==> Spec(j, b) == p)
    && (p.Ok? ==> PackedTo(j.c, j.ct, j.chunk, b.mopt, j.at, Room(j.dst, j.cap), pos + n, Plus(done, p.value)))
  }

  /** After one collection. */
  lemma {:induction false} LoopNext(j: Job, b: Before, pos: nat, done: Packed, m1: seq<byte>, m2: seq<byte>, u1: seq<byte>,
    u2: seq<byte>, mem1: seq<byte>, mem2: seq<byte>, n: nat, p: Outcome<Packed>)
    requires LoopState(j, b, pos, done, m1, u1, mem1) && SpecStep(j, b, pos, done, n, p) && pos + n <= |j.chunk|
    requires DstDone(j.dst, m1, m2, j.at + |done.bytes|, j.cap, p) && ModelDone(UpdatesModel(j), u1, u2, pos, n, p)
    requires mem2 == mem1 || (mem1 == u1 && mem2 == u2)
    ensures p.Err? ==> LoopOver(j, b, m2, u2, p)
    ensures p.Ok? ==> LoopState(j, b, pos + n, Plus(done, p.value), m2, u2, mem2)
  {
    hide PackedTo, DstDone, ModelDone, ModelLeft, PackCols;
    LoopParts(j, b, pos, done, m1, u1, mem1);
    DstThen(j.dst, b.m0, m1, m2, j.at, j.cap, done, p);
    ModelThen(UpdatesModel(j), b.u0, u1, u2, pos, n, |j.chunk|, done, p);
    if p.Ok? { ModelLeftBehind(b.mopt, mem1, mem2, UpdatesModel(j), pos, n, |j.chunk|, p); }
  }

  /** The rest does not start with a collection of the chunk, or nothing is left. */
  lemma {:induction false} LoopStops(j: Job, b: Before, pos: nat, done: Packed, m1: seq<byte>, u1: seq<byte>, mem: seq<byte>)
    requires LoopState(j, b, pos, done, m1, u1, mem)
    requires pos <= |j.chunk|
    requires |j.chunk| - pos < COLLECTION_HDR_SIZE || ColChunkType(j.chunk[pos..]) != j.ct || ColSize(j.chunk[pos..]) > |j.chunk| - pos
    ensures LoopOver(j, b, m1, u1, if pos == |j.chunk| then Ok(done) else Err(NoColError(j.ct, j.chunk[pos..])))
  {
    hide *;
    LoopParts(j, b, pos, done, m1, u1, mem);
    JobParts(j, b);
    var room := Room(j.dst, j.cap);
    if pos == |j.chunk| {
      PackedEnd(j.c, j.ct, j.chunk, b.mopt, j.at, room, pos, done);
      LoopOverOf(j, b, m1, u1, Ok(done));
    } else {
      var e := NoColError(j.ct, j.chunk[pos..]);
      var n, r := PackedNext(j.c, j.ct, j.chunk, b.mopt, j.at, room, pos, done);
      StoppedAt(j.dst, b.m0, m1, j.at, j.cap, UpdatesModel(j), b.u0, u1, pos, |j.chunk|, done, e);
      LoopOverOf(j, b, m1, u1, Err(e));
    }
  }

  lemma {:induction false} LoopOverOf(j: Job, b: Before, m1: seq<byte>, u1: seq<byte>, p: Outcome<Packed>)
    requires ValidJob(j, b) && Spec(j, b) == p
    requires DstDone(j.dst, b.m0, m1, j.at, j.cap, p) && ModelDone(UpdatesModel(j), b.u0, u1, 0, |j.chunk|, p)
    ensures LoopOver(j, b, m1, u1, p)
  {
    hide Spec, DstDone, ModelDone;
  }

  lemma {:induction false} NextCol(c: CfgSix, ct: ChunkType, chunk: seq<byte>, model: Option<seq<byte>>, at: nat, room: Option<nat>,
    pos: nat, done: Packed, n: nat) returns (p: Outcome<Packed>)
    requires PackedTo(c, ct, chunk, model, at, room, pos, done) && pos + COLLECTION_HDR_SIZE <= |chunk|
    requires ColChunkType(chunk[pos..]) == ct && pos + n <= |chunk| && n == ColSize(chunk[pos..])
    ensures IsNext(c, ct, chunk, model, at, room, pos, done, chunk[pos..][..n], p)
  {
    assert COLLECTION_HDR_SIZE > 0;
    hide *;
    PackedParts(c, ct, chunk, model, at, room, pos, done);
    var n';
    n', p := PackedNext(c, ct, chunk, model, at, room, pos, done);
  }

  lemma {:induction false} SpecOfNext(j: Job, b: Before, pos: nat, done: Packed, m1: seq<byte>, u1: seq<byte>, mem: seq<byte>,
    n: nat)
    requires LoopState(j, b, pos, done, m1, u1, mem) && pos + COLLECTION_HDR_SIZE <= |j.chunk|
    requires ColChunkType(j.chunk[pos..]) == j.ct && pos + n <= |j.chunk| && n == ColSize(j.chunk[pos..])
    ensures IsNextOf(j, b, pos, done, j.chunk[pos..][..n])
  {
    hide *;
    LoopParts(j, b, pos, done, m1, u1, mem);
    var p := NextCol(j.c, j.ct, j.chunk, b.mopt, j.at, Room(j.dst, j.cap), pos, done, n);
    SpecStepOf(j, b, pos, done, j.chunk[pos..][..n], p);
  }

  /** col is the next collection. */
  ghost predicate IsNextOf(j: Job, b: Before, pos: nat, done: Packed, col: seq<byte>)
  {
    && ValidJob(j, b) && pos + |col| <= |j.chunk| && COLLECTION_HDR_SIZE <= |col| == ColSize(col) < 0x1_0010
    && !ColDataType(col).Unknown? && !IsFastCadence(ColDataType(col))
    && SpecStep(j, b, pos, done, |col|, SpecNext(j, b, pos, done, col))
  }

  lemma {:induction false} IsNextParts(c: CfgSix, ct: ChunkType, chunk: seq<byte>, model: Option<seq<byte>>, at: nat, room: Option<nat>,
    pos: nat, done: Packed, col: seq<byte>, p: Outcome<Packed>)
    requires IsNext(c, ct, chunk, model, at, room, pos, done, col, p)
    ensures !ct.UnknownChunk? && c.round == 0 && (model.Some? ==> |model.value| == |chunk|) && pos + |col| <= |chunk|
    ensures COLLECTION_HDR_SIZE <= |col| == ColSize(col) && !ColDataType(col).Unknown? && !IsFastCadence(ColDataType(col))
    ensures ModelFrontAt(model, chunk, pos, |col|).Some? ==> |ModelFrontAt(model, chunk, pos, |col|).value| == |col|
    ensures p == PackCol(c, col, ModelFrontAt(model, chunk, pos, |col|), at + |done.bytes|, room)
    ensures p.Err? ==> PackCols(c, ct, chunk, model, at, room) == Err(p.error)
    ensures p.Ok? ==> PackedTo(c, ct, chunk, model, at, room, pos + |col|, Plus(done, p.value))
  {
    hide PackedTo, PackCols, PackCol, ModelFrontAt, ColDataType, ColSize, IsFastCadence, Plus;
  }

  lemma {:induction false} SpecStepFrom(j: Job, b: Before, pos: nat, done: Packed, n: nat, p: Outcome<Packed>)
    requires ValidJob(j, b)
    requires p.Err? ==> Spec(j, b) == Err(p.error)
    requires p.Ok? ==> PackedTo(j.c, j.ct, j.chunk, b.mopt, j.at, Room(j.dst, j.cap), pos + n, Plus(done, p.value))
    ensures SpecStep(j, b, pos, done, n, p)
  {
    hide PackedTo, Spec, Plus, ValidJob;
  }

  lemma {:induction false} IsNextOfFrom(j: Job, b: Before, pos: nat, done: Packed, col: seq<byte>)
    requires ValidJob(j, b) && pos + |col| <= |j.chunk| && COLLECTION_HDR_SIZE <= |col| == ColSize(col)
    requires !ColDataType(col).Unknown? && !IsFastCadence(ColDataType(col))
    requires SpecStep(j, b, pos, done, |col|, SpecNext(j, b, pos, done, col))
    ensures IsNextOf(j, b, pos, done, col)
  {
    ColSizeBound(col);
    hide SpecStep, SpecNext, ColDataType, ColSize, IsFastCadence, ValidJob;
  }

  lemma {:induction false} SpecStepOf(j: Job, b: Before, pos: nat, done: Packed, col: seq<byte>, p: Outcome<Packed>)
    requires ValidJob(j, b) && IsNext(j.c, j.ct, j.chunk, b.mopt, j.at, Room(j.dst, j.cap), pos, done, col, p)
    ensures IsNextOf(j, b, pos, done, col)
  {
    hide *;
    IsNextParts(j.c, j.ct, j.chunk, b.mopt, j.at, Room(j.dst, j.cap), pos, done, col, p);
    JobParts(j, b);
    SpecNextIs(j, b, pos, done, col);
    SpecStepFrom(j, b, pos, done, |col|, p);
    IsNextOfFrom(j, b, pos, done, col);
  }

  lemma {:induction false} NextParts(j: Job, b: Before, pos: nat, done: Packed, col: seq<byte>)
    requires IsNextOf(j, b, pos, done, col)
    ensures ValidJob(j, b) && pos + |col| <= |j.chunk| && COLLECTION_HDR_SIZE <= |col| == ColSize(col) < 0x1_0010
    ensures !ColDataType(col).Unknown? && !IsFastCadence(ColDataType(col))
    ensures SpecStep(j, b, pos, done, |col|, SpecNext(j, b, pos, done, col))
  {
    hide SpecStep, SpecNext, ColDataType, ColSize, IsFastCadence, ValidJob;
  }

  lemma {:induction false} ColSizeBound(col: seq<byte>)
    requires |col| >= COLLECTION_HDR_SIZE
    ensures COLLECTION_HDR_SIZE <= ColSize(col) < 0x1_0010
  {
  }

  lemma {:induction false} ColDoneParts(c: CfgSix, dst: array?<byte>, m0: seq<byte>, m1: seq<byte>, hasUp: bool, u0: seq<byte>,
    u1: seq<byte>, off: nat, at: nat, cap: nat, n: nat, r: Outcome<nat>, p: Outcome<Packed>)
    requires ColDone(c, dst, m0, m1, hasUp, u0, u1, off, at, cap, n, r, p)
    ensures r == if p.Ok? then Ok(at + |p.value.bytes|) else Err(p.error)
    ensures DstDone(dst, m0, m1, at, cap, p) && ModelDone(c.mode.IsModel() && hasUp, u0, u1, off, n, p)
  {
    hide DstDone, ModelDone;
  }

  /** What cmp_collection needs, and the model it reads. */
  lemma {:induction false} ReadyFor(j: Job, b: Before, pos: nat, done: Packed, m1: seq<byte>, u1: seq<byte>, col: seq<byte>)
    requires LoopState(j, b, pos, done, m1, u1, MemOf(j.model)) && pos + |col| <= |j.chunk|
    requires COLLECTION_HDR_SIZE <= |col| == ColSize(col) < 0x1_0010 && !ColDataType(col).Unknown?
    ensures j.c.round == 0 && (j.model != null ==> pos + |col| <= j.model.Length)
    ensures j.up != null ==> pos + |col| <= j.up.Length
    ensures j.dst != null ==> j.at + |done.bytes| <= j.cap <= j.dst.Length && j.dst != j.model && j.dst != j.up
    ensures 8 * (j.at + |done.bytes|) + 64 * |col| + 256 < W32
    ensures var mo := ModelOf(j.model != null, j.model, pos, |col|);
      && (mo.Some? ==> |mo.value| == |col|)
      && ValidJob(j, b)
      && SpecNext(j, b, pos, done, col) == PackCol(j.c, col, mo, j.at + |done.bytes|, Room(j.dst, j.cap))
  {
    assert W32 == 0x1_0000_0000;
    hide *;
    LoopParts(j, b, pos, done, m1, u1, MemOf(j.model));
    JobParts(j, b);
    FrontIs(b.mopt, j.chunk, pos, |col|);
    ModelHere(j.model, b.mopt, j.chunk, pos, |col|);
    SpecNextIs(j, b, pos, done, col);
  }

  lemma {:induction false} SpecNextIs(j: Job, b: Before, pos: nat, done: Packed, col: seq<byte>)
    requires ValidJob(j, b) && pos + |col| <= |j.chunk| && |col| >= COLLECTION_HDR_SIZE && |col| == ColSize(col)
    requires !ColDataType(col).Unknown? && j.c.round == 0
    requires ModelFrontAt(b.mopt, j.chunk, pos, |col|).Some? ==> |ModelFrontAt(b.mopt, j.chunk, pos, |col|).value| == |col|
    ensures SpecNext(j, b, pos, done, col)
      == PackCol(j.c, col, ModelFrontAt(b.mopt, j.chunk, pos, |col|), j.at + |done.bytes|, Room(j.dst, j.cap))
  {
    hide PackCol, ModelFrontAt, ColDataType;
  }

  /** What packing the collection at pos did. */
  ghost predicate OneDone(j: Job, b: Before, pos: nat, done: Packed, col: seq<byte>, m1: seq<byte>, u1: seq<byte>, mem: seq<byte>,
    r: Outcome<nat>)
  {
    && IsNextOf(j, b, pos, done, col)
    && var p := SpecNext(j, b, pos, done, col);
       if p.Ok? then r == Ok(j.at + |Plus(done, p.value).bytes|) && LoopState(j, b, pos + |col|, Plus(done, p.value), m1, u1, mem)
       else r == Err(p.error) && LoopOver(j, b, m1, u1, p)
  }

  lemma {:induction false} OneDoneOf(j: Job, b: Before, pos: nat, done: Packed, col: seq<byte>, m1: seq<byte>, u1: seq<byte>, mem: seq<byte>,
    r: Outcome<nat>)
    requires IsNextOf(j, b, pos, done, col)
    requires var p := SpecNext(j, b, pos, done, col);
      && r == (if p.Ok? then Ok(j.at + |done.bytes| + |p.value.bytes|) else Err(p.error))
      && (p.Err? ==> LoopOver(j, b, m1, u1, p))
      && (p.Ok? ==> LoopState(j, b, pos + |col|, Plus(done, p.value), m1, u1, mem))
    ensures OneDone(j, b, pos, done, col, m1, u1, mem, r)
  {
    hide LoopOver, LoopState, SpecNext;
  }

  /** Compresses the collection col at offset pos. */
  method PackOne(j: Job, ghost b: Before, pos: nat, ghost done: Packed, col: seq<byte>, size: nat) returns (r: Outcome<nat>)
    requires LoopState(j, b, pos, done, MemOf(j.dst), MemOf(j.up), MemOf(j.model)) && size == j.at + |done.bytes|
    requires IsNextOf(j, b, pos, done, col)
    modifies j.dst, j.up
    ensures OneDone(j, b, pos, done, col, MemOf(j.dst), MemOf(j.up), MemOf(j.model), r)
  {
    hide *;
    ghost var m1, u1, mem1, n := MemOf(j.dst), MemOf(j.up), MemOf(j.model), |col|;
    NextParts(j, b, pos, done, col);
    JobParts(j, b);
    ReadyFor(j, b, pos, done, m1, u1, col);
    MemSizes(j.dst, j.up);
    ghost var p := SpecNext(j, b, pos, done, col);
    r := CmpCollection(j.c, col, j.model, j.up, pos, j.dst, j.cap, size);
    ColDoneParts(j.c, j.dst, m1, MemOf(j.dst), j.up != null, u1, MemOf(j.up), pos, size, j.cap, n, r, p);
    LoopNext(j, b, pos, done, m1, MemOf(j.dst), u1, MemOf(j.up), mem1, MemOf(j.model), n, p);
    OneDoneOf(j, b, pos, done, col, MemOf(j.dst), MemOf(j.up), MemOf(j.model), r);
  }

  /** What one pass of the loop did: n is 0 if it stopped the loop without an error. */
  ghost predicate PassDone(j: Job, b: Before, pos: nat, done: Packed, m1: seq<byte>, u1: seq<byte>, mem: seq<byte>, r: Outcome<nat>, n: nat)
  {
    if r.Err? then LoopOver(j, b, m1, u1, Err(r.error))
    else if n == 0 then LoopOver(j, b, m1, u1, Err(ChunkSizeInconsistent))
    else pos + n <= |j.chunk| && r.value == j.at + |done.bytes| && LoopState(j, b, pos + n, done, m1, u1, mem)
  }

  lemma {:induction false} PassOfOne(j: Job, b: Before, pos: nat, done: Packed, col: seq<byte>, m1: seq<byte>, u1: seq<byte>, mem: seq<byte>,
    r: Outcome<nat>) returns (done': Packed)
    requires OneDone(j, b, pos, done, col, m1, u1, mem, r)
    ensures PassDone(j, b, pos, done', m1, u1, mem, r, |col|) && |col| > 0
  {
    hide LoopOver, LoopState, SpecNext, SpecStep, ColDataType, ColSize, IsFastCadence, ValidJob, Plus;
    var p := SpecNext(j, b, pos, done, col);
    done' := if p.Ok? then Plus(done, p.value) else done;
  }

  /** The pass stops the loop. */
  lemma {:induction false} PassStops(j: Job, b: Before, pos: nat, done: Packed, m1: seq<byte>, u1: seq<byte>, mem: seq<byte>, size: nat)
    requires LoopState(j, b, pos, done, m1, u1, mem) && pos + COLLECTION_HDR_SIZE <= |j.chunk|
    ensures ColChunkType(j.chunk[pos..]) != j.ct ==> PassDone(j, b, pos, done, m1, u1, mem, Err(ChunkSubserviceInconsistent), 0)
    ensures ColChunkType(j.chunk[pos..]) == j.ct && ColSize(j.chunk[pos..]) > |j.chunk| - pos ==>
      PassDone(j, b, pos, done, m1, u1, mem, Ok(size), 0)
  {
    hide LoopState, LoopOver, ColChunkType, ColSize;
    if ColChunkType(j.chunk[pos..]) != j.ct || ColSize(j.chunk[pos..]) > |j.chunk| - pos {
      LoopStops(j, b, pos, done, m1, u1, mem);
    }
  }

  /** One pass of the loop over the collections. */
  method PackPass(j: Job, ghost b: Before, pos: nat, ghost done: Packed, size: nat)
    returns (r: Outcome<nat>, n: nat, ghost done': Packed)
    requires LoopState(j, b, pos, done, MemOf(j.dst), MemOf(j.up), MemOf(j.model)) && size == j.at + |done.bytes|
    requires pos + COLLECTION_HDR_SIZE <= |j.chunk|
    modifies j.dst, j.up
    ensures PassDone(j, b, pos, done', MemOf(j.dst), MemOf(j.up), MemOf(j.model), r, n)
  {
    hide *;
    done' := done;
    PassStops(j, b, pos, done, MemOf(j.dst), MemOf(j.up), MemOf(j.model), size);
    var rest := j.chunk[pos..];
    if ColChunkType(rest) != j.ct { return Err(ChunkSubserviceInconsistent), 0, done; }
    n := ColSize(rest);
    if pos + n > |j.chunk| { return Ok(size), 0, done; }
    SpecOfNext(j, b, pos, done, MemOf(j.dst), MemOf(j.up), MemOf(j.model), n);
    var col := rest[..n];
    r := PackOne(j, b, pos, done, col, size);
    done' := PassOfOne(j, b, pos, done, col, MemOf(j.dst), MemOf(j.up), MemOf(j.model), r);
  }

  lemma {:induction false} LoopStart(j: Job, b: Before, mem: seq<byte>)
    requires ValidJob(j, b) && (j.dst != null ==> j.at <= j.cap) && ModelLeft(b.mopt, mem, 0, 0, |j.chunk|)
    ensures LoopState(j, b, 0, Packed([], []), b.m0, b.u0, mem)
  {
    hide PackedTo, PackCols, ModelLeft;
    RoomOf(j.dst, j.cap, j.at);
    PackedStart(j.c, j.ct, j.chunk, b.mopt, j.at, Room(j.dst, j.cap));
    if UpdatesModel(j) { SpliceNothing(b.u0, 0); }
  }

  lemma {:induction false} PassOver(j: Job, b: Before, pos: nat, done: Packed, m1: seq<byte>, u1: seq<byte>, mem: seq<byte>,
    r: Outcome<nat>, n: nat)
    requires PassDone(j, b, pos, done, m1, u1, mem, r, n)
    ensures r.Err? ==> LoopOver(j, b, m1, u1, Err(r.error))
    ensures r.Ok? && n == 0 ==> LoopOver(j, b, m1, u1, Err(ChunkSizeInconsistent))
    ensures r.Ok? && n > 0 ==> pos + n <= |j.chunk| && r.value == j.at + |done.bytes| && LoopState(j, b, pos + n, done, m1, u1, mem)
  {
    hide LoopOver, LoopState;
  }

  /** The loop of compress_chunk: the result is the new size of the destination. */
  method PackChunk(j: Job, ghost b: Before, ghost p: Outcome<Packed>) returns (r: Outcome<nat>)
    requires LoopState(j, b, 0, Packed([], []), MemOf(j.dst), MemOf(j.up), MemOf(j.model)) && |j.chunk| >= COLLECTION_HDR_SIZE
    requires ValidJob(j, b) && p == Spec(j, b)
    modifies j.dst, j.up
    ensures LoopOver(j, b, MemOf(j.dst), MemOf(j.up), p)
    ensures r == if p.Ok? then Ok(j.at + |p.value.bytes|) else Err(p.error)
  {
    hide *;
    ghost var done := Packed([], []);
    var size, readBytes := j.at, 0;
    while readBytes + COLLECTION_HDR_SIZE <= |j.chunk|
      invariant readBytes <= |j.chunk| && size == j.at + |done.bytes|
      invariant LoopState(j, b, readBytes, done, MemOf(j.dst), MemOf(j.up), MemOf(j.model))
      decreases |j.chunk| - readBytes
    {
      var n;
      r, n, done := PackPass(j, b, readBytes, done, size);
      PassOver(j, b, readBytes, done, MemOf(j.dst), MemOf(j.up), MemOf(j.model), r, n);
      if r.Err? || n == 0 {
        if r.Ok? { r := Err(ChunkSizeInconsistent); }
        SpecIs(j, b, MemOf(j.dst), MemOf(j.up), Err(r.error));
        return;
      }
      size := r.value;
      readBytes := readBytes + n;
    }
    LoopStops(j, b, readBytes, done, MemOf(j.dst), MemOf(j.up), MemOf(j.model));
    if readBytes != |j.chunk| {
      ShortRest(j.ct, j.chunk[readBytes..]);
      SpecIs(j, b, MemOf(j.dst), MemOf(j.up), Err(ChunkSizeInconsistent));
      return Err(ChunkSizeInconsistent);
    }
    SpecIs(j, b, MemOf(j.dst), MemOf(j.up), Ok(done));
    return Ok(size);
  }

  lemma {:induction false} ShortRest(ct: ChunkType, rest: seq<byte>)
    requires |rest| < COLLECTION_HDR_SIZE
    ensures NoColError(ct, rest) == ChunkSizeInconsistent
  {
  }

  lemma {:induction false} SpecIs(j: Job, b: Before, m1: seq<byte>, u1: seq<byte>, p: Outcome<Packed>)
    requires LoopOver(j, b, m1, u1, p)
    ensures ValidJob(j, b) && Spec(j, b) == p
  {
    hide Spec, DstDone, ModelDone;
  }

  //// compress_chunk

  /** The effect of compress_chunk on the buffers and its result, for every outcome. */
  ghost predicate ChunkDone(chunk: seq<byte>, mode: CmpMode, dst: array?<byte>, m0: seq<byte>, m1: seq<byte>, cap: nat,
    hasUp: bool, u0: seq<byte>, u1: seq<byte>, spec: Outcome<Compressed>, r: Outcome<nat>, header: EntityHeader)
  {
    && r == (if spec.Ok? then Ok(spec.value.header.size) else Err(spec.error))
    && (spec.Ok? && dst != null ==> header == spec.value.header)
    && (if dst == null then m1 == m0
        else
          && |m1| == |m0| && cap <= |m0| && m1[cap..] == m0[cap..]
          && (HeaderSize(mode) <= cap ==> m1[..HeaderSize(mode)] == m0[..HeaderSize(mode)])
          && (spec.Ok? ==>
                HeaderSize(mode) + |spec.value.data| <= cap
                && m1[HeaderSize(mode)..HeaderSize(mode) + |spec.value.data|] == spec.value.data))
    && (if !(mode.IsModel() && hasUp) then u1 == u0
        else if spec.Ok? then |spec.value.model| == |chunk| <= |u0| && u1 == Splice(u0, 0, spec.value.model)
        else KeepsOutside(u0, u1, 0, |chunk|))
  }

  /** An error before the first collection. */
  lemma {:induction false} NothingDone(chunk: seq<byte>, mode: CmpMode, dst: array?<byte>, m: seq<byte>, cap: nat, hasUp: bool, u: seq<byte>,
    e: CmpError, header: EntityHeader)
    requires (dst != null ==> cap <= |m|) && (hasUp ==> |chunk| <= |u|)
    ensures ChunkDone(chunk, mode, dst, m, m, cap, hasUp, u, u, Err(e), Err(e), header)
  {
  }

  /** From the packed collections to the compressed chunk. */
  lemma {:induction false} PackedIsDone(j: Job, b: Before, m1: seq<byte>, u1: seq<byte>, p: Outcome<Packed>, spec: Outcome<Compressed>,
    r: Outcome<nat>, header: EntityHeader)
    requires LoopOver(j, b, m1, u1, p) && j.at == HeaderSize(j.c.mode) && (j.dst != null ==> j.cap <= |b.m0|)
    requires p.Err? ==> spec == Err(p.error)
    requires p.Ok? && spec.Ok? ==> spec.value.data == p.value.bytes && spec.value.model == p.value.model
    requires r == (if spec.Ok? then Ok(spec.value.header.size) else Err(spec.error))
    requires spec.Ok? && j.dst != null ==> header == spec.value.header
    ensures ChunkDone(j.chunk, j.c.mode, j.dst, b.m0, m1, j.cap, j.up != null, b.u0, u1, spec, r, header)
  {
    hide Spec, PackCols, Splice;
    if UpdatesModel(j) && p.Ok? && spec.Err? { SpliceKeeps(b.u0, 0, p.value.model, |j.chunk|); }
  }

  /** The error that is found before the first collection. */
  function EarlyError(chunk: seq<byte>): Option<CmpError>
  {
    if |chunk| < COLLECTION_HDR_SIZE then Some(ChunkSizeInconsistent)
    else if |chunk| > CMP_ENTITY_MAX_ORIGINAL_SIZE then Some(ChunkTooLarge)
    else if ColChunkType(chunk).UnknownChunk? then Some(ColSubserviceUnsupported)
    else None
  }

  /** The result behind the early checks. */
  ghost predicate KnownSpec(chunk: seq<byte>, ct: ChunkType, c: CfgSix, mopt: Option<seq<byte>>, dst: array?<byte>, cap: nat,
    spec: Outcome<Compressed>)
  {
    && !ct.UnknownChunk? && c.round == 0 && (mopt.Some? ==> |mopt.value| == |chunk|) && |chunk| <= 0xFF_FFFF
    && |chunk| >= COLLECTION_HDR_SIZE && HeaderSize(c.mode) <= 64
    && spec == if dst != null && cap < HeaderSize(c.mode) then Err(SmallBuffer)
               else Finish(c, |chunk|, Room(dst, cap), PackCols(c, ct, chunk, mopt, HeaderSize(c.mode), Room(dst, cap)))
  }

  /** The stages of the specification. */
  lemma {:induction false} CompressSpecStages(chunk: seq<byte>, mopt: Option<seq<byte>>, dst: array?<byte>, cap: nat, par: CmpPar)
    requires mopt.Some? ==> |mopt.value| == |chunk|
    ensures EarlyError(chunk).Some? ==> CompressSpec(chunk, mopt, Room(dst, cap), par) == Err(EarlyError(chunk).value)
    ensures EarlyError(chunk).None? ==>
      |chunk| >= COLLECTION_HDR_SIZE
      && KnownSpec(chunk, ColChunkType(chunk), InitCfg(ColChunkType(chunk), par), mopt, dst, cap, CompressSpec(chunk, mopt, Room(dst, cap), par))
  {
    hide PackCols, InitCfg, Finish, ColChunkType;
  }

  /** cmp_ent_build_chunk_header: the size of the header, and the header itself when
      there is a destination. */
  method BuildChunkHeader(hasEntity: bool, chunkSize: nat, c: CfgSix, cmpEntSize: nat) returns (r: Outcome<nat>, h: EntityHeader)
    ensures r == if hasEntity && !HeaderFits(ChunkHeader(c, chunkSize, cmpEntSize)) then Err(EntityHeaderError) else Ok(HeaderSize(c.mode))
    ensures h == ChunkHeader(c, chunkSize, cmpEntSize)
  {
    h := ChunkHeader(c, chunkSize, cmpEntSize);
    if hasEntity && !HeaderFits(h) { return Err(EntityHeaderError), h; }
    r := Ok(if c.mode.IsRaw() then GENERIC_HEADER_SIZE else NON_IMAGETTE_HEADER_SIZE);
  }

  lemma {:induction false} JobOf(c: CfgSix, ct: ChunkType, chunk: seq<byte>, model: array?<byte>, up: array?<byte>, dst: array?<byte>, cap: nat, at: nat)
    requires !ct.UnknownChunk? && c.round == 0 && |chunk| <= 0xFF_FFFF && at <= 64 && (dst != null ==> at <= cap)
    requires (model != null ==> |chunk| <= model.Length) && (up != null ==> |chunk| <= up.Length)
    requires dst != null ==> cap <= dst.Length && dst != model && dst != up
    ensures var j := Job(c, ct, chunk, model, up, dst, cap, at);
      var b := Before(ModelOf(model != null, model, 0, |chunk|), MemOf(dst), MemOf(up));
      && (b.mopt.Some? ==> |b.mopt.value| == |chunk|)
      && ValidJob(j, b) && LoopState(j, b, 0, Packed([], []), MemOf(dst), MemOf(up), MemOf(model))
      && Spec(j, b) == PackCols(c, ct, chunk, b.mopt, at, Room(dst, cap))
  {
    var j := Job(c, ct, chunk, model, up, dst, cap, at);
    var b := Before(ModelOf(model != null, model, 0, |chunk|), MemOf(dst), MemOf(up));
    assert ValidJob(j, b);
    ModelOfIs(model != null, model, 0, |chunk|);
    if model != null { assert model[0..|chunk|] == model[..][0..|chunk|]; }
    ModelLeftStart(b.mopt, MemOf(model), 0, |chunk|);
    JobParts(j, b);
    hide *;
    LoopStart(j, b, MemOf(model));
  }

  /** compress_chunk. The model may be updated in place; without a destination only the
      size is computed (a dry run). */
  method CompressChunk(chunk: seq<byte>, model: array?<byte>, up: array?<byte>, dst: array?<byte>, dstCapacity: nat, par: CmpPar)
    returns (r: Outcome<nat>, header: EntityHeader)
    requires (model != null ==> |chunk| <= model.Length) && (up != null ==> |chunk| <= up.Length)
    requires dst != null ==> dstCapacity <= dst.Length && dst != model && dst != up
    modifies dst, up
    ensures old(ModelOf(model != null, model, 0, |chunk|)).Some? ==> |old(ModelOf(model != null, model, 0, |chunk|)).value| == |chunk|
    ensures ChunkDone(chunk, par.mode, dst, old(MemOf(dst)), MemOf(dst), dstCapacity, up != null, old(MemOf(up)), MemOf(up),
      CompressSpec(chunk, old(ModelOf(model != null, model, 0, |chunk|)), Room(dst, dstCapacity), par), r, header)
    ensures dst == null ==> (r.Ok? <==> Acceptable(chunk, model != null, par))
    ensures r.Err? ==> IsChunkError(r.error)
    ensures r.Err? ==> r.error !in {IntDecoder, IntDataTypeUnsupported, IntCmpColTooLarge, DataValueTooLarge, Generic}
  {
    hide *;
    ghost var mopt := ModelOf(model != null, model, 0, |chunk|);
    ModelOfIs(model != null, model, 0, |chunk|);
    CompressSpecStages(chunk, mopt, dst, dstCapacity, par);
    ghost var spec := CompressSpec(chunk, mopt, Room(dst, dstCapacity), par);
    ghost var m0, u0 := MemOf(dst), MemOf(up);
    if spec.Err? { NoInternalErrors(chunk, mopt, Room(dst, dstCapacity), par); }
    header := EntityHeader(0, 0, false, par.mode, 0, 0, []);
    var e := EarlyError(chunk);
    if e.Some? {
      MemSizes(dst, up);
      NothingDone(chunk, par.mode, dst, MemOf(dst), dstCapacity, up != null, MemOf(up), e.value, header);
      r := Err(e.value);
    } else {
      r, header := CompressKnown(chunk, ColChunkType(chunk), InitCfg(ColChunkType(chunk), par), model, up, dst, dstCapacity, spec);
    }
    DoneWith(chunk, par.mode, dst, m0, MemOf(dst), dstCapacity, up != null, u0, MemOf(up), spec, r, header);
    if dst == null {
      NoRoom(dstCapacity);
      CompressionSucceeds(chunk, mopt, par);
    }
  }

  lemma {:induction false} NoRoom(capacity: nat)
    ensures Room(null, capacity) == None
  {
  }

  lemma {:induction false} DoneWith(chunk: seq<byte>, mode: CmpMode, dst: array?<byte>, m0: seq<byte>, m1: seq<byte>, cap: nat, hasUp: bool,
    u0: seq<byte>, u1: seq<byte>, spec: Outcome<Compressed>, r: Outcome<nat>, header: EntityHeader)
    requires ChunkDone(chunk, mode, dst, m0, m1, cap, hasUp, u0, u1, spec, r, header)
    ensures r.Err? ==> spec == Err(r.error)
    ensures r.Ok? ==> spec.Ok?
  {
    hide KeepsOutside, Splice;
  }

  /** compress_chunk behind the checks of the chunk. */
  method CompressKnown(chunk: seq<byte>, ct: ChunkType, c: CfgSix, model: array?<byte>, up: array?<byte>, dst: array?<byte>, dstCapacity: nat,
    ghost spec: Outcome<Compressed>) returns (r: Outcome<nat>, header: EntityHeader)
    requires (model != null ==> |chunk| <= model.Length) && (up != null ==> |chunk| <= up.Length)
    requires KnownSpec(chunk, ct, c, ModelOf(model != null, model, 0, |chunk|), dst, dstCapacity, spec)
    requires dst != null ==> dstCapacity <= dst.Length && dst != model && dst != up
    modifies dst, up
    ensures ChunkDone(chunk, c.mode, dst, old(MemOf(dst)), MemOf(dst), dstCapacity, up != null, old(MemOf(up)), MemOf(up), spec, r, header)
  {
    hide *;
    KnownParts(chunk, ct, c, ModelOf(model != null, model, 0, |chunk|), dst, dstCapacity, spec);
    MemSizes(dst, up);
    var s;
    s, header := BuildChunkHeader(false, |chunk|, c, 0);
    if dst != null && dstCapacity < HeaderSize(c.mode) {
      NothingDone(chunk, c.mode, dst, MemOf(dst), dstCapacity, up != null, MemOf(up), SmallBuffer, header);
      return Err(SmallBuffer), header;
    }
    var j := Job(c, ct, chunk, model, up, dst, dstCapacity, HeaderSize(c.mode));
    ghost var b := Before(ModelOf(model != null, model, 0, |chunk|), MemOf(dst), MemOf(up));
    JobOf(c, ct, chunk, model, up, dst, dstCapacity, HeaderSize(c.mode));
    ghost var p := Spec(j, b);
    r := PackChunk(j, b, p);
    if r.Ok? {
      s, header := BuildChunkHeader(dst != null, |chunk|, c, r.value);
      if s.Err? { r := s; }
    }
    KnownDone(j, b, MemOf(dst), MemOf(up), p, spec, r, header);
  }

  lemma {:induction false} KnownParts(chunk: seq<byte>, ct: ChunkType, c: CfgSix, mopt: Option<seq<byte>>, dst: array?<byte>, cap: nat,
    spec: Outcome<Compressed>)
    requires KnownSpec(chunk, ct, c, mopt, dst, cap, spec)
    ensures !ct.UnknownChunk? && c.round == 0 && (mopt.Some? ==> |mopt.value| == |chunk|) && |chunk| <= 0xFF_FFFF
    ensures |chunk| >= COLLECTION_HDR_SIZE && HeaderSize(c.mode) <= 64
    ensures dst != null && cap < HeaderSize(c.mode) ==> spec == Err(SmallBuffer)
    ensures !(dst != null && cap < HeaderSize(c.mode)) ==>
      spec == Finish(c, |chunk|, Room(dst, cap), PackCols(c, ct, chunk, mopt, HeaderSize(c.mode), Room(dst, cap)))
  {
    hide PackCols, Finish;
  }

  lemma {:induction false} RoomGiven(dst: array?<byte>, cap: nat)
    ensures Room(dst, cap).Some? <==> dst != null
  {
  }

  lemma {:induction false} KnownDone(j: Job, b: Before, m1: seq<byte>, u1: seq<byte>, p: Outcome<Packed>, spec: Outcome<Compressed>,
    r: Outcome<nat>, header: EntityHeader)
    requires LoopOver(j, b, m1, u1, p) && j.at == HeaderSize(j.c.mode) && (j.dst != null ==> j.at <= j.cap)
    requires KnownSpec(j.chunk, j.ct, j.c, b.mopt, j.dst, j.cap, spec)
    requires if p.Err? then r == Err(p.error) else
      var h := ChunkHeader(j.c, |j.chunk|, HeaderSize(j.c.mode) + |p.value.bytes|);
      && header == h && r == if j.dst != null && !HeaderFits(h) then Err(EntityHeaderError) else Ok(HeaderSize(j.c.mode) + |p.value.bytes|)
    ensures ChunkDone(j.chunk, j.c.mode, j.dst, b.m0, m1, j.cap, j.up != null, b.u0, u1, spec, r, header)
  {
    hide *;
    SpecIs(j, b, m1, u1, p);
    JobParts(j, b);
    KnownParts(j.chunk, j.ct, j.c, b.mopt, j.dst, j.cap, spec);
    RoomGiven(j.dst, j.cap);
    FinishCases(j.c, |j.chunk|, Room(j.dst, j.cap), p);
    PackedIsDone(j, b, m1, u1, p, spec, r, header);
  }
}
