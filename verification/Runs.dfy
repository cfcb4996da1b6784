/** Runs over many chunks, and the repository's own round trip check on real buffers. */
module Runs {
  import opened Bytes
  import opened Golomb
  import opened Params
  import opened Errors
  import opened ValueEncoder
  import opened CompressLoop
  import opened DataTypes
  import opened Config
  import opened CollectionCode
  import opened CollectionWriter
  import opened ChunkCode
  import opened ChunkBounds
  import opened Entity
  import opened ChunkCompressor
  import opened CollectionDecompressor
  import opened EntityDecompressor
  import opened RoundTrip

  /** One chunk of a run, with its own parameters and destination size. */
  datatype Step = Step(chunk: seq<byte>, capacity: nat, par: CmpPar)

  /** The contents of a model buffer after an update in place. */
  function NextModel(mode: CmpMode, update: seq<byte>, model: seq<byte>): (m: seq<byte>)
    ensures |m| == |model|
  {
    if mode.IsModel() && |update| <= |model| then Splice(model, 0, update) else model
  }

  /** Compresses chunk after chunk, each with the model that the one before left. */
  function CompressRun(steps: seq<Step>, model: seq<byte>): (r: Option<(seq<Compressed>, seq<byte>)>)
    requires forall i :: 0 <= i < |steps| ==> |steps[i].chunk| == |model|
    ensures r.Some? ==> |r.value.0| == |steps|
  {
    if steps == [] then Some(([], model))
    else
      var s := steps[0];
      match CompressSpec(s.chunk, Some(model), Some(s.capacity), s.par)
      case Err(_) => None
      case Ok(e) =>
        match CompressRun(steps[1..], NextModel(s.par.mode, e.model, model))
        case None => None
        case Some((es, m)) => Some(([e] + es, m))
  }

  /** Decompresses entity after entity, each with the model that the one before left;
      only the headers and the data of the entities are used. */
  function DecompressRun(es: seq<Compressed>, model: seq<byte>): (r: Option<(seq<seq<byte>>, seq<byte>)>)
  {
    if es == [] then Some(([], model))
    else
      var h := es[0].header;
      if |h.pairs| != 6 || !HeaderFits(h) || h.originalSize != |model| then None
      else
        match DecompressSpec(h, es[0].data, Some(model))
        case None => None
        case Some(p) =>
          match DecompressRun(es[1..], NextModel(h.mode, p.model, model))
          case None => None
          case Some((chunks, m)) => Some(([p.bytes] + chunks, m))
  }

  function Chunks(steps: seq<Step>): (c: seq<seq<byte>>)
    ensures |c| == |steps|
  {
    if steps == [] then [] else [steps[0].chunk] + Chunks(steps[1..])
  }

  /** LOCKSTEP. After any number of chunks, in any order of modes and with any mix of
      compressed and raw collections, both sides hold the same model, and every chunk
      came back exactly. */
  lemma {:induction false} ModelsStayInLockstep(steps: seq<Step>, model: seq<byte>)
    requires forall i :: 0 <= i < |steps| ==> |steps[i].chunk| == |model|
    requires CompressRun(steps, model).Some?
    ensures DecompressRun(CompressRun(steps, model).value.0, model) == Some((Chunks(steps), CompressRun(steps, model).value.1))
  {
    hide CompressSpec, DecompressSpec, NextModel, HeaderFits, CmpDataSize;
    if steps == [] {
    } else {
      var s := steps[0];
      var e := CompressSpec(s.chunk, Some(model), Some(s.capacity), s.par).value;
      var next := NextModel(s.par.mode, e.model, model);
      ChunkRoundTrip(s.chunk, Some(model), s.capacity, s.par);
      HeaderMode(s.chunk, Some(model), s.capacity, s.par);
      ModelsStayInLockstep(steps[1..], next);
      var es := CompressRun(steps[1..], next).value.0;
      assert ([e] + es)[0] == e && ([e] + es)[1..] == es;
    }
  }

  lemma {:induction false} HeaderMode(chunk: seq<byte>, model: Option<seq<byte>>, capacity: nat, par: CmpPar)
    requires (model.Some? ==> |model.value| == |chunk|) && CompressSpec(chunk, model, Some(capacity), par).Ok?
    ensures CompressSpec(chunk, model, Some(capacity), par).value.header.mode == par.mode
    ensures CompressSpec(chunk, model, Some(capacity), par).value.header.size
      == HeaderSize(par.mode) + |CompressSpec(chunk, model, Some(capacity), par).value.data|
  {
    CompressedParts(chunk, model, Some(capacity), par);
    hide CompressSpec, PackCols, HeaderFits;
  }

  //// chunk_round_trip

  /** The updated model of a compressed chunk has the size of the chunk. */
  lemma {:induction false} UpdateSize(chunk: seq<byte>, mode: CmpMode, dst: array?<byte>, m0: seq<byte>, m1: seq<byte>, cap: nat,
    hasUp: bool, u0: seq<byte>, u1: seq<byte>, spec: Outcome<Compressed>, r: Outcome<nat>, header: EntityHeader)
    requires ChunkDone(chunk, mode, dst, m0, m1, cap, hasUp, u0, u1, spec, r, header) && r.Ok?
    ensures spec.Ok? && r.value == spec.value.header.size
    ensures dst != null ==>
      && header == spec.value.header && HeaderSize(mode) + |spec.value.data| <= |m1|
      && m1[HeaderSize(mode)..HeaderSize(mode) + |spec.value.data|] == spec.value.data
    ensures mode.IsModel() && hasUp && |u0| == |chunk| ==> u1 == spec.value.model
    ensures !(mode.IsModel() && hasUp) ==> u1 == u0
  {
  }

  lemma {:induction false} EntityParts(h: ChunkEntity, data: seq<byte>, s: Option<Packed>, hasModel: bool, dst: array?<byte>, m0: seq<byte>,
    m1: seq<byte>, hasUp: bool, u0: seq<byte>, u1: seq<byte>, r: int)
    requires EntityRead(h, data, s, hasModel, dst, m0, m1, hasUp, u0, u1, r) && s.Some?
    ensures r == h.originalSize
    ensures dst != null && |m0| == |s.value.bytes| ==> m1 == s.value.bytes
    ensures dst != null && h.mode.IsModel() && hasUp && |u0| == |s.value.model| ==> u1 == s.value.model
  {
  }

  /** The second half of chunk_round_trip: both decompressions of a compressed chunk. */
  method CheckDecompression(chunk: seq<byte>, model: array?<byte>, ghost mopt: Option<seq<byte>>, capacity: nat, par: CmpPar,
    h: EntityHeader, data: seq<byte>, ghost update: seq<byte>, useDecmpBuf: bool, useDecmpUpModel: bool)
    returns (drySize: int, size: int, decmpData: array?<byte>, upModel: array?<byte>)
    requires (model != null ==> model.Length == |chunk|) && mopt == ModelOf(model != null, model, 0, |chunk|)
    requires (mopt.Some? ==> |mopt.value| == |chunk|) && CompressSpec(chunk, mopt, Some(capacity), par).Ok?
    requires var e := CompressSpec(chunk, mopt, Some(capacity), par).value; h == e.header && data == e.data && update == e.model
    ensures drySize == |chunk| == size
    ensures useDecmpBuf <==> decmpData != null
    ensures useDecmpUpModel <==> upModel != null
    ensures useDecmpBuf ==> MemOf(decmpData) == chunk
    ensures useDecmpBuf && useDecmpUpModel && par.mode.IsModel() && |update| == |chunk| ==> MemOf(upModel) == update
    ensures (decmpData != null ==> fresh(decmpData)) && (upModel != null ==> fresh(upModel))
  {
    hide *;
    RoundTrip.ChunkRoundTrip(chunk, mopt, capacity, par);
    HeaderMode(chunk, mopt, capacity, par);
    var ent: ChunkEntity := h;
    ghost var whole := Some(Packed(chunk, update));
    drySize := DecompressCmpEntity(ent, data, model, null, null);
    EntityParts(ent, data, whole, model != null, null, MemOf(null), MemOf(null), false, MemOf(null), MemOf(null), drySize);
    decmpData, upModel := null, null;
    if useDecmpBuf { decmpData := new byte[|chunk|]; }
    if useDecmpUpModel { upModel := new byte[|chunk|]; }
    ghost var m0, u0 := MemOf(decmpData), MemOf(upModel);
    SizeOfMem(decmpData);
    SizeOfMem(upModel);
    size := DecompressCmpEntity(ent, data, model, upModel, decmpData);
    EntityParts(ent, data, whole, model != null, decmpData, m0, MemOf(decmpData), upModel != null, u0, MemOf(upModel), size);
  }

  lemma {:induction false} SizeOfMem(a: array?<byte>)
    ensures a != null ==> |MemOf(a)| == a.Length
  {
  }

  /** The model is needed again after an update in place. */
  method CopyModel(model: array<byte>) returns (copy: array<byte>)
    ensures fresh(copy) && copy.Length == model.Length && copy[..] == model[..]
  {
    copy := new byte[model.Length];
    CopyBytes(copy, 0, model[..]);
  }

  lemma {:induction false} SameModelOf(a: array?<byte>, b: array?<byte>, n: nat)
    requires (a != null <==> b != null) && (a != null ==> a.Length == b.Length == n && a[..] == b[..])
    ensures ModelOf(a != null, a, 0, n) == ModelOf(b != null, b, 0, n)
    ensures ModelOf(a != null, a, 0, n).Some? ==> |ModelOf(a != null, a, 0, n).value| == n
  {
    if a != null { assert a[0..n] == a[..] && b[0..n] == b[..]; }
  }

  lemma {:induction false} DryIsSame(chunk: seq<byte>, model: Option<seq<byte>>, dst: array?<byte>, cap: nat, par: CmpPar)
    requires (model.Some? ==> |model.value| == |chunk|) && CompressSpec(chunk, model, Room(dst, cap), par).Ok?
    ensures CompressSpec(chunk, model, Room(null, cap), par) == CompressSpec(chunk, model, Room(dst, cap), par)
    ensures dst != null ==> Room(dst, cap) == Some(cap)
  {
    hide CompressSpec;
    if dst != null { DryRunIsRealRun(chunk, model, cap, par); }
  }

  /** The repository's check of a chunk: a second run without a destination gives the same
      size, and both decompressions succeed; with buffers they give back the chunk and, in
      the model modes, the updated model, also when it was updated in place. */
  method CheckChunkRoundTrip(chunk: seq<byte>, model: array?<byte>, up: array?<byte>, dst: array?<byte>, dstCapacity: nat, par: CmpPar,
    useDecmpBuf: bool, useDecmpUpModel: bool)
    returns (cmpSize: Outcome<nat>, cmpSize2: Outcome<nat>, drySize: int, decmpSize: int, decmpData: array?<byte>, upModel: array?<byte>)
    requires (model != null ==> model.Length == |chunk|) && (up != null ==> up.Length == |chunk|)
    requires dst != null ==> dstCapacity <= dst.Length && dst != model && dst != up
    modifies dst, up
    ensures old(ModelOf(model != null, model, 0, |chunk|)).Some? ==> |old(ModelOf(model != null, model, 0, |chunk|)).value| == |chunk|
    ensures var spec := CompressSpec(chunk, old(ModelOf(model != null, model, 0, |chunk|)), Room(dst, dstCapacity), par);
      cmpSize == if spec.Ok? then Ok(spec.value.header.size) else Err(spec.error)
    ensures cmpSize2 == cmpSize
    ensures cmpSize.Ok? && dst != null ==> drySize == |chunk| == decmpSize
    ensures cmpSize.Ok? && dst != null && useDecmpBuf ==> decmpData != null && MemOf(decmpData) == chunk
    ensures cmpSize.Ok? && dst != null && useDecmpBuf && useDecmpUpModel && up != null && par.mode.IsModel() ==>
      upModel != null && MemOf(upModel) == MemOf(up)
  {
    hide *;
    drySize, decmpSize, decmpData, upModel := 0, 0, null, null;
    var inPlace := model != null && up == model;
    var modelCpy := model;
    if inPlace { modelCpy := CopyModel(model); }
    SameModelOf(model, modelCpy, |chunk|);
    ghost var mopt, m0, u0 := ModelOf(model != null, model, 0, |chunk|), MemOf(dst), MemOf(up);
    SizeOfMem(up);
    var header;
    cmpSize, header := CompressChunk(chunk, model, up, dst, dstCapacity, par);
    ghost var spec := CompressSpec(chunk, mopt, Room(dst, dstCapacity), par);
    OutcomeOf(chunk, par.mode, dst, m0, MemOf(dst), dstCapacity, up != null, u0, MemOf(up), spec, cmpSize, header);
    cmpSize2 := cmpSize;
    if cmpSize.Err? { return; }
    UpdateSize(chunk, par.mode, dst, m0, MemOf(dst), dstCapacity, up != null, u0, MemOf(up), spec, cmpSize, header);
    DryIsSame(chunk, mopt, dst, dstCapacity, par);
    if inPlace { RestoreModel(up, modelCpy); }
    SameModelOf(model, modelCpy, |chunk|);
    SizeOfMem(up);
    ghost var u1 := MemOf(up);
    var header2;
    cmpSize2, header2 := CompressChunk(chunk, model, up, null, dstCapacity, par);
    OutcomeOf(chunk, par.mode, null, MemOf(null), MemOf(null), dstCapacity, up != null, u1, MemOf(up), spec, cmpSize2, header2);
    UpdateSize(chunk, par.mode, null, MemOf(null), MemOf(null), dstCapacity, up != null, u1, MemOf(up), spec, cmpSize2, header2);
    if dst != null {
      HeaderMode(chunk, mopt, dstCapacity, par);
      SizeOfMem(dst);
      var data := dst[HeaderSize(par.mode)..cmpSize.value];
      DataInDst(dst, HeaderSize(par.mode), cmpSize.value);
      drySize, decmpSize, decmpData, upModel := CheckDecompression(chunk, modelCpy, mopt, dstCapacity, par, header, data, spec.value.model,
        useDecmpBuf, useDecmpUpModel);
      SizeOfMem(up);
    }
  }

  lemma {:induction false} OutcomeOf(chunk: seq<byte>, mode: CmpMode, dst: array?<byte>, m0: seq<byte>, m1: seq<byte>, cap: nat,
    hasUp: bool, u0: seq<byte>, u1: seq<byte>, spec: Outcome<Compressed>, r: Outcome<nat>, header: EntityHeader)
    requires ChunkDone(chunk, mode, dst, m0, m1, cap, hasUp, u0, u1, spec, r, header)
    ensures r == if spec.Ok? then Ok(spec.value.header.size) else Err(spec.error)
  {
  }

  lemma {:induction false} DataInDst(dst: array<byte>, lo: nat, hi: nat)
    requires lo <= hi <= dst.Length
    ensures dst[lo..hi] == MemOf(dst)[lo..hi]
  {
  }

  /** memcpy of the saved model over the updated one. */
  method RestoreModel(up: array<byte>, copy: array<byte>)
    requires up.Length == copy.Length && up != copy
    modifies up
    ensures up[..] == copy[..]
  {
    CopyBytes(up, 0, copy[..]);
  }
}
