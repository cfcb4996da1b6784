/** How large a packed chunk can get, which errors can occur, and how its size fields are walked. */
module ChunkBounds {
  import opened Bits
  import opened Bytes
  import opened Golomb
  import opened BitWriter
  import opened Params
  import opened Errors
  import opened DataTypes
  import opened Endian
  import opened Config
  import opened CollectionCode
  import opened ChunkCode

  const GENERIC_HEADER_SIZE: nat := 32
  const NON_IMAGETTE_HEADER_SIZE: nat := 64
  const CMP_ENTITY_MAX_SIZE: nat := 0xFF_FFFF
  const CMP_ENTITY_MAX_ORIGINAL_SIZE: nat := 0xFF_FFFF

  //// The size of one packed collection

  /** The largest size of a collection of n bytes when packed. */
  function Worst(mode: CmpMode, n: nat): nat { SizeFieldSize(mode) + n }

  /** Packing fails for lack of room only if there is less room than for the raw data. */
  lemma {:induction false} PackColSize(c: CfgSix, col: seq<byte>, model: Option<seq<byte>>, at: nat, room: Option<nat>)
    requires |col| >= COLLECTION_HDR_SIZE && |col| == ColSize(col) && !ColDataType(col).Unknown? && c.round == 0
    requires model.Some? ==> |model.value| == |col|
    ensures var r := PackCol(c, col, model, at, room);
      && (r.Ok? ==> |r.value.bytes| <= Worst(c.mode, |col|) && HasRoom(room, at + |r.value.bytes|))
      && (HasRoom(room, at + Worst(c.mode, |col|)) ==> r != Err(SmallBuffer))
  {
    hide PackData, Compresses, ConvertSubservice, GenParsAreValid, SpecificParsAreValid, U16At, SampleSize;
    if ColError(c, col, model.Some?).None? {
      ColDataValid(c, col, model);
      var start := at + SizeFieldSize(c.mode) + COLLECTION_HDR_SIZE;
      PackDataRoom(c, ColDataType(col), ColBody(col), ModelData(c, model), start, room);
    }
  }

  lemma {:induction false} PackDataRoom(c: CfgSix, dt: DataType, data: seq<byte>, mdl: Option<seq<byte>>, at: nat, room: Option<nat>)
    requires DataIsValid(c, dt, data, mdl)
    ensures var r := PackData(c, dt, data, mdl, at, room);
      && (r.Ok? && HasRoom(room, at) ==> |r.value.bytes| <= |data| && HasRoom(room, at + |r.value.bytes|))
      && (HasRoom(room, at + |data|) ==> r != Err(SmallBuffer))
      && (r.Err? ==> r.error == SmallBuffer)
  {
    if PackData(c, dt, data, mdl, at, room).Ok? && HasRoom(room, at) { PackDataSize(c, dt, data, mdl, at, room); }
    hide DataBits, DataModel, Compresses, CfgIsValid, SwapData, SampleSize;
  }

  /** Without a destination the outcome is the same, unless the room runs out. */
  lemma {:induction false} PackDataDry(c: CfgSix, dt: DataType, data: seq<byte>, mdl: Option<seq<byte>>, at: nat, room: Option<nat>)
    requires DataIsValid(c, dt, data, mdl)
    ensures PackData(c, dt, data, mdl, at, room) == Err(SmallBuffer)
         || PackData(c, dt, data, mdl, at, room) == PackData(c, dt, data, mdl, at, None)
  {
    hide DataBits, DataModel, Compresses, CfgIsValid, SwapData, SampleSize;
    if data != [] && !c.mode.IsRaw() { DryLimit(at, |data|, room, |DataBits(c, dt, data, mdl)|); }
  }

  lemma {:induction false} DryLimit(at: nat, len: nat, room: Option<nat>, n: nat)
    requires len > 0
    ensures Compresses(at, len, room, n) ==> Compresses(at, len, None, n)
    ensures HasRoom(room, at + len) ==> (Compresses(at, len, room, n) <==> Compresses(at, len, None, n))
  {
  }

  lemma {:induction false} PackColDry(c: CfgSix, col: seq<byte>, model: Option<seq<byte>>, at: nat, room: Option<nat>)
    requires |col| >= COLLECTION_HDR_SIZE && |col| == ColSize(col) && !ColDataType(col).Unknown? && c.round == 0
    requires model.Some? ==> |model.value| == |col|
    ensures PackCol(c, col, model, at, room) == Err(SmallBuffer)
         || PackCol(c, col, model, at, room) == PackCol(c, col, model, at, None)
  {
    hide PackData, Compresses, ConvertSubservice, GenParsAreValid, SpecificParsAreValid, U16At, SampleSize;
    if ColError(c, col, model.Some?).None? {
      ColDataValid(c, col, model);
      var start := at + SizeFieldSize(c.mode) + COLLECTION_HDR_SIZE;
      PackDataDry(c, ColDataType(col), ColBody(col), ModelData(c, model), start, room);
    }
  }

  //// Whole chunks

  /** What a chunk with k collections can take at most. */
  function WorstCase(mode: CmpMode, size: nat, k: nat): nat
  {
    MulNonneg(k, SizeFieldSize(mode));
    size + k * SizeFieldSize(mode)
  }

  lemma {:induction false} WorstStep(mode: CmpMode, size: nat, n: nat, k: nat)
    requires n <= size
    ensures WorstCase(mode, size, k + 1) == Worst(mode, n) + WorstCase(mode, size - n, k)
    ensures WorstCase(mode, 0, 0) == 0
  {
  }

  /** A chunk that packs consists of whole collections and takes at most the worst case. */
  lemma {:induction false} PackedSize(c: CfgSix, ct: ChunkType, chunk: seq<byte>, model: Option<seq<byte>>, at: nat, room: Option<nat>)
    requires !ct.UnknownChunk? && c.round == 0 && (model.Some? ==> |model.value| == |chunk|)
    requires PackCols(c, ct, chunk, model, at, room).Ok? && HasRoom(room, at)
    ensures var p := PackCols(c, ct, chunk, model, at, room).value;
      CountCols(chunk).Some? && |p.bytes| <= WorstCase(c.mode, |chunk|, CountCols(chunk).value)
      && HasRoom(room, at + |p.bytes|)
    decreases |chunk|
  {
    hide *;
    if chunk == [] {
      CountNothing();
      NothingPacked(c, ct, model, at, room);
      WorstStep(c.mode, 0, 0, 0);
      RoomIs(room, at);
    } else {
      var n, p, q := PackColsStep(c, ct, chunk, model, at, room);
      PackColSize(c, chunk[..n], ModelFront(model, n), at, room);
      PackedSize(c, ct, chunk[n..], ModelBack(model, n), at + |p.bytes|, room);
      CountStep(chunk);
      WorstStep(c.mode, |chunk|, n, CountCols(chunk[n..]).value);
      assert at + |p.bytes| + |q.bytes| == at + |p.bytes + q.bytes|;
    }
  }

  lemma {:induction false} RoomIs(room: Option<nat>, at: nat)
    requires HasRoom(room, at)
    ensures HasRoom(room, at + 0)
    ensures forall n: nat :: n <= at ==> HasRoom(room, n)
  {
  }

  /** The error of a chunk that does not start with a collection of its type. */
  function NoColError(ct: ChunkType, chunk: seq<byte>): (e: CmpError)
    ensures e == ChunkSubserviceInconsistent || e == ChunkSizeInconsistent
  {
    if |chunk| >= COLLECTION_HDR_SIZE && ColChunkType(chunk) != ct then ChunkSubserviceInconsistent
    else ChunkSizeInconsistent
  }

  /** A chunk of which the first collection may not pack; n is 0 if there is none that
      could be packed, and else r is what packing it gives. */
  lemma {:induction false} PackColsCases(c: CfgSix, ct: ChunkType, chunk: seq<byte>, model: Option<seq<byte>>, at: nat, room: Option<nat>)
    returns (n: nat, r: Outcome<Packed>)
    requires !ct.UnknownChunk? && c.round == 0 && (model.Some? ==> |model.value| == |chunk|) && chunk != []
    ensures n == 0 ==> PackCols(c, ct, chunk, model, at, room) == Err(NoColError(ct, chunk))
    ensures n == 0 <==> |chunk| < COLLECTION_HDR_SIZE || ColChunkType(chunk) != ct || ColSize(chunk) > |chunk|
    ensures n > 0 ==>
      && |chunk| >= COLLECTION_HDR_SIZE && n == ColSize(chunk) <= |chunk|
      && |chunk[..n]| == n == ColSize(chunk[..n]) && n >= COLLECTION_HDR_SIZE
      && !ColDataType(chunk[..n]).Unknown? && !IsFastCadence(ColDataType(chunk[..n]))
      && ModelFront(model, n).Some? == model.Some? == ModelBack(model, n).Some?
      && (model.Some? ==> |ModelFront(model, n).value| == n && |ModelBack(model, n).value| == |chunk| - n)
      && r == PackCol(c, chunk[..n], ModelFront(model, n), at, room)
      && (r.Err? ==> PackCols(c, ct, chunk, model, at, room) == Err(r.error))
      && (r.Ok? ==>
            PackCols(c, ct, chunk, model, at, room)
              == Then(r.value, PackCols(c, ct, chunk[n..], ModelBack(model, n), at + |r.value.bytes|, room)))
  {
    hide PackCol, ConvertSubservice, ChunkTypeOfSubservice, ColDataLength, ColSubservice, U16At;
    n, r := 0, Err(Generic);
    if |chunk| >= COLLECTION_HDR_SIZE && ColChunkType(chunk) == ct && ColSize(chunk) <= |chunk| {
      n := ColSize(chunk);
      FirstCollection(chunk);
      ModelParts(model, n);
      hide ModelFront, ModelBack, ColSize, ColDataType, ColChunkType, IsFastCadence, Then, ColHeader, ColBody;
      r := PackCol(c, chunk[..n], ModelFront(model, n), at, room);
    }
  }

  lemma {:induction false} ThenFails(p: Packed, rest: Outcome<Packed>)
    ensures rest.Err? ==> Then(p, rest) == Err(rest.error)
    ensures rest.Ok? <==> Then(p, rest).Ok?
  {
  }

  /** With room for the worst case, packing never fails for lack of room. */
  lemma {:induction false} EnoughRoom(c: CfgSix, ct: ChunkType, chunk: seq<byte>, model: Option<seq<byte>>, at: nat, room: Option<nat>)
    requires !ct.UnknownChunk? && c.round == 0 && (model.Some? ==> |model.value| == |chunk|)
    requires CountCols(chunk).Some? && HasRoom(room, at + WorstCase(c.mode, |chunk|, CountCols(chunk).value))
    ensures PackCols(c, ct, chunk, model, at, room) != Err(SmallBuffer)
    decreases |chunk|
  {
    hide *;
    if chunk == [] {
      NothingPacked(c, ct, model, at, room);
    } else {
      var n, r := PackColsCases(c, ct, chunk, model, at, room);
      if n > 0 {
        CountStep(chunk);
        PackColSize(c, chunk[..n], ModelFront(model, n), at, room);
        WorstStep(c.mode, |chunk|, n, CountCols(chunk[n..]).value);
        RoomIs(room, at + WorstCase(c.mode, |chunk|, CountCols(chunk).value));
        if r.Ok? {
          EnoughRoom(c, ct, chunk[n..], ModelBack(model, n), at + |r.value.bytes|, room);
          ThenFails(r.value, PackCols(c, ct, chunk[n..], ModelBack(model, n), at + |r.value.bytes|, room));
        }
      }
    }
  }

  /** A dry run, which has no destination, gives the same result for every chunk, unless
      the room of the destination runs out. */
  lemma {:induction false} DryRunAgrees(c: CfgSix, ct: ChunkType, chunk: seq<byte>, model: Option<seq<byte>>, at: nat, room: Option<nat>)
    requires !ct.UnknownChunk? && c.round == 0 && (model.Some? ==> |model.value| == |chunk|)
    ensures PackCols(c, ct, chunk, model, at, room) == Err(SmallBuffer)
         || PackCols(c, ct, chunk, model, at, room) == PackCols(c, ct, chunk, model, at, None)
    decreases |chunk|
  {
    hide *;
    if chunk == [] {
      NothingPacked(c, ct, model, at, room);
      NothingPacked(c, ct, model, at, None);
    } else {
      var n, r := PackColsCases(c, ct, chunk, model, at, room);
      var n', r' := PackColsCases(c, ct, chunk, model, at, None);
      if n > 0 {
        PackColDry(c, chunk[..n], ModelFront(model, n), at, room);
        if r.Ok? {
          DryRunAgrees(c, ct, chunk[n..], ModelBack(model, n), at + |r.value.bytes|, room);
          ThenFails(r.value, PackCols(c, ct, chunk[n..], ModelBack(model, n), at + |r.value.bytes|, room));
        }
      }
    }
  }

  //// The exact room

  /** The whole words of a room. */
  function RoundDownTo4(x: nat): nat { x / 4 * 4 }

  /** A result within the whole words of a room is never in the way of the limit of the
      bitstream writer, and any other needs the room for the raw data. */
  lemma {:induction false} FittingLimit(at: nat, len: nat, cap: nat, n: nat)
    requires len > 0
    ensures Compresses(at, len, None, n) ==>
      (Compresses(at, len, Some(cap), n) <==> at + len <= cap || at + (n + 7) / 8 <= RoundDownTo4(cap))
  {
  }

  /** Packed data at an offset fits a room exactly if it ends within the whole words of the
      room, or within the room when the room can also take the raw data. */
  lemma {:induction false} PackDataFits(c: CfgSix, dt: DataType, data: seq<byte>, mdl: Option<seq<byte>>, at: nat, cap: nat)
    requires DataIsValid(c, dt, data, mdl) && PackData(c, dt, data, mdl, at, None).Ok? && at <= cap
    ensures var p := PackData(c, dt, data, mdl, at, None).value;
      PackData(c, dt, data, mdl, at, Some(cap)).Ok? <==>
        at + |p.bytes| <= cap && (at + |p.bytes| <= RoundDownTo4(cap) || at + |data| <= cap)
  {
    SwapKeepsSize(c, dt, data, mdl);
    RoomOfWords(cap);
    if data != [] && !c.mode.IsRaw() {
      hide *;
      var n := |DataBits(c, dt, data, mdl)|;
      CodedOutcome(c, dt, data, mdl, at, None);
      CodedOutcome(c, dt, data, mdl, at, Some(cap));
      FittingLimit(at, |data|, cap, n);
      DryLimit(at, |data|, Some(cap), n);
      if Compresses(at, |data|, None, n) { CompressedBound(at, |data|, n); }
      RoundedDown(cap);
    } else {
      hide DataBits, DataModel, Compresses, DataIsValid, SwapData;
    }
  }

  lemma {:induction false} CompressedBound(at: nat, len: nat, n: nat)
    requires len > 0 && Compresses(at, len, None, n)
    ensures at + (n + 7) / 8 < at + len
  {
  }

  lemma {:induction false} RoundedDown(cap: nat)
    ensures RoundDownTo4(cap) <= cap < RoundDownTo4(cap) + 4
  {
  }

  /** Where the last collection of a chunk would end if it were stored raw. */
  function RawEnd(c: CfgSix, ct: ChunkType, chunk: seq<byte>, model: Option<seq<byte>>, at: nat): (end: nat)
    requires !ct.UnknownChunk? && c.round == 0 && (model.Some? ==> |model.value| == |chunk|)
    decreases |chunk|
  {
    if |chunk| < COLLECTION_HDR_SIZE || ColChunkType(chunk) != ct || ColSize(chunk) > |chunk| then at
    else
      FirstCollection(chunk);
      var n := ColSize(chunk);
      if n == |chunk| then at + SizeFieldSize(c.mode) + n
      else
        match PackCol(c, chunk[..n], ModelFront(model, n), at, None)
        case Err(_) => at
        case Ok(p) => RawEnd(c, ct, chunk[n..], ModelBack(model, n), at + |p.bytes|)
  }

  lemma {:induction false} RawEndStep(c: CfgSix, ct: ChunkType, chunk: seq<byte>, model: Option<seq<byte>>, at: nat, n: nat, p: Packed)
    requires !ct.UnknownChunk? && c.round == 0 && (model.Some? ==> |model.value| == |chunk|)
    requires |chunk| >= COLLECTION_HDR_SIZE && ColChunkType(chunk) == ct && n == ColSize(chunk) <= |chunk|
    requires |chunk[..n]| == n == ColSize(chunk[..n]) && !ColDataType(chunk[..n]).Unknown? && n >= COLLECTION_HDR_SIZE
    requires model.Some? ==> |ModelFront(model, n).value| == n && |ModelBack(model, n).value| == |chunk| - n
    requires ModelFront(model, n).Some? == model.Some? == ModelBack(model, n).Some?
    requires PackCol(c, chunk[..n], ModelFront(model, n), at, None) == Ok(p)
    ensures RawEnd(c, ct, chunk, model, at)
      == if n == |chunk| then at + SizeFieldSize(c.mode) + n else RawEnd(c, ct, chunk[n..], ModelBack(model, n), at + |p.bytes|)
  {
    hide PackCol, ColSize, ColDataType, ColChunkType, ModelFront, ModelBack;
  }

  /** The same for a collection with its header. */
  lemma {:induction false} PackColFits(c: CfgSix, col: seq<byte>, model: Option<seq<byte>>, at: nat, cap: nat)
    requires |col| >= COLLECTION_HDR_SIZE && |col| == ColSize(col) && !ColDataType(col).Unknown? && c.round == 0
    requires (model.Some? ==> |model.value| == |col|) && PackCol(c, col, model, at, None).Ok?
    ensures var end := at + |PackCol(c, col, model, at, None).value.bytes|;
      PackCol(c, col, model, at, Some(cap)).Ok? <==>
        end <= cap && (end <= RoundDownTo4(cap) || at + SizeFieldSize(c.mode) + |col| <= cap)
    ensures |PackCol(c, col, model, at, None).value.bytes| >= SizeFieldSize(c.mode) + COLLECTION_HDR_SIZE
  {
    hide PackData, ColDataType, GenParsAreValid, SpecificParsAreValid, ColSize, ColHeader, ColBody, SizeField, SizeFieldSize, SampleSize,
      RoundDownTo4;
    ColDataValid(c, col, model);
    var start := at + SizeFieldSize(c.mode) + COLLECTION_HDR_SIZE;
    if start <= cap { PackDataFits(c, ColDataType(col), ColBody(col), ModelData(c, model), start, cap); }
  }

  /** A result ends within a room, and within the whole words of the room unless the room
      can also take the last collection raw. */
  predicate EndFits(end: nat, rawEnd: nat, cap: nat)
  {
    end <= cap && (end <= RoundDownTo4(cap) || rawEnd <= cap)
  }

  /** What a dry run packs fits a room exactly if its end does. An earlier collection than
      the last is never in the way, since at least a header follows it. */
  lemma {:induction false} RoomFits(c: CfgSix, ct: ChunkType, chunk: seq<byte>, model: Option<seq<byte>>, at: nat, cap: nat)
    requires !ct.UnknownChunk? && c.round == 0 && (model.Some? ==> |model.value| == |chunk|) && at <= cap
    requires PackCols(c, ct, chunk, model, at, None).Ok?
    ensures var end := at + |PackCols(c, ct, chunk, model, at, None).value.bytes|;
      PackCols(c, ct, chunk, model, at, Some(cap)).Ok? <==> EndFits(end, RawEnd(c, ct, chunk, model, at), cap)
    decreases |chunk|
  {
    hide *;
    if chunk == [] {
      RoundedDown(cap);
      NothingPacked(c, ct, model, at, Some(cap));
      NothingPacked(c, ct, model, at, None);
      RawEndNone(c, ct, model, at);
      EndFitsIs(at, at, cap);
    } else {
      var n, p, q := PackColsStep(c, ct, chunk, model, at, None);
      var n', r := PackColsCases(c, ct, chunk, model, at, Some(cap));
      SameFirst(c, ct, chunk, model, at, n);
      RawEndStep(c, ct, chunk, model, at, n, p);
      PackColFits(c, chunk[..n], ModelFront(model, n), at, cap);
      PackColDry(c, chunk[..n], ModelFront(model, n), at, Some(cap));
      var more := ModelBack(model, n);
      if n == |chunk| {
        NothingPacked(c, ct, more, at + |p.bytes|, Some(cap));
        NothingPacked(c, ct, more, at + |p.bytes|, None);
        assert chunk[n..] == [];
        ThenFails(p, Ok(Packed([], [])));
        EndFitsIs(at + |p.bytes|, RawEnd(c, ct, chunk, model, at), cap);
      } else {
        HeaderFollows(c, ct, chunk[n..], more, at + |p.bytes|);
        if at + |p.bytes| <= cap {
          RoomFits(c, ct, chunk[n..], more, at + |p.bytes|, cap);
          ThenFails(p, PackCols(c, ct, chunk[n..], more, at + |p.bytes|, Some(cap)));
        }
        NotInTheWay(at + |p.bytes|, |q.bytes|, cap);
        EndFitsIs(at + |p.bytes| + |q.bytes|, RawEnd(c, ct, chunk, model, at), cap);
      }
    }
  }

  lemma {:induction false} EndFitsIs(end: nat, rawEnd: nat, cap: nat)
    ensures EndFits(end, rawEnd, cap) <==> end <= cap && (end <= RoundDownTo4(cap) || rawEnd <= cap)
  {
  }

  lemma {:induction false} NotInTheWay(end: nat, more: nat, cap: nat)
    requires more >= COLLECTION_HDR_SIZE
    ensures end + more <= cap ==> end <= RoundDownTo4(cap) && end <= cap
  {
  }

  /** A chunk that packs starts with a collection of its type. */
  lemma {:induction false} SameFirst(c: CfgSix, ct: ChunkType, chunk: seq<byte>, model: Option<seq<byte>>, at: nat, n: nat)
    requires !ct.UnknownChunk? && c.round == 0 && (model.Some? ==> |model.value| == |chunk|)
    requires PackCols(c, ct, chunk, model, at, None).Ok? && |chunk| >= COLLECTION_HDR_SIZE
    ensures ColChunkType(chunk) == ct
  {
    hide PackCol, ColChunkType, ColSize;
  }

  lemma {:induction false} RawEndNone(c: CfgSix, ct: ChunkType, model: Option<seq<byte>>, at: nat)
    requires !ct.UnknownChunk? && c.round == 0 && (model.Some? ==> |model.value| == 0)
    ensures RawEnd(c, ct, [], model, at) == at
  {
  }

  /** Every packed chunk that is not empty takes at least a header. */
  lemma {:induction false} HeaderFollows(c: CfgSix, ct: ChunkType, chunk: seq<byte>, model: Option<seq<byte>>, at: nat)
    requires !ct.UnknownChunk? && c.round == 0 && (model.Some? ==> |model.value| == |chunk|) && chunk != []
    requires PackCols(c, ct, chunk, model, at, None).Ok?
    ensures |PackCols(c, ct, chunk, model, at, None).value.bytes| >= COLLECTION_HDR_SIZE
  {
    hide *;
    var n, p, q := PackColsStep(c, ct, chunk, model, at, None);
    PackColFits(c, chunk[..n], ModelFront(model, n), at, 0);
  }

  /** Packing into any room succeeds exactly if a dry run does and its end fits the room,
      and then the result is that of the dry run. */
  lemma {:induction false} RoomIsExact(c: CfgSix, ct: ChunkType, chunk: seq<byte>, model: Option<seq<byte>>, at: nat, cap: nat)
    requires !ct.UnknownChunk? && c.round == 0 && (model.Some? ==> |model.value| == |chunk|) && at <= cap
    ensures var full, dry := PackCols(c, ct, chunk, model, at, Some(cap)), PackCols(c, ct, chunk, model, at, None);
      && (full.Ok? <==> dry.Ok? && EndFits(at + |dry.value.bytes|, RawEnd(c, ct, chunk, model, at), cap))
      && (full.Ok? ==> full == dry) && (full.Err? ==> full == dry || full == Err(SmallBuffer))
  {
    hide *;
    DryRunAgrees(c, ct, chunk, model, at, Some(cap));
    if PackCols(c, ct, chunk, model, at, None).Ok? { RoomFits(c, ct, chunk, model, at, cap); }
  }

  lemma {:induction false} RoomOfWords(cap: nat)
    ensures forall n: nat :: HasRoom(Some(cap), n) <==> n <= cap
  {
  }

  //// Errors

  /** The errors that compressing the collections of a chunk can give. */
  predicate IsExpectedError(e: CmpError)
  {
    e == SmallBuffer || e == ParGeneric || e == ParSpecific || e == ParNoModel
    || e == ChunkSizeInconsistent || e == ChunkSubserviceInconsistent || e == ColSizeInconsistent
  }

  /** No input leads to an internal error. */
  lemma {:induction false} OnlyExpectedErrors(c: CfgSix, ct: ChunkType, chunk: seq<byte>, model: Option<seq<byte>>, at: nat, room: Option<nat>)
    requires !ct.UnknownChunk? && c.round == 0 && (model.Some? ==> |model.value| == |chunk|)
    requires PackCols(c, ct, chunk, model, at, room).Err?
    ensures IsExpectedError(PackCols(c, ct, chunk, model, at, room).error)
    decreases |chunk|
  {
    SizeErrorsExpected();
    hide *;
    if chunk == [] {
      NothingPacked(c, ct, model, at, room);
    } else {
      var n, r := PackColsCases(c, ct, chunk, model, at, room);
      if n > 0 {
        PackColErrors(c, chunk[..n], ModelFront(model, n), at, room);
        if r.Ok? {
          var rest := PackCols(c, ct, chunk[n..], ModelBack(model, n), at + |r.value.bytes|, room);
          ThenFails(r.value, rest);
          OnlyExpectedErrors(c, ct, chunk[n..], ModelBack(model, n), at + |r.value.bytes|, room);
        }
      }
    }
  }

  lemma {:induction false} SizeErrorsExpected()
    ensures IsExpectedError(ChunkSubserviceInconsistent) && IsExpectedError(ChunkSizeInconsistent)
  {
  }

  lemma {:induction false} PackColErrors(c: CfgSix, col: seq<byte>, model: Option<seq<byte>>, at: nat, room: Option<nat>)
    requires |col| >= COLLECTION_HDR_SIZE && |col| == ColSize(col) && !ColDataType(col).Unknown? && c.round == 0
    requires model.Some? ==> |model.value| == |col|
    ensures PackCol(c, col, model, at, room).Err? ==> IsExpectedError(PackCol(c, col, model, at, room).error)
  {
    hide PackData, ConvertSubservice, GenParsAreValid, SpecificParsAreValid, U16At, SampleSize;
    if ColError(c, col, model.Some?).None? {
      ColDataValid(c, col, model);
      PackDataRoom(c, ColDataType(col), ColBody(col), ModelData(c, model),
        at + SizeFieldSize(c.mode) + COLLECTION_HDR_SIZE, room);
    }
  }

  //// The size bound

  function RoundUpTo4(x: nat): nat { (x + 3) / 4 * 4 }

  /** COMPRESS_CHUNK_BOUND_UNSAFE */
  function BoundUnsafe(size: nat, numCol: nat): nat
  {
    RoundUpTo4(NON_IMAGETTE_HEADER_SIZE + numCol * CMP_COLLECTION_FILD_SIZE + size)
  }

  lemma {:induction false} BoundCoversWorst(mode: CmpMode, size: nat, k: nat)
    ensures HeaderSize(mode) + WorstCase(mode, size, k) <= BoundUnsafe(size, k)
  {
  }

  /** cmp_ent_build_chunk_header: the size of the entity header. */
  function HeaderSize(mode: CmpMode): nat
  {
    if mode.IsRaw() then GENERIC_HEADER_SIZE else NON_IMAGETTE_HEADER_SIZE
  }

  /** The result of compress_chunk_cmp_size_bound. */
  function SizeBound(chunk: seq<byte>): (r: Outcome<nat>)
  {
    if |chunk| < COLLECTION_HDR_SIZE then Err(ChunkSizeInconsistent)
    else if |chunk| > CMP_ENTITY_MAX_ORIGINAL_SIZE - NON_IMAGETTE_HEADER_SIZE - CMP_COLLECTION_FILD_SIZE then Err(ChunkTooLarge)
    else
      match CountCols(chunk)
      case None => Err(ChunkSizeInconsistent)
      case Some(k) => if BoundUnsafe(|chunk|, k) > CMP_ENTITY_MAX_SIZE then Err(ChunkTooLarge) else Ok(BoundUnsafe(|chunk|, k))
  }

  /** The bound in plain numbers: the larger entity header, 2 bytes for every collection and the
      chunk, up to the next multiple of 4. */
  lemma {:induction false} SizeBoundIs(chunk: seq<byte>, n: nat)
    ensures SizeBound(chunk) == Ok(n) <==>
      && 12 <= |chunk| <= 0xFF_FFFF - 66 && CountCols(chunk).Some?
      && n % 4 == 0 && n <= 0xFF_FFFF && n - 3 <= 64 + 2 * CountCols(chunk).value + |chunk| <= n
  {
    hide CountCols;
  }

  /** compress_chunk_cmp_size_bound */
  method CompressChunkCmpSizeBound(chunk: seq<byte>) returns (r: Outcome<nat>)
    ensures r == SizeBound(chunk)
  {
    if |chunk| < COLLECTION_HDR_SIZE { return Err(ChunkSizeInconsistent); }
    var maxChunkSize := CMP_ENTITY_MAX_ORIGINAL_SIZE - NON_IMAGETTE_HEADER_SIZE - CMP_COLLECTION_FILD_SIZE;
    if |chunk| > maxChunkSize { return Err(ChunkTooLarge); }
    var numCol, readBytes := 0, 0;
    assert chunk[0..] == chunk;
    while readBytes + COLLECTION_HDR_SIZE <= |chunk|
      invariant readBytes <= |chunk| ==> Counted(chunk, numCol, chunk[readBytes..])
      invariant readBytes > |chunk| ==> CountCols(chunk).None?
      decreases |chunk| - readBytes
    {
      hide CountCols;
      CountFails(chunk[readBytes..]);
      var n := ColSize(chunk[readBytes..]);
      if readBytes + n <= |chunk| {
        CountStep(chunk[readBytes..]);
        assert chunk[readBytes..][n..] == chunk[readBytes + n..];
      }
      readBytes := readBytes + n;
      numCol := numCol + 1;
    }
    if readBytes != |chunk| {
      if readBytes < |chunk| { CountFails(chunk[readBytes..]); }
      return Err(ChunkSizeInconsistent);
    }
    var bound := BoundUnsafe(|chunk|, numCol);
    if bound > CMP_ENTITY_MAX_SIZE { return Err(ChunkTooLarge); }
    return Ok(bound);
  }

  /** k collections are counted and rest is left. */
  ghost predicate Counted(chunk: seq<byte>, k: nat, rest: seq<byte>)
  {
    CountCols(chunk) == if CountCols(rest).Some? then Some(k + CountCols(rest).value) else None
  }
}
