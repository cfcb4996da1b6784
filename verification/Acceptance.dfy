/** Which chunks are compressed: the exact condition on the chunk, its model and the
    parameters, and which parameter codes which field. */
module Acceptance {
  import opened Bits
  import opened Bytes
  import opened Words
  import opened Golomb
  import opened Params
  import opened ValueCode
  import opened Errors
  import opened BitReader
  import opened Samples
  import opened DataTypes
  import opened Config
  import opened CollectionCode
  import opened ChunkCode
  import opened ChunkBounds
  import opened Entity
  import opened Products

  //// Collections that pack

  /** A collection of the chunk type that passes all checks. */
  ghost predicate ColOk(c: CfgSix, ct: ChunkType, hasModel: bool, col: seq<byte>)
  {
    && |col| >= COLLECTION_HDR_SIZE && ColChunkType(col) == ct && !ColDataType(col).Unknown?
    && ColError(c, col, hasModel).None?
  }

  /** Without a limit on the room, only a check can fail. */
  lemma {:induction false} PackColIff(c: CfgSix, col: seq<byte>, model: Option<seq<byte>>, at: nat)
    requires |col| >= COLLECTION_HDR_SIZE && |col| == ColSize(col) && !ColDataType(col).Unknown? && c.round == 0
    requires model.Some? ==> |model.value| == |col|
    ensures PackCol(c, col, model, at, None).Ok? <==> ColError(c, col, model.Some?).None?
  {
    hide ColError, ColDataType, SizeField, DataIsValid, DataBits, DataModel, Compresses;
  }

  /** The collections pack exactly if they all pass, whatever the offsets and models are. */
  lemma {:induction false} PackColsIff(c: CfgSix, ct: ChunkType, chunk: seq<byte>, model: Option<seq<byte>>, at: nat, P: seq<byte> -> bool)
    requires !ct.UnknownChunk? && c.round == 0 && (model.Some? ==> |model.value| == |chunk|)
    requires forall col :: P(col) <==> ColOk(c, ct, model.Some?, col)
    ensures PackCols(c, ct, chunk, model, at, None).Ok? <==> CountCols(chunk).Some? && AllCols(chunk, P)
    decreases |chunk|
  {
    hide *;
    if chunk == [] {
      NothingPacked(c, ct, model, at, None);
      AllColsNone(P);
    } else {
      var n, r := PackColsCases(c, ct, chunk, model, at, None);
      CountFails(chunk);
      if n == 0 {
        NotFirst(c, ct, chunk, model.Some?, P);
      } else {
        CountStep(chunk);
        PackColIff(c, chunk[..n], ModelFront(model, n), at);
        ColOkIs(c, ct, model.Some?, chunk, n);
        if CountCols(chunk).Some? { AllColsStep(chunk, P); }
        if r.Ok? {
          PackColsIff(c, ct, chunk[n..], ModelBack(model, n), at + |r.value.bytes|, P);
          ThenFails(r.value, PackCols(c, ct, chunk[n..], ModelBack(model, n), at + |r.value.bytes|, None));
        }
      }
    }
  }

  lemma {:induction false} ColOkIs(c: CfgSix, ct: ChunkType, hasModel: bool, chunk: seq<byte>, n: nat)
    requires |chunk| >= COLLECTION_HDR_SIZE && n == ColSize(chunk) <= |chunk| && ColChunkType(chunk) == ct
    requires |chunk[..n]| == n >= COLLECTION_HDR_SIZE && !ColDataType(chunk[..n]).Unknown?
    ensures ColOk(c, ct, hasModel, chunk[..n]) <==> ColError(c, chunk[..n], hasModel).None?
  {
    FirstCollection(chunk);
    hide ColError, ColDataType, ColChunkType, ColSize;
  }

  lemma {:induction false} NotFirst(c: CfgSix, ct: ChunkType, chunk: seq<byte>, hasModel: bool, P: seq<byte> -> bool)
    requires |chunk| < COLLECTION_HDR_SIZE || ColChunkType(chunk) != ct || ColSize(chunk) > |chunk|
    requires chunk != [] && forall col :: P(col) <==> ColOk(c, ct, hasModel, col)
    ensures CountCols(chunk).Some? ==> !AllCols(chunk, P)
  {
    hide ColError, ColDataType, ColChunkType, ColSize, AllCols;
    CountFails(chunk);
    if CountCols(chunk).Some? {
      AllColsStep(chunk, P);
      FirstCollection(chunk);
    }
  }

  //// The condition in the user's terms

  /** All parameters of a product that are used are in range. */
  predicate ParsOfProductInRange(subservice: nat, p: CmpPar)
  {
    p.mode == Raw || forall i :: 0 <= i < |ProductFields(subservice, p)| ==> 1 <= ProductFields(subservice, p)[i].par <= 0xFFFF
  }

  /** A collection of one of the subservices with whole records, whose fields are coded by
      parameters in range; in raw mode no parameter is used. */
  ghost predicate ColAcceptable(col: seq<byte>, group: set<nat>, p: CmpPar)
  {
    && |col| >= COLLECTION_HDR_SIZE && ColSubservice(col) in group
    && var fields := ProductFields(ColSubservice(col), p);
       && fields != [] && RecordBytes(fields) > 0 && ColDataLength(col) % RecordBytes(fields) == 0
       && ParsOfProductInRange(ColSubservice(col), p)
  }

  /** All collections are acceptable as products of one group. */
  ghost predicate AllAcceptable(chunk: seq<byte>, g: nat, p: CmpPar)
    requires CountCols(chunk).Some? && g < |ProductGroups()|
  {
    forall i: nat :: i < CountCols(chunk).value ==> ColAcceptable(ColAt(chunk, i), ProductGroups()[g], p)
  }

  /** A chunk that compression accepts. */
  ghost predicate Acceptable(chunk: seq<byte>, hasModel: bool, p: CmpPar)
  {
    && 12 <= |chunk| <= 0xFF_FFFF && CountCols(chunk).Some? && ModeIsAcceptable(hasModel, p)
    && exists g: nat :: g < |ProductGroups()| && AllAcceptable(chunk, g, p)
  }

  /** The part of the condition that no collection decides. */
  predicate ModeIsAcceptable(hasModel: bool, p: CmpPar)
  {
    && (p.mode == Raw || p.mode == ModelZero || p.mode == DiffZero || p.mode == ModelMulti || p.mode == DiffMulti)
    && (p.mode == ModelZero || p.mode == ModelMulti ==> hasModel && p.modelValue <= 16)
  }

  /** The parameters of a product are valid exactly if they are in range. */
  lemma {:induction false} ParsInRange(subservice: nat, p: CmpPar)
    requires !ChunkTypeOfSubservice(subservice).UnknownChunk? && p.mode.IsSupported()
    ensures SpecificParsAreValid(InitCfg(ChunkTypeOfSubservice(subservice), p), ConvertSubservice(subservice)) <==>
      ParsOfProductInRange(subservice, p)
  {
    var fields, dt, c := ProductFields(subservice, p), ConvertSubservice(subservice), InitCfg(ChunkTypeOfSubservice(subservice), p);
    SlotCount(subservice, p);
    assert p.mode == Raw ==> forall i :: 0 <= i < |Layout(dt)| ==> (SlotIsValid(c, Layout(dt)[i]) <==> 1 <= Layout(dt)[i].par <= 6);
    assert MIN_GOLOMB_PAR == 1 && MAX_GOLOMB_PAR == 0xFFFF;
    hide ProductFields, ConvertSubservice, ChunkTypeOfSubservice, InitCfg, Layout, SlotIsValid;
    forall i | 0 <= i < |fields|
      ensures 1 <= Layout(dt)[i].par <= 6 && (p.mode != Raw ==> (SlotIsValid(c, Layout(dt)[i]) <==> 1 <= fields[i].par <= 0xFFFF))
    {
      SlotOfProduct(subservice, p, i);
      if p.mode != Raw { ThresholdsFitFields(subservice, p, i); }
    }
  }

  lemma {:induction false} ColOkParts(c: CfgSix, ct: ChunkType, hasModel: bool, col: seq<byte>)
    requires c.round == 0 && |col| >= COLLECTION_HDR_SIZE && !ColDataType(col).Unknown?
    ensures ColError(c, col, hasModel).None? <==>
      && ColDataLength(col) % SampleSize(ColDataType(col)) == 0 && SpecificParsAreValid(c, ColDataType(col))
      && c.mode.IsSupported() && (c.mode.IsModel() ==> hasModel && c.modelValue <= 16)
  {
    hide SpecificParsAreValid, SampleSize, ColDataType, ColDataLength;
  }

  lemma {:induction false} TypesOf(col: seq<byte>)
    requires |col| >= COLLECTION_HDR_SIZE
    ensures ColDataType(col) == ConvertSubservice(ColSubservice(col))
    ensures ColChunkType(col) == ChunkTypeOfSubservice(ColSubservice(col))
  {
  }

  lemma {:induction false} ModeParts(hasModel: bool, c: CfgSix, p: CmpPar)
    requires ModeIsAcceptable(hasModel, p) && c.mode == p.mode && c.modelValue == p.modelValue
    ensures p.mode.IsSupported() && c.mode.IsSupported() && (c.mode.IsModel() ==> hasModel && c.modelValue <= 16)
  {
  }

  lemma {:induction false} ColOkOf(c: CfgSix, ct: ChunkType, hasModel: bool, col: seq<byte>)
    requires |col| >= COLLECTION_HDR_SIZE && !ColDataType(col).Unknown?
    ensures ColOk(c, ct, hasModel, col) <==> ColChunkType(col) == ct && ColError(c, col, hasModel).None?
  {
    hide ColChunkType, ColDataType, ColError;
  }

  lemma {:induction false} ColAcceptableOf(col: seq<byte>, group: set<nat>, p: CmpPar, sub: nat)
    requires |col| >= COLLECTION_HDR_SIZE && sub == ColSubservice(col)
    requires |ProductFields(sub, p)| > 0 && RecordBytes(ProductFields(sub, p)) > 0 && sub in group
    ensures ColAcceptable(col, group, p) <==>
      && ColDataLength(col) % RecordBytes(ProductFields(sub, p)) == 0
      && ParsOfProductInRange(sub, p)
  {
    hide ProductFields, RecordBytes, ColDataLength, ColSubservice, ParsOfProductInRange;
  }

  lemma {:induction false} ColOkHere(p: CmpPar, ct: ChunkType, c: CfgSix, hasModel: bool, col: seq<byte>, group: set<nat>)
    requires !ct.UnknownChunk? && ModeIsAcceptable(hasModel, p) && c == InitCfg(ct, p)
    requires |col| >= COLLECTION_HDR_SIZE && ColChunkType(col) == ct && ColSubservice(col) in group
    ensures ColOk(c, ct, hasModel, col) <==> ColAcceptable(col, group, p)
  {
    hide *;
    var sub := ColSubservice(col);
    TypesOf(col);
    ChunkTypesAreCompressible(sub);
    CfgIs(ct, p);
    ModeParts(hasModel, c, p);
    ColOkParts(c, ct, hasModel, col);
    ColOkOf(c, ct, hasModel, col);
    SlotCount(sub, p);
    RecordSize(sub, p);
    ParsInRange(sub, p);
    ColAcceptableOf(col, group, p, sub);
  }

  lemma {:induction false} CfgIs(ct: ChunkType, p: CmpPar)
    ensures InitCfg(ct, p).mode == p.mode && InitCfg(ct, p).modelValue == p.modelValue && InitCfg(ct, p).round == 0
  {
  }

  lemma {:induction false} NotOfType(p: CmpPar, c: CfgSix, ct: ChunkType, hasModel: bool, col: seq<byte>, group: set<nat>)
    requires |col| < COLLECTION_HDR_SIZE || (ColChunkType(col) != ct && ColSubservice(col) !in group)
    ensures !ColOk(c, ct, hasModel, col) && !ColAcceptable(col, group, p)
  {
    hide ColChunkType, ColSubservice, ProductFields;
  }

  lemma {:induction false} ColOkIff(p: CmpPar, ct: ChunkType, hasModel: bool, col: seq<byte>)
    requires !ct.UnknownChunk? && ModeIsAcceptable(hasModel, p)
    ensures |ProductGroups()| == 7
    ensures ColOk(InitCfg(ct, p), ct, hasModel, col) <==> ColAcceptable(col, ProductGroups()[GroupOf(ct)], p)
  {
    hide *;
    GroupIs(ct, 0);
    var group := ProductGroups()[GroupOf(ct)];
    if |col| >= COLLECTION_HDR_SIZE {
      TypesOf(col);
      GroupIs(ct, ColSubservice(col));
      if ColChunkType(col) == ct {
        ColOkHere(p, ct, InitCfg(ct, p), hasModel, col, group);
      } else {
        NotOfType(p, InitCfg(ct, p), ct, hasModel, col, group);
      }
    } else {
      NotOfType(p, InitCfg(ct, p), ct, hasModel, col, group);
    }
  }

  lemma {:induction false} BadMode(p: CmpPar, ct: ChunkType, hasModel: bool, col: seq<byte>)
    requires !ct.UnknownChunk? && !ModeIsAcceptable(hasModel, p)
    ensures !ColOk(InitCfg(ct, p), ct, hasModel, col)
  {
    if |col| >= COLLECTION_HDR_SIZE && !ColDataType(col).Unknown? { ColOkParts(InitCfg(ct, p), ct, hasModel, col); }
    hide InitCfg, ColError, ColDataType;
  }

  //// Acceptance

  lemma {:induction false} AcceptableIs(chunk: seq<byte>, hasModel: bool, p: CmpPar)
    ensures Acceptable(chunk, hasModel, p) <==>
      && 12 <= |chunk| <= 0xFF_FFFF && CountCols(chunk).Some? && ModeIsAcceptable(hasModel, p)
      && exists g: nat :: g < |ProductGroups()| && AllAcceptable(chunk, g, p)
  {
    hide AllAcceptable, CountCols, ProductGroups;
  }

  lemma {:induction false} GroupIsUnique(g: nat, subservice: nat)
    requires g < |ProductGroups()| && subservice in ProductGroups()[g]
    ensures !ChunkTypeOfSubservice(subservice).UnknownChunk? && g == GroupOf(ChunkTypeOfSubservice(subservice))
  {
  }

  lemma {:induction false} FirstColumn(chunk: seq<byte>)
    requires 12 <= |chunk| && CountCols(chunk).Some?
    ensures |chunk| >= COLLECTION_HDR_SIZE && CountCols(chunk).value > 0
    ensures ColSubservice(ColAt(chunk, 0)) == ColSubservice(chunk) && ColChunkType(chunk) == ChunkTypeOfSubservice(ColSubservice(chunk))
  {
    ColAtStep(chunk, 0);
    FirstCollection(chunk);
    hide ColSize, ColSubservice, ColAt;
  }

  /** All collections are acceptable exactly if they pass the checks of the chunk's type. */
  lemma {:induction false} ColsAcceptable(chunk: seq<byte>, hasModel: bool, p: CmpPar, P: seq<byte> -> bool)
    requires |chunk| >= 12 && |chunk| >= COLLECTION_HDR_SIZE && CountCols(chunk).Some? && !ColChunkType(chunk).UnknownChunk?
    requires forall col :: P(col) <==> ColOk(InitCfg(ColChunkType(chunk), p), ColChunkType(chunk), hasModel, col)
    ensures AllCols(chunk, P) <==> ModeIsAcceptable(hasModel, p) && exists g: nat :: g < |ProductGroups()| && AllAcceptable(chunk, g, p)
  {
    hide *;
    var ct, n := ColChunkType(chunk), CountCols(chunk).value;
    FirstColumn(chunk);
    GroupIs(ct, 0);
    if !ModeIsAcceptable(hasModel, p) {
      BadMode(p, ct, hasModel, ColAt(chunk, 0));
      if AllCols(chunk, P) { AllColsAt(chunk, P, 0); }
    } else {
      var g := GroupOf(ct);
      forall i: nat | i < n
        ensures P(ColAt(chunk, i)) <==> ColAcceptable(ColAt(chunk, i), ProductGroups()[g], p)
      {
        ColOkIff(p, ct, hasModel, ColAt(chunk, i));
      }
      if AllCols(chunk, P) {
        forall i: nat | i < n
          ensures ColAcceptable(ColAt(chunk, i), ProductGroups()[g], p)
        {
          AllColsAt(chunk, P, i);
        }
        AllAcceptableOf(chunk, g, p);
      }
      if h: nat :| h < |ProductGroups()| && AllAcceptable(chunk, h, p) {
        AllAcceptableAt(chunk, h, p, 0);
        InGroup(ColAt(chunk, 0), ProductGroups()[h], p);
        GroupIsUnique(h, ColSubservice(chunk));
        forall i: nat | i < n
          ensures P(ColAt(chunk, i))
        {
          AllAcceptableAt(chunk, h, p, i);
        }
        AllColsOf(chunk, P);
      }
    }
  }

  lemma {:induction false} AllColsOf(chunk: seq<byte>, P: seq<byte> -> bool)
    requires CountCols(chunk).Some? && forall i: nat :: i < CountCols(chunk).value ==> P(ColAt(chunk, i))
    ensures AllCols(chunk, P)
  {
  }

  lemma {:induction false} AllColsAt(chunk: seq<byte>, P: seq<byte> -> bool, i: nat)
    requires CountCols(chunk).Some? && AllCols(chunk, P) && i < CountCols(chunk).value
    ensures P(ColAt(chunk, i))
  {
  }

  lemma {:induction false} AllAcceptableOf(chunk: seq<byte>, g: nat, p: CmpPar)
    requires CountCols(chunk).Some? && g < |ProductGroups()|
    requires forall i: nat :: i < CountCols(chunk).value ==> ColAcceptable(ColAt(chunk, i), ProductGroups()[g], p)
    ensures AllAcceptable(chunk, g, p)
  {
    hide ProductGroups, ColAcceptable;
  }

  lemma {:induction false} AllAcceptableAt(chunk: seq<byte>, g: nat, p: CmpPar, i: nat)
    requires CountCols(chunk).Some? && g < |ProductGroups()| && AllAcceptable(chunk, g, p) && i < CountCols(chunk).value
    ensures ColAcceptable(ColAt(chunk, i), ProductGroups()[g], p)
  {
    hide ProductGroups, ColAcceptable;
  }

  lemma {:induction false} InGroup(col: seq<byte>, group: set<nat>, p: CmpPar)
    requires ColAcceptable(col, group, p)
    ensures |col| >= COLLECTION_HDR_SIZE && ColSubservice(col) in group
  {
    hide ColSubservice, ProductFields;
  }

  lemma {:induction false} DryOk(c: CfgSix, n: nat, p: Outcome<Packed>)
    ensures Finish(c, n, None, p).Ok? <==> p.Ok?
    ensures HasRoom(None, HeaderSize(c.mode))
  {
    hide ChunkHeader, HeaderFits, HeaderSize;
  }

  lemma {:induction false} KnownChunkIs(chunk: seq<byte>)
    ensures IsKnownChunk(chunk) <==>
      12 <= |chunk| <= 0xFF_FFFF && |chunk| >= COLLECTION_HDR_SIZE && !ColChunkType(chunk).UnknownChunk?
  {
    hide ColChunkType;
  }

  lemma {:induction false} OnlyKnown(chunk: seq<byte>, hasModel: bool, p: CmpPar)
    requires Acceptable(chunk, hasModel, p)
    ensures IsKnownChunk(chunk)
  {
    hide *;
    AcceptableIs(chunk, hasModel, p);
    FirstColumn(chunk);
    KnownChunkIs(chunk);
    var g: nat :| g < |ProductGroups()| && AllAcceptable(chunk, g, p);
    AllAcceptableAt(chunk, g, p, 0);
    InGroup(ColAt(chunk, 0), ProductGroups()[g], p);
    GroupIsUnique(g, ColSubservice(chunk));
  }

  /** ACCEPTANCE. A dry run succeeds exactly for the chunks, models and parameters that are
      acceptable: nothing else is refused, and nothing else is let through. */
  lemma {:induction false} CompressionSucceeds(chunk: seq<byte>, model: Option<seq<byte>>, p: CmpPar)
    requires model.Some? ==> |model.value| == |chunk|
    ensures CompressSpec(chunk, model, None, p).Ok? <==> Acceptable(chunk, model.Some?, p)
  {
    hide *;
    CompressSpecIs(chunk, model, None, p);
    KnownChunkIs(chunk);
    AcceptableIs(chunk, model.Some?, p);
    if IsKnownChunk(chunk) {
      var ct, c := ColChunkType(chunk), InitCfg(ColChunkType(chunk), p);
      var P := (col: seq<byte>) => ColOk(c, ct, model.Some?, col);
      DryOk(c, |chunk|, PackCols(c, ct, chunk, model, HeaderSize(c.mode), None));
      PackColsIff(c, ct, chunk, model, HeaderSize(c.mode), P);
      if CountCols(chunk).Some? { ColsAcceptable(chunk, model.Some?, p, P); }
    } else if Acceptable(chunk, model.Some?, p) {
      OnlyKnown(chunk, model.Some?, p);
      assert false;
    }
  }

  //// Refusal

  /** Which error refuses a collection: that of the first condition that does not hold. */
  lemma {:induction false} RefusalIs(ct: ChunkType, p: CmpPar, hasModel: bool, col: seq<byte>)
    requires |col| >= COLLECTION_HDR_SIZE && !ct.UnknownChunk? && ColChunkType(col) == ct
    ensures !ColDataType(col).Unknown? && RecordBytes(ProductFields(ColSubservice(col), p)) > 0
    ensures var isModel := p.mode == ModelZero || p.mode == ModelMulti;
      ColError(InitCfg(ct, p), col, hasModel) ==
        if ColDataLength(col) % RecordBytes(ProductFields(ColSubservice(col), p)) != 0 then Some(ColSizeInconsistent)
        else if p.mode.Unsupported? || (isModel && p.modelValue > 16) then Some(ParGeneric)
        else if !ParsOfProductInRange(ColSubservice(col), p) then Some(ParSpecific)
        else if isModel && !hasModel then Some(ParNoModel)
        else None
  {
    hide *;
    var sub := ColSubservice(col);
    TypesOf(col);
    ChunkTypesAreCompressible(sub);
    RecordSize(sub, p);
    CfgIs(ct, p);
    ColErrorIs(InitCfg(ct, p), col, hasModel);
    SupportedIs(p.mode);
    if p.mode.IsSupported() { ParsInRange(sub, p); }
  }

  lemma {:induction false} SupportedIs(mode: CmpMode)
    ensures mode.IsSupported() <==> !mode.Unsupported?
    ensures mode.IsModel() <==> mode == ModelZero || mode == ModelMulti
  {
  }

  lemma {:induction false} ColErrorIs(c: CfgSix, col: seq<byte>, hasModel: bool)
    requires c.round == 0 && |col| >= COLLECTION_HDR_SIZE && !ColDataType(col).Unknown? && SampleSize(ColDataType(col)) > 0
    ensures ColError(c, col, hasModel) ==
      if ColDataLength(col) % SampleSize(ColDataType(col)) != 0 then Some(ColSizeInconsistent)
      else if !c.mode.IsSupported() || (c.mode.IsModel() && c.modelValue > 16) then Some(ParGeneric)
      else if !SpecificParsAreValid(c, ColDataType(col)) then Some(ParSpecific)
      else if c.mode.IsModel() && !hasModel then Some(ParNoModel)
      else None
  {
    hide SpecificParsAreValid, SampleSize, ColDataType, ColDataLength;
  }
}
