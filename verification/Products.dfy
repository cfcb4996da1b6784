/** The data products, by the subservice in the header of a collection: what a record holds
    and which of the user's parameters codes each field of it. */
module Products {
  import opened Bits
  import opened Words
  import opened Golomb
  import opened Params
  import opened ValueCode
  import opened Samples
  import opened DataTypes
  import opened Config

  /** One field: its width in bytes and the Golomb parameter that codes it. */
  datatype Coded = Coded(width: nat, par: word32)

  /** The fields of a record, by subservice; none for what a chunk cannot hold. */
  function ProductFields(subservice: nat, p: CmpPar): (l: seq<Coded>)
  {
    match subservice
    case 1 => [Coded(2, p.fcImagette)]
    case 2 => [Coded(4, p.fcOffsetMean), Coded(4, p.fcOffsetVariance)]
    case 3 => [Coded(2, p.ncImagette)]
    case 4 => [Coded(2, p.saturatedImagette)]
    case 5 => [Coded(4, p.ncOffsetMean), Coded(4, p.ncOffsetVariance)]
    case 6 => [Coded(4, p.ncBackgroundMean), Coded(4, p.ncBackgroundVariance), Coded(2, p.ncBackgroundOutlierPixels)]
    case 7 => [Coded(4, p.smearingMean), Coded(4, p.smearingVarianceMean), Coded(2, p.smearingOutlierPixels)]
    case 9 => [Coded(1, p.sExpFlags), Coded(4, p.sFx)]
    case 10 => [Coded(1, p.sExpFlags), Coded(4, p.sFx), Coded(4, p.sEfx)]
    case 11 => [Coded(1, p.sExpFlags), Coded(4, p.sFx), Coded(4, p.sNcob), Coded(4, p.sNcob)]
    case 12 =>
      [Coded(1, p.sExpFlags), Coded(4, p.sFx), Coded(4, p.sNcob), Coded(4, p.sNcob),
       Coded(4, p.sEfx), Coded(4, p.sEcob), Coded(4, p.sEcob)]
    case 13 => [Coded(3, p.lExpFlags), Coded(4, p.lFx), Coded(4, p.lFxCobVariance)]
    case 14 => [Coded(3, p.lExpFlags), Coded(4, p.lFx), Coded(4, p.lEfx), Coded(4, p.lFxCobVariance)]
    case 15 =>
      [Coded(3, p.lExpFlags), Coded(4, p.lFx), Coded(4, p.lNcob), Coded(4, p.lNcob),
       Coded(4, p.lFxCobVariance), Coded(4, p.lFxCobVariance), Coded(4, p.lFxCobVariance)]
    case 16 =>
      [Coded(3, p.lExpFlags), Coded(4, p.lFx), Coded(4, p.lNcob), Coded(4, p.lNcob), Coded(4, p.lEfx), Coded(4, p.lEcob),
       Coded(4, p.lEcob), Coded(4, p.lFxCobVariance), Coded(4, p.lFxCobVariance), Coded(4, p.lFxCobVariance)]
    case 25 => [Coded(4, p.fcBackgroundMean), Coded(4, p.fcBackgroundVariance), Coded(2, p.fcBackgroundOutlierPixels)]
    case _ => []
  }

  /** The subservices that one chunk can hold together. */
  function ProductGroups(): (g: seq<set<nat>>)
  {
    [{3}, {9, 10, 11, 12}, {13, 14, 15, 16}, {4}, {5, 6}, {7}, {1, 2, 25}]
  }

  lemma {:induction false} SlotCount(subservice: nat, p: CmpPar)
    requires !ChunkTypeOfSubservice(subservice).UnknownChunk?
    ensures |Layout(ConvertSubservice(subservice))| == |ProductFields(subservice, p)| > 0
  {
  }

  /** Slot i of a record is coded with the product's parameter of that field. */
  ghost predicate SlotCodes(subservice: nat, p: CmpPar, i: nat)
    requires i < |Layout(ConvertSubservice(subservice))|
  {
    var s := Layout(ConvertSubservice(subservice))[i];
    && i < |ProductFields(subservice, p)| && 1 <= s.par <= 6 && s.width == ProductFields(subservice, p)[i].width
    && InitCfg(ChunkTypeOfSubservice(subservice), p).pairs[s.par - 1].par == ProductFields(subservice, p)[i].par
  }

  lemma {:induction false} ShortCadenceSlots(subservice: nat, p: CmpPar, i: nat)
    requires 9 <= subservice <= 12 && i < |Layout(ConvertSubservice(subservice))|
    ensures SlotCodes(subservice, p, i)
  {
    hide CmpGetSpill;
  }

  lemma {:induction false} LongCadenceSlots(subservice: nat, p: CmpPar, i: nat)
    requires 13 <= subservice <= 16 && i < |Layout(ConvertSubservice(subservice))|
    ensures SlotCodes(subservice, p, i)
  {
    hide CmpGetSpill;
  }

  lemma {:induction false} OtherSlots(subservice: nat, p: CmpPar, i: nat)
    requires !ChunkTypeOfSubservice(subservice).UnknownChunk? && i < |Layout(ConvertSubservice(subservice))|
    requires subservice < 9 || subservice > 16
    ensures SlotCodes(subservice, p, i)
  {
    hide CmpGetSpill;
  }

  lemma {:induction false} SlotOfProduct(subservice: nat, p: CmpPar, i: nat)
    requires !ChunkTypeOfSubservice(subservice).UnknownChunk? && i < |Layout(ConvertSubservice(subservice))|
    ensures SlotCodes(subservice, p, i)
  {
    hide *;
    if 9 <= subservice <= 12 {
      ShortCadenceSlots(subservice, p, i);
    } else if 13 <= subservice <= 16 {
      LongCadenceSlots(subservice, p, i);
    } else {
      OtherSlots(subservice, p, i);
    }
  }

  /** Every field of a record is coded with its product's parameter, under the threshold
      chosen for it, and without rounding. */
  ghost predicate FieldCodes(subservice: nat, p: CmpPar, fs: seq<Field>, i: nat)
  {
    && i < |fs| == |ProductFields(subservice, p)|
    && var f := ProductFields(subservice, p)[i];
       && 1 <= f.width <= 4 && fs[i].width == f.width && fs[i].p.m == f.par && fs[i].p.spill == CmpGetSpill(f.par, p.mode, 8 * f.width)
       && fs[i].p.round == 0 && fs[i].p.bits == 8 * f.width
       && fs[i].p.escape == if p.mode.DiffZero? || p.mode.ModelZero? then ZeroEscape else MultiEscape
  }

  lemma {:induction false} FieldOfProduct(subservice: nat, p: CmpPar, i: nat)
    requires !ChunkTypeOfSubservice(subservice).UnknownChunk? && i < |ProductFields(subservice, p)|
    ensures FieldCodes(subservice, p, FieldsOf(ConvertSubservice(subservice), InitCfg(ChunkTypeOfSubservice(subservice), p)), i)
  {
    SlotCount(subservice, p);
    SlotOfProduct(subservice, p, i);
    MaxUsedBitsIsWidth(subservice, i);
    var ct, dt := ChunkTypeOfSubservice(subservice), ConvertSubservice(subservice);
    ThresholdOfPair(ct, p, Layout(dt)[i].par);
    LayoutValid(dt);
    hide CmpGetSpill, Layout, ConvertSubservice, ChunkTypeOfSubservice, InitCfg, MaxUsedBits, ProductFields;
  }

  /** The size of a record. */
  function RecordBytes(l: seq<Coded>): (n: nat)
  {
    if l == [] then 0 else l[0].width + RecordBytes(l[1..])
  }

  lemma {:induction false} SameWidths(l: seq<Slot>, fields: seq<Coded>)
    requires |l| == |fields| && forall i :: 0 <= i < |l| ==> l[i].width == fields[i].width
    ensures LayoutSize(l) == RecordBytes(fields)
    decreases |l|
  {
    if l != [] { SameWidths(l[1..], fields[1..]); }
  }

  lemma {:induction false} RecordSize(subservice: nat, p: CmpPar)
    requires !ChunkTypeOfSubservice(subservice).UnknownChunk?
    ensures SampleSize(ConvertSubservice(subservice)) == RecordBytes(ProductFields(subservice, p)) > 0
  {
    SlotCount(subservice, p);
    var l, fields := Layout(ConvertSubservice(subservice)), ProductFields(subservice, p);
    hide Layout, ProductFields, InitCfg, LayoutSize, RecordBytes, ConvertSubservice, ChunkTypeOfSubservice;
    forall i | 0 <= i < |l|
      ensures l[i].width == fields[i].width
    {
      SlotOfProduct(subservice, p, i);
    }
    SameWidths(l, fields);
    SizeIsPositive(ConvertSubservice(subservice));
  }

  lemma {:induction false} SizeIsPositive(dt: DataType)
    ensures SampleSize(dt) == LayoutSize(Layout(dt)) && (Layout(dt) != [] ==> SampleSize(dt) > 0)
  {
    LayoutValid(dt);
  }

  /** Two subservices belong into one chunk exactly if they are in one group. */
  lemma {:induction false} GroupsAreChunkTypes(a: nat, b: nat)
    ensures (exists g :: 0 <= g < |ProductGroups()| && a in ProductGroups()[g] && b in ProductGroups()[g]) <==>
      !ChunkTypeOfSubservice(a).UnknownChunk? && ChunkTypeOfSubservice(a) == ChunkTypeOfSubservice(b)
  {
    var gs := ProductGroups();
    if !ChunkTypeOfSubservice(a).UnknownChunk? && ChunkTypeOfSubservice(a) == ChunkTypeOfSubservice(b) {
      var g := GroupOf(ChunkTypeOfSubservice(a));
      assert a in gs[g] && b in gs[g];
    }
  }

  function GroupOf(ct: ChunkType): (g: nat)
    ensures g < 7
  {
    match ct
    case UnknownChunk | NcamImagetteChunk => 0
    case ShortCadenceChunk => 1
    case LongCadenceChunk => 2
    case SatImagetteChunk => 3
    case OffsetBackgroundChunk => 4
    case SmearingChunk => 5
    case FChainChunk => 6
  }

  lemma {:induction false} GroupIs(ct: ChunkType, subservice: nat)
    requires !ct.UnknownChunk?
    ensures |ProductGroups()| == 7 && (subservice in ProductGroups()[GroupOf(ct)] <==> ChunkTypeOfSubservice(subservice) == ct)
  {
  }
}
