/** The compression configuration: the user's parameters, the parameter pairs derived
    from them and the validity checks. */
module Config {
  import opened Bits
  import opened Words
  import opened Golomb
  import opened Params
  import opened ValueCode
  import opened Samples
  import opened DataTypes

  /** struct cmp_par */
  datatype CmpPar = CmpPar(
    mode: CmpMode, modelValue: word32, lossyPar: word32,
    ncImagette: word32,
    sExpFlags: word32, sFx: word32, sNcob: word32, sEfx: word32, sEcob: word32,
    lExpFlags: word32, lFx: word32, lNcob: word32, lEfx: word32, lEcob: word32, lFxCobVariance: word32,
    saturatedImagette: word32,
    ncOffsetMean: word32, ncOffsetVariance: word32,
    ncBackgroundMean: word32, ncBackgroundVariance: word32, ncBackgroundOutlierPixels: word32,
    smearingMean: word32, smearingVarianceMean: word32, smearingOutlierPixels: word32,
    fcImagette: word32, fcOffsetMean: word32, fcOffsetVariance: word32,
    fcBackgroundMean: word32, fcBackgroundVariance: word32, fcBackgroundOutlierPixels: word32)

  /** A Golomb parameter and its spillover threshold. */
  datatype ParPair = ParPair(par: word32, spill: word32)

  /** The part of struct cmp_cfg that holds the parameters; pair k is cmp_par_k and spill_par_k. */
  datatype Cfg = Cfg(mode: CmpMode, modelValue: word32, round: nat, pairs: seq<ParPair>)

  type CfgSix = c: Cfg | |c.pairs| == 6 witness Cfg(Raw, 0, 0, [NO_PAIR, NO_PAIR, NO_PAIR, NO_PAIR, NO_PAIR, NO_PAIR])

  const NO_PAIR: ParPair := ParPair(0, 0)

  /** A parameter together with the threshold chosen for it. */
  function WithSpill(par: word32, mode: CmpMode, maxDataBits: nat): (p: ParPair)
    requires maxDataBits <= 32
  {
    ParPair(par, CmpGetSpill(par, mode, maxDataBits))
  }

  /** init_cmp_cfg_from_cmp_par; lossy compression is not supported for chunks. */
  function InitCfg(ct: ChunkType, p: CmpPar): (c: CfgSix)
    ensures c.mode == p.mode && c.modelValue == p.modelValue && c.round == 0
  {
    var m := p.mode;
    var pairs :=
      match ct
      case UnknownChunk => [NO_PAIR, NO_PAIR, NO_PAIR, NO_PAIR, NO_PAIR, NO_PAIR]
      case NcamImagetteChunk =>
        [WithSpill(p.ncImagette, m, 16), NO_PAIR, NO_PAIR, NO_PAIR, NO_PAIR, NO_PAIR]
      case SatImagetteChunk =>
        [WithSpill(p.saturatedImagette, m, 16), NO_PAIR, NO_PAIR, NO_PAIR, NO_PAIR, NO_PAIR]
      case ShortCadenceChunk =>
        [WithSpill(p.sExpFlags, m, 8), WithSpill(p.sFx, m, 32), WithSpill(p.sNcob, m, 32),
         WithSpill(p.sEfx, m, 32), WithSpill(p.sEcob, m, 32), NO_PAIR]
      case LongCadenceChunk =>
        [WithSpill(p.lExpFlags, m, 24), WithSpill(p.lFx, m, 32), WithSpill(p.lNcob, m, 32),
         WithSpill(p.lEfx, m, 32), WithSpill(p.lEcob, m, 32), WithSpill(p.lFxCobVariance, m, 32)]
      case OffsetBackgroundChunk =>
        [NO_PAIR, WithSpill(p.ncOffsetMean, m, 32), WithSpill(p.ncOffsetVariance, m, 32),
         WithSpill(p.ncBackgroundMean, m, 32), WithSpill(p.ncBackgroundVariance, m, 32),
         WithSpill(p.ncBackgroundOutlierPixels, m, 16)]
      case SmearingChunk =>
        [NO_PAIR, NO_PAIR, NO_PAIR, WithSpill(p.smearingMean, m, 32), WithSpill(p.smearingVarianceMean, m, 32),
         WithSpill(p.smearingOutlierPixels, m, 16)]
      case FChainChunk =>
        [WithSpill(p.fcImagette, m, 16), WithSpill(p.fcOffsetMean, m, 32), WithSpill(p.fcOffsetVariance, m, 32),
         WithSpill(p.fcBackgroundMean, m, 32), WithSpill(p.fcBackgroundVariance, m, 32),
         WithSpill(p.fcBackgroundOutlierPixels, m, 16)];
    Cfg(m, p.modelValue, 0, pairs)
  }

  //// Validity

  /** The negation of cmp_cfg_gen_par_is_invalid, for a known data type. */
  predicate GenParsAreValid(c: Cfg)
  {
    && c.mode.IsSupported()
    && (c.mode.IsModel() ==> c.modelValue <= MAX_MODEL_VALUE)
    && c.round <= MAX_ROUND
  }

  /** The negation of cmp_cfg_imagette_is_invalid, cmp_cfg_fx_cob_is_invalid and
      cmp_cfg_aux_is_invalid: the pairs that the fields of the data type use. */
  predicate SpecificParsAreValid(c: CfgSix, dt: DataType)
  {
    forall i :: 0 <= i < |Layout(dt)| ==> SlotIsValid(c, Layout(dt)[i])
  }

  predicate SlotIsValid(c: CfgSix, s: Slot)
  {
    1 <= s.par <= 6 && ParsAreValid(c.pairs[s.par - 1].par, c.pairs[s.par - 1].spill, c.mode)
  }

  predicate CfgIsValid(c: CfgSix, dt: DataType)
  {
    GenParsAreValid(c) && SpecificParsAreValid(c, dt)
  }

  /** MAX_USED_BITS: the width in bits of the fields that pair k of a chunk type encodes; 0 if unused. */
  function MaxUsedBits(ct: ChunkType, k: nat): (bits: nat)
    ensures bits <= 32
  {
    match ct
    case UnknownChunk => 0
    case NcamImagetteChunk | SatImagetteChunk => if k == 1 then 16 else 0
    case ShortCadenceChunk => if k == 1 then 8 else if k <= 5 then 32 else 0
    case LongCadenceChunk => if k == 1 then 24 else 32
    case OffsetBackgroundChunk => if k == 6 then 16 else if k == 1 then 0 else 32
    case SmearingChunk => if k == 6 then 16 else if k <= 3 then 0 else 32
    case FChainChunk => if k == 1 || k == 6 then 16 else 32
  }

  lemma {:induction false} ThresholdOfPair(ct: ChunkType, p: CmpPar, k: nat)
    requires 1 <= k <= 6 && MaxUsedBits(ct, k) > 0
    ensures InitCfg(ct, p).pairs[k - 1].spill == CmpGetSpill(InitCfg(ct, p).pairs[k - 1].par, p.mode, MaxUsedBits(ct, k))
  {
    hide CmpGetSpill;
  }

  lemma {:induction false} MaxUsedBitsIsWidth(subservice: nat, i: nat)
    requires !ChunkTypeOfSubservice(subservice).UnknownChunk? && i < |Layout(ConvertSubservice(subservice))|
    ensures var s := Layout(ConvertSubservice(subservice))[i];
      1 <= s.width <= 4 && 1 <= s.par <= 6 && MaxUsedBits(ChunkTypeOfSubservice(subservice), s.par) == 8 * s.width
  {
  }

  /** The threshold of every field of a chunk's data types is chosen for the width of
      that field, and is accepted exactly when its Golomb parameter is in range. */
  lemma {:induction false} ThresholdsFitFields(subservice: nat, p: CmpPar, i: nat)
    requires !ChunkTypeOfSubservice(subservice).UnknownChunk? && p.mode.IsSupported() && !p.mode.IsRaw()
    requires i < |Layout(ConvertSubservice(subservice))|
    ensures var c := InitCfg(ChunkTypeOfSubservice(subservice), p); var s := Layout(ConvertSubservice(subservice))[i];
      && 1 <= s.width <= 4 && 1 <= s.par <= 6
      && c.pairs[s.par - 1].spill == CmpGetSpill(c.pairs[s.par - 1].par, p.mode, 8 * s.width)
      && (SlotIsValid(c, s) <==> MIN_GOLOMB_PAR <= c.pairs[s.par - 1].par <= MAX_GOLOMB_PAR)
  {
    hide CmpGetSpill, ParsAreValid, Layout, ConvertSubservice, ChunkTypeOfSubservice, InitCfg, MaxUsedBits;
    MaxUsedBitsIsWidth(subservice, i);
    var ct, s := ChunkTypeOfSubservice(subservice), Layout(ConvertSubservice(subservice))[i];
    ThresholdOfPair(ct, p, s.par);
    GetSpillIsValid(InitCfg(ct, p).pairs[s.par - 1].par, p.mode, 8 * s.width);
  }

  //// Fields

  function FieldOf(s: Slot, c: CfgSix): (f: Field)
    requires 1 <= s.par <= 6
    ensures f.width == s.width && f.p.round == c.round
  {
    var pair := c.pairs[s.par - 1];
    Field(s.width, CodePars(pair.par, pair.spill, c.round, 8 * s.width, if c.mode.IsZero() then ZeroEscape else MultiEscape))
  }

  /** The fields of a layout with the parameters that encode them. */
  function FieldsFrom(l: seq<Slot>, c: CfgSix): (fs: seq<Field>)
    requires ValidSlots(l)
    ensures |fs| == |l| && forall i :: 0 <= i < |l| ==> fs[i] == FieldOf(l[i], c)
  {
    seq(|l|, i requires 0 <= i < |l| => FieldOf(l[i], c))
  }

  function FieldsOf(dt: DataType, c: CfgSix): (fs: seq<Field>)
  {
    LayoutValid(dt);
    FieldsFrom(Layout(dt), c)
  }

  lemma {:induction false} FieldsSize(l: seq<Slot>, c: CfgSix)
    requires ValidSlots(l)
    ensures RecSize(FieldsFrom(l, c)) == LayoutSize(l)
  {
    if l == [] {
    } else {
      assert FieldsFrom(l, c)[1..] == FieldsFrom(l[1..], c);
      FieldsSize(l[1..], c);
    }
  }

  /** A valid configuration gives valid fields. */
  lemma {:induction false} FieldsOfValid(dt: DataType, c: CfgSix)
    requires !dt.Unknown? && CfgIsValid(c, dt) && !c.mode.IsRaw()
    ensures ValidFields(FieldsOf(dt, c)) && FieldsOf(dt, c) != []
    ensures RecSize(FieldsOf(dt, c)) == SampleSize(dt) > 0
    ensures c.round == 0 ==> Lossless(FieldsOf(dt, c))
  {
    LayoutValid(dt);
    var l, fs := Layout(dt), FieldsOf(dt, c);
    FieldsSize(l, c);
    hide Layout, RecSize, LayoutSize, CmpIcuMaxSpill;
    forall i | 0 <= i < |fs|
      ensures ValidField(fs[i])
    {
      assert SlotIsValid(c, l[i]);
    }
  }
}
