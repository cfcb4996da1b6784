/** Collections: the header, the data types and the packed records they hold. */
module DataTypes {
  import opened Bits
  import opened Bytes
  import opened Golomb

  const COLLECTION_HDR_SIZE: nat := 12

  /** The data types of a chunk. */
  datatype DataType =
    | Unknown
    | Imagette | SatImagette | FCamImagette
    | Offset | FCamOffset
    | Background | FCamBackground
    | Smearing
    | SFx | SFxEfx | SFxNcob | SFxEfxNcobEcob
    | LFx | LFxEfx | LFxNcob | LFxEfxNcobEcob
    | FFx | FFxEfx | FFxNcob | FFxEfxNcobEcob

  datatype ChunkType =
    | UnknownChunk
    | NcamImagetteChunk
    | ShortCadenceChunk
    | LongCadenceChunk
    | SatImagetteChunk
    | OffsetBackgroundChunk
    | SmearingChunk
    | FChainChunk

  /** A record field: its width in bytes and which of the six parameter pairs encodes it. */
  datatype Slot = Slot(width: nat, par: nat)

  /** The packed record of a data type, field by field. */
  function Layout(dt: DataType): (l: seq<Slot>)
  {
    match dt
    case Unknown => []
    case Imagette | SatImagette | FCamImagette => [Slot(2, 1)]
    case Offset | FCamOffset => [Slot(4, 2), Slot(4, 3)]
    case Background | FCamBackground | Smearing => [Slot(4, 4), Slot(4, 5), Slot(2, 6)]
    case SFx => [Slot(1, 1), Slot(4, 2)]
    case SFxEfx => [Slot(1, 1), Slot(4, 2), Slot(4, 4)]
    case SFxNcob => [Slot(1, 1), Slot(4, 2), Slot(4, 3), Slot(4, 3)]
    case SFxEfxNcobEcob => [Slot(1, 1)] + FullFlux()
    case LFx => [Slot(3, 1), Slot(4, 2), Slot(4, 6)]
    case LFxEfx => [Slot(3, 1), Slot(4, 2), Slot(4, 4), Slot(4, 6)]
    case LFxNcob => [Slot(3, 1), Slot(4, 2), Slot(4, 3), Slot(4, 3), Slot(4, 6), Slot(4, 6), Slot(4, 6)]
    case LFxEfxNcobEcob => [Slot(3, 1)] + FullFlux() + [Slot(4, 6), Slot(4, 6), Slot(4, 6)]
    case FFx => [Slot(4, 2)]
    case FFxEfx => [Slot(4, 2), Slot(4, 4)]
    case FFxNcob => [Slot(4, 2), Slot(4, 3), Slot(4, 3)]
    case FFxEfxNcobEcob => FullFlux()
  }

  /** Normal and extended flux and centre of brightness. */
  function FullFlux(): seq<Slot>
  {
    [Slot(4, 2), Slot(4, 3), Slot(4, 3), Slot(4, 4), Slot(4, 5), Slot(4, 5)]
  }

  predicate ValidSlots(l: seq<Slot>)
  {
    forall i :: 0 <= i < |l| ==> 1 <= l[i].width <= 4 && 1 <= l[i].par <= 6
  }

  lemma {:induction false} LayoutValid(dt: DataType)
    ensures ValidSlots(Layout(dt)) && (Layout(dt) == [] <==> dt.Unknown?)
  {
  }

  function LayoutSize(l: seq<Slot>): (n: nat)
  {
    if l == [] then 0 else l[0].width + LayoutSize(l[1..])
  }

  lemma {:induction false} LayoutSizeConcat(a: seq<Slot>, b: seq<Slot>)
    ensures LayoutSize(a + b) == LayoutSize(a) + LayoutSize(b)
  {
    if a == [] {
      assert a + b == b;
    } else {
      assert (a + b)[1..] == a[1..] + b;
      LayoutSizeConcat(a[1..], b);
    }
  }

  /** size_of_a_sample: the size of the packed record; 0 for an unknown type. */
  function SampleSize(dt: DataType): (n: nat)
    ensures n == 0 <==> dt.Unknown?
  {
    LayoutValid(dt);
    LayoutSize(Layout(dt))
  }

  /** convert_subservice_to_cmp_data_type */
  function ConvertSubservice(subservice: nat): DataType
  {
    match subservice
    case 3 => Imagette
    case 4 => SatImagette
    case 5 => Offset
    case 6 => Background
    case 7 => Smearing
    case 9 => SFx
    case 10 => SFxEfx
    case 11 => SFxNcob
    case 12 => SFxEfxNcobEcob
    case 13 => LFx
    case 14 => LFxEfx
    case 15 => LFxNcob
    case 16 => LFxEfxNcobEcob
    case 17 => FFx
    case 18 => FFxEfx
    case 19 => FFxNcob
    case 20 => FFxEfxNcobEcob
    case 1 => FCamImagette
    case 2 => FCamOffset
    case 25 => FCamBackground
    case _ => Unknown
  }

  /** cmp_col_get_chunk_type, by subservice; no chunk is defined for the fast cadence. */
  function ChunkTypeOfSubservice(subservice: nat): ChunkType
  {
    match subservice
    case 3 => NcamImagetteChunk
    case 4 => SatImagetteChunk
    case 5 | 6 => OffsetBackgroundChunk
    case 7 => SmearingChunk
    case 9 | 10 | 11 | 12 => ShortCadenceChunk
    case 13 | 14 | 15 | 16 => LongCadenceChunk
    case 1 | 2 | 25 => FChainChunk
    case _ => UnknownChunk
  }

  /** The fast cadence records, which can only be stored raw. */
  predicate IsFastCadence(dt: DataType)
  {
    dt.FFx? || dt.FFxEfx? || dt.FFxNcob? || dt.FFxEfxNcobEcob?
  }

  /** Every collection that belongs to a chunk type has a data type the compressor knows. */
  lemma {:induction false} ChunkTypesAreCompressible(subservice: nat)
    ensures !ChunkTypeOfSubservice(subservice).UnknownChunk? <==>
      !ConvertSubservice(subservice).Unknown? && !IsFastCadence(ConvertSubservice(subservice))
  {
  }

  //// The collection header

  /** The big-endian 16-bit number at an offset. */
  function U16At(mem: seq<byte>, at: nat): (v: nat)
    requires at + 2 <= |mem|
    ensures v < 0x1_0000
  {
    Pow2Values();
    BigEndian(mem[at..at + 2])
  }

  /** cmp_col_get_subservice: bits 9 to 14 of the collection identifier. */
  function ColSubservice(col: seq<byte>): (s: nat)
    requires |col| >= COLLECTION_HDR_SIZE
    ensures s < 64
  {
    U16At(col, 8) / 512 % 64
  }

  /** cmp_col_get_data_length */
  function ColDataLength(col: seq<byte>): (n: nat)
    requires |col| >= COLLECTION_HDR_SIZE
    ensures n < 0x1_0000
  {
    U16At(col, 10)
  }

  /** The two parts of a collection. */
  function ColHeader(col: seq<byte>): (h: seq<byte>)
    requires |col| >= COLLECTION_HDR_SIZE
    ensures |h| == COLLECTION_HDR_SIZE
  {
    col[..COLLECTION_HDR_SIZE]
  }

  function ColBody(col: seq<byte>): (b: seq<byte>)
    requires |col| >= COLLECTION_HDR_SIZE
    ensures |b| == |col| - COLLECTION_HDR_SIZE
  {
    col[COLLECTION_HDR_SIZE..]
  }

  /** cmp_col_get_size */
  function ColSize(col: seq<byte>): (n: nat)
    requires |col| >= COLLECTION_HDR_SIZE
    ensures COLLECTION_HDR_SIZE <= n < COLLECTION_HDR_SIZE + 0x1_0000
  {
    COLLECTION_HDR_SIZE + ColDataLength(col)
  }

  function ColDataType(col: seq<byte>): DataType
    requires |col| >= COLLECTION_HDR_SIZE
  {
    ConvertSubservice(ColSubservice(col))
  }

  function ColChunkType(col: seq<byte>): ChunkType
    requires |col| >= COLLECTION_HDR_SIZE
  {
    ChunkTypeOfSubservice(ColSubservice(col))
  }

  /** What the header says depends on the 12 header bytes only. */
  lemma {:induction false} SameHeader(a: seq<byte>, b: seq<byte>)
    requires |a| >= COLLECTION_HDR_SIZE && |b| >= COLLECTION_HDR_SIZE
    requires a[..COLLECTION_HDR_SIZE] == b[..COLLECTION_HDR_SIZE]
    ensures ColSubservice(a) == ColSubservice(b) && ColDataLength(a) == ColDataLength(b) && ColSize(a) == ColSize(b)
    ensures ColDataType(a) == ColDataType(b) && ColChunkType(a) == ColChunkType(b)
  {
    assert a[8..10] == a[..COLLECTION_HDR_SIZE][8..10] == b[8..10];
    assert a[10..12] == a[..COLLECTION_HDR_SIZE][10..12] == b[10..12];
  }

  //// Chunks

  /** The number of collections, if the sizes in their headers add up to the chunk. */
  function CountCols(chunk: seq<byte>): (n: Option<nat>)
    decreases |chunk|
  {
    if chunk == [] then Some(0)
    else if |chunk| < COLLECTION_HDR_SIZE || ColSize(chunk) > |chunk| then None
    else
      match CountCols(chunk[ColSize(chunk)..])
      case None => None
      case Some(k) => Some(k + 1)
  }

  lemma {:induction false} CountStep(chunk: seq<byte>)
    requires |chunk| >= COLLECTION_HDR_SIZE && ColSize(chunk) <= |chunk|
    ensures CountCols(chunk).Some? <==> CountCols(chunk[ColSize(chunk)..]).Some?
    ensures CountCols(chunk).Some? ==> CountCols(chunk).value == CountCols(chunk[ColSize(chunk)..]).value + 1
  {
    hide ColSize;
  }

  lemma {:induction false} CountFails(c: seq<byte>)
    requires c != []
    ensures |c| < COLLECTION_HDR_SIZE || ColSize(c) > |c| ==> CountCols(c).None?
  {
    hide ColSize;
  }

  lemma {:induction false} CountNothing()
    ensures CountCols([]) == Some(0)
  {
  }

  /** Where collection i starts in a chunk. */
  function ColStart(chunk: seq<byte>, i: nat): (pos: nat)
    requires CountCols(chunk).Some? && i <= CountCols(chunk).value
    decreases i
  {
    if i == 0 then 0
    else
      CountStep(chunk);
      ColSize(chunk) + ColStart(chunk[ColSize(chunk)..], i - 1)
  }

  lemma {:induction false} ColStartZero(chunk: seq<byte>)
    requires CountCols(chunk).Some?
    ensures ColStart(chunk, 0) == 0
  {
  }

  lemma {:induction false} ColStartStep(chunk: seq<byte>, i: nat)
    requires |chunk| >= COLLECTION_HDR_SIZE && ColSize(chunk) <= |chunk|
    requires CountCols(chunk).Some? && 0 < i <= CountCols(chunk).value
    ensures CountCols(chunk[ColSize(chunk)..]).Some? && i - 1 <= CountCols(chunk[ColSize(chunk)..]).value
    ensures ColStart(chunk, i) == ColSize(chunk) + ColStart(chunk[ColSize(chunk)..], i - 1)
  {
    CountStep(chunk);
    hide CountCols, ColSize;
  }

  /** Collection i of a chunk, without what follows it. */
  function ColAt(chunk: seq<byte>, i: nat): (col: seq<byte>)
    requires CountCols(chunk).Some? && i < CountCols(chunk).value
    ensures |col| >= COLLECTION_HDR_SIZE && |col| == ColSize(col)
    decreases i
  {
    var n := ColSize(chunk);
    CountStep(chunk);
    assert chunk[..n][..COLLECTION_HDR_SIZE] == chunk[..COLLECTION_HDR_SIZE];
    SameHeader(chunk[..n], chunk);
    if i == 0 then chunk[..n] else ColAt(chunk[n..], i - 1)
  }

  /** It is where ColStart says. */
  lemma {:induction false} ColAtIs(chunk: seq<byte>, i: nat)
    requires CountCols(chunk).Some? && i < CountCols(chunk).value
    ensures var at, col := ColStart(chunk, i), ColAt(chunk, i); at + |col| <= |chunk| && chunk[at..at + |col|] == col
    decreases i
  {
    hide ColSize;
    if i > 0 {
      var n := ColSize(chunk);
      CountStep(chunk);
      ColAtIs(chunk[n..], i - 1);
      var at, m := ColStart(chunk[n..], i - 1), |ColAt(chunk, i)|;
      assert chunk[n..][at..at + m] == chunk[n + at..n + at + m];
    }
  }

  /** P holds of every collection of a chunk. */
  ghost predicate AllCols(chunk: seq<byte>, P: seq<byte> -> bool)
    requires CountCols(chunk).Some?
  {
    forall i: nat :: i < CountCols(chunk).value ==> P(ColAt(chunk, i))
  }

  lemma {:induction false} ColAtStep(chunk: seq<byte>, i: nat)
    requires |chunk| >= COLLECTION_HDR_SIZE && ColSize(chunk) <= |chunk|
    requires CountCols(chunk).Some? && i < CountCols(chunk).value
    ensures i == 0 ==> ColAt(chunk, i) == chunk[..ColSize(chunk)]
    ensures i > 0 ==>
      && CountCols(chunk[ColSize(chunk)..]).Some? && i - 1 < CountCols(chunk[ColSize(chunk)..]).value
      && ColAt(chunk, i) == ColAt(chunk[ColSize(chunk)..], i - 1)
  {
    CountStep(chunk);
    hide CountCols, ColSize;
  }

  /** All collections are the first one and those of the rest. */
  lemma {:induction false} AllColsStep(chunk: seq<byte>, P: seq<byte> -> bool)
    requires |chunk| >= COLLECTION_HDR_SIZE && ColSize(chunk) <= |chunk| && CountCols(chunk).Some?
    ensures CountCols(chunk[ColSize(chunk)..]).Some?
    ensures AllCols(chunk, P) <==> P(chunk[..ColSize(chunk)]) && AllCols(chunk[ColSize(chunk)..], P)
  {
    hide ColAt, CountCols, ColSize;
    CountStep(chunk);
    var rest, n := chunk[ColSize(chunk)..], CountCols(chunk).value;
    ColAtStep(chunk, 0);
    if AllCols(chunk, P) {
      forall i: nat | i < CountCols(rest).value
        ensures P(ColAt(rest, i))
      {
        ColAtStep(chunk, i + 1);
        assert P(ColAt(chunk, i + 1));
      }
    }
    if P(chunk[..ColSize(chunk)]) && AllCols(rest, P) {
      forall i: nat | i < n
        ensures P(ColAt(chunk, i))
      {
        ColAtStep(chunk, i);
      }
    }
  }

  lemma {:induction false} AllColsNone(P: seq<byte> -> bool)
    ensures CountCols([]) == Some(0) && AllCols([], P)
  {
  }
}
