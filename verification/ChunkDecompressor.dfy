/** decompress_cmp_entiy for chunks: finding the compressed collections, and the loop over them. */
module ChunkDecompressor {
  import opened Bits
  import opened Bytes
  import opened Words
  import opened Golomb
  import opened Params
  import opened BitReader
  import opened ValueEncoder
  import opened Samples
  import opened UpModel
  import opened CompressLoop
  import opened DecompressLoop
  import opened DataTypes
  import opened Endian
  import opened Config
  import opened CollectionCode
  import opened ChunkCode
  import opened ChunkBounds
  import opened Entity
  import opened CollectionPacker
  import opened CollectionDecompressor

  //// Walking the size fields

  /** The number of compressed collections, if their sizes add up to the body. */
  function CountCmp(body: seq<byte>): (n: Option<nat>)
    decreases |body|
  {
    if body == [] then Some(0)
    else if !HasCmpCol(body) then None
    else
      match CountCmp(body[CmpColSize(body)..])
      case None => None
      case Some(k) => Some(k + 1)
  }

  lemma {:induction false} CountCmpStep(body: seq<byte>)
    ensures body == [] ==> CountCmp(body) == Some(0)
    ensures body != [] && !HasCmpCol(body) ==> CountCmp(body) == None
    ensures HasCmpCol(body) ==>
      var rest := CountCmp(body[CmpColSize(body)..]);
      CountCmp(body) == if rest.Some? then Some(rest.value + 1) else None
  {
    hide CmpColSize;
  }

  /** k collections are counted and rest is left. */
  ghost predicate CmpCounted(body: seq<byte>, k: nat, rest: seq<byte>)
  {
    CountCmp(body) == if CountCmp(rest).Some? then Some(k + CountCmp(rest).value) else None
  }

  lemma {:induction false} CountedNext(body: seq<byte>, k: nat, rest: seq<byte>)
    requires CmpCounted(body, k, rest) && HasCmpCol(rest)
    ensures CmpCounted(body, k + 1, rest[CmpColSize(rest)..])
  {
    CountCmpStep(rest);
    hide CountCmp, CmpColSize;
  }

  lemma {:induction false} SizeParts(body: seq<byte>)
    requires |body| > COLLECTION_HDR_SIZE
    ensures |body| >= CMP_COLLECTION_FILD_SIZE && CmpColSize(body) > 0 && (HasCmpCol(body) <==> CmpColSize(body) <= |body|)
  {
  }

  lemma {:induction false} TooShort(body: seq<byte>)
    requires 0 < |body| <= COLLECTION_HDR_SIZE
    ensures CountCmp(body) == None
  {
  }

  /** get_num_of_chunks: the number of compressed collections, or -1. */
  method GetNumOfChunks(data: seq<byte>) returns (n: int)
    ensures n == if CountCmp(data).Some? then CountCmp(data).value else -1
  {
    hide *;
    var p := 0;
    n := 0;
    ghost var bad := false;
    assert data[0..] == data;
    CountedStart(data);
    while p + COLLECTION_HDR_SIZE < |data|
      invariant n >= 0
      invariant !bad ==> p <= |data| && CmpCounted(data, n, data[p..])
      invariant bad ==> p > |data| && CountCmp(data) == None
      decreases |data| - p
    {
      var rest := data[p..];
      SizeParts(rest);
      var size := CmpColSize(rest);
      if size <= |rest| {
        CountedNext(data, n, rest);
        assert rest[size..] == data[p + size..];
      } else {
        bad := true;
        CountedBad(data, n, rest);
      }
      p := p + size;
      n := n + 1;
    }
    if p != |data| {
      if !bad {
        TooShort(data[p..]);
        CountedNone(data, n, data[p..]);
      }
      return -1;
    }
    CountedEnd(data, n, data[p..]);
  }

  lemma {:induction false} CountedStart(body: seq<byte>)
    ensures CmpCounted(body, 0, body)
  {
  }

  lemma {:induction false} CountedBad(body: seq<byte>, k: nat, rest: seq<byte>)
    requires CmpCounted(body, k, rest) && rest != [] && !HasCmpCol(rest)
    ensures CountCmp(body) == None
  {
    CountCmpStep(rest);
    hide CountCmp;
  }

  lemma {:induction false} CountedNone(body: seq<byte>, k: nat, rest: seq<byte>)
    requires CmpCounted(body, k, rest) && CountCmp(rest) == None
    ensures CountCmp(body) == None
  {
  }

  lemma {:induction false} CountedEnd(body: seq<byte>, k: nat, rest: seq<byte>)
    requires CmpCounted(body, k, rest) && rest == []
    ensures CountCmp(body) == Some(k)
  {
  }

  /** Where collection i starts, in the compressed body and in the decompressed chunk. */
  function CmpStart(body: seq<byte>, i: nat): (p: (nat, nat))
    requires CountCmp(body).Some? && i <= CountCmp(body).value
    ensures p.0 <= |body|
    decreases i
  {
    if i == 0 then (0, 0)
    else
      CountCmpStep(body);
      var p := CmpStart(body[CmpColSize(body)..], i - 1);
      (CmpColSize(body) + p.0, ColSize(body[CMP_COLLECTION_FILD_SIZE..]) + p.1)
  }

  lemma {:induction false} CmpStartNext(body: seq<byte>, i: nat)
    requires CountCmp(body).Some? && i < CountCmp(body).value
    ensures CountCmp(body[CmpStart(body, i).0..]) == Some(CountCmp(body).value - i)
    ensures var b := body[CmpStart(body, i).0..];
      && HasCmpCol(b) && CmpStart(body, i + 1).0 == CmpStart(body, i).0 + CmpColSize(b)
      && CmpStart(body, i + 1).1 == CmpStart(body, i).1 + ColSize(b[CMP_COLLECTION_FILD_SIZE..])
    decreases i
  {
    hide *;
    CountCmpStep(body);
    CmpStartStep(body, i + 1);
    if i == 0 {
      CmpStartZero(body);
    } else {
      CmpStartStep(body, i);
      DropDrop(body, CmpColSize(body), CmpStart(body[CmpColSize(body)..], i - 1).0);
      CmpStartNext(body[CmpColSize(body)..], i - 1);
    }
  }

  lemma {:induction false} DropDrop(s: seq<byte>, i: nat, j: nat)
    requires i + j <= |s|
    ensures s[i..][j..] == s[i + j..]
  {
  }

  lemma {:induction false} CmpStartZero(body: seq<byte>)
    requires CountCmp(body).Some?
    ensures CmpStart(body, 0) == (0, 0) && body[0..] == body
    ensures 0 < CountCmp(body).value ==>
      HasCmpCol(body) && CountCmp(body[CmpColSize(body)..]).Some? && CmpStart(body[CmpColSize(body)..], 0) == (0, 0)
  {
    CountCmpStep(body);
    hide CountCmp, CmpColSize;
  }

  lemma {:induction false} CmpStartStep(body: seq<byte>, i: nat)
    requires CountCmp(body).Some? && 0 < i <= CountCmp(body).value
    ensures HasCmpCol(body) && CountCmp(body[CmpColSize(body)..]).Some? && i - 1 <= CountCmp(body[CmpColSize(body)..]).value
    ensures CmpStart(body, i).0 == CmpColSize(body) + CmpStart(body[CmpColSize(body)..], i - 1).0
    ensures CmpStart(body, i).1 == ColSize(body[CMP_COLLECTION_FILD_SIZE..]) + CmpStart(body[CmpColSize(body)..], i - 1).1
    ensures CmpStart(body, 0) == (0, 0)
  {
    CountCmpStep(body);
    hide CountCmp, CmpColSize, ColSize;
  }

  //// Parsing one collection

  /** The header of the collection at the front of b and the sizes make sense, with pos
      bytes of the total already taken. */
  predicate ColParses(b: seq<byte>, pos: nat, total: nat)
    requires HasCmpCol(b)
  {
    var col := b[CMP_COLLECTION_FILD_SIZE..];
    && CmpColDataLength(b) <= ColDataLength(col) && !ColDataType(col).Unknown?
    && ColDataLength(col) % SampleSize(ColDataType(col)) == 0
    && pos + ColDataLength(col) + COLLECTION_HDR_SIZE <= total
  }

  /** The header and the packed data of the collection at the front of b. */
  function ColSource(b: seq<byte>): (src: seq<byte>)
    requires HasCmpCol(b)
    ensures |src| == COLLECTION_HDR_SIZE + CmpColDataLength(b)
  {
    b[CMP_COLLECTION_FILD_SIZE..CmpColSize(b)]
  }

  /** What parse_cmp_collection sets in the configuration. */
  datatype Parsed = Parsed(src: seq<byte>, samples: nat, uncompressed: bool)

  ghost predicate ParsedAs(b: seq<byte>, pos: nat, total: nat, offset: int, p: Parsed)
    requires HasCmpCol(b)
  {
    && offset == (if ColParses(b, pos, total) then pos else -1)
    && (ColParses(b, pos, total) ==>
          var col := b[CMP_COLLECTION_FILD_SIZE..];
          && SampleSize(ColDataType(col)) > 0
          && p == Parsed(ColSource(b), NumSamples(ColDataLength(col), SampleSize(ColDataType(col))), CmpColDataLength(b) == ColDataLength(col)))
  }

  /** The checks of parse_cmp_collection; the result is the offset of the decompressed
      collection, or -1. */
  method ParseHere(b: seq<byte>, decmpPos: nat, decmpSize: nat) returns (offset: int, p: Parsed)
    requires HasCmpCol(b)
    ensures ParsedAs(b, decmpPos, decmpSize, offset, p)
  {
    hide ColDataType, ColDataLength, SampleSize, CmpColDataLength;
    var col := b[CMP_COLLECTION_FILD_SIZE..];
    var cmpDataSize, originalColSize := CmpColDataLength(b), ColDataLength(col);
    p := Parsed([], 0, false);
    if cmpDataSize > originalColSize { return -1, p; }
    var sampleSize := SampleSize(ColDataType(col));
    if sampleSize == 0 { return -1, p; }
    if originalColSize % sampleSize != 0 { return -1, p; }
    p := Parsed(ColSource(b), NumSamples(originalColSize, sampleSize), cmpDataSize == originalColSize);
    if decmpPos + originalColSize + COLLECTION_HDR_SIZE > decmpSize { return -1, p; }
    offset := decmpPos;
  }

  /** parse_cmp_collection: walks to collection n from the start, and parses it. */
  method ParseCmpCollection(data: seq<byte>, n: nat, decmpSize: nat) returns (offset: int, p: Parsed)
    requires CountCmp(data).Some? && n < CountCmp(data).value
    ensures HasCmpCol(data[CmpStart(data, n).0..])
    ensures ParsedAs(data[CmpStart(data, n).0..], CmpStart(data, n).1, decmpSize, offset, p)
  {
    hide *;
    var i, cmpCol, decmpPos := 0, 0, 0;
    CmpStartZero(data);
    while i < n
      invariant 0 <= i <= n && (cmpCol, decmpPos) == CmpStart(data, i)
    {
      CmpStartNext(data, i);
      HasCmpSizes(data[cmpCol..]);
      decmpPos := decmpPos + ColSize(data[cmpCol..][CMP_COLLECTION_FILD_SIZE..]);
      cmpCol := cmpCol + CmpColSize(data[cmpCol..]);
      i := i + 1;
    }
    CmpStartNext(data, n);
    offset, p := ParseHere(data[cmpCol..], decmpPos, decmpSize);
  }

  lemma {:induction false} HasCmpSizes(b: seq<byte>)
    requires HasCmpCol(b)
    ensures |b| >= CMP_COLLECTION_FILD_SIZE && |b[CMP_COLLECTION_FILD_SIZE..]| >= COLLECTION_HDR_SIZE
    ensures CMP_COLLECTION_FILD_SIZE == 2
  {
  }

  //// Sizes of what is read

  lemma {:induction false} DecFromSize(fs: seq<Field>, total: nat, model: Option<seq<byte>>, acc: seq<byte>, b: seq<bool>, n: nat)
    requires ValidFields(fs) && RecSize(fs) > 0 && |acc| + n * RecSize(fs) == total
    requires DecFrom(fs, total, model, acc, b).Some?
    ensures |DecFrom(fs, total, model, acc, b).value.0| == total
    decreases n
  {
    hide *;
    var s := RecSize(fs);
    if n == 0 {
      DecFromDone(fs, total, model, acc, b);
    } else {
      TimesStep(n, s);
      var acc', b' := DecFromFirst(fs, total, model, acc, b);
      DecFromSize(fs, total, model, acc', b', n - 1);
    }
  }

  lemma {:induction false} DecFromDone(fs: seq<Field>, total: nat, model: Option<seq<byte>>, acc: seq<byte>, b: seq<bool>)
    requires ValidFields(fs) && RecSize(fs) > 0 && |acc| == total
    ensures DecFrom(fs, total, model, acc, b) == Some((acc, b))
  {
  }

  lemma {:induction false} DecFromFirst(fs: seq<Field>, total: nat, model: Option<seq<byte>>, acc: seq<byte>, b: seq<bool>)
    returns (acc': seq<byte>, b': seq<bool>)
    requires ValidFields(fs) && RecSize(fs) > 0 && |acc| + RecSize(fs) <= total
    requires DecFrom(fs, total, model, acc, b).Some?
    ensures |acc'| == |acc| + RecSize(fs) && DecFrom(fs, total, model, acc, b) == DecFrom(fs, total, model, acc', b')
  {
    hide DecRec, RecSize, Prediction, ValidFields;
    var r := DecRec(fs, Prediction(RecSize(fs), acc, model, |acc|), acc, b);
    acc', b' := r.value.0, r.value.1;
  }

  /** Whatever is read, it has the original size, and so has its updated model. */
  lemma {:induction false} UnpackDataSize(c: CfgSix, dt: DataType, bytes: seq<byte>, len: nat, mdl: Option<seq<byte>>)
    requires !dt.Unknown? && len % SampleSize(dt) == 0 && (mdl.Some? ==> |mdl.value| == len)
    requires UnpackData(c, dt, bytes, len, mdl).Some?
    ensures |UnpackData(c, dt, bytes, len, mdl).value.bytes| == len
    ensures c.mode.IsModel() ==> |UnpackData(c, dt, bytes, len, mdl).value.model| == len
  {
    if |bytes| < len {
      UnpackStreamParts(c, dt, bytes, len, mdl);
      FieldsOfValid(dt, c);
      var fs := FieldsOf(dt, c);
      WholeSamples(len, SampleSize(dt));
      hide *;
      var n := NumSamples(len, SampleSize(dt));
      NumSamplesIs(len, SampleSize(dt));
      DecFromSize(fs, len, mdl, [], BytesBits(bytes), n);
      var data := DecFrom(fs, len, mdl, [], BytesBits(bytes)).value.0;
      if mdl.Some? { UpFromSize(fs, data, mdl.value, c.modelValue, 0, n); }
    } else {
      hide SwapRecords, SampleSize;
    }
  }

  lemma {:induction false} NumSamplesIs(len: nat, s: nat)
    requires s > 0 && len % s == 0
    ensures len == NumSamples(len, s) * s
  {
    WholeSamples(len, s);
  }

  /** The parts of a bitstream that is readable. */
  lemma {:induction false} UnpackStreamParts(c: CfgSix, dt: DataType, bytes: seq<byte>, len: nat, mdl: Option<seq<byte>>)
    requires !dt.Unknown? && len % SampleSize(dt) == 0 && (mdl.Some? ==> |mdl.value| == len) && |bytes| < len
    requires UnpackData(c, dt, bytes, len, mdl).Some?
    ensures CfgIsValid(c, dt) && !c.mode.IsRaw() && mdl.Some? == c.mode.IsModel() && (mdl.Some? ==> c.modelValue <= MAX_MODEL_VALUE)
    ensures ValidFields(FieldsOf(dt, c)) && RecSize(FieldsOf(dt, c)) > 0
    ensures var r := DecFrom(FieldsOf(dt, c), len, mdl, [], BytesBits(bytes));
      && r.Some? && |r.value.0| <= len
      && UnpackData(c, dt, bytes, len, mdl).value
           == Packed(r.value.0, if mdl.Some? then UpFrom(FieldsOf(dt, c), r.value.0, mdl.value, c.modelValue, 0) else [])
  {
    assert CfgIsValid(c, dt);
    FieldsOfValid(dt, c);
    hide DecFrom, UpFrom, BytesBits, FieldsOf, RecSize, ValidFields, SampleSize, SpecificParsAreValid;
  }

  //// One collection of the body

  lemma {:induction false} ParsesParts(b: seq<byte>, pos: nat, total: nat)
    requires HasCmpCol(b) && ColParses(b, pos, total)
    ensures var src := ColSource(b); var col := b[CMP_COLLECTION_FILD_SIZE..];
      && |src| >= COLLECTION_HDR_SIZE && |col| >= COLLECTION_HDR_SIZE
      && ColDataLength(src) == ColDataLength(col) && ColDataType(src) == ColDataType(col) && ColSize(src) == ColSize(col)
      && ColHeader(src) == ColHeader(col) && ColBody(src) == b[CMP_COLLECTION_FILD_SIZE + COLLECTION_HDR_SIZE..CmpColSize(b)]
      && !ColDataType(src).Unknown? && ColDataLength(src) % SampleSize(ColDataType(src)) == 0
      && |src| == COLLECTION_HDR_SIZE + CmpColDataLength(b) <= COLLECTION_HDR_SIZE + ColDataLength(src)
      && pos + COLLECTION_HDR_SIZE + ColDataLength(src) <= total
      && ColSize(src) == COLLECTION_HDR_SIZE + ColDataLength(src)
  {
    var src, col := ColSource(b), b[CMP_COLLECTION_FILD_SIZE..];
    assert src[..COLLECTION_HDR_SIZE] == col[..COLLECTION_HDR_SIZE];
    SameHeader(src, col);
    hide SampleSize, U16At, ConvertSubservice;
  }

  /** The data and the model of a collection, each behind the header. */
  function BehindHeader(c: CfgSix, hdr: seq<byte>, s: Option<Packed>): Option<Packed>
  {
    if s.None? then None else Some(Packed(hdr + s.value.bytes, if c.mode.IsModel() then hdr + s.value.model else []))
  }

  lemma {:induction false} UnpackColUnfold(c: CfgSix, b: seq<byte>, pos: nat, total: nat, model: Option<seq<byte>>)
    requires HasCmpCol(b) && pos <= total && (model.Some? ==> |model.value| == total - pos)
    ensures !ColParses(b, pos, total) ==> UnpackCol(c, b, total - pos, model) == None
    ensures |b[CMP_COLLECTION_FILD_SIZE..]| >= COLLECTION_HDR_SIZE
    ensures var col := b[CMP_COLLECTION_FILD_SIZE..];
      ColParses(b, pos, total) && (model.Some? ==> COLLECTION_HDR_SIZE + ColDataLength(col) <= |model.value|) ==>
      UnpackCol(c, b, total - pos, model) == BehindHeader(c, ColHeader(col), UnpackData(c, ColDataType(col),
        b[CMP_COLLECTION_FILD_SIZE + COLLECTION_HDR_SIZE..CmpColSize(b)], ColDataLength(col),
        ModelData(c, ModelFront(model, COLLECTION_HDR_SIZE + ColDataLength(col)))))
  {
    assert |b[CMP_COLLECTION_FILD_SIZE..]| >= COLLECTION_HDR_SIZE;
    hide UnpackData, SampleSize, ColDataType, ColDataLength, CmpColDataLength, ModelData, ModelFront;
  }

  /** The packed collection at the front of b, by the parsed source. */
  lemma {:induction false} UnpackColSource(c: CfgSix, b: seq<byte>, pos: nat, total: nat, model: Option<seq<byte>>, mdl: Option<seq<byte>>)
    requires HasCmpCol(b) && pos <= total && (model.Some? ==> |model.value| == total - pos) && ColParses(b, pos, total)
    requires |ColSource(b)| >= COLLECTION_HDR_SIZE
    requires mdl == SourceModel(c, model, COLLECTION_HDR_SIZE + ColDataLength(ColSource(b)))
    ensures !ColDataType(ColSource(b)).Unknown? && ColDataLength(ColSource(b)) % SampleSize(ColDataType(ColSource(b))) == 0
    ensures mdl.Some? ==> |mdl.value| == ColDataLength(ColSource(b))
    ensures UnpackCol(c, b, total - pos, model)
      == BehindHeader(c, ColHeader(ColSource(b)),
           UnpackData(c, ColDataType(ColSource(b)), ColBody(ColSource(b)), ColDataLength(ColSource(b)), mdl))
  {
    hide *;
    ParsesParts(b, pos, total);
    SourceModelIs(c, model, COLLECTION_HDR_SIZE + ColDataLength(ColSource(b)));
    UnpackColUnfold(c, b, pos, total, model);
  }

  /** The model data of n bytes at the front of a model. */
  ghost function SourceModel(c: CfgSix, model: Option<seq<byte>>, n: nat): (m: Option<seq<byte>>)
  {
    if c.mode.IsModel() && model.Some? && COLLECTION_HDR_SIZE <= n <= |model.value| then Some(model.value[COLLECTION_HDR_SIZE..n]) else None
  }

  lemma {:induction false} SourceModelIs(c: CfgSix, model: Option<seq<byte>>, n: nat)
    requires n >= COLLECTION_HDR_SIZE && (model.Some? ==> n <= |model.value|)
    ensures ModelFront(model, n).Some? ==> |ModelFront(model, n).value| >= COLLECTION_HDR_SIZE
    ensures SourceModel(c, model, n) == ModelData(c, ModelFront(model, n))
    ensures SourceModel(c, model, n).Some? ==> |SourceModel(c, model, n).value| == n - COLLECTION_HDR_SIZE
  {
    if model.Some? { assert model.value[..n][COLLECTION_HDR_SIZE..] == model.value[COLLECTION_HDR_SIZE..n]; }
  }

  //// The loop

  /** What the loop works on: the configuration of the entity, the compressed body, the
      size of the original chunk and the buffers. */
  datatype Reading = Reading(c: CfgSix, data: seq<byte>, total: nat, model: array?<byte>, up: array?<byte>, dst: array?<byte>)

  /** The contents of the model, the destination and the updated model before the loop. */
  datatype Start = Start(mopt: Option<seq<byte>>, m0: seq<byte>, u0: seq<byte>)

  ghost predicate ValidReading(j: Reading, b: Start)
  {
    && CountCmp(j.data).Some? && GenParsAreValid(j.c) && !j.c.mode.IsRaw()
    && (b.mopt.Some? ==> |b.mopt.value| == j.total) && b.mopt.Some? == (j.model != null)
    && (j.model != null ==> j.total <= j.model.Length)
    && (j.up != null ==> j.total <= j.up.Length == |b.u0|)
    && (j.dst != null ==> j.total <= j.dst.Length == |b.m0| && j.dst != j.model && j.dst != j.up)
  }

  ghost predicate StoresModel(j: Reading)
  {
    j.c.mode.IsModel() && j.up != null
  }

  /** What the body stands for. */
  ghost function Whole(j: Reading, b: Start): (s: Option<Packed>)
    requires ValidReading(j, b)
  {
    UnpackCols(j.c, j.data, j.total, b.mopt)
  }

  /** The next collection. */
  ghost function Next(j: Reading, b: Start, i: nat): (s: Option<Packed>)
    requires ValidReading(j, b) && i < CountCmp(j.data).value && CmpStart(j.data, i).1 <= j.total
  {
    CmpStartNext(j.data, i);
    UnpackCol(j.c, j.data[CmpStart(j.data, i).0..], j.total - CmpStart(j.data, i).1, ModelBack(b.mopt, CmpStart(j.data, i).1))
  }

  /** If the whole body is readable, the collections before number i are read as done. */
  ghost predicate ReadTo(j: Reading, b: Start, i: nat, done: Packed)
    requires ValidReading(j, b) && i <= CountCmp(j.data).value
  {
    var at := CmpStart(j.data, i);
    Whole(j, b).Some? ==>
      && at.1 == |done.bytes| <= j.total && (j.c.mode.IsModel() ==> |done.model| == at.1)
      && var rest := UnpackCols(j.c, j.data[at.0..], j.total - at.1, ModelBack(b.mopt, at.1));
         rest.Some? && Whole(j, b) == Some(Packed(done.bytes + rest.value.bytes, done.model + rest.value.model))
  }

  lemma {:induction false} NothingBefore(p: Packed)
    ensures Packed([] + p.bytes, [] + p.model) == p
  {
    assert [] + p.bytes == p.bytes && [] + p.model == p.model;
  }

  lemma {:induction false} WholeModel(model: Option<seq<byte>>)
    ensures ModelBack(model, 0) == model
  {
    if model.Some? { assert model.value[0..] == model.value; }
  }

  lemma {:induction false} ReadToStart(j: Reading, b: Start, none: Packed)
    requires ValidReading(j, b) && CmpStart(j.data, 0) == (0, 0) && none == Packed([], [])
    requires j.data[0..] == j.data && ModelBack(b.mopt, 0) == b.mopt
    requires Whole(j, b).Some? ==> Packed(none.bytes + Whole(j, b).value.bytes, none.model + Whole(j, b).value.model) == Whole(j, b).value
    ensures ReadTo(j, b, 0, none)
  {
    hide UnpackCols, CmpStart, CountCmp, GenParsAreValid, ModelBack;
  }

  lemma {:induction false} ReadStart(j: Reading, b: Start)
    requires ValidReading(j, b)
    ensures ReadTo(j, b, 0, Packed([], []))
  {
    ReadingParts(j, b);
    hide *;
    CmpStartZero(j.data);
    WholeModel(b.mopt);
    if Whole(j, b).Some? { NothingBefore(Whole(j, b).value); }
    ReadToStart(j, b, Packed([], []));
  }

  /** A readable rest starts with a readable collection of the announced size. */
  lemma {:induction false} UnpackColsFirst(c: CfgSix, body: seq<byte>, total: nat, model: Option<seq<byte>>) returns (p: Packed, q: Packed)
    requires HasCmpCol(body) && (model.Some? ==> |model.value| == total) && UnpackCols(c, body, total, model).Some?
    ensures UnpackCol(c, body, total, model) == Some(p) && |p.bytes| <= total
    ensures ModelBack(model, |p.bytes|).Some? ==> |ModelBack(model, |p.bytes|).value| == total - |p.bytes|
    ensures UnpackCols(c, body[CmpColSize(body)..], total - |p.bytes|, ModelBack(model, |p.bytes|)) == Some(q)
    ensures UnpackCols(c, body, total, model) == Some(Packed(p.bytes + q.bytes, p.model + q.model))
  {
    hide UnpackCol, CmpColSize, ModelBack;
    p := UnpackCol(c, body, total, model).value;
    ModelParts(model, |p.bytes|);
    q := UnpackCols(c, body[CmpColSize(body)..], total - |p.bytes|, ModelBack(model, |p.bytes|)).value;
  }

  /** The size of a collection that is read. */
  lemma {:induction false} UnpackColSize(c: CfgSix, b: seq<byte>, total: nat, model: Option<seq<byte>>)
    requires HasCmpCol(b) && (model.Some? ==> |model.value| == total) && UnpackCol(c, b, total, model).Some?
    ensures |b[CMP_COLLECTION_FILD_SIZE..]| >= COLLECTION_HDR_SIZE && ColParses(b, 0, total)
    ensures |UnpackCol(c, b, total, model).value.bytes| == ColSize(b[CMP_COLLECTION_FILD_SIZE..])
    ensures c.mode.IsModel() ==> |UnpackCol(c, b, total, model).value.model| == ColSize(b[CMP_COLLECTION_FILD_SIZE..])
  {
    hide *;
    UnpackColUnfold(c, b, 0, total, model);
    ParsesParts(b, 0, total);
    var src := ColSource(b);
    var mdl := SourceModel(c, model, COLLECTION_HDR_SIZE + ColDataLength(src));
    UnpackColSource(c, b, 0, total, model, mdl);
    var s := UnpackData(c, ColDataType(src), ColBody(src), ColDataLength(src), mdl);
    BehindHeaderParts(c, ColHeader(src), s, UnpackCol(c, b, total, model));
    UnpackDataSize(c, ColDataType(src), ColBody(src), ColDataLength(src), mdl);
  }

  lemma {:induction false} BehindHeaderParts(c: CfgSix, hdr: seq<byte>, s: Option<Packed>, r: Option<Packed>)
    requires r == BehindHeader(c, hdr, s)
    ensures r.Some? <==> s.Some?
    ensures r.Some? ==> |r.value.bytes| == |hdr| + |s.value.bytes| && (c.mode.IsModel() ==> |r.value.model| == |hdr| + |s.value.model|)
  {
  }

  /** One more collection is read. */
  lemma {:induction false} ReadNext(j: Reading, b: Start, i: nat, done: Packed)
    requires ValidReading(j, b) && i < CountCmp(j.data).value && ReadTo(j, b, i, done) && CmpStart(j.data, i).1 <= j.total
    ensures Whole(j, b).Some? ==> NextRead(j, b, i, done)
  {
    hide *;
    ReadingParts(j, b);
    if Whole(j, b).Some? {
      var at := CmpStart(j.data, i);
      BackOfBack(b.mopt, j.total, at.1, 0);
      ReadToRest(j, b, i, done);
      CmpStartNext(j.data, i);
      var p, q := UnpackColsFirst(j.c, j.data[at.0..], j.total - at.1, ModelBack(b.mopt, at.1));
      UnpackColSize(j.c, j.data[at.0..], j.total - at.1, ModelBack(b.mopt, at.1));
      NextIs(j, b, i);
      ReadWith(j, b, i, done, p, q);
    }
  }

  /** The next collection is readable and adds to what is done. */
  ghost predicate NextRead(j: Reading, b: Start, i: nat, done: Packed)
    requires ValidReading(j, b) && i < CountCmp(j.data).value && CmpStart(j.data, i).1 <= j.total
  {
    var p := Next(j, b, i);
    && p.Some? && |done.bytes| == CmpStart(j.data, i).1
    && |p.value.bytes| == CmpStart(j.data, i + 1).1 - CmpStart(j.data, i).1
    && (j.c.mode.IsModel() ==> |p.value.model| == |p.value.bytes|)
    && ReadTo(j, b, i + 1, Plus(done, p.value))
  }

  lemma {:induction false} ReadWith(j: Reading, b: Start, i: nat, done: Packed, p: Packed, q: Packed)
    requires ValidReading(j, b) && i < CountCmp(j.data).value && CmpStart(j.data, i).1 <= j.total && Next(j, b, i) == Some(p)
    requires |done.bytes| == CmpStart(j.data, i).1 && |p.bytes| == CmpStart(j.data, i + 1).1 - CmpStart(j.data, i).1
    requires CmpStart(j.data, i).1 + |p.bytes| <= j.total
    requires j.c.mode.IsModel() ==> |done.model| == |done.bytes| && |p.model| == |p.bytes|
    requires HasCmpCol(j.data[CmpStart(j.data, i).0..])
    requires ModelBack(b.mopt, CmpStart(j.data, i).1).Some? ==>
      |p.bytes| <= |ModelBack(b.mopt, CmpStart(j.data, i).1).value|
    requires var m := ModelBack(ModelBack(b.mopt, CmpStart(j.data, i).1), |p.bytes|);
      m.Some? ==> |m.value| == j.total - CmpStart(j.data, i).1 - |p.bytes|
    requires var body := j.data[CmpStart(j.data, i).0..];
      UnpackCols(j.c, body[CmpColSize(body)..], j.total - CmpStart(j.data, i).1 - |p.bytes|,
        ModelBack(ModelBack(b.mopt, CmpStart(j.data, i).1), |p.bytes|)) == Some(q)
    requires Whole(j, b) == Some(Plus(done, Packed(p.bytes + q.bytes, p.model + q.model)))
    ensures NextRead(j, b, i, done)
  {
    hide *;
    ReadingParts(j, b);
    var at := CmpStart(j.data, i);
    CmpStartNext(j.data, i);
    BackOfBack(b.mopt, j.total, at.1, |p.bytes|);
    ReadToOf(j, b, i, done, p, q, at, CmpStart(j.data, i + 1), CmpColSize(j.data[at.0..]),
      j.data[at.0..][CmpColSize(j.data[at.0..])..], ModelBack(ModelBack(b.mopt, at.1), |p.bytes|));
    NextReadOf(j, b, i, done, p);
  }

  lemma {:induction false} NextReadOf(j: Reading, b: Start, i: nat, done: Packed, p: Packed)
    requires ValidReading(j, b) && i < CountCmp(j.data).value && CmpStart(j.data, i).1 <= j.total && Next(j, b, i) == Some(p)
    requires |done.bytes| == CmpStart(j.data, i).1 && |p.bytes| == CmpStart(j.data, i + 1).1 - CmpStart(j.data, i).1
    requires j.c.mode.IsModel() ==> |p.model| == |p.bytes|
    requires ReadTo(j, b, i + 1, Plus(done, p))
    ensures NextRead(j, b, i, done)
  {
    hide Next, ReadTo, CmpStart, CountCmp, ValidReading, Plus;
  }

  lemma {:induction false} NextIs(j: Reading, b: Start, i: nat)
    requires ValidReading(j, b) && i < CountCmp(j.data).value && CmpStart(j.data, i).1 <= j.total
    requires HasCmpCol(j.data[CmpStart(j.data, i).0..])
    ensures ModelBack(b.mopt, CmpStart(j.data, i).1).Some? ==>
      |ModelBack(b.mopt, CmpStart(j.data, i).1).value| == j.total - CmpStart(j.data, i).1
    ensures Next(j, b, i)
      == UnpackCol(j.c, j.data[CmpStart(j.data, i).0..], j.total - CmpStart(j.data, i).1, ModelBack(b.mopt, CmpStart(j.data, i).1))
  {
    hide UnpackCol, CmpStart, CountCmp, HasCmpCol, GenParsAreValid;
  }

  lemma {:induction false} ReadToRest(j: Reading, b: Start, i: nat, done: Packed)
    requires ValidReading(j, b) && i <= CountCmp(j.data).value && ReadTo(j, b, i, done) && Whole(j, b).Some?
    ensures var at := CmpStart(j.data, i);
      && at.1 == |done.bytes| <= j.total && (j.c.mode.IsModel() ==> |done.model| == at.1)
      && (ModelBack(b.mopt, at.1).Some? ==> |ModelBack(b.mopt, at.1).value| == j.total - at.1)
      && var rest := UnpackCols(j.c, j.data[at.0..], j.total - at.1, ModelBack(b.mopt, at.1));
         rest.Some? && Whole(j, b) == Some(Plus(done, rest.value))
  {
    hide UnpackCols, CmpStart, CountCmp, GenParsAreValid;
  }

  lemma {:induction false} ReadToOf(j: Reading, b: Start, i: nat, done: Packed, p: Packed, q: Packed, at: (nat, nat), at': (nat, nat),
    n: nat, rest: seq<byte>, m: Option<seq<byte>>)
    requires ValidReading(j, b) && i < CountCmp(j.data).value && i + 1 <= CountCmp(j.data).value
    requires at == CmpStart(j.data, i) && at' == CmpStart(j.data, i + 1) && at' == (at.0 + n, at.1 + |p.bytes|) && at'.0 <= |j.data|
    requires at.1 == |done.bytes| && at'.1 <= j.total && (j.c.mode.IsModel() ==> |done.model| == at.1 && |p.model| == |p.bytes|)
    requires rest == j.data[at.0..][n..] && (b.mopt.Some? ==> m == Some(b.mopt.value[at.1..][|p.bytes|..])) && (b.mopt.None? ==> m == None)
    requires UnpackCols(j.c, rest, j.total - at'.1, m) == Some(q)
    requires Whole(j, b) == Some(Plus(done, Packed(p.bytes + q.bytes, p.model + q.model)))
    ensures ReadTo(j, b, i + 1, Plus(done, p))
  {
    hide UnpackCols, CmpStart, CountCmp, GenParsAreValid, Whole;
    DropDrop(j.data, at.0, n);
    if b.mopt.Some? { DropDrop(b.mopt.value, at.1, |p.bytes|); }
    assert done.bytes + (p.bytes + q.bytes) == done.bytes + p.bytes + q.bytes;
    assert done.model + (p.model + q.model) == done.model + p.model + q.model;
  }

  lemma {:induction false} BackOfBack(mopt: Option<seq<byte>>, total: nat, i: nat, n: nat)
    requires (mopt.Some? ==> |mopt.value| == total) && i + n <= total
    ensures ModelBack(mopt, i).Some? ==> |ModelBack(mopt, i).value| == total - i
    ensures mopt.Some? ==> ModelBack(ModelBack(mopt, i), n) == Some(mopt.value[i..][n..])
    ensures mopt.None? ==> ModelBack(ModelBack(mopt, i), n) == None
  {
  }

  lemma {:induction false} ReadingParts(j: Reading, b: Start)
    requires ValidReading(j, b)
    ensures CountCmp(j.data).Some? && GenParsAreValid(j.c) && !j.c.mode.IsRaw()
    ensures (b.mopt.Some? ==> |b.mopt.value| == j.total) && b.mopt.Some? == (j.model != null)
    ensures j.model != null ==> j.total <= j.model.Length
    ensures j.up != null ==> j.total <= j.up.Length == |b.u0|
    ensures j.dst != null ==> j.total <= j.dst.Length == |b.m0| && j.dst != j.model && j.dst != j.up
    ensures StoresModel(j) == (j.c.mode.IsModel() && j.up != null)
    ensures Whole(j, b) == UnpackCols(j.c, j.data, j.total, b.mopt)
  {
    hide UnpackCols, CountCmp, GenParsAreValid;
  }

  //// The buffers

  /** The buffers while the loop runs: only the regions of the chunk change, and if the
      whole body is readable they hold what is read so far. */
  ghost predicate Holds(j: Reading, b: Start, pos: nat, done: Packed, m1: seq<byte>, u1: seq<byte>, mem: seq<byte>)
    requires ValidReading(j, b)
  {
    && pos <= j.total && Region(j.dst, b.m0, m1, 0, j.total, None) && UpRegion(StoresModel(j), b.u0, u1, 0, j.total, None)
    && ModelLeft(b.mopt, mem, 0, pos, j.total)
    && (Whole(j, b).Some? && j.dst != null ==>
          && |done.bytes| == pos && pos <= |b.m0| && m1 == Splice(b.m0, 0, done.bytes)
          && (StoresModel(j) ==> |done.model| == pos && pos <= |b.u0| && u1 == Splice(b.u0, 0, done.model)))
  }

  lemma {:induction false} HoldsStart(j: Reading, b: Start, mem: seq<byte>)
    requires ValidReading(j, b) && ModelLeft(b.mopt, mem, 0, 0, j.total)
    ensures Holds(j, b, 0, Packed([], []), b.m0, b.u0, mem)
  {
    hide Whole, CountCmp, GenParsAreValid;
    if j.dst != null { SpliceNothing(b.m0, 0); }
    if j.up != null { SpliceNothing(b.u0, 0); }
  }

  lemma {:induction false} KeepsThen(m0: seq<byte>, m1: seq<byte>, m2: seq<byte>, pos: nat, n: nat, total: nat)
    requires KeepsOutside(m0, m1, 0, total) && KeepsOutside(m1, m2, pos, pos + n) && pos + n <= total
    ensures KeepsOutside(m0, m2, 0, total)
  {
    assert m2[total..] == m2[pos + n..][total - pos - n..] == m1[pos + n..][total - pos - n..] == m1[total..];
  }

  lemma {:induction false} ModelLeftRead(mopt: Option<seq<byte>>, mem0: seq<byte>, mem1: seq<byte>, pos: nat, n: nat, total: nat)
    requires ModelLeft(mopt, mem0, 0, pos, total) && pos + n <= total
    requires mem1 == mem0 || KeepsOutside(mem0, mem1, pos, pos + n)
    ensures ModelLeft(mopt, mem1, 0, pos + n, total)
  {
    if mopt.Some? {
      assert mem0[pos..total][n..] == mem0[pos + n..total] && mopt.value[pos..][n..] == mopt.value[pos + n..];
      if mem1 != mem0 {
        assert mem1[pos + n..total] == mem1[pos + n..][..total - pos - n] == mem0[pos + n..][..total - pos - n];
      }
    }
  }

  /** The buffers after one more collection of n bytes. */
  lemma {:induction false} HoldsNext(j: Reading, b: Start, pos: nat, done: Packed, m1: seq<byte>, m2: seq<byte>, u1: seq<byte>, u2: seq<byte>,
    mem1: seq<byte>, mem2: seq<byte>, n: nat, s: Option<Packed>)
    requires ValidReading(j, b) && Holds(j, b, pos, done, m1, u1, mem1) && pos + n <= j.total
    requires Region(j.dst, m1, m2, pos, n, if s.Some? then Some(s.value.bytes) else None)
    requires UpRegion(StoresModel(j), u1, u2, pos, n, if s.Some? && j.dst != null then Some(s.value.model) else None)
    requires mem2 == mem1 || (mem1 == u1 && mem2 == u2)
    requires Whole(j, b).Some? ==> s.Some?
    ensures s.Some? ==> Holds(j, b, pos + n, Plus(done, s.value), m2, u2, mem2)
    ensures Region(j.dst, b.m0, m2, 0, j.total, None) && UpRegion(StoresModel(j), b.u0, u2, 0, j.total, None)
    ensures s.None? ==> Holds(j, b, pos + n, done, m2, u2, mem2)
  {
    hide Whole, CountCmp, GenParsAreValid, ModelLeft, KeepsOutside;
    ModelLeftRead(b.mopt, mem1, mem2, pos, n, j.total);
    if j.dst != null { KeepsThen(b.m0, m1, m2, pos, n, j.total); }
    if StoresModel(j) { KeepsThen(b.u0, u1, u2, pos, n, j.total); }
    if Whole(j, b).Some? && j.dst != null {
      SpliceThen(b.m0, 0, done.bytes, s.value.bytes);
      if StoresModel(j) { SpliceThen(b.u0, 0, done.model, s.value.model); }
    }
  }

  //// Which collections are read

  /** Without a buffer for the data a collection must parse and its parameters be valid. */
  ghost predicate ColAccepted(c: CfgSix, b: seq<byte>, pos: nat, total: nat, hasModel: bool)
    requires HasCmpCol(b)
  {
    ColParses(b, pos, total) && Accepts(c, ColSource(b), ColDataLength(ColSource(b)), hasModel)
  }

  /** Collection i of a body is accepted. */
  ghost predicate AcceptedAt(c: CfgSix, data: seq<byte>, total: nat, hasModel: bool, i: nat)
    requires CountCmp(data).Some? && i < CountCmp(data).value
  {
    CmpStartNext(data, i);
    ColAccepted(c, data[CmpStart(data, i).0..], CmpStart(data, i).1, total, hasModel)
  }

  ghost predicate AllAccepted(c: CfgSix, data: seq<byte>, total: nat, hasModel: bool)
    requires CountCmp(data).Some?
  {
    forall i :: 0 <= i < CountCmp(data).value ==> AcceptedAt(c, data, total, hasModel, i)
  }

  /** Collection i is read without an error. */
  ghost predicate ColReads(j: Reading, b: Start, i: nat)
    requires ValidReading(j, b) && i < CountCmp(j.data).value
  {
    if j.dst != null then CmpStart(j.data, i).1 <= j.total && Next(j, b, i).Some?
    else AcceptedAt(j.c, j.data, j.total, j.model != null, i)
  }

  lemma {:induction false} ColReadsIs(j: Reading, b: Start, i: nat)
    requires ValidReading(j, b) && i < CountCmp(j.data).value && CmpStart(j.data, i).1 <= j.total
    ensures HasCmpCol(j.data[CmpStart(j.data, i).0..])
    ensures var body := j.data[CmpStart(j.data, i).0..];
      ColReads(j, b, i) <==> if j.dst != null then Next(j, b, i).Some?
        else ColParses(body, CmpStart(j.data, i).1, j.total)
             && Accepts(j.c, ColSource(body), ColDataLength(ColSource(body)), j.model != null)
  {
    CmpStartNext(j.data, i);
    hide Next, CmpStart, CountCmp, ValidReading, ColParses, Accepts, HasCmpCol, ColSource;
  }

  /** The updated model after i collections, without a buffer for the data. */
  function AloneAfter(data: seq<byte>, i: nat, u: seq<byte>): (v: seq<byte>)
    requires CountCmp(data).Some? && i <= CountCmp(data).value
    ensures |v| == |u|
  {
    if i == 0 then u
    else
      CmpStartNext(data, i - 1);
      var src := ColSource(data[CmpStart(data, i - 1).0..]);
      StoredAlone(src, ColDataLength(src), AloneAfter(data, i - 1, u), CmpStart(data, i - 1).1)
  }

  lemma {:induction false} AloneNext(data: seq<byte>, i: nat, u: seq<byte>)
    requires CountCmp(data).Some? && i < CountCmp(data).value
    ensures HasCmpCol(data[CmpStart(data, i).0..]) && AloneAfter(data, 0, u) == u
    ensures var src := ColSource(data[CmpStart(data, i).0..]);
      AloneAfter(data, i + 1, u) == StoredAlone(src, ColDataLength(src), AloneAfter(data, i, u), CmpStart(data, i).1)
  {
    CmpStartNext(data, i);
    hide CmpStart, CountCmp, HasCmpCol, StoredAlone, ColSource;
  }

  /** The updated model in its buffer, when there is no buffer for the data. */
  ghost function AloneModel(j: Reading, b: Start, i: nat): (v: seq<byte>)
    requires ValidReading(j, b) && i <= CountCmp(j.data).value
  {
    if StoresModel(j) then AloneAfter(j.data, i, b.u0) else b.u0
  }

  lemma {:induction false} UnpackColsMade(c: CfgSix, body: seq<byte>, total: nat, model: Option<seq<byte>>, p: Packed)
    requires HasCmpCol(body) && (model.Some? ==> |model.value| == total) && UnpackCol(c, body, total, model) == Some(p) && |p.bytes| <= total
    ensures ModelBack(model, |p.bytes|).Some? ==> |ModelBack(model, |p.bytes|).value| == total - |p.bytes|
    ensures UnpackCols(c, body[CmpColSize(body)..], total - |p.bytes|, ModelBack(model, |p.bytes|)).Some? ==>
      UnpackCols(c, body, total, model).Some?
  {
    assert |body| >= CMP_COLLECTION_FILD_SIZE && CmpColSize(body) <= |body|;
    hide *;
    ModelParts(model, |p.bytes|);
    var q := UnpackCols(c, body[CmpColSize(body)..], total - |p.bytes|, ModelBack(model, |p.bytes|));
    if q.Some? { UnpackColsStep(c, body, total, model, p, q.value); }
  }

  /** What is left from collection i on. */
  ghost function Rest(j: Reading, b: Start, i: nat): (s: Option<Packed>)
    requires ValidReading(j, b) && i <= CountCmp(j.data).value && CmpStart(j.data, i).1 <= j.total
  {
    var at := CmpStart(j.data, i);
    UnpackCols(j.c, j.data[at.0..], j.total - at.1, ModelBack(b.mopt, at.1))
  }

  lemma {:induction false} RestIs(j: Reading, b: Start, i: nat)
    requires ValidReading(j, b) && i <= CountCmp(j.data).value && CmpStart(j.data, i).1 <= j.total
    ensures ModelBack(b.mopt, CmpStart(j.data, i).1).Some? ==> |ModelBack(b.mopt, CmpStart(j.data, i).1).value| == j.total - CmpStart(j.data, i).1
    ensures Rest(j, b, i)
      == UnpackCols(j.c, j.data[CmpStart(j.data, i).0..], j.total - CmpStart(j.data, i).1, ModelBack(b.mopt, CmpStart(j.data, i).1))
  {
    hide UnpackCols, CmpStart, CountCmp, GenParsAreValid;
  }

  /** One readable collection in front of a readable rest. */
  lemma {:induction false} RestStep(j: Reading, b: Start, i: nat)
    requires ValidReading(j, b) && i < CountCmp(j.data).value && CmpStart(j.data, i).1 <= j.total && Next(j, b, i).Some?
    ensures CmpStart(j.data, i + 1).1 <= j.total && (Rest(j, b, i + 1).Some? ==> Rest(j, b, i).Some?)
  {
    hide *;
    ReadingParts(j, b);
    CmpStartNext(j.data, i);
    NextIs(j, b, i);
    var at := CmpStart(j.data, i);
    var body, mdl, p := j.data[at.0..], ModelBack(b.mopt, at.1), Next(j, b, i).value;
    BackOfBack(b.mopt, j.total, at.1, 0);
    UnpackColSize(j.c, body, j.total - at.1, mdl);
    ParsesFits(body, j.total - at.1);
    BackOfBack(b.mopt, j.total, at.1, |p.bytes|);
    UnpackColsMade(j.c, body, j.total - at.1, mdl, p);
    RestIs(j, b, i);
    RestIs(j, b, i + 1);
    DropDrop(j.data, at.0, CmpColSize(body));
    SameBack(b.mopt, at.1, |p.bytes|);
  }

  lemma {:induction false} SameBack(mopt: Option<seq<byte>>, i: nat, n: nat)
    requires mopt.Some? ==> i + n <= |mopt.value|
    ensures ModelBack(ModelBack(mopt, i), n) == ModelBack(mopt, i + n)
  {
    if mopt.Some? { DropDrop(mopt.value, i, n); }
  }

  lemma {:induction false} ParsesFits(b: seq<byte>, total: nat)
    requires HasCmpCol(b) && ColParses(b, 0, total)
    ensures ColSize(b[CMP_COLLECTION_FILD_SIZE..]) <= total
  {
    ParsesParts(b, 0, total);
    hide ColParses, ColSource, HasCmpCol, ColDataType, SampleSize, ColDataLength;
  }

  /** If every collection is readable, so is the body. */
  lemma {:induction false} EachReads(j: Reading, b: Start, i: nat)
    requires ValidReading(j, b) && i <= CountCmp(j.data).value && j.dst != null && CmpStart(j.data, i).1 <= j.total
    requires forall k :: i <= k < CountCmp(j.data).value ==> ColReads(j, b, k)
    ensures Rest(j, b, i).Some?
    decreases CountCmp(j.data).value - i
  {
    hide *;
    ReadingParts(j, b);
    if i == CountCmp(j.data).value {
      AllWalked(j.data, i);
      RestIs(j, b, i);
      NothingLeft(j.c, j.data[CmpStart(j.data, i).0..], j.total - CmpStart(j.data, i).1, ModelBack(b.mopt, CmpStart(j.data, i).1), Packed([], []));
    } else {
      ColReadsIs(j, b, i);
      RestStep(j, b, i);
      EachReads(j, b, i + 1);
    }
  }

  lemma {:induction false} AllReads(j: Reading, b: Start)
    requires ValidReading(j, b) && j.dst != null && forall k :: 0 <= k < CountCmp(j.data).value ==> ColReads(j, b, k)
    ensures Whole(j, b).Some?
  {
    hide *;
    ReadingParts(j, b);
    CmpStartZero(j.data);
    WholeModel(b.mopt);
    EachReads(j, b, 0);
    RestIs(j, b, 0);
  }

  //// One pass

  /** A parsed collection can be given to decompressed_data_internal. */
  lemma {:induction false} ParsedSource(c: CfgSix, b: seq<byte>, pos: nat, total: nat, offset: int, p: Parsed)
    requires HasCmpCol(b) && ParsedAs(b, pos, total, offset, p) && GenParsAreValid(c)
    ensures offset < 0 <==> !ColParses(b, pos, total)
    ensures offset >= 0 ==>
      && offset == pos && p.src == ColSource(b) && |p.src| >= COLLECTION_HDR_SIZE
      && ValidSource(c, p.src, p.samples, ColDataLength(p.src))
      && (p.uncompressed <==> |p.src| == COLLECTION_HDR_SIZE + ColDataLength(p.src))
      && |b[CMP_COLLECTION_FILD_SIZE..]| >= COLLECTION_HDR_SIZE
      && COLLECTION_HDR_SIZE + ColDataLength(p.src) == ColSize(b[CMP_COLLECTION_FILD_SIZE..])
      && pos + COLLECTION_HDR_SIZE + ColDataLength(p.src) <= total
  {
    if ColParses(b, pos, total) {
      ParsesParts(b, pos, total);
      NumSamplesIs(ColDataLength(p.src), SampleSize(ColDataType(p.src)));
      BytesOfIs(NumSamples(ColDataLength(p.src), SampleSize(ColDataType(p.src))), SampleSize(ColDataType(p.src)));
      hide ColDataType, ColDataLength, SampleSize, GenParsAreValid, NumSamples, BytesOf, ColParses, CmpColDataLength, ColSource, ColSize;
    }
  }

  /** The model bytes that the next collection uses. */
  lemma {:induction false} ModelBytesLeft(c: CfgSix, mopt: Option<seq<byte>>, model: array?<byte>, pos: nat, len: nat, total: nat)
    requires (mopt.Some? ==> |mopt.value| == total) && mopt.Some? == (model != null) && (model != null ==> total <= model.Length)
    requires pos + COLLECTION_HDR_SIZE + len <= total && ModelLeft(mopt, MemOf(model), 0, pos, total)
    ensures ModelBytes(c, model, pos, len) == SourceModel(c, ModelBack(mopt, pos), COLLECTION_HDR_SIZE + len)
  {
    if c.mode.IsModel() && model != null {
      var h := COLLECTION_HDR_SIZE;
      assert model[pos + h..pos + h + len] == model[..][pos..total][h..h + len];
      assert mopt.value[pos..][h..h + len] == mopt.value[pos..][h..h + len];
    }
  }

  /** The next collection of the specification, by what was parsed. */
  lemma {:induction false} NextOfSource(j: Reading, b: Start, i: nat, p: Parsed, mdl: Option<seq<byte>>)
    requires ValidReading(j, b) && i < CountCmp(j.data).value && CmpStart(j.data, i).1 <= j.total
    requires HasCmpCol(j.data[CmpStart(j.data, i).0..]) && ColParses(j.data[CmpStart(j.data, i).0..], CmpStart(j.data, i).1, j.total)
    requires p.src == ColSource(j.data[CmpStart(j.data, i).0..]) && |p.src| >= COLLECTION_HDR_SIZE
    requires ValidSource(j.c, p.src, p.samples, ColDataLength(p.src))
    requires ModelBack(b.mopt, CmpStart(j.data, i).1).Some? ==>
      |ModelBack(b.mopt, CmpStart(j.data, i).1).value| == j.total - CmpStart(j.data, i).1
    requires mdl == SourceModel(j.c, ModelBack(b.mopt, CmpStart(j.data, i).1), COLLECTION_HDR_SIZE + ColDataLength(p.src))
    ensures mdl.Some? ==> |mdl.value| == ColDataLength(p.src)
    ensures Next(j, b, i) == BehindHeader(j.c, ColHeader(p.src), SourceData(j.c, p.src, p.samples, ColDataLength(p.src), mdl))
  {
    hide *;
    ReadingParts(j, b);
    var at := CmpStart(j.data, i);
    BackOfBack(b.mopt, j.total, at.1, 0);
    NextIs(j, b, i);
    UnpackColSource(j.c, j.data[at.0..], at.1, j.total, ModelBack(b.mopt, at.1), mdl);
    SourceDataIs(j.c, p.src, p.samples, ColDataLength(p.src), mdl);
  }

  lemma {:induction false} NextUnparsed(j: Reading, b: Start, i: nat)
    requires ValidReading(j, b) && i < CountCmp(j.data).value && CmpStart(j.data, i).1 <= j.total
    requires HasCmpCol(j.data[CmpStart(j.data, i).0..]) && !ColParses(j.data[CmpStart(j.data, i).0..], CmpStart(j.data, i).1, j.total)
    ensures Next(j, b, i) == None
  {
    ReadingParts(j, b);
    hide *;
    var at := CmpStart(j.data, i);
    NextIs(j, b, i);
    BackOfBack(b.mopt, j.total, at.1, 0);
    UnpackColUnfold(j.c, j.data[at.0..], at.1, j.total, ModelBack(b.mopt, at.1));
  }

  /** The state of the loop before collection i. */
  ghost predicate LoopAt(j: Reading, b: Start, i: nat, done: Packed, m1: seq<byte>, u1: seq<byte>, mem: seq<byte>)
  {
    && ValidReading(j, b) && i <= CountCmp(j.data).value && CmpStart(j.data, i).1 <= j.total
    && ReadTo(j, b, i, done) && Holds(j, b, CmpStart(j.data, i).1, done, m1, u1, mem)
  }

  /** The loop gave up, which never happens with a readable body. */
  ghost predicate GaveUp(j: Reading, b: Start, m1: seq<byte>, u1: seq<byte>)
  {
    && ValidReading(j, b) && Whole(j, b).None?
    && Region(j.dst, b.m0, m1, 0, j.total, None) && UpRegion(StoresModel(j), b.u0, u1, 0, j.total, None)
  }

  lemma {:induction false} LoopAtParts(j: Reading, b: Start, i: nat, done: Packed, m1: seq<byte>, u1: seq<byte>, mem: seq<byte>)
    requires LoopAt(j, b, i, done, m1, u1, mem)
    ensures ValidReading(j, b) && i <= CountCmp(j.data).value && CmpStart(j.data, i).1 <= j.total
    ensures ReadTo(j, b, i, done) && Holds(j, b, CmpStart(j.data, i).1, done, m1, u1, mem)
    ensures Region(j.dst, b.m0, m1, 0, j.total, None) && UpRegion(StoresModel(j), b.u0, u1, 0, j.total, None)
    ensures ModelLeft(b.mopt, mem, 0, CmpStart(j.data, i).1, j.total)
    ensures i < CountCmp(j.data).value && Next(j, b, i).None? ==> GaveUp(j, b, m1, u1)
  {
    ReadingParts(j, b);
    hide ReadTo, Region, UpRegion, ModelLeft, Whole, Next, CmpStart, CountCmp, ValidReading;
    if i < CountCmp(j.data).value && Next(j, b, i).None? { NextNone(j, b, i, done); }
  }

  lemma {:induction false} NextNone(j: Reading, b: Start, i: nat, done: Packed)
    requires ValidReading(j, b) && i < CountCmp(j.data).value && ReadTo(j, b, i, done) && CmpStart(j.data, i).1 <= j.total
    requires Next(j, b, i).None?
    ensures Whole(j, b).None?
  {
    hide *;
    ReadNext(j, b, i, done);
    if Whole(j, b).Some? { NextReadSome(j, b, i, done); }
  }

  lemma {:induction false} NextReadSome(j: Reading, b: Start, i: nat, done: Packed)
    requires ValidReading(j, b) && i < CountCmp(j.data).value && CmpStart(j.data, i).1 <= j.total && NextRead(j, b, i, done)
    ensures Next(j, b, i).Some? && |done.bytes| == CmpStart(j.data, i).1
    ensures |Next(j, b, i).value.bytes| == CmpStart(j.data, i + 1).1 - CmpStart(j.data, i).1
    ensures ReadTo(j, b, i + 1, Plus(done, Next(j, b, i).value))
  {
    hide Next, ReadTo, CmpStart, CountCmp, ValidReading, Plus;
  }

  lemma {:induction false} UnpackedParts(c: CfgSix, src: seq<byte>, len: nat, s: Option<Packed>, hasModel: bool, dst: array?<byte>,
    m0: seq<byte>, m1: seq<byte>, hasUp: bool, u0: seq<byte>, u1: seq<byte>, off: nat, r: int, t: Option<Packed>)
    requires ColUnpacked(c, src, len, s, hasModel, dst, m0, m1, hasUp, u0, u1, off, r) && |src| >= COLLECTION_HDR_SIZE
    requires t == BehindHeader(c, ColHeader(src), s)
    ensures t.Some? == s.Some? && (t.Some? ==> r == COLLECTION_HDR_SIZE + len)
    ensures r >= 0 <==> if dst != null then t.Some? else Accepts(c, src, len, hasModel)
    ensures dst == null ==> u1 == if c.mode.IsModel() && hasUp then StoredAlone(src, len, u0, off) else u0
    ensures Region(dst, m0, m1, off, COLLECTION_HDR_SIZE + len, if t.Some? then Some(t.value.bytes) else None)
    ensures UpRegion(c.mode.IsModel() && hasUp, u0, u1, off, COLLECTION_HDR_SIZE + len,
      if t.Some? && dst != null then Some(t.value.model) else None)
  {
    hide KeepsOutside, Splice, ColHeader;
  }

  /** The state after one collection. */
  lemma {:induction false} AfterCollection(j: Reading, b: Start, i: nat, done: Packed, m1: seq<byte>, m2: seq<byte>, u1: seq<byte>, u2: seq<byte>,
    mem1: seq<byte>, mem2: seq<byte>, n: nat, r: int) returns (done': Packed)
    requires LoopAt(j, b, i, done, m1, u1, mem1) && ValidReading(j, b) && i < CountCmp(j.data).value && CmpStart(j.data, i).1 <= j.total
    requires CmpStart(j.data, i + 1).1 == CmpStart(j.data, i).1 + n <= j.total && (Next(j, b, i).Some? ==> r >= 0)
    requires Region(j.dst, m1, m2, CmpStart(j.data, i).1, n, if Next(j, b, i).Some? then Some(Next(j, b, i).value.bytes) else None)
    requires UpRegion(StoresModel(j), u1, u2, CmpStart(j.data, i).1, n,
      if Next(j, b, i).Some? && j.dst != null then Some(Next(j, b, i).value.model) else None)
    requires mem2 == mem1 || (mem1 == u1 && mem2 == u2)
    ensures r < 0 ==> GaveUp(j, b, m2, u2)
    ensures r >= 0 ==> LoopAt(j, b, i + 1, done', m2, u2, mem2)
  {
    hide *;
    ReadingParts(j, b);
    LoopAtParts(j, b, i, done, m1, u1, mem1);
    var s := Next(j, b, i);
    ReadNext(j, b, i, done);
    if Whole(j, b).Some? { NextReadSome(j, b, i, done); }
    HoldsNext(j, b, CmpStart(j.data, i).1, done, m1, m2, u1, u2, mem1, mem2, n, s);
    done' := if s.Some? then Plus(done, s.value) else done;
    LoopAtOf(j, b, i + 1, done', m2, u2, mem2, r);
  }

  lemma {:induction false} LoopAtOf(j: Reading, b: Start, i: nat, done: Packed, m1: seq<byte>, u1: seq<byte>, mem: seq<byte>, r: int)
    requires ValidReading(j, b) && i <= CountCmp(j.data).value && CmpStart(j.data, i).1 <= j.total
    requires Whole(j, b).Some? ==> ReadTo(j, b, i, done) && r >= 0
    requires Holds(j, b, CmpStart(j.data, i).1, done, m1, u1, mem)
    requires Region(j.dst, b.m0, m1, 0, j.total, None) && UpRegion(StoresModel(j), b.u0, u1, 0, j.total, None)
    ensures r < 0 ==> GaveUp(j, b, m1, u1)
    ensures r >= 0 ==> LoopAt(j, b, i, done, m1, u1, mem)
  {
    hide Holds, Region, UpRegion, CmpStart, CountCmp, ValidReading, UnpackCols;
  }

  /** What decompressing a collection needs of the buffers. */
  lemma {:induction false} BuffersFor(j: Reading, b: Start, off: nat, n: nat)
    requires ValidReading(j, b) && off + n <= j.total
    ensures ValidBuffers(j.c, j.model, j.up, j.dst, off, n, MemOf(j.dst), MemOf(j.up))
    ensures j.model != null ==> off + n <= j.model.Length
  {
    hide CountCmp, GenParsAreValid;
  }

  /** One pass: parses collection i and decompresses it to its place. */
  method ReadPass(j: Reading, ghost b: Start, i: nat, ghost done: Packed) returns (r: int, ghost done': Packed)
    requires LoopAt(j, b, i, done, MemOf(j.dst), MemOf(j.up), MemOf(j.model)) && CountCmp(j.data).Some? && i < CountCmp(j.data).value
    modifies j.dst, j.up
    ensures r < 0 ==> GaveUp(j, b, MemOf(j.dst), MemOf(j.up))
    ensures r >= 0 ==> LoopAt(j, b, i + 1, done', MemOf(j.dst), MemOf(j.up), MemOf(j.model))
    ensures ValidReading(j, b) && (r >= 0 <==> ColReads(j, b, i))
    ensures j.dst == null && r >= 0 && old(MemOf(j.up)) == AloneModel(j, b, i) ==> MemOf(j.up) == AloneModel(j, b, i + 1)
  {
    hide *;
    done' := done;
    ghost var m1, u1, mem1 := MemOf(j.dst), MemOf(j.up), MemOf(j.model);
    LoopAtParts(j, b, i, done, m1, u1, mem1);
    ReadingParts(j, b);
    var offset, p := ParseCmpCollection(j.data, i, j.total);
    ParsedSource(j.c, j.data[CmpStart(j.data, i).0..], CmpStart(j.data, i).1, j.total, offset, p);
    ColReadsIs(j, b, i);
    if offset < 0 {
      NextUnparsed(j, b, i);
      return -1, done;
    }
    r, done' := ReadParsed(j, b, i, done, offset, p);
  }

  /** The part of a pass behind the parsing. */
  method ReadParsed(j: Reading, ghost b: Start, ghost i: nat, ghost done: Packed, off: nat, p: Parsed) returns (r: int, ghost done': Packed)
    requires LoopAt(j, b, i, done, MemOf(j.dst), MemOf(j.up), MemOf(j.model)) && CountCmp(j.data).Some? && i < CountCmp(j.data).value
    requires HasCmpCol(j.data[CmpStart(j.data, i).0..]) && ParsedAs(j.data[CmpStart(j.data, i).0..], CmpStart(j.data, i).1, j.total, off, p)
    requires GenParsAreValid(j.c) && !j.c.mode.IsRaw() && off >= 0
    modifies j.dst, j.up
    ensures r < 0 ==> GaveUp(j, b, MemOf(j.dst), MemOf(j.up))
    ensures r >= 0 ==> LoopAt(j, b, i + 1, done', MemOf(j.dst), MemOf(j.up), MemOf(j.model))
    ensures ValidReading(j, b) && (r >= 0 <==> ColReads(j, b, i))
    ensures j.dst == null && r >= 0 && old(MemOf(j.up)) == AloneModel(j, b, i) ==> MemOf(j.up) == AloneModel(j, b, i + 1)
  {
    hide *;
    ghost var m1, u1, mem1 := MemOf(j.dst), MemOf(j.up), MemOf(j.model);
    LoopAtParts(j, b, i, done, m1, u1, mem1);
    ColReadsIs(j, b, i);
    ParsedSource(j.c, j.data[CmpStart(j.data, i).0..], CmpStart(j.data, i).1, j.total, off, p);
    ghost var len := ColDataLength(p.src);
    ghost var n := COLLECTION_HDR_SIZE + len;
    BuffersFor(j, b, off, n);
    ghost var mdl := ModelBytes(j.c, j.model, off, len);
    ReadyToRead(j, b, i, p, mem1, mdl);
    r := DecompressCollection(j.c, p.src, p.samples, len, mdl, j.model, j.up, off, j.dst, p.uncompressed);
    UnpackedParts(j.c, p.src, len, SourceData(j.c, p.src, p.samples, len, mdl), j.model != null, j.dst, m1, MemOf(j.dst), j.up != null,
      u1, MemOf(j.up), off, r, Next(j, b, i));
    ReadingParts(j, b);
    AloneModelNext(j, b, i);
    CmpStartNext(j.data, i);
    done' := AfterCollection(j, b, i, done, m1, MemOf(j.dst), u1, MemOf(j.up), mem1, MemOf(j.model), n, r);
  }

  lemma {:induction false} AloneModelNext(j: Reading, b: Start, i: nat)
    requires ValidReading(j, b) && i < CountCmp(j.data).value
    ensures HasCmpCol(j.data[CmpStart(j.data, i).0..])
    ensures var src := ColSource(j.data[CmpStart(j.data, i).0..]);
      AloneModel(j, b, i + 1)
        == if StoresModel(j) then StoredAlone(src, ColDataLength(src), AloneModel(j, b, i), CmpStart(j.data, i).1) else AloneModel(j, b, i)
  {
    AloneNext(j.data, i, b.u0);
    hide AloneAfter, StoresModel, StoredAlone, CmpStart, CountCmp, ValidReading, ColSource, HasCmpCol;
  }

  lemma {:induction false} ReadyToRead(j: Reading, b: Start, i: nat, p: Parsed, mem: seq<byte>, mdl: Option<seq<byte>>)
    requires ValidReading(j, b) && i < CountCmp(j.data).value && CmpStart(j.data, i).1 <= j.total
    requires HasCmpCol(j.data[CmpStart(j.data, i).0..]) && ParsedAs(j.data[CmpStart(j.data, i).0..], CmpStart(j.data, i).1, j.total, CmpStart(j.data, i).1, p)
    requires ModelLeft(b.mopt, MemOf(j.model), 0, CmpStart(j.data, i).1, j.total) && |p.src| >= COLLECTION_HDR_SIZE
    requires j.model != null ==> CmpStart(j.data, i).1 + COLLECTION_HDR_SIZE + ColDataLength(p.src) <= j.model.Length
    requires mdl == ModelBytes(j.c, j.model, CmpStart(j.data, i).1, ColDataLength(p.src))
    ensures (mdl.Some? ==> |mdl.value| == ColDataLength(p.src)) && ValidSource(j.c, p.src, p.samples, ColDataLength(p.src))
    ensures Next(j, b, i) == BehindHeader(j.c, ColHeader(p.src), SourceData(j.c, p.src, p.samples, ColDataLength(p.src), mdl))
  {
    hide *;
    ReadingParts(j, b);
    var at := CmpStart(j.data, i);
    ParsedSource(j.c, j.data[at.0..], at.1, j.total, at.1, p);
    BackOfBack(b.mopt, j.total, at.1, 0);
    ModelBytesLeft(j.c, b.mopt, j.model, at.1, ColDataLength(p.src), j.total);
    NextOfSource(j, b, i, p, mdl);
  }

  lemma {:induction false} LoopAtStart(j: Reading, b: Start, mem: seq<byte>)
    requires ValidReading(j, b) && ModelLeft(b.mopt, mem, 0, 0, j.total)
    ensures LoopAt(j, b, 0, Packed([], []), b.m0, b.u0, mem)
  {
    ReadingParts(j, b);
    CmpStartZero(j.data);
    ReadStart(j, b);
    HoldsStart(j, b, mem);
    hide Holds, ReadTo, CmpStart, CountCmp, ValidReading;
  }

  /** Everything is read. */
  lemma {:induction false} ReadEnd(j: Reading, b: Start, done: Packed)
    requires ValidReading(j, b) && ReadTo(j, b, CountCmp(j.data).value, done)
    ensures Whole(j, b).Some? ==> Whole(j, b) == Some(done)
  {
    ReadingParts(j, b);
    if Whole(j, b).Some? {
      var k := CountCmp(j.data).value;
      AllWalked(j.data, k);
      ReadToRest(j, b, k, done);
      hide *;
      NothingLeft(j.c, j.data[CmpStart(j.data, k).0..], j.total - CmpStart(j.data, k).1, ModelBack(b.mopt, CmpStart(j.data, k).1), done);
    }
  }

  lemma {:induction false} NothingLeft(c: CfgSix, rest: seq<byte>, total: nat, model: Option<seq<byte>>, done: Packed)
    requires rest == [] && (model.Some? ==> |model.value| == total)
    ensures UnpackCols(c, rest, total, model) == Some(Packed([], [])) && Plus(done, Packed([], [])) == done
  {
    assert done.bytes + [] == done.bytes && done.model + [] == done.model;
  }

  lemma {:induction false} AllWalked(data: seq<byte>, k: nat)
    requires CountCmp(data) == Some(k)
    ensures data[CmpStart(data, k).0..] == []
    decreases k
  {
    CountCmpStep(data);
    if k > 0 {
      CmpStartStep(data, k);
      AllWalked(data[CmpColSize(data)..], k - 1);
      hide CmpStart, CountCmp, CmpColSize;
      DropDrop(data, CmpColSize(data), CmpStart(data[CmpColSize(data)..], k - 1).0);
    }
  }

  /** The result of the loop: success means that every collection is read, and the buffers
      then hold the whole, or without a buffer for the data the raw collections only. */
  ghost predicate ChunkRead(j: Reading, b: Start, m1: seq<byte>, u1: seq<byte>, r: int)
  {
    && ValidReading(j, b) && (r == j.total || (r < 0 && Whole(j, b).None?))
    && (r >= 0 <==> if j.dst != null then Whole(j, b).Some? else forall k :: 0 <= k < CountCmp(j.data).value ==> ColReads(j, b, k))
    && (j.dst == null && r >= 0 ==> u1 == AloneModel(j, b, CountCmp(j.data).value))
    && Region(j.dst, b.m0, m1, 0, j.total, None) && UpRegion(StoresModel(j), b.u0, u1, 0, j.total, None)
    && (Whole(j, b).Some? && j.dst != null ==>
          && |Whole(j, b).value.bytes| <= |b.m0| && m1 == Splice(b.m0, 0, Whole(j, b).value.bytes)
          && (StoresModel(j) ==>
                |Whole(j, b).value.model| <= |b.u0| && u1 == Splice(b.u0, 0, Whole(j, b).value.model)))
  }

  lemma {:induction false} GaveUpRead(j: Reading, b: Start, m1: seq<byte>, u1: seq<byte>, r: int, i: nat)
    requires GaveUp(j, b, m1, u1) && r < 0 && ValidReading(j, b) && i < CountCmp(j.data).value && !ColReads(j, b, i)
    ensures ChunkRead(j, b, m1, u1, r)
  {
    hide Region, UpRegion, Whole, ColReads, CountCmp, ValidReading;
  }

  lemma {:induction false} LoopRead(j: Reading, b: Start, done: Packed, m1: seq<byte>, u1: seq<byte>, mem: seq<byte>)
    requires CountCmp(j.data).Some? && LoopAt(j, b, CountCmp(j.data).value, done, m1, u1, mem) && ValidReading(j, b)
    requires forall k :: 0 <= k < CountCmp(j.data).value ==> ColReads(j, b, k)
    requires j.dst == null ==> u1 == AloneModel(j, b, CountCmp(j.data).value)
    ensures ChunkRead(j, b, m1, u1, j.total)
  {
    hide Region, UpRegion, Whole, ModelLeft, CmpStart, CountCmp, ValidReading, ReadTo, ColReads, AloneModel;
    ReadEnd(j, b, done);
    if j.dst != null { AllReads(j, b); }
  }

  lemma {:induction false} AloneStart(j: Reading, b: Start)
    requires ValidReading(j, b)
    ensures CountCmp(j.data).Some? && AloneModel(j, b, 0) == b.u0
  {
    hide CountCmp, GenParsAreValid;
  }

  /** The loop of decompress_cmp_entiy over the compressed collections. */
  method ReadCollections(j: Reading, ghost b: Start, nChunks: nat) returns (r: int)
    requires LoopAt(j, b, 0, Packed([], []), MemOf(j.dst), MemOf(j.up), MemOf(j.model)) && CountCmp(j.data) == Some(nChunks)
    requires b.u0 == MemOf(j.up)
    modifies j.dst, j.up
    ensures ChunkRead(j, b, MemOf(j.dst), MemOf(j.up), r)
  {
    hide *;
    var i := 0;
    ghost var done := Packed([], []);
    LoopAtParts(j, b, 0, done, MemOf(j.dst), MemOf(j.up), MemOf(j.model));
    AloneStart(j, b);
    while i < nChunks
      invariant 0 <= i <= nChunks && LoopAt(j, b, i, done, MemOf(j.dst), MemOf(j.up), MemOf(j.model))
      invariant forall k :: 0 <= k < i ==> ColReads(j, b, k)
      invariant j.dst == null ==> MemOf(j.up) == AloneModel(j, b, i)
    {
      r, done := ReadPass(j, b, i, done);
      if r < 0 {
        GaveUpRead(j, b, MemOf(j.dst), MemOf(j.up), r, i);
        return;
      }
      i := i + 1;
    }
    LoopRead(j, b, done, MemOf(j.dst), MemOf(j.up), MemOf(j.model));
    r := j.total;
  }
}
