/** Decompressing without a buffer for the data: only raw collections update the model. */
module UpdateAlone {
  import opened Bits
  import opened Bytes
  import opened Golomb
  import opened Params
  import opened DataTypes
  import opened Endian
  import opened Config
  import opened CollectionCode
  import opened ChunkCode
  import opened ChunkBounds
  import opened Entity
  import opened CollectionDecompressor
  import opened ChunkDecompressor
  import opened EntityDecompressor

  /** Collection k of a compressed body is stored raw. */
  predicate RawAt(data: seq<byte>, k: nat)
    requires CountCmp(data).Some? && k < CountCmp(data).value
  {
    CmpStartNext(data, k);
    var src := ColSource(data[CmpStart(data, k).0..]);
    |src| == COLLECTION_HDR_SIZE + ColDataLength(src)
  }

  predicate AllRaw(data: seq<byte>)
    requires CountCmp(data).Some?
  {
    forall k :: 0 <= k < CountCmp(data).value ==> RawAt(data, k)
  }

  lemma {:induction false} RawAtIs(data: seq<byte>, k: nat)
    requires CountCmp(data).Some? && k < CountCmp(data).value
    ensures HasCmpCol(data[CmpStart(data, k).0..])
    ensures var src := ColSource(data[CmpStart(data, k).0..]);
      RawAt(data, k) <==> |src| == COLLECTION_HDR_SIZE + ColDataLength(src)
  {
    CmpStartNext(data, k);
    hide CmpStart, CountCmp, HasCmpCol, ColSource, ColDataLength;
  }

  /** The size of a collection in the chunk, by its source. */
  lemma {:induction false} SourceSize(b: seq<byte>)
    requires HasCmpCol(b)
    ensures |ColSource(b)| >= COLLECTION_HDR_SIZE && |b[CMP_COLLECTION_FILD_SIZE..]| >= COLLECTION_HDR_SIZE
    ensures ColSize(b[CMP_COLLECTION_FILD_SIZE..]) == COLLECTION_HDR_SIZE + ColDataLength(ColSource(b)) > 0
  {
    var src, col := ColSource(b), b[CMP_COLLECTION_FILD_SIZE..];
    assert src[..COLLECTION_HDR_SIZE] == col[..COLLECTION_HDR_SIZE];
    SameHeader(src, col);
    hide U16At;
  }

  /** Where collection i and the one behind it start. */
  lemma {:induction false} StartsNext(data: seq<byte>, i: nat)
    requires CountCmp(data).Some? && i < CountCmp(data).value
    ensures HasCmpCol(data[CmpStart(data, i).0..])
    ensures CmpStart(data, i + 1).1 == CmpStart(data, i).1 + COLLECTION_HDR_SIZE + ColDataLength(ColSource(data[CmpStart(data, i).0..]))
    ensures CmpStart(data, i).1 < CmpStart(data, i + 1).1
  {
    hide *;
    CmpStartNext(data, i);
    SourceSize(data[CmpStart(data, i).0..]);
  }

  /** What storing one collection does, by the bytes before, in and behind it. */
  lemma {:induction false} StoredParts(src: seq<byte>, len: nat, u: seq<byte>, off: nat)
    requires |src| >= COLLECTION_HDR_SIZE && off + COLLECTION_HDR_SIZE + len <= |u|
    ensures var v := StoredAlone(src, len, u, off); var end := off + COLLECTION_HDR_SIZE + len;
      && v[..off] == u[..off] && v[end..] == u[end..]
      && v[off..end] == (var d := SwapData(ColDataType(src), ColBody(src));
           if |src| == COLLECTION_HDR_SIZE + len && d.Some? then ColHeader(src) + d.value else u[off..end])
  {
    hide SwapData, ColDataType;
  }

  /** Behind the collections nothing changes. */
  lemma {:induction false} AloneBehind(data: seq<byte>, i: nat, u: seq<byte>)
    requires CountCmp(data).Some? && i <= CountCmp(data).value && CmpStart(data, i).1 <= |u|
    ensures AloneAfter(data, i, u)[CmpStart(data, i).1..] == u[CmpStart(data, i).1..]
    decreases i
  {
    hide *;
    if i == 0 {
      CmpStartZero(data);
      AloneZero(data, u);
    } else {
      StartsNext(data, i - 1);
      AloneBehind(data, i - 1, u);
      AloneNext(data, i - 1, u);
      var src, at, end := ColSource(data[CmpStart(data, i - 1).0..]), CmpStart(data, i - 1).1, CmpStart(data, i).1;
      var w := AloneAfter(data, i - 1, u);
      SourceSize(data[CmpStart(data, i - 1).0..]);
      StoredParts(src, ColDataLength(src), w, at);
      SameBehind(w, u, at, end);
    }
  }

  lemma {:induction false} AloneZero(data: seq<byte>, u: seq<byte>)
    requires CountCmp(data).Some?
    ensures AloneAfter(data, 0, u) == u
  {
  }

  lemma {:induction false} SameBehind(a: seq<byte>, b: seq<byte>, i: nat, j: nat)
    requires |a| == |b| && i <= j <= |a| && a[i..] == b[i..]
    ensures a[j..] == b[j..] && a[i..j] == b[i..j]
  {
    assert a[i..][j - i..] == a[j..] && b[i..][j - i..] == b[j..];
    assert a[i..][..j - i] == a[i..j] && b[i..][..j - i] == b[i..j];
  }

  /** The bytes of collection k after n collections: its own if it is raw, and otherwise
      what was there before. */
  lemma {:induction false} AlonePart(data: seq<byte>, n: nat, u: seq<byte>, k: nat)
    requires CountCmp(data).Some? && k < n <= CountCmp(data).value && CmpStart(data, n).1 <= |u|
    ensures HasCmpCol(data[CmpStart(data, k).0..]) && CmpStart(data, k).1 <= CmpStart(data, k + 1).1 <= CmpStart(data, n).1
    ensures |ColSource(data[CmpStart(data, k).0..])| >= COLLECTION_HDR_SIZE
    ensures var src := ColSource(data[CmpStart(data, k).0..]); var d := SwapData(ColDataType(src), ColBody(src));
      AloneAfter(data, n, u)[CmpStart(data, k).1..CmpStart(data, k + 1).1]
        == if RawAt(data, k) && d.Some? then ColHeader(src) + d.value else u[CmpStart(data, k).1..CmpStart(data, k + 1).1]
    decreases n
  {
    hide *;
    StartsNext(data, n - 1);
    StartsNext(data, k);
    AloneNext(data, n - 1, u);
    var src, at, w := ColSource(data[CmpStart(data, n - 1).0..]), CmpStart(data, n - 1).1, AloneAfter(data, n - 1, u);
    SourceSize(data[CmpStart(data, n - 1).0..]);
    SourceSize(data[CmpStart(data, k).0..]);
    StoredParts(src, ColDataLength(src), w, at);
    if k == n - 1 {
      RawAtIs(data, k);
      AloneBehind(data, k, u);
      SameBehind(w, u, at, CmpStart(data, n).1);
    } else {
      AlonePart(data, n - 1, u, k);
      SameBefore(AloneAfter(data, n, u), w, at, CmpStart(data, k).1, CmpStart(data, k + 1).1);
    }
  }

  lemma {:induction false} SameBefore(a: seq<byte>, b: seq<byte>, n: nat, i: nat, j: nat)
    requires |a| == |b| && i <= j <= n <= |a| && a[..n] == b[..n]
    ensures a[i..j] == b[i..j]
  {
    assert a[..n][i..j] == a[i..j] && b[..n][i..j] == b[i..j];
  }

  //// The updated model of the specification, collection by collection

  /** The part of collection k in the updated model of a readable body. */
  lemma {:induction false} PartOf(c: CfgSix, body: seq<byte>, total: nat, model: Option<seq<byte>>, p: Packed, k: nat)
    requires CountCmp(body).Some? && k < CountCmp(body).value && (model.Some? ==> |model.value| == total) && c.mode.IsModel()
    requires UnpackCols(c, body, total, model) == Some(p)
    ensures HasCmpCol(body[CmpStart(body, k).0..]) && CmpStart(body, k).1 <= CmpStart(body, k + 1).1 <= |p.model|
    ensures |ColSource(body[CmpStart(body, k).0..])| >= COLLECTION_HDR_SIZE
    ensures RawAt(body, k) ==>
      var src := ColSource(body[CmpStart(body, k).0..]); var d := SwapData(ColDataType(src), ColBody(src));
      d.Some? && p.model[CmpStart(body, k).1..CmpStart(body, k + 1).1] == ColHeader(src) + d.value
    decreases k
  {
    hide *;
    CmpStartZero(body);
    CmpStartNext(body, 0);
    var first, rest := UnpackColsFirst(c, body, total, model);
    var n, tail := CmpColSize(body), body[CmpColSize(body)..];
    UnpackColSize(c, body, total, model);
    StartsNext(body, k);
    SourceSize(body[CmpStart(body, k).0..]);
    if k == 0 {
      RawAtIs(body, 0);
      if RawAt(body, 0) { RawFirst(c, body, total, model, first); }
      assert p.model[0..|first.model|] == first.model;
    } else {
      CmpStartStep(body, k);
      CmpStartStep(body, k + 1);
      DropDrop(body, n, CmpStart(tail, k - 1).0);
      PartOf(c, tail, total - |first.bytes|, ModelBack(model, |first.bytes|), rest, k - 1);
      RawAtIs(body, k);
      RawAtIs(tail, k - 1);
      LaterBytes(first.model, rest.model, CmpStart(tail, k - 1).1, CmpStart(tail, k).1);
    }
  }

  /** The updated model of a raw collection is the collection. */
  lemma {:induction false} RawFirst(c: CfgSix, b: seq<byte>, total: nat, model: Option<seq<byte>>, p: Packed)
    requires HasCmpCol(b) && (model.Some? ==> |model.value| == total) && UnpackCol(c, b, total, model) == Some(p) && c.mode.IsModel()
    requires |ColSource(b)| == COLLECTION_HDR_SIZE + ColDataLength(ColSource(b)) && |ColSource(b)| >= COLLECTION_HDR_SIZE
    ensures var src := ColSource(b); var d := SwapData(ColDataType(src), ColBody(src)); d.Some? && p.model == ColHeader(src) + d.value
  {
    hide *;
    UnpackColSize(c, b, total, model);
    var src := ColSource(b);
    var mdl := SourceModel(c, model, COLLECTION_HDR_SIZE + ColDataLength(src));
    UnpackColSource(c, b, 0, total, model, mdl);
    RawUnpacks(c, ColDataType(src), ColBody(src), ColDataLength(src), mdl);
    BehindHeaderIs(c, ColHeader(src), UnpackData(c, ColDataType(src), ColBody(src), ColDataLength(src), mdl), p);
  }

  lemma {:induction false} RawUnpacks(c: CfgSix, dt: DataType, bytes: seq<byte>, len: nat, mdl: Option<seq<byte>>)
    requires !dt.Unknown? && len % SampleSize(dt) == 0 && (mdl.Some? ==> |mdl.value| == len) && |bytes| == len
    ensures SwapData(dt, bytes).Some?
    ensures UnpackData(c, dt, bytes, len, mdl) == Some(Packed(SwapData(dt, bytes).value, if c.mode.IsModel() then SwapData(dt, bytes).value else []))
  {
    hide SwapRecords, SampleSize;
  }

  lemma {:induction false} BehindHeaderIs(c: CfgSix, hdr: seq<byte>, s: Option<Packed>, p: Packed)
    requires BehindHeader(c, hdr, s) == Some(p) && c.mode.IsModel()
    ensures s.Some? && p.model == hdr + s.value.model
  {
  }

  /** The updated model covers exactly the collections. */
  lemma {:induction false} UnpackedSize(c: CfgSix, body: seq<byte>, total: nat, model: Option<seq<byte>>, p: Packed)
    requires CountCmp(body).Some? && (model.Some? ==> |model.value| == total) && c.mode.IsModel()
    requires UnpackCols(c, body, total, model) == Some(p)
    ensures |p.model| == CmpStart(body, CountCmp(body).value).1 <= total
    decreases CountCmp(body).value
  {
    hide *;
    var k := CountCmp(body).value;
    CmpStartZero(body);
    CountCmpStep(body);
    if k == 0 {
      NothingCounted(body);
      NothingLeft(c, body, total, model, p);
    } else {
      var first, rest := UnpackColsFirst(c, body, total, model);
      UnpackColSize(c, body, total, model);
      CmpStartStep(body, k);
      UnpackedSize(c, body[CmpColSize(body)..], total - |first.bytes|, ModelBack(model, |first.bytes|), rest);
    }
  }

  lemma {:induction false} NothingCounted(body: seq<byte>)
    requires CountCmp(body) == Some(0)
    ensures body == []
  {
    CountCmpStep(body);
    hide CountCmp;
  }

  /** If all collections are raw, the model is updated as with a buffer for the data. */
  lemma {:induction false} AllRawPrefix(c: CfgSix, data: seq<byte>, total: nat, model: Option<seq<byte>>, p: Packed, u: seq<byte>, n: nat)
    requires CountCmp(data).Some? && n <= CountCmp(data).value && (model.Some? ==> |model.value| == total) && c.mode.IsModel()
    requires UnpackCols(c, data, total, model) == Some(p) && AllRaw(data) && CmpStart(data, n).1 <= |u|
    ensures CmpStart(data, n).1 <= |p.model|
    ensures AloneAfter(data, n, u)[..CmpStart(data, n).1] == p.model[..CmpStart(data, n).1]
    decreases n
  {
    hide *;
    if n == 0 {
      CmpStartZero(data);
    } else {
      StartsNext(data, n - 1);
      AllRawPrefix(c, data, total, model, p, u, n - 1);
      PartOf(c, data, total, model, p, n - 1);
      EachRaw(data, n - 1);
      AlonePart(data, n, u, n - 1);
      AloneBefore(data, n, u);
      JoinPrefix(AloneAfter(data, n, u), p.model, CmpStart(data, n - 1).1, CmpStart(data, n).1);
    }
  }

  /** What was stored before stays. */
  lemma {:induction false} AloneBefore(data: seq<byte>, n: nat, u: seq<byte>)
    requires CountCmp(data).Some? && 0 < n <= CountCmp(data).value && CmpStart(data, n).1 <= |u|
    ensures CmpStart(data, n - 1).1 <= CmpStart(data, n).1
    ensures AloneAfter(data, n, u)[..CmpStart(data, n - 1).1] == AloneAfter(data, n - 1, u)[..CmpStart(data, n - 1).1]
  {
    hide *;
    StartsNext(data, n - 1);
    AloneNext(data, n - 1, u);
    SourceSize(data[CmpStart(data, n - 1).0..]);
    var src := ColSource(data[CmpStart(data, n - 1).0..]);
    StoredParts(src, ColDataLength(src), AloneAfter(data, n - 1, u), CmpStart(data, n - 1).1);
  }

  lemma {:induction false} EachRaw(data: seq<byte>, k: nat)
    requires CountCmp(data).Some? && AllRaw(data) && k < CountCmp(data).value
    ensures RawAt(data, k)
  {
    hide RawAt, CountCmp;
  }

  lemma {:induction false} JoinPrefix(a: seq<byte>, b: seq<byte>, i: nat, j: nat)
    requires i <= j <= |a| && j <= |b| && a[..i] == b[..i] && a[i..j] == b[i..j]
    ensures a[..j] == b[..j]
  {
    assert a[..j] == a[..i] + a[i..j] && b[..j] == b[..i] + b[i..j];
  }

  lemma {:induction false} SpliceOf(v: seq<byte>, u: seq<byte>, s: seq<byte>)
    requires |v| == |u| && |s| <= |u| && v[..|s|] == s && v[|s|..] == u[|s|..]
    ensures v == Splice(u, 0, s)
  {
    assert v == v[..|s|] + v[|s|..];
  }

  /** A buffer that differs from s in every byte. */
  function Different(s: seq<byte>, n: nat): (u: seq<byte>)
    ensures |u| == n && forall i :: 0 <= i < n && i < |s| ==> u[i] != s[i]
  {
    seq(n, i requires i >= 0 => if i < |s| && s[i] == 0 then 1 else 0)
  }

  lemma {:induction false} OneByte(u: seq<byte>, v: seq<byte>, s: seq<byte>, i: nat, j: nat)
    requires i < j <= |s| <= |u| == |v| && v[i..j] == u[i..j] && u[i] != s[i]
    ensures v != Splice(u, 0, s)
  {
    assert v[i] == v[i..j][0] == u[i..j][0] == u[i];
    assert Splice(u, 0, s)[i] == s[i];
  }

  /** The updated model is complete without a buffer for the data, whatever its buffer held
      before. */
  ghost predicate CompleteAlone(data: seq<byte>, total: nat, update: seq<byte>)
    requires CountCmp(data).Some? && |update| <= total
  {
    forall u: seq<byte> :: |u| == total ==> AloneAfter(data, CountCmp(data).value, u) == Splice(u, 0, update)
  }

  /** A readable chunk in a model mode updates the model completely without a buffer for the
      data if and only if all its collections are stored raw. */
  lemma {:induction false} UpdateNeedsData(h: ChunkEntity, data: seq<byte>, model: Option<seq<byte>>, p: Packed)
    requires (model.Some? ==> |model.value| == h.originalSize) && h.mode.IsModel() && DecompressSpec(h, data, model) == Some(p)
    ensures CountCmp(data).Some? && |p.model| <= h.originalSize
    ensures CompleteAlone(data, h.originalSize, p.model) <==> AllRaw(data)
  {
    hide *;
    ModelEntity(h, data, model, p);
    var c, total, n := HeaderCfg(h), h.originalSize, CountCmp(data).value;
    UnpackedSize(c, data, total, model, p);
    if AllRaw(data) {
      forall u: seq<byte> | |u| == total
        ensures AloneAfter(data, n, u) == Splice(u, 0, p.model)
      {
        AllRawPrefix(c, data, total, model, p, u, n);
        AloneBehind(data, n, u);
        assert p.model[..|p.model|] == p.model;
        SpliceOf(AloneAfter(data, n, u), u, p.model);
      }
      CompleteIs(data, total, p.model);
    } else {
      var k := SomeCoded(data);
      var u := Different(p.model, total);
      StartsNext(data, k);
      PartOf(c, data, total, model, p, k);
      AlonePart(data, n, u, k);
      OneByte(u, AloneAfter(data, n, u), p.model, CmpStart(data, k).1, CmpStart(data, k + 1).1);
      NotComplete(data, total, p.model, u);
    }
  }

  lemma {:induction false} ModelEntity(h: ChunkEntity, data: seq<byte>, model: Option<seq<byte>>, p: Packed)
    requires (model.Some? ==> |model.value| == h.originalSize) && h.mode.IsModel() && DecompressSpec(h, data, model) == Some(p)
    ensures CountCmp(data).Some? && UnpackCols(HeaderCfg(h), data, h.originalSize, model) == Some(p) && HeaderCfg(h).mode.IsModel()
  {
    hide UnpackCols, CountCmp, HeaderIsReadable, SwapChunk;
  }

  lemma {:induction false} CompleteIs(data: seq<byte>, total: nat, update: seq<byte>)
    requires CountCmp(data).Some? && |update| <= total
    requires forall u: seq<byte> :: |u| == total ==> AloneAfter(data, CountCmp(data).value, u) == Splice(u, 0, update)
    ensures CompleteAlone(data, total, update)
  {
    hide AloneAfter, CountCmp, Splice;
  }

  lemma {:induction false} NotComplete(data: seq<byte>, total: nat, update: seq<byte>, u: seq<byte>)
    requires CountCmp(data).Some? && |update| <= total == |u|
    requires AloneAfter(data, CountCmp(data).value, u) != Splice(u, 0, update)
    ensures !CompleteAlone(data, total, update)
  {
    hide AloneAfter, CountCmp, Splice;
  }

  lemma {:induction false} SomeCoded(data: seq<byte>) returns (k: nat)
    requires CountCmp(data).Some? && !AllRaw(data)
    ensures k < CountCmp(data).value && !RawAt(data, k)
  {
    hide RawAt, CountCmp;
    k :| k < CountCmp(data).value && !RawAt(data, k);
  }
}
