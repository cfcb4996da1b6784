/** Byte order: collection data is big-endian in the compressed entity and CPU-endian
    (little-endian) in a chunk; headers are always big-endian. */
module Endian {
  import opened Bits
  import opened Bytes
  import opened Golomb
  import opened Samples
  import opened DataTypes

  //// Specification

  /** One record with the bytes of every field reversed. */
  function SwapRec(l: seq<Slot>, rec: seq<byte>): (r: seq<byte>)
    requires LayoutSize(l) <= |rec|
    ensures |r| == LayoutSize(l)
  {
    if l == [] then [] else Reversed(rec[..l[0].width]) + SwapRec(l[1..], rec[l[0].width..])
  }

  /** All whole records at the front of data. */
  function SwapRecords(l: seq<Slot>, data: seq<byte>): (r: seq<byte>)
    requires LayoutSize(l) > 0
    ensures |r| == |data|
  {
    var s := LayoutSize(l);
    if |data| < s then data else SwapRec(l, data[..s]) + SwapRecords(l, data[s..])
  }

  /** The data of a collection in the other byte order, if it is whole records of a known type. */
  function SwapData(dt: DataType, data: seq<byte>): (r: Option<seq<byte>>)
    ensures r.Some? ==> |r.value| == |data|
  {
    if dt.Unknown? || |data| % SampleSize(dt) != 0 then None else Some(SwapRecords(Layout(dt), data))
  }

  /** A chunk with the data of every collection swapped; None if it is not whole collections. */
  function SwapChunk(c: seq<byte>): (r: Option<seq<byte>>)
    ensures r.Some? ==> |r.value| == |c|
  {
    if c == [] then Some([])
    else if |c| < COLLECTION_HDR_SIZE || ColSize(c) > |c| then None
    else
      match SwapData(ColDataType(c), c[COLLECTION_HDR_SIZE..ColSize(c)])
      case None => None
      case Some(d) =>
        match SwapChunk(c[ColSize(c)..])
        case None => None
        case Some(rest) => Some(c[..COLLECTION_HDR_SIZE] + d + rest)
  }

  //// The swap is its own inverse

  lemma {:induction false} CatParts(a: seq<byte>, b: seq<byte>)
    ensures (a + b)[..|a|] == a && (a + b)[|a|..] == b
  {
  }

  lemma {:induction false} CutAt(s: seq<byte>, n: nat)
    requires n <= |s|
    ensures s == s[..n] + s[n..]
  {
  }

  lemma {:induction false} SwapRecStep(l: seq<Slot>, rec: seq<byte>)
    requires l != [] && LayoutSize(l) <= |rec|
    ensures LayoutSize(l) == l[0].width + LayoutSize(l[1..])
    ensures SwapRec(l, rec) == Reversed(rec[..l[0].width]) + SwapRec(l[1..], rec[l[0].width..])
  {
  }

  lemma {:induction false} NoSlots(l: seq<Slot>, rec: seq<byte>)
    requires l == []
    ensures LayoutSize(l) == 0 && SwapRec(l, rec) == []
  {
  }

  lemma {:induction false} SwapRecordsStep(l: seq<Slot>, data: seq<byte>)
    requires LayoutSize(l) > 0
    ensures |data| < LayoutSize(l) ==> SwapRecords(l, data) == data
    ensures |data| >= LayoutSize(l) ==>
      SwapRecords(l, data) == SwapRec(l, data[..LayoutSize(l)]) + SwapRecords(l, data[LayoutSize(l)..])
  {
  }

  lemma {:induction false} SwapRecTwice(l: seq<Slot>, rec: seq<byte>)
    requires LayoutSize(l) == |rec|
    ensures SwapRec(l, SwapRec(l, rec)) == rec
  {
    hide *;
    if l == [] {
      NoSlots(l, rec);
      NoSlots(l, SwapRec(l, rec));
    } else {
      var w := l[0].width;
      var swapped := SwapRec(l, rec);
      SwapRecStep(l, rec);
      SwapRecStep(l, swapped);
      CutAt(rec, w);
      CatParts(Reversed(rec[..w]), SwapRec(l[1..], rec[w..]));
      ReversedTwice(rec[..w]);
      SwapRecTwice(l[1..], rec[w..]);
    }
  }

  lemma {:induction false} SwapRecordsTwice(l: seq<Slot>, data: seq<byte>)
    requires LayoutSize(l) > 0
    ensures SwapRecords(l, SwapRecords(l, data)) == data
    decreases |data|
  {
    hide *;
    var s := LayoutSize(l);
    SwapRecordsStep(l, data);
    if |data| >= s {
      SwapRecordsStep(l, SwapRecords(l, data));
      CutAt(data, s);
      CatParts(SwapRec(l, data[..s]), SwapRecords(l, data[s..]));
      SwapRecTwice(l, data[..s]);
      SwapRecordsTwice(l, data[s..]);
    }
  }

  lemma {:induction false} SwapDataTwice(dt: DataType, data: seq<byte>)
    requires SwapData(dt, data).Some?
    ensures SwapData(dt, SwapData(dt, data).value) == Some(data)
  {
    SwapRecordsTwice(Layout(dt), data);
  }

  /** Collection i has the same header in both chunks. */
  ghost predicate SameHeaderAt(c: seq<byte>, d: seq<byte>, i: nat)
    requires CountCols(c).Some? && i <= CountCols(c).value
  {
    var at := ColStart(c, i);
    at + COLLECTION_HDR_SIZE <= |c| == |d| && d[at..at + COLLECTION_HDR_SIZE] == c[at..at + COLLECTION_HDR_SIZE]
  }

  lemma {:induction false} SwapKeepsHeader(c: seq<byte>, i: nat)
    requires SwapChunk(c).Some?
    ensures CountCols(c).Some? && (i < CountCols(c).value ==> SameHeaderAt(c, SwapChunk(c).value, i))
    decreases |c|
  {
    hide *;
    SwapChunkStep(c);
    if c == [] {
      CountNothing();
    } else {
      SwapNeedsHeader(c);
      var n, r, rest := ColSize(c), SwapChunk(c).value, SwapChunk(c[ColSize(c)..]).value;
      var d := SwapData(ColDataType(c), c[COLLECTION_HDR_SIZE..n]).value;
      CountStep(c);
      SwapKeepsHeader(c[n..], if i == 0 then 0 else i - 1);
      if i == 0 {
        ColStartZero(c);
        FirstHeader(c, d, rest, n);
      } else if i < CountCols(c).value {
        ColStartStep(c, i);
        LaterHeader(c, d, rest, n, i);
      }
    }
  }

  lemma {:induction false} SwapNeedsHeader(c: seq<byte>)
    requires c != [] && SwapChunk(c).Some?
    ensures 0 < COLLECTION_HDR_SIZE <= |c| && COLLECTION_HDR_SIZE <= ColSize(c) <= |c|
    ensures SwapData(ColDataType(c), c[COLLECTION_HDR_SIZE..ColSize(c)]).Some? && SwapChunk(c[ColSize(c)..]).Some?
  {
    hide SwapData, ColDataType;
  }

  lemma {:induction false} FirstHeader(c: seq<byte>, d: seq<byte>, rest: seq<byte>, n: nat)
    requires COLLECTION_HDR_SIZE <= n <= |c| && |d| == n - COLLECTION_HDR_SIZE && |rest| == |c| - n
    requires CountCols(c).Some? && ColStart(c, 0) == 0
    ensures SameHeaderAt(c, c[..COLLECTION_HDR_SIZE] + d + rest, 0)
  {
    hide CountCols, ColStart;
    assert (c[..COLLECTION_HDR_SIZE] + d + rest)[0..0 + COLLECTION_HDR_SIZE] == c[0..0 + COLLECTION_HDR_SIZE];
  }

  lemma {:induction false} LaterHeader(c: seq<byte>, d: seq<byte>, rest: seq<byte>, n: nat, i: nat)
    requires COLLECTION_HDR_SIZE <= n <= |c| && |d| == n - COLLECTION_HDR_SIZE && |rest| == |c| - n
    requires CountCols(c).Some? && CountCols(c[n..]).Some? && 0 < i <= CountCols(c).value && i - 1 <= CountCols(c[n..]).value
    requires ColStart(c, i) == n + ColStart(c[n..], i - 1) && SameHeaderAt(c[n..], rest, i - 1)
    ensures SameHeaderAt(c, c[..COLLECTION_HDR_SIZE] + d + rest, i)
  {
    hide CountCols, ColStart;
    var at, r, h := ColStart(c[n..], i - 1), c[..COLLECTION_HDR_SIZE] + d + rest, COLLECTION_HDR_SIZE;
    assert r[n..] == rest;
    assert r[n..][at..at + h] == r[n + at..n + (at + h)] && c[n..][at..at + h] == c[n + at..n + (at + h)];
  }

  lemma {:induction false} SwappedParts(c: seq<byte>, d: seq<byte>, rest: seq<byte>, n: nat)
    requires |c| >= COLLECTION_HDR_SIZE && COLLECTION_HDR_SIZE <= n == ColSize(c) <= |c| && |d| == n - COLLECTION_HDR_SIZE && |rest| == |c| - n
    ensures var r := c[..COLLECTION_HDR_SIZE] + d + rest;
      && |r| == |c| && ColSize(r) == n && ColDataType(r) == ColDataType(c)
      && r[..COLLECTION_HDR_SIZE] == c[..COLLECTION_HDR_SIZE] && r[COLLECTION_HDR_SIZE..n] == d && r[n..] == rest
    ensures c == c[..COLLECTION_HDR_SIZE] + c[COLLECTION_HDR_SIZE..n] + c[n..]
  {
    var r := c[..COLLECTION_HDR_SIZE] + d + rest;
    assert r[..COLLECTION_HDR_SIZE] == c[..COLLECTION_HDR_SIZE];
    hide ColSize, ColDataType;
    SameHeader(r, c);
  }

  /** Swapping a chunk twice restores every byte. */
  lemma {:induction false} SwapChunkBack(c: seq<byte>)
    requires SwapChunk(c).Some?
    ensures SwapChunk(SwapChunk(c).value) == Some(c)
    decreases |c|
  {
    hide *;
    SwapChunkStep(c);
    if c != [] {
      SwapNeedsHeader(c);
      var n := ColSize(c);
      var data := c[COLLECTION_HDR_SIZE..n];
      var d, rest := SwapData(ColDataType(c), data).value, SwapChunk(c[n..]).value;
      SwapDataTwice(ColDataType(c), data);
      SwapChunkBack(c[n..]);
      SwappedParts(c, d, rest, n);
      SwapChunkStep(c[..COLLECTION_HDR_SIZE] + d + rest);
    }
  }

  /** Swapping a chunk twice restores every byte, and the header of no collection ever changes. */
  lemma {:induction false} SwapChunkTwice(c: seq<byte>)
    requires SwapChunk(c).Some?
    ensures SwapChunk(SwapChunk(c).value) == Some(c)
    ensures CountCols(c).Some? && forall i :: 0 <= i < CountCols(c).value ==> SameHeaderAt(c, SwapChunk(c).value, i)
  {
    hide *;
    SwapChunkBack(c);
    SwapKeepsHeader(c, 0);
    forall i | 0 <= i < CountCols(c).value
      ensures SameHeaderAt(c, SwapChunk(c).value, i)
    {
      SwapKeepsHeader(c, i);
    }
  }

  //// What is swapped

  /** Where slot i of a record starts. */
  function SlotStart(l: seq<Slot>, i: nat): (off: nat)
    requires i <= |l|
  {
    LayoutSize(l[..i])
  }

  lemma {:induction false} SlotStartStep(l: seq<Slot>, i: nat)
    requires i < |l|
    ensures SlotStart(l, 0) == 0 && SlotStart(l, i) + l[i].width <= LayoutSize(l)
    ensures i > 0 ==> SlotStart(l, i) == l[0].width + SlotStart(l[1..], i - 1)
    decreases i
  {
    if i > 0 {
      assert l[..i][1..] == l[1..][..i - 1];
      SlotStartStep(l[1..], i - 1);
    } else {
      assert l[..0] == [];
    }
  }

  /** The bytes of one number are in the other order, so what is read from them as a
      big-endian number is what was read as a little-endian one. */
  ghost predicate IsSwapped(a: seq<byte>, b: seq<byte>)
  {
    && |b| == |a| && (forall k :: 0 <= k < |a| ==> b[k] == a[|a| - 1 - k])
    && BigEndian(b) == LittleEndian(a)
  }

  lemma {:induction false} ReversedIsSwapped(a: seq<byte>)
    ensures IsSwapped(a, Reversed(a))
  {
  }

  /** Slot i of record r is swapped in out. */
  ghost predicate SlotSwapped(l: seq<Slot>, data: seq<byte>, out: seq<byte>, r: nat, i: nat)
    requires i < |l|
  {
    var off, w := BytesOf(r, LayoutSize(l)) + SlotStart(l, i), l[i].width;
    off + w <= |data| && off + w <= |out| && IsSwapped(data[off..off + w], out[off..off + w])
  }

  /** Every slot of n records is swapped. */
  ghost predicate AllSwapped(l: seq<Slot>, n: nat, data: seq<byte>, out: seq<byte>)
  {
    forall r, i :: 0 <= r < n && 0 <= i < |l| ==> SlotSwapped(l, data, out, r, i)
  }

  lemma {:induction false} SwapRecSlot(l: seq<Slot>, rec: seq<byte>, i: nat)
    requires i < |l| && LayoutSize(l) <= |rec|
    ensures SlotStart(l, i) + l[i].width <= LayoutSize(l) == |SwapRec(l, rec)|
    ensures SwapRec(l, rec)[SlotStart(l, i)..SlotStart(l, i) + l[i].width]
      == Reversed(rec[SlotStart(l, i)..SlotStart(l, i) + l[i].width])
    decreases i
  {
    hide *;
    SlotStartStep(l, i);
    SwapRecStep(l, rec);
    var w0 := l[0].width;
    var head, tail := Reversed(rec[..w0]), SwapRec(l[1..], rec[w0..]);
    if i == 0 {
      assert SwapRec(l, rec)[0..0 + w0] == head && rec[0..0 + w0] == rec[..w0];
    } else {
      SwapRecSlot(l[1..], rec[w0..], i - 1);
      var off, w := SlotStart(l[1..], i - 1), l[i].width;
      LaterBytes(head, tail, off, off + w);
      LaterBytes(rec[..w0], rec[w0..], off, off + w);
      CutAt(rec, w0);
    }
  }

  lemma {:induction false} SwapRecordsRec(l: seq<Slot>, data: seq<byte>, n: nat, r: nat, s: nat, base: nat)
    requires s == LayoutSize(l) > 0 && |data| == BytesOf(n, s) && r < n && base == BytesOf(r, s)
    ensures base + s <= |data| && SwapRecords(l, data)[base..base + s] == SwapRec(l, data[base..base + s])
    decreases n
  {
    hide *;
    SampleFits(r, n, s);
    BytesStep(n, s);
    BytesStep(r, s);
    SwapRecordsStep(l, data);
    var head, tail := SwapRec(l, data[..s]), SwapRecords(l, data[s..]);
    if r == 0 {
      assert SwapRecords(l, data)[0..s] == head && data[0..s] == data[..s];
    } else {
      SwapRecordsRec(l, data[s..], n - 1, r - 1, s, base - s);
      LaterBytes(head, tail, base - s, base);
      LaterBytes(data[..s], data[s..], base - s, base);
      CutAt(data, s);
    }
  }

  lemma {:induction false} SlotSwappedOf(l: seq<Slot>, data: seq<byte>, out: seq<byte>, r: nat, i: nat, base: nat, s: nat, off: nat, w: nat)
    requires i < |l| && s == LayoutSize(l) && base == BytesOf(r, s) && off == SlotStart(l, i) && w == l[i].width && off + w <= s
    requires base + s <= |data| == |out|
    requires out[base..base + s][off..off + w] == Reversed(data[base..base + s][off..off + w])
    ensures SlotSwapped(l, data, out, r, i)
  {
    ReversedIsSwapped(data[base..base + s][off..off + w]);
    hide BytesOf, LayoutSize, SlotStart, Reversed, IsSwapped;
    SliceOfSlice(data, base, base + s, off, off + w);
    SliceOfSlice(out, base, base + s, off, off + w);
  }

  /** THE BYTE ORDER. Every number of every whole record is swapped. */
  lemma {:induction false} RecordsAreSwapped(l: seq<Slot>, data: seq<byte>, n: nat)
    requires LayoutSize(l) > 0 && |data| == BytesOf(n, LayoutSize(l))
    ensures AllSwapped(l, n, data, SwapRecords(l, data))
  {
    hide *;
    var out := SwapRecords(l, data);
    forall r, i | 0 <= r < n && 0 <= i < |l|
      ensures SlotSwapped(l, data, out, r, i)
    {
      var s, base, off, w := LayoutSize(l), BytesOf(r, LayoutSize(l)), SlotStart(l, i), l[i].width;
      SwapRecordsRec(l, data, n, r, s, base);
      SwapRecSlot(l, data[base..base + s], i);
      SlotSwappedOf(l, data, out, r, i, base, s, off, w);
    }
    AllSwappedOf(l, n, data, out);
  }

  lemma {:induction false} AllSwappedOf(l: seq<Slot>, n: nat, data: seq<byte>, out: seq<byte>)
    requires forall r, i :: 0 <= r < n && 0 <= i < |l| ==> SlotSwapped(l, data, out, r, i)
    ensures AllSwapped(l, n, data, out)
  {
    hide SlotSwapped;
  }

  /** Data of whole records of a known type, and the same records in the other byte order. */
  ghost predicate DataSwapped(dt: DataType, data: seq<byte>, out: seq<byte>)
  {
    && !dt.Unknown? && |data| % SampleSize(dt) == 0 && |out| == |data|
    && AllSwapped(Layout(dt), Quot(|data|, SampleSize(dt)), data, out)
  }

  lemma {:induction false} SwapDataIs(dt: DataType, data: seq<byte>)
    ensures SwapData(dt, data).Some? <==> !dt.Unknown? && |data| % SampleSize(dt) == 0
    ensures SwapData(dt, data).Some? ==> DataSwapped(dt, data, SwapData(dt, data).value)
  {
    hide SwapRecords, Layout, LayoutSize, AllSwapped;
    if SwapData(dt, data).Some? {
      var n, s := Quot(|data|, SampleSize(dt)), SampleSize(dt);
      DivModParts(|data|, s);
      BytesStep(n, s);
      RecordsAreSwapped(Layout(dt), data, n);
    }
  }

  /** Collection k of chunk c has its header and its swapped data at the same place in r. */
  ghost predicate ColSwapped(c: seq<byte>, r: seq<byte>, k: nat)
    requires CountCols(c).Some? && k < CountCols(c).value
  {
    var at := ColStart(c, k);
    && |r| == |c| && at + COLLECTION_HDR_SIZE <= |c|
    && var n := ColSize(c[at..]);
       && at + n <= |c| && r[at..at + COLLECTION_HDR_SIZE] == c[at..at + COLLECTION_HDR_SIZE]
       && DataSwapped(ColDataType(c[at..]), c[at + COLLECTION_HDR_SIZE..at + n], r[at + COLLECTION_HDR_SIZE..at + n])
  }

  /** r is chunk c with the data of all its collections in the other byte order. */
  ghost predicate ChunkSwapped(c: seq<byte>, r: seq<byte>)
  {
    CountCols(c).Some? && |r| == |c| && forall k :: 0 <= k < CountCols(c).value ==> ColSwapped(c, r, k)
  }

  lemma {:induction false} FirstSwapped(c: seq<byte>, d: seq<byte>, rest: seq<byte>, n: nat)
    requires CountCols(c).Some? && CountCols(c).value > 0 && ColStart(c, 0) == 0
    requires |c| >= COLLECTION_HDR_SIZE && COLLECTION_HDR_SIZE <= n == ColSize(c) <= |c|
    requires |d| == n - COLLECTION_HDR_SIZE && |rest| == |c| - n && DataSwapped(ColDataType(c), c[COLLECTION_HDR_SIZE..n], d)
    ensures ColSwapped(c, c[..COLLECTION_HDR_SIZE] + d + rest, 0)
  {
    hide CountCols, ColStart, ColSize, ColDataType, DataSwapped;
    var r, h := c[..COLLECTION_HDR_SIZE] + d + rest, COLLECTION_HDR_SIZE;
    assert c[0..] == c && r[0..0 + h] == c[0..0 + h] && c[0 + h..0 + n] == c[h..n] && r[0 + h..0 + n] == d;
  }

  lemma {:induction false} LaterSwapped(c: seq<byte>, front: seq<byte>, rest: seq<byte>, n: nat, k: nat)
    requires n <= |c| && |front| == n && |rest| == |c| - n
    requires CountCols(c).Some? && CountCols(c[n..]).Some? && 0 < k < CountCols(c).value && k - 1 < CountCols(c[n..]).value
    requires ColStart(c, k) == n + ColStart(c[n..], k - 1) && ColSwapped(c[n..], rest, k - 1)
    ensures ColSwapped(c, front + rest, k)
  {
    hide CountCols, ColStart, ColSize, ColDataType, DataSwapped;
    var at, r, h, m, tail := ColStart(c[n..], k - 1), front + rest, COLLECTION_HDR_SIZE, ColSize(c[n..][ColStart(c[n..], k - 1)..]), c[n..];
    assert tail[at..] == c[n + at..];
    LaterBytes(c[..n], tail, at, at + h);
    LaterBytes(c[..n], tail, at + h, at + m);
    CutAt(c, n);
    LaterBytes(front, rest, at, at + h);
    LaterBytes(front, rest, at + h, at + m);
  }

  /** A swapped chunk, collection by collection. */
  lemma {:induction false} SwapChunkAt(c: seq<byte>, k: nat)
    requires SwapChunk(c).Some?
    ensures CountCols(c).Some? && (k < CountCols(c).value ==> ColSwapped(c, SwapChunk(c).value, k))
    decreases |c|
  {
    hide *;
    SwapChunkStep(c);
    if c == [] {
      CountNothing();
    } else {
      SwapNeedsHeader(c);
      var n, h, rest := ColSize(c), COLLECTION_HDR_SIZE, SwapChunk(c[ColSize(c)..]).value;
      var d := SwapData(ColDataType(c), c[h..n]).value;
      CountStep(c);
      SwapDataIs(ColDataType(c), c[h..n]);
      SwapChunkAt(c[n..], if k == 0 then 0 else k - 1);
      if k == 0 {
        ColStartZero(c);
        FirstSwapped(c, d, rest, n);
      } else if k < CountCols(c).value {
        ColStartStep(c, k);
        LaterSwapped(c, c[..h] + d, rest, n, k);
      }
    }
  }

  /** A collection holds whole records of a known type. */
  predicate IsSwappable(col: seq<byte>)
  {
    |col| >= COLLECTION_HDR_SIZE && !ColDataType(col).Unknown? && ColDataLength(col) % SampleSize(ColDataType(col)) == 0
  }

  lemma {:induction false} FirstSwappable(c: seq<byte>)
    requires |c| >= COLLECTION_HDR_SIZE && COLLECTION_HDR_SIZE <= ColSize(c) <= |c|
    ensures SwapData(ColDataType(c), c[COLLECTION_HDR_SIZE..ColSize(c)]).Some? <==> IsSwappable(c[..ColSize(c)])
  {
    var n := ColSize(c);
    SwapDataIs(ColDataType(c), c[COLLECTION_HDR_SIZE..n]);
    assert c[..n][..COLLECTION_HDR_SIZE] == c[..COLLECTION_HDR_SIZE];
    hide SwapData, ColDataType, ColDataLength, SampleSize, AllSwapped;
    SameHeader(c[..n], c);
  }

  /** A chunk is swapped exactly if all its collections hold whole records of known types. */
  lemma {:induction false} SwapChunkIff(c: seq<byte>)
    ensures SwapChunk(c).Some? <==> CountCols(c).Some? && AllCols(c, IsSwappable)
    decreases |c|
  {
    hide *;
    SwapChunkStep(c);
    if c == [] {
      AllColsNone(IsSwappable);
    } else {
      CountFails(c);
      if |c| >= COLLECTION_HDR_SIZE {
        ColSizeIsMore(c);
        if ColSize(c) <= |c| {
          CountStep(c);
          FirstSwappable(c);
          SwapChunkIff(c[ColSize(c)..]);
          if CountCols(c).Some? { AllColsStep(c, IsSwappable); }
        }
      }
    }
  }

  /** THE BYTE ORDER OF A CHUNK. The swap gives exactly the chunk whose collections have
      their headers and every number of their data in the other byte order. */
  lemma {:induction false} SwapChunkIs(c: seq<byte>)
    ensures SwapChunk(c).Some? <==> CountCols(c).Some? && AllCols(c, IsSwappable)
    ensures SwapChunk(c).Some? ==> ChunkSwapped(c, SwapChunk(c).value)
  {
    hide *;
    SwapChunkIff(c);
    if SwapChunk(c).Some? {
      SwapChunkAt(c, 0);
      forall k: nat | k < CountCols(c).value
        ensures ColSwapped(c, SwapChunk(c).value, k)
      {
        SwapChunkAt(c, k);
      }
      ChunkSwappedOf(c, SwapChunk(c).value);
    }
  }

  lemma {:induction false} ChunkSwappedOf(c: seq<byte>, r: seq<byte>)
    requires CountCols(c).Some? && |r| == |c| && forall k: nat :: k < CountCols(c).value ==> ColSwapped(c, r, k)
    ensures ChunkSwapped(c, r)
  {
    hide ColSwapped, CountCols;
  }

  /** The samples of an imagette collection in a swapped chunk. */
  lemma {:induction false} ImagetteSwapped(c: seq<byte>, r: seq<byte>, k: nat, i: nat)
    requires ChunkSwapped(c, r) && k < CountCols(c).value
    requires ColSubservice(ColAt(c, k)) in {1, 3, 4} && 2 * i < ColDataLength(ColAt(c, k))
    ensures var at := ColStart(c, k) + COLLECTION_HDR_SIZE + 2 * i;
      at + 2 <= |c| == |r| && U16At(r, at) == SampleAt(c, at)
  {
    hide *;
    SameLength(c, r);
    var col, at, h := ColAt(c, k), ColStart(c, k), COLLECTION_HDR_SIZE;
    IsImagette(col);
    ColSwappedParts(c, r, k);
    SampleSwapped(ColDataType(col), c, r, at + h, at + |col|, i);
  }

  lemma {:induction false} SampleSwapped(dt: DataType, c: seq<byte>, r: seq<byte>, lo: nat, hi: nat, i: nat)
    requires lo <= hi <= |c| == |r| && DataSwapped(dt, c[lo..hi], r[lo..hi]) && Layout(dt) == [Slot(2, 1)] && lo + 2 * i < hi
    ensures lo + 2 * i + 2 <= |c| && U16At(r, lo + 2 * i) == SampleAt(c, lo + 2 * i)
  {
    hide *;
    SwappedSample(dt, c[lo..hi], r[lo..hi], i);
    SliceOfSlice(c, lo, hi, 2 * i, 2 * i + 2);
    SliceOfSlice(r, lo, hi, 2 * i, 2 * i + 2);
    NumbersAt(c, r, lo + 2 * i);
  }

  lemma {:induction false} SameLength(c: seq<byte>, r: seq<byte>)
    requires ChunkSwapped(c, r)
    ensures CountCols(c).Some? && |r| == |c|
  {
  }

  lemma {:induction false} NumbersAt(c: seq<byte>, r: seq<byte>, at: nat)
    requires at + 2 <= |c| == |r|
    ensures U16At(r, at) == BigEndian(r[at..at + 2]) && SampleAt(c, at) == LittleEndian(c[at..at + 2])
  {
  }

  lemma {:induction false} IsImagette(col: seq<byte>)
    requires |col| >= COLLECTION_HDR_SIZE && ColSubservice(col) in {1, 3, 4}
    ensures Layout(ColDataType(col)) == [Slot(2, 1)]
  {
  }

  lemma {:induction false} SwappedSample(dt: DataType, d: seq<byte>, e: seq<byte>, i: nat)
    requires DataSwapped(dt, d, e) && Layout(dt) == [Slot(2, 1)] && 2 * i < |d|
    ensures 2 * i + 2 <= |d| == |e| && BigEndian(e[2 * i..2 * i + 2]) == LittleEndian(d[2 * i..2 * i + 2])
  {
    var l := Layout(dt);
    assert l[..0] == [] && l[1..] == [];
    assert LayoutSize(l) == 2 && SlotStart(l, 0) == 0 && BytesOf(i, 2) == 2 * i;
    hide LayoutSize, SlotStart, Layout, BytesOf, IsSwapped, LittleEndian, BigEndian;
    assert SlotSwapped(l, d, e, i, 0);
    SwappedValue(d[2 * i..2 * i + 2], e[2 * i..2 * i + 2]);
  }

  lemma {:induction false} SwappedValue(a: seq<byte>, b: seq<byte>)
    requires IsSwapped(a, b)
    ensures BigEndian(b) == LittleEndian(a)
  {
  }

  lemma {:induction false} ColSwappedParts(c: seq<byte>, r: seq<byte>, k: nat)
    requires ChunkSwapped(c, r) && CountCols(c).Some? && k < CountCols(c).value
    ensures var at, col, h := ColStart(c, k), ColAt(c, k), COLLECTION_HDR_SIZE;
      && |r| == |c| && at + |col| <= |c| && |col| == h + ColDataLength(col)
      && DataSwapped(ColDataType(col), c[at + h..at + |col|], r[at + h..at + |col|])
  {
    hide *;
    SameLength(c, r);
    ColAtIs(c, k);
    ColSwappedAt(c, r, k);
    ColSwappedIs(c, r, k, ColStart(c, k), ColAt(c, k));
  }

  lemma {:induction false} ColSwappedAt(c: seq<byte>, r: seq<byte>, k: nat)
    requires ChunkSwapped(c, r) && CountCols(c).Some? && k < CountCols(c).value
    ensures ColSwapped(c, r, k)
  {
    hide ColSwapped;
  }

  lemma {:induction false} ColSwappedIs(c: seq<byte>, r: seq<byte>, k: nat, at: nat, col: seq<byte>)
    requires CountCols(c).Some? && k < CountCols(c).value && ColSwapped(c, r, k) && at == ColStart(c, k)
    requires at + |col| <= |c| == |r| && c[at..at + |col|] == col && |col| >= COLLECTION_HDR_SIZE && |col| == ColSize(col)
    ensures |col| == COLLECTION_HDR_SIZE + ColDataLength(col)
    ensures DataSwapped(ColDataType(col), c[at + COLLECTION_HDR_SIZE..at + |col|], r[at + COLLECTION_HDR_SIZE..at + |col|])
  {
    assert c[at..][..COLLECTION_HDR_SIZE] == col[..COLLECTION_HDR_SIZE];
    hide DataSwapped, ColDataType, ColDataLength, ColStart, ColAt, CountCols;
    SameHeader(c[at..], col);
  }

  //// In place

  /** The body of a be_to_cpus_<type> loop: reverses the fields of one record. */
  method SwapRecordInPlace(l: seq<Slot>, a: array<byte>, at: nat)
    requires at + LayoutSize(l) <= a.Length
    modifies a
    ensures a[..] == Splice(old(a[..]), at, SwapRec(l, old(a[at..at + LayoutSize(l)])))
  {
    hide *;
    ghost var mem := a[..];
    ghost var rec := a[at..at + LayoutSize(l)];
    ArraySlice(a, at, at + LayoutSize(l));
    ghost var done: seq<byte> := [];
    var j, off := 0, 0;
    SpliceNothing(mem, at);
    assert l[0..] == l && rec[0..] == rec && [] + SwapRec(l, rec) == SwapRec(l, rec);
    while j < |l|
      invariant 0 <= j <= |l| && off == |done| && off + LayoutSize(l[j..]) == |rec|
      invariant a[..] == Splice(mem, at, done)
      invariant done + SwapRec(l[j..], rec[off..]) == SwapRec(l, rec)
      decreases |l| - j
    {
      var w := l[j].width;
      SwapRecStep(l[j..], rec[off..]);
      assert l[j..][1..] == l[j + 1..] && rec[off..][w..] == rec[off + w..];
      UntouchedSlice(mem, at, done, rec, off, w);
      ArraySlice(a, at + off, at + off + w);
      var field := Reversed(a[at + off..at + off + w]);
      CopyBytes(a, at + off, field);
      SpliceThen(mem, at, done, field);
      Assoc(done, field, SwapRec(l[j + 1..], rec[off + w..]));
      done := done + field;
      j, off := j + 1, off + w;
    }
    NoSlots(l[j..], rec[off..]);
    assert done + [] == done;
  }

  /** The be_to_cpus_<type> loops: swaps all records of size bytes at an offset. */
  method SwapRecordsInPlace(l: seq<Slot>, a: array<byte>, at: nat, size: nat)
    requires LayoutSize(l) > 0 && at + size <= a.Length
    modifies a
    ensures a[..] == Splice(old(a[..]), at, SwapRecords(l, old(a[at..at + size])))
  {
    hide *;
    ghost var mem := a[..];
    ghost var data := a[at..at + size];
    ArraySlice(a, at, at + size);
    var s := LayoutSize(l);
    ghost var done: seq<byte> := [];
    var pos := 0;
    SpliceNothing(mem, at);
    assert data[0..] == data && [] + SwapRecords(l, data) == SwapRecords(l, data);
    while pos + s <= size
      invariant pos == |done| <= size && a[..] == Splice(mem, at, done)
      invariant done + SwapRecords(l, data[pos..]) == SwapRecords(l, data)
    {
      SwapRecordsStep(l, data[pos..]);
      UntouchedSlice(mem, at, done, data, pos, s);
      ArraySlice(a, at + pos, at + pos + s);
      ghost var rec := SwapRec(l, data[pos..][..s]);
      SwapRecordInPlace(l, a, at + pos);
      SpliceThen(mem, at, done, rec);
      assert data[pos..][s..] == data[pos + s..];
      Assoc(done, rec, SwapRecords(l, data[pos + s..]));
      done := done + rec;
      pos := pos + s;
    }
    SwapRecordsStep(l, data[pos..]);
    RestUnchanged(mem, at, done, data, pos);
  }

  lemma {:induction false} UntouchedSlice(mem: seq<byte>, at: nat, done: seq<byte>, data: seq<byte>, pos: nat, n: nat)
    requires pos == |done| && pos + n <= |data| && at + |data| <= |mem| && data == mem[at..at + |data|]
    ensures Splice(mem, at, done)[at + pos..at + pos + n] == data[pos..][..n]
  {
  }

  /** The bytes that are left when less than one record is left. */
  lemma {:induction false} RestUnchanged(mem: seq<byte>, at: nat, done: seq<byte>, data: seq<byte>, pos: nat)
    requires pos == |done| <= |data| && at + |data| <= |mem| && data == mem[at..at + |data|]
    ensures Splice(mem, at, done) == Splice(mem, at, done + data[pos..])
  {
  }

  lemma {:induction false} SplicedIn(mem: seq<byte>, at: nat, s: seq<byte>)
    requires at + |s| <= |mem|
    ensures Splice(mem, at, s)[at..at + |s|] == s
  {
  }

  /** be_to_cpu_data_type and cpu_to_be_data_type: every number of every record is swapped. */
  method BeToCpuDataType(a: array<byte>, at: nat, size: nat, dt: DataType) returns (ok: bool)
    requires at + size <= a.Length
    modifies a
    ensures ok <==> SwapData(dt, old(a[at..at + size])).Some?
    ensures ok <==> !dt.Unknown? && size % SampleSize(dt) == 0
    ensures a[..] == if ok then Splice(old(a[..]), at, SwapData(dt, old(a[at..at + size])).value) else old(a[..])
    ensures ok ==> DataSwapped(dt, old(a[at..at + size]), a[at..at + size])
  {
    ghost var mem, data := a[..], a[at..at + size];
    SwapDataIs(dt, data);
    hide LayoutSize, Layout, SwapRecords, Splice, DataSwapped;
    var sampleSize := SampleSize(dt);
    if sampleSize == 0 { return false; }
    if size % sampleSize != 0 { return false; }
    SwapRecordsInPlace(Layout(dt), a, at, size);
    ArraySlice(a, at, at + size);
    SplicedIn(mem, at, SwapData(dt, data).value);
    return true;
  }

  lemma {:induction false} SwapChunkStep(c: seq<byte>)
    ensures c == [] ==> SwapChunk(c) == Some([])
    ensures c != [] && (|c| < COLLECTION_HDR_SIZE || ColSize(c) > |c|) ==> SwapChunk(c) == None
    ensures |c| >= COLLECTION_HDR_SIZE && ColSize(c) <= |c| ==>
      var d := SwapData(ColDataType(c), c[COLLECTION_HDR_SIZE..ColSize(c)]);
      var rest := SwapChunk(c[ColSize(c)..]);
      SwapChunk(c) == if d.Some? && rest.Some? then Some(c[..COLLECTION_HDR_SIZE] + d.value + rest.value) else None
  {
  }

  lemma {:induction false} SwapFails(c: seq<byte>)
    requires |c| >= COLLECTION_HDR_SIZE
    requires ColSize(c) > |c| || SwapData(ColDataType(c), c[COLLECTION_HDR_SIZE..ColSize(c)]).None?
    ensures SwapChunk(c).None?
  {
    SwapChunkStep(c);
    hide SwapChunk, SwapData, ColSize;
  }

  lemma {:induction false} ColSizeIsMore(c: seq<byte>)
    requires |c| >= COLLECTION_HDR_SIZE
    ensures 0 < COLLECTION_HDR_SIZE <= ColSize(c) && c != []
  {
  }

  lemma {:induction false} BodyInPlace(a: array<byte>, at: nat, rest: seq<byte>, n: nat)
    requires COLLECTION_HDR_SIZE <= n <= |rest| && at + |rest| <= a.Length && a[at..at + |rest|] == rest
    ensures var start := at + COLLECTION_HDR_SIZE;
      a[start..start + (n - COLLECTION_HDR_SIZE)] == rest[COLLECTION_HDR_SIZE..n]
  {
    var start := at + COLLECTION_HDR_SIZE;
    forall i | 0 <= i < n - COLLECTION_HDR_SIZE
      ensures a[start..start + (n - COLLECTION_HDR_SIZE)][i] == rest[COLLECTION_HDR_SIZE..n][i]
    {
      assert a[at..at + |rest|][COLLECTION_HDR_SIZE + i] == rest[COLLECTION_HDR_SIZE + i];
    }
  }

  /** Swaps the data of a collection of n bytes at an offset. */
  method SwapBody(a: array<byte>, at: nat, n: nat, dt: DataType, ghost rest: seq<byte>) returns (ok: bool)
    requires COLLECTION_HDR_SIZE <= n <= |rest| && at + |rest| <= a.Length && a[at..at + |rest|] == rest
    modifies a
    ensures ok <==> SwapData(dt, rest[COLLECTION_HDR_SIZE..n]).Some?
    ensures a[..] == if ok then Splice(old(a[..]), at + COLLECTION_HDR_SIZE, SwapData(dt, rest[COLLECTION_HDR_SIZE..n]).value) else old(a[..])
  {
    hide *;
    BodyInPlace(a, at, rest, n);
    ok := BeToCpuDataType(a, at + COLLECTION_HDR_SIZE, n - COLLECTION_HDR_SIZE, dt);
  }

  /** Swaps the data of the first of the collections in size bytes at an offset. The
      result is its size, or 0 if it is larger than that or cannot be swapped. */
  method SwapCollection(a: array<byte>, at: nat, size: nat, ghost rest: seq<byte>) returns (n: nat)
    requires COLLECTION_HDR_SIZE <= size == |rest| && at + size <= a.Length && a[at..at + size] == rest
    modifies a
    ensures n == 0 ==> a[..] == old(a[..]) && SwapChunk(rest).None?
    ensures n > 0 ==>
      && n == ColSize(rest) <= size && SwapData(ColDataType(rest), rest[COLLECTION_HDR_SIZE..n]).Some?
      && a[..] == Splice(old(a[..]), at + COLLECTION_HDR_SIZE,
                    SwapData(ColDataType(rest), rest[COLLECTION_HDR_SIZE..n]).value)
  {
    ColSizeIsMore(rest);
    hide *;
    n := ColSize(a[at..at + size]);
    if n > size {
      SwapFails(rest);
      return 0;
    }
    var ok := SwapBody(a, at, n, ColDataType(a[at..at + size]), rest);
    if !ok {
      SwapFails(rest);
      n := 0;
    }
  }

  /** One pass of the loop over the collections. */
  method SwapNext(a: array<byte>, at: nat, pos: nat, size: nat, ghost mem: seq<byte>, ghost c: seq<byte>, ghost done: seq<byte>)
    returns (n: nat, ghost done': seq<byte>)
    requires pos + COLLECTION_HDR_SIZE <= size == |c| && at + size <= a.Length == |mem| && c == mem[at..at + size]
    requires pos == |done| && a[..] == Splice(mem, at, done) && Swapped(c, done, c[pos..])
    modifies a
    ensures n == 0 ==> a[..] == old(a[..]) && done' == done && SwapChunk(c[pos..]).None?
    ensures n > 0 ==>
      && pos + n <= size && |done'| == pos + n
      && a[..] == Splice(mem, at, done') && Swapped(c, done', c[pos + n..])
  {
    hide *;
    done' := done;
    SliceOfSplice(mem, at, done, c, pos, size - pos);
    ArraySlice(a, at + pos, at + size);
    n := SwapCollection(a, at + pos, size - pos, c[pos..]);
    if n > 0 { done' := SwappedPass(mem, at, c, done, n, a[..]); }
  }

  lemma {:induction false} SwappedPass(mem: seq<byte>, at: nat, c: seq<byte>, done: seq<byte>, n: nat, after: seq<byte>)
    returns (done': seq<byte>)
    requires |done| + COLLECTION_HDR_SIZE <= |c| && at + |c| <= |mem| && c == mem[at..at + |c|]
    requires Swapped(c, done, c[|done|..]) && n == ColSize(c[|done|..]) && |done| + n <= |c|
    requires SwapData(ColDataType(c[|done|..]), c[|done|..][COLLECTION_HDR_SIZE..n]).Some?
    requires after == Splice(Splice(mem, at, done), at + |done| + COLLECTION_HDR_SIZE,
      SwapData(ColDataType(c[|done|..]), c[|done|..][COLLECTION_HDR_SIZE..n]).value)
    ensures |done'| == |done| + n && after == Splice(mem, at, done') && Swapped(c, done', c[|done'|..])
  {
    hide SwapData, ColDataType, SwapChunk, Splice, Swapped;
    var rest := c[|done|..];
    var d := SwapData(ColDataType(rest), rest[COLLECTION_HDR_SIZE..n]).value;
    assert mem[at + |done|..at + |done| + |rest|] == rest;
    SwappedNext(mem, at, c, done, rest, d);
    done' := done + rest[..COLLECTION_HDR_SIZE] + d;
    assert c[|done'|..] == rest[n..];
  }

  /** be_to_cpu_chunk and cpu_to_be_chunk: swaps the data of every collection in place.
      The length fields in the headers must add up to the size, and every collection must
      hold whole records of a known type. */
  method BeToCpuChunk(a: array<byte>, at: nat, size: nat) returns (ok: bool)
    requires at + size <= a.Length
    modifies a
    ensures ok <==> size >= COLLECTION_HDR_SIZE && SwapChunk(old(a[at..at + size])).Some?
    ensures ok <==>
      && size >= COLLECTION_HDR_SIZE && CountCols(old(a[at..at + size])).Some?
      && AllCols(old(a[at..at + size]), IsSwappable)
    ensures ok ==> a[..] == Splice(old(a[..]), at, SwapChunk(old(a[at..at + size])).value)
    ensures ok ==> ChunkSwapped(old(a[at..at + size]), a[at..at + size])
    ensures a[..at] == old(a[..at]) && a[at + size..] == old(a[at + size..])
  {
    ghost var mem, c := a[..], a[at..at + size];
    if size < COLLECTION_HDR_SIZE { return false; }
    hide *;
    assert c == mem[at..at + size] && c[0..] == c;
    ghost var done: seq<byte> := [];
    var pos := 0;
    SpliceNothing(mem, at);
    SwappedStart(c);
    while pos + COLLECTION_HDR_SIZE <= size
      invariant pos == |done| <= size && a[..] == Splice(mem, at, done)
      invariant Swapped(c, done, c[pos..])
      decreases size - pos
    {
      var n;
      n, done := SwapNext(a, at, pos, size, mem, c, done);
      if n == 0 { break; }
      pos := pos + n;
    }
    SwapChunkStep(c[pos..]);
    Outside(mem, a[..], at, done, size);
    SwappedEnd(c, done, c[pos..]);
    ok := pos == size;
    SwapChunkIs(c);
    if ok {
      SplicedIn(mem, at, done);
      ArraySlice(a, at, at + size);
    }
  }

  /** The chunk is swapped up to rest. */
  ghost predicate Swapped(c: seq<byte>, done: seq<byte>, rest: seq<byte>)
  {
    SwapChunk(c) == if SwapChunk(rest).Some? then Some(done + SwapChunk(rest).value) else None
  }

  lemma {:induction false} SwappedStart(c: seq<byte>)
    ensures Swapped(c, [], c)
  {
    if SwapChunk(c).Some? { assert [] + SwapChunk(c).value == SwapChunk(c).value; }
  }

  lemma {:induction false} SwappedEnd(c: seq<byte>, done: seq<byte>, rest: seq<byte>)
    requires Swapped(c, done, rest)
    requires rest == [] || SwapChunk(rest).None?
    ensures SwapChunk(c) == if rest == [] then Some(done) else None
  {
    assert done + [] == done;
  }

  lemma {:induction false} SliceOfSplice(mem: seq<byte>, at: nat, done: seq<byte>, c: seq<byte>, pos: nat, n: nat)
    requires pos == |done| && pos + n == |c| && at + |c| <= |mem| && c == mem[at..at + |c|]
    ensures Splice(mem, at, done)[at + pos..at + pos + n] == c[pos..]
  {
  }

  lemma {:induction false} Outside(mem: seq<byte>, now: seq<byte>, at: nat, done: seq<byte>, size: nat)
    requires |done| <= size && at + size <= |mem| && now == Splice(mem, at, done)
    ensures now[..at] == mem[..at] && now[at + size..] == mem[at + size..]
  {
  }

  lemma {:induction false} SwappedNext(mem: seq<byte>, at: nat, c: seq<byte>, done: seq<byte>, rest: seq<byte>, d: seq<byte>)
    requires Swapped(c, done, rest) && |rest| >= COLLECTION_HDR_SIZE && ColSize(rest) <= |rest|
    requires at + |done| + |rest| <= |mem| && mem[at + |done|..at + |done| + |rest|] == rest
    requires SwapData(ColDataType(rest), rest[COLLECTION_HDR_SIZE..ColSize(rest)]) == Some(d)
    ensures Swapped(c, done + rest[..COLLECTION_HDR_SIZE] + d, rest[ColSize(rest)..])
    ensures Splice(Splice(mem, at, done), at + |done| + COLLECTION_HDR_SIZE, d)
      == Splice(mem, at, done + rest[..COLLECTION_HDR_SIZE] + d)
  {
    hide SwapData, ColDataType, SwapChunk, Splice;
    var h := rest[..COLLECTION_HDR_SIZE];
    SwapChunkStep(rest);
    var more := SwapChunk(rest[ColSize(rest)..]);
    if more.Some? { assert done + (h + d + more.value) == done + h + d + more.value; }
    SpliceGap(mem, at, done, h, d);
  }

  /** The bytes of a header stay as they are. */
  lemma {:induction false} SpliceGap(mem: seq<byte>, at: nat, done: seq<byte>, h: seq<byte>, d: seq<byte>)
    requires at + |done| + |h| + |d| <= |mem| && mem[at + |done|..at + |done| + |h|] == h
    ensures Splice(Splice(mem, at, done), at + |done| + |h|, d) == Splice(mem, at, done + h + d)
  {
  }
}
