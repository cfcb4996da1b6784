# The PLATO compressor and decompressor as one verified codec

This project models the lossless compressor that runs on the instrument computer (ICU), its
decompressor on ground, and the software form of the hardware compressor (RDCU), and proves that
they belong together: whatever the compressor accepts, the decompressor gives back, byte for byte
and with the same updated model.

The model has five layers, each specified on plain values and each refined by methods over arrays
and over the reader object, in the form of the C code:

1. **Integers** (`Bits`, `Words`, `Golomb`, `ZigZag`, `Params`, `ValueCode`). 32-bit words with
   wrap-around are written out. The compressor's code words in groups of equal length and its Rice
   form are shown to be the quotient-and-remainder code that the decompressor reads; both escape
   mechanisms are inverted, and the reader accepts nothing else; thresholds are tight and the best ones.
2. **Bit input and output** (`BitWriter`, `BitReader`, `ValueEncoder`, `ValueDecoder`). The writer
   puts bits into an array of bytes, word by word. The reader is an object with a 64-bit register, a
   cursor and a count of consumed bits. Both refine a sequence of bits with a position.
3. **Sample loops** (`Samples`, `SampleStream`, `UpModel`, `StrictReader`, `CompressLoop`,
   `DecompressLoop`). All `compress_*`/`decompress_*` pairs of the C code are one loop over a list of
   fields (width, parameter pair); an imagette is a record of one 16-bit field. The updated model may
   be stored over the model. `SampleStream` says field by field what a stream holds.
4. **Collections and chunks** (`DataTypes`, `Endian`, `Config`, `Products`, `CollectionCode`,
   `PackedForm`, `ChunkCode`, `ChunkBounds`, `Entity`, `Acceptance`, and the methods in `CollectionCompressor`, `CollectionWriter`,
   `CollectionPacker`, `ChunkCompressor`, `CollectionDecompressor`, `ChunkDecompressor`,
   `EntityDecompressor`). Raw fallback, size fields, the walk over them, byte order, dry runs, limits.
5. **Whole runs** (`RoundTrip`, `Runs`, `UpdateAlone`, `Rdcu`, `Witnesses`). The main results, and
   the concrete chunks and entities behind what may surprise.

Memory is a sequence or an array of bytes; a C pointer is an array with an offset, `NULL` is
`null`, and the only aliasing allowed is that of the model and the updated model. A result that
C packs into one number with the error codes is an `Outcome`.

## What is proved

* *Round trip* (`RoundTrip.ChunkRoundTrip`): for every chunk, model, capacity and parameter set that
  `compress_chunk` accepts, in all five modes and for any mix of compressed and raw collections.
  `ChunkCompressor.CompressChunk` and `EntityDecompressor.DecompressCmpEntity` are shown to compute
  the two functions that this lemma is about, and `Runs.CheckChunkRoundTrip` joins them on buffers.
* *Lockstep* (`Runs.ModelsStayInLockstep`): over any number of chunks.
* *Capacity* (`RoundTrip.CapacityIsExact`, for every capacity; `RoundTrip.BoundIsEnough`), *dry runs*
  (`RoundTrip.DryRunIsRealRun`) and *no internal errors* (`ChunkCompressor.CompressChunk`,
  `Entity.NoInternalErrors`).
* *Decoding is exact in both directions*: at every level, from `ValueDecoder.DecodeValue` to
  `EntityDecompressor.DecompressCmpEntity` with a buffer for the data, success is reported if and only
  if a bit-by-bit reader can read the input, whatever the input is.
* *Acceptance* (`Acceptance.CompressionSucceeds`): the exact condition on chunk, model and
  parameters under which a chunk is compressed, in the user's terms; `Products.FieldOfProduct` says
  which parameter codes which field of which product, and `Params.ZeroThresholdIsBest` and
  `Params.MultiThresholdIsLargest` which threshold is chosen for it.
* *What is written* (`SampleStream.StreamIs`, `SampleStream.ImagetteStream`, `UpModel.UpFromMeans`,
  `Endian.SwapChunkIs`, `PackedForm.PackedCollectionIs`): every bit of a packed collection and every
  number of an updated model, stated without the functions that compute them.
* *The decompressor is strict* (`StrictReader.StreamsAreExact`): for given samples it accepts the bits
  that the compressor writes and no others, if the thresholds are within the range of their fields.
* *Lossy RDCU round trip* (`Rdcu.LossyRoundTrip`, `Rdcu.CheckRdcuRoundTrip`).

Where the code does not do what a reader might expect, the code is modelled, the exact condition is
proved, and a concrete input shows it:

* `is_a_pow_of_2(0)` is true (`Words.PowOf2Exact`). No Golomb parameter is 0, so nothing depends on it.
* A destination of the size that a dry run gives may be too small: the bitstream limit is rounded down
  to whole words, but raw data may use the whole capacity. A chunk fits exactly if its dry size is
  within the capacity, and within its whole words or the last collection would also fit raw
  (`RoundTrip.CapacityIsExact`; `Witnesses.CapacityOfSizeFails` has a chunk of 83 bytes).
* `compress_chunk` reports that the entity header cannot be stored, after all collections were
  compressed, exactly if the model value or a Golomb parameter of the chunk type is too large for
  its field, even if the mode or the chunk does not use that value (`RoundTrip.HeaderErrorCondition`,
  `Entity.HeaderErrorExact`); a dry run does not see this error (`Witnesses.UnusedModelValueFails`).
* Without a buffer for the data, the decompressor stores the updated model of raw collections and not
  that of compressed ones (`EntityDecompressor.DecompressCmpEntity`, `UpdateAlone.AlonePart`). The
  update is complete if and only if all collections are raw (`UpdateAlone.UpdateNeedsData`;
  `Witnesses.UpdateIsLost`).
* The decompressor does not check that a symbol below the threshold is in range of its field: it takes
  other bits than those of the compressor for a value exactly if the threshold is above that range
  (`StrictReader.ReadValueExact`, `StrictReader.BeyondRange`), as it is for 8-bit flags in the multi
  modes with a Golomb parameter of 60, for example.
* For a raw entity the result of the byte swap is not checked: it is reported as decompressed exactly
  if its header is readable, even if its collection sizes do not add up
  (`EntityDecompressor.DecompressCmpEntity`; `Witnesses.RawMismatchSucceeds`).

## Model

| member | source | states |
|---|---|---|
| RoundTrip.ChunkRoundTrip | lib/decompress/decmp.c:1945-2030 | Whatever `compress_chunk` accepts, the decompressor reads from its header and data, with the same model: exactly the chunk, and the same updated model; all modes, any mix of compressed and raw collections, any number of them. |
| Runs.ModelsStayInLockstep | lib/icu_compress/cmp_icu.c:1840-1853 | If each chunk is compressed with the model that the previous one left, and the entities are decompressed likewise, all chunks come back and both sides end with the same model, after any number of chunks, modes and raw fallbacks. |
| Runs.CheckChunkRoundTrip | test/test_common/chunk_round_trip.c:88-170 | The repository's round trip check on buffers, for every input: the run without a destination gives the same size, both decompressions give the chunk size, the data is the chunk and, in the model modes, the updated models are equal, also with the model updated in place. |
| Runs.CheckDecompression | test/test_common/chunk_round_trip.c:129-168 | Both decompressions of an entity that was compressed return the chunk size; the data buffer then holds the chunk and the model buffer the updated model of the compressor. |
| RoundTrip.CapacityIsExact | lib/icu_compress/cmp_icu.c:1826-1870 | For every capacity, compression succeeds if and only if the dry run does, its header can be stored, and its size is within the capacity and within its whole words unless the last collection would also fit raw; then both give the same result, and a size that does not fit gives the small-buffer error. |
| RoundTrip.BoundIsEnough | lib/icu_compress/cmp_icu.c:2206-2233 | With a capacity of at least the size bound, the small-buffer error never occurs, and no successful result is larger than the bound. |
| RoundTrip.DryRunIsRealRun | lib/icu_compress/cmp_icu.c:2124-2186 | A run without a destination gives the same compressed chunk as the real one, unless the real one runs out of room or cannot store its header. |
| Entity.NoInternalErrors | test/fuzz/fuzz_compression.c:93-136 | No chunk, model, capacity or parameter set leads to an internal error code; only the listed errors occur. |
| RoundTrip.HeaderErrorCondition | lib/icu_compress/cmp_icu.c:1890-1934 | With enough room, the header error occurs exactly if the model value is above 8 bits or, outside raw mode, a Golomb parameter of the chunk type is above 16 bits. |
| RoundTrip.WalkFindsCollections | lib/decompress/decmp.c:1835-1854 | Walking the size fields of compressed data finds exactly as many collections as the chunk had. |
| RoundTrip.WalkFindsOffsets | lib/decompress/decmp.c:1873-1927 | The offset computed for collection i of the compressed data is where collection i starts in the original chunk. |
| Acceptance.CompressionSucceeds | lib/icu_compress/cmp_icu.c:2124-2186 | A dry run succeeds if and only if the chunk has 12 to 2^24 - 1 bytes, its collections add up to it, belong to one group of products and hold whole records, the mode is one of five, the model modes have a model and a model value of at most 16, and outside raw mode every Golomb parameter that codes a field of a collection is in 1 to 65535. |
| Acceptance.RefusalIs | lib/icu_compress/cmp_icu.c:1786-1812 | Which error refuses a collection, and in which order: broken records, mode or model value, a Golomb parameter of its product out of range, no model. |
| Products.FieldOfProduct | lib/icu_compress/cmp_icu.c:1948-2073 | For each subservice and each field of its record: its width, which parameter of the user codes it, the threshold for that parameter and width, the escape mechanism by the mode, no rounding. |
| Products.GroupsAreChunkTypes | lib/icu_compress/cmp_chunk_type.c:35-80 | Two subservices can be in one chunk exactly if they are in one of seven listed groups. |
| ChunkCompressor.CompressChunk | lib/icu_compress/cmp_icu.c:2124-2186 | Without a destination it succeeds exactly for acceptable chunks, models and parameters. For every outcome: the size or the error, which is never an internal one, the data behind the header, nothing changed behind the capacity, and the updated model or, after an error, nothing changed outside its part; also in place. |
| ChunkCompressor.PackChunk | lib/icu_compress/cmp_icu.c:2155-2178 | The loop over the collections leaves their packed forms one after the other and the updated models at the offsets of the collections. |
| ChunkBounds.CompressChunkCmpSizeBound | lib/icu_compress/cmp_icu.c:2206-2233 | The loop gives the bound for the number of collections that the chunk consists of, or the error for sizes that do not add up or are too large. |
| ChunkBounds.BoundCoversWorst | lib/cmp_chunk.h:36-43 | The bound formula covers header, size fields and data of any number of collections. |
| ChunkBounds.SizeBoundIs | lib/cmp_chunk.h:36-43 | The bound is the least multiple of 4 that holds 64 bytes, 2 for each collection and the chunk; it exists exactly for chunks that add up and as long as it fits 24 bits. |
| ChunkBounds.PackedSize | lib/icu_compress/cmp_icu.c:2155-2178 | After k collections the used size is at most the bytes read plus one size field each, and within the room. |
| ChunkBounds.EnoughRoom | lib/icu_compress/cmp_icu.c:1786-1870 | With room for the worst case no collection fails for lack of room. |
| ChunkBounds.RoomIsExact | lib/icu_compress/cmp_icu.c:1831-1860 | For every room, packing succeeds if and only if the dry run does and its end is within the room, and within its whole words unless the last collection would also fit raw; what fits is the same as in the dry run. |
| ChunkBounds.DryRunAgrees | lib/icu_compress/cmp_icu.c:1831-1860 | Packing with and without a destination gives the same result for every chunk, or the destination was too small. |
| ChunkBounds.OnlyExpectedErrors | lib/icu_compress/cmp_icu.c:1786-1870 | Packing the collections of any chunk gives no other errors than those of parameters, sizes, subservices and room. |
| ChunkCode.UnpackColsInverts | lib/decompress/decmp.c:1998-2029 | A packed chunk, at any offset and in any room, unpacks to the chunk and the same updated model. |
| ChunkCode.UnpackColInverts | lib/decompress/decmp.c:1873-1927 | The same for one collection, whatever follows it, and its size field leads exactly to what follows. |
| ChunkCode.RawIsSwapped | lib/icu_compress/cmp_icu.c:1854-1857 | In raw mode the packed chunk has, at the same offsets, every collection header unchanged and every number of every record in the other byte order; there are no size fields. |
| CollectionCode.PackDataSize | lib/icu_compress/cmp_icu.c:1831-1866 | Outside raw mode, packed data is smaller than the data exactly if it is compressed; otherwise it has the same size, so the size field alone tells the reader. |
| CollectionCode.UnpackDataInverts | lib/decompress/decmp.c:1479-1634 | Compressed or raw, the packed data is read as the original data and gives the same updated model. |
| CollectionCode.CompressesExactly | lib/icu_compress/cmp_icu.c:1831-1853 | Data is stored compressed exactly if its bits, counted from the start of the destination, fit the whole 32-bit words in front of the last byte of the raw data, or, where that has no room, the whole words of the room. |
| PackedForm.PackedDataIs | lib/icu_compress/cmp_icu.c:1522-1614 | Packed data is either as long as the data and then every number in the other byte order, with the data as its updated model, or shorter and then the codes of all fields of all records padded with zeros to a byte, with the weighted means as its updated model. |
| PackedForm.PackedCollectionIs | lib/icu_compress/cmp_icu.c:1786-1870 | A packed collection is a 16-bit big-endian count of its data bytes (outside raw mode), the 12 header bytes and that data; its updated model is the header and the updated model of the data. |
| CollectionPacker.CmpCollection | lib/icu_compress/cmp_icu.c:1786-1870 | Checks, size field, header and data of a collection end up at the right offset of the destination, and header and updated data in the model; for every error nothing outside is touched. |
| CollectionPacker.SetCmpColSize | lib/icu_compress/cmp_icu.c:1755-1765 | The size field holds the size as two big-endian bytes; larger sizes are an error that changes nothing. |
| CollectionWriter.StoreOrFallBack | lib/icu_compress/cmp_icu.c:1831-1853 | Trying to compress to one byte less and falling back to raw leaves what the collection packs to, with and without a destination, and the data itself as the model after a fallback. |
| CollectionWriter.StoreDirect | lib/icu_compress/cmp_icu.c:1854-1858 | With less room than the raw data needs, the result is the compressed data within the capacity or the small-buffer error. |
| CollectionWriter.PackedAt | lib/icu_compress/cmp_icu.c:1484-1505 | Written bits and their padding are, seen as bytes, the packed bits; the bytes before them and behind the capacity are unchanged. |
| CollectionCompressor.CompressDataInternal | lib/icu_compress/cmp_icu.c:1522-1614 | Every branch: unaligned start, no samples, raw copy in the other byte order, unsupported fast-cadence data, and the coded samples with padding and updated model. |
| CollectionCompressor.StoreCoded | lib/icu_compress/cmp_icu.c:1567-1614 | The bits are written and padded to a whole word if they fit the limit; otherwise the small-buffer error, and nothing outside the limit changed. |
| EntityDecompressor.DecompressCmpEntity | lib/decompress/decmp.c:1945-2030 | The result is the original size or negative. With a buffer for the data, success means exactly that the entity can be read, and the buffers hold its chunk and updated model; raw entities succeed exactly by their header; without a buffer for the data, success means exactly that the collections parse and their parameters are valid, and the updated model is that of the raw collections. Nothing outside the chunk's regions is ever written. |
| EntityDecompressor.ReadableHeaders | lib/decompress/decmp.c:1647-1720 | Which entity headers are accepted: five modes, matching raw bit, rounding up to 3, model value up to 16 in the model modes, and sizes that can hold a collection, equal ones in raw mode. |
| UpdateAlone.AlonePart | lib/decompress/decmp.c:2013-2023 | Without a buffer for the data, the part of each collection in the updated model is the collection if it is raw, and otherwise what was there before. |
| UpdateAlone.UpdateNeedsData | lib/decompress/decmp.c:2013-2027 | For a readable chunk in a model mode, the updated model is complete without a buffer for the data, whatever its buffer held, if and only if all collections are raw. |
| ChunkDecompressor.GetNumOfChunks | lib/decompress/decmp.c:1835-1854 | The loop counts the collections that the size fields describe; -1 if they do not add up to the data. |
| ChunkDecompressor.ParseCmpCollection | lib/decompress/decmp.c:1873-1927 | The walk ends at collection n and at its offset in the chunk, and tells whether it is raw, its samples and its part of the data. |
| ChunkDecompressor.ReadCollections | lib/decompress/decmp.c:1998-2029 | The loop succeeds exactly if every collection can be read (without a buffer for the data: is accepted), and leaves the chunk and the updated model, or then the raw collections in it; on failure only their regions have changed. |
| ChunkDecompressor.UnpackDataSize | lib/decompress/decmp.c:1479-1634 | Whatever bits are read as a collection, the result and its updated model have the size that the header announces. |
| CollectionDecompressor.DecompressCollection | lib/decompress/decmp.c:1479-1634 | One collection, raw or coded: success exactly if it can be read, and then header and data at its offset and the updated model beside it; without a buffer for the data, success exactly by the parameter checks, and only a raw collection is stored in the updated model. |
| CollectionDecompressor.DecodeBody | lib/decompress/decmp.c:1530-1634 | Reader and sample loop on the packed bytes: an error exactly for bits that cannot be read; readable ones are stored exactly. |
| Entity.HeaderErrorExact | lib/common/cmp_entity.c:144-187 | The header of a compressed chunk can be stored if and only if size, model value and all Golomb parameters of the chunk type fit; thresholds and original size always do. |
| Entity.SpillFits | lib/common/cmp_entity.c:652-665 | Every threshold that the compressor chooses fits the 24 bits of the header. |
| Entity.HeaderOfChunk | lib/icu_compress/cmp_icu.c:1890-1934 | The header of a compressed chunk: a size of 32 (raw) or 64 more than the data, the size of the chunk, the mode with its raw bit, the model value, and no rounding. |
| Config.ThresholdsFitFields | lib/icu_compress/cmp_icu.c:1948-2073 | For every data type of every chunk type, each field's threshold is the one that `cmp_get_spill` chooses for the width of that field (`Params.ZeroThresholdIsBest`, `Params.MultiThresholdIsLargest`), and is accepted exactly if the Golomb parameter is in range. |
| Config.MaxUsedBitsIsWidth | lib/common/cmp_max_used_bits.h:84-116 | The table of used bits agrees with the widths of the record fields. |
| Config.FieldsOfValid | lib/common/cmp_support.c:581-616 | A configuration that passes the checks has only valid fields, and their widths add up to the sample size. |
| DataTypes.ChunkTypesAreCompressible | lib/icu_compress/cmp_chunk_type.c:35-80 | A subservice belongs to a chunk type if and only if its data type is known and supported by the compressor. |
| Endian.SwapChunkTwice | lib/common/cmp_data_types.c:922-951 | Swapping the byte order of a chunk twice restores every byte, and the header of every collection stays as it is, for any mix of collections. |
| Endian.SwapDataTwice | lib/common/cmp_data_types.c:824-908 | The same for the records of every data type. |
| Endian.RecordsAreSwapped | lib/common/cmp_data_types.c:597-806 | In every record, every field of width w has its w bytes in reverse order: read as big-endian it is what it was as little-endian. |
| Endian.SwapChunkIs | lib/common/cmp_data_types.c:922-951 | A chunk is swapped if and only if its collections add up and hold whole records of known types, and then every field of every record of every collection is swapped and every header is the same. |
| Endian.ImagetteSwapped | lib/common/cmp_data_types.c:607-618 | In a swapped chunk, each imagette sample read as big-endian is the sample of the original chunk. |
| Endian.BeToCpuChunk | lib/common/cmp_data_types.c:922-951 | The loop in place succeeds exactly if the collections add up to the size and hold whole samples; then every number of every record in every collection is in the other byte order and every header as it was; nothing outside is touched either way. |
| Endian.BeToCpuDataType | lib/common/cmp_data_types.c:824-908 | Exactly whole records of a known type are swapped in place, so that each number read as big-endian is what it was as little-endian; otherwise nothing changes. |
| Endian.SwapRecordInPlace | lib/common/cmp_data_types.c:597-806 | The loop over the fields of a record reverses each one, in place. |
| CompressLoop.CompressSamples | lib/icu_compress/cmp_icu.c:500-548 | The stream is that of the samples and the old model, and every field of every record in the buffer of the updated model is the mean of the rounded data and the old model with weights 16 - model_value and model_value, whether or not it is stored over the model; without room only bytes within the limit change. |
| SampleStream.StreamIs | lib/icu_compress/cmp_icu.c:766-851 | The bits of whole records are, record by record and field by field, the code of the field's value under the model's value there, or without a model under the value of the same field in the record before, or 0 for the first record. |
| SampleStream.ImagetteStream | lib/icu_compress/cmp_icu.c:500-548 | The bits of i + 1 imagette samples are those of the first i, followed by the code of sample i under the model's sample i, or else under sample i - 1, or 0. |
| CompressLoop.EncodeRecord | lib/icu_compress/cmp_icu.c:800-835 | The fields of a record are encoded in their order, each with its parameters. |
| CompressLoop.UpdateSample | lib/icu_compress/cmp_icu.c:531-547 | The updated model of a sample is stored in its place (its values: `UpModel.UpFromMeans`), and does not change the part of the model that is still to be read, even in place. |
| DecompressLoop.DecompressSamples | lib/decompress/decmp.c:414-487 | An error exactly if the stream does not hold the records; otherwise exactly its records are stored, the reader stops right behind them and within the stream; the updated model holds the means of the stored records and the old model, also in place; what the stream holds is `SampleStream.StreamIs`. |
| DecompressLoop.DecodeRecord | lib/decompress/decmp.c:713-780 | The fields of a record are decoded in their order; an error exactly if the unread bits do not hold them. |
| Samples.DecFromInverts | lib/decompress/decmp.c:414-487 | The bits of any samples, followed by anything, decode to the rounded samples and end at the written length, although in 1-D differencing the decoder predicts from rounded and the encoder from original samples. |
| Samples.DecFromLossless | lib/decompress/decmp.c:414-487 | Without rounding, the decoded samples are the original ones. |
| UpModel.UpModelExact | lib/common/cmp_cal_up_model.h:87-116 | The updated model is the weighted mean, lies between rounded data and old model, and nothing wraps or is truncated. |
| UpModel.UpFromMeans | lib/common/cmp_cal_up_model.h:87-116 | In the updated model of whole records, every field at its offset is (x * (16 - model_value) + m * model_value) / 16, rounded down, for the rounded value x of the data and the value m of the model there. |
| UpModel.UpModelOfRounded | lib/common/cmp_cal_up_model.h:87-116 | The update from rounded data is the update from the original data. |
| UpModel.UpFromOfRounded | lib/common/cmp_cal_up_model.h:69-84 | The same for whole buffers of samples. |
| ValueEncoder.EncodeValue | lib/icu_compress/cmp_icu.c:416-428 | Values that do not fit their field are an error; all others leave exactly the bits of the format, and fail only for lack of room. |
| ValueEncoder.EncodeValueZero | lib/icu_compress/cmp_icu.c:308-337 | The zero escape symbol and the incremented value, which may wrap, are the bits of the format. |
| ValueEncoder.EncodeValueMulti | lib/icu_compress/cmp_icu.c:356-400 | The escape symbol with the shortest even length that holds the excess, and the excess, are the bits of the format. |
| ValueEncoder.EncodeNormal | lib/icu_compress/cmp_icu.c:279-289 | The code word chosen by the coder is that of the format; only words above 32 bits are an internal error. |
| ValueDecoder.DecodeValue | lib/decompress/decmp.c:311-330 | An error exactly if the unread bits hold no value, whatever they are; otherwise the value is decoded, exactly its bits are consumed, and the reader is within the stream. |
| ValueDecoder.DecodeZero | lib/decompress/decmp.c:206-229 | The checks fire exactly on bits outside the format; a value of the format is recovered, even where the incremented value wrapped. |
| ValueDecoder.DecodeMulti | lib/decompress/decmp.c:241-275 | The checks fire exactly on bits outside the format; a value of the format is recovered from its symbol and its plain bits. |
| ValueDecoder.DecodeCw | lib/decompress/decmp.c:139-169 | Within the register, exactly the code word at the front of the unread bits is decoded and consumed; if more is consumed than the register holds, there is no code word of at most 32 bits. |
| ValueDecoder.CwReads | lib/decompress/decmp.c:89-169 | If the unread bits start with a code word, the register arithmetic of the unary, Rice and Golomb decoders gives its value and its length. |
| ValueDecoder.CwFound | lib/decompress/decmp.c:89-169 | Conversely, whatever the register arithmetic finds within the register is a code word at the front of the unread bits. |
| ValueCode.MappedFrom | lib/decompress/decmp.c:206-275 | The decoders need not check the length of a code word: one of more than 32 bits stands for a value that the threshold checks reject. |
| ValueCode.ReadMappedInverts | lib/decompress/decmp.c:206-275 | Both escape mechanisms are inverted for every mapped value, width 1 to 32 and valid threshold, with any bits behind. |
| ValueCode.ReadMappedExact | lib/decompress/decmp.c:206-275 | For every value that the field can hold, the reader takes bits for it if and only if they start with its code; no other bits pass the checks. |
| ValueCode.EscapeIsShortest | lib/icu_compress/cmp_icu.c:356-400 | A value at or above the threshold is written as the symbol of the least even length that holds the excess, followed by the excess in that length. |
| ValueCode.ReadValueInverts | lib/decompress/decmp.c:311-330 | A value is read back up to its rounding under any prediction with the same rounding. |
| StrictReader.StreamsAreExact | lib/decompress/decmp.c:414-487 | Without rounding and with thresholds within the ranges of their fields, bits are read as given samples and a given rest if and only if they are what the compressor writes for those samples, followed by that rest. |
| StrictReader.ReadValueExact | lib/decompress/decmp.c:311-330 | With a threshold within the range of the field, whatever bits are read as a value are the code of that value. |
| StrictReader.BeyondRange | lib/decompress/decmp.c:206-330 | With any larger threshold there are bits that are read as a value and are not its code. |
| BitReader.BitDecoder.constructor | lib/decompress/read_bitstream.h:131-183 | For buffers of no, 1 to 7, or 8 and more bytes the reader stands at the first bit and its register is filled. |
| BitReader.BitDecoder.Refill | lib/decompress/read_bitstream.h:330-362 | Refilling never moves the position; unfinished means at least 57 unread bits, all-read-in means the end of the stream, and overflow is sticky. |
| BitReader.BitDecoder.RegisterIsRest | lib/decompress/read_bitstream.h:194-225 | What is left in the register is the front of the unread bits, at least 57 of them or all. |
| BitReader.BitDecoder.PeekIsNext | lib/decompress/read_bitstream.h:194-204 | Peeking gives the next bits as a number. |
| BitReader.BitDecoder.PeekLeadingOnes | lib/decompress/read_bitstream.h:215-225 | The count of leading zeros of the inverted register is the number of leading ones of the unread register bits. |
| BitWriter.PutNBits32 | lib/icu_compress/cmp_icu.c:136-192 | Exactly the n bits appear at the offset, over one or two words and whatever was there; all other bits stay; bits that do not fit, or more than 32, are an error that changes nothing at all. |
| BitWriter.PadBitstream | lib/icu_compress/cmp_icu.c:1484-1505 | Zeros up to the next word boundary, never beyond the rounded-down size and never failing behind a stream that fits. |
| Golomb.GolombEncoderCorrect | lib/icu_compress/cmp_icu.c:244-264 | For every m and value, the group-form encoder gives unary quotient, zero and truncated-binary remainder, as long as it has at most 32 bits, and its exact length always. |
| Golomb.RiceEncoderCorrect | lib/icu_compress/cmp_icu.c:210-228 | For powers of two the Rice encoder gives the very same code word. |
| Golomb.GroupForm | lib/icu_compress/cmp_icu.c:244-264 | Member r of group g, on unbounded numbers, is the code word of the value cutoff + g * m + r. |
| Golomb.ReadGolombInverts | lib/decompress/decmp.c:139-169 | Reading a code word followed by any bits gives the value and stops at its end. |
| Golomb.ReadGolombExact | lib/decompress/decmp.c:139-169 | Conversely, whatever is read from any bits is the code word of its value at their front. |
| Golomb.GolombPrefixFree | lib/icu_compress/cmp_icu.c:244-264 | No code word is a prefix of another one. |
| Params.LengthExact | lib/common/cmp_support.c:326-338 | A code word has at most a given number of bits exactly below one computed value. |
| Params.MaxSpillTight | lib/common/cmp_support.c:326-338 | A threshold is within the limit if and only if all symbols up to the largest escape symbol have at most 32 bits; at the limit the largest has exactly 32. |
| Params.ImaMaxSpillTight | lib/common/cmp_support.c:299-313 | The same for the table of the hardware, 16 bits and the eight escape symbols of 16-bit data. |
| Params.GetSpillIsValid | lib/icu_compress/cmp_icu.c:1702-1740 | Which threshold is chosen is in the two rows below; it is accepted by the parameter check if and only if the Golomb parameter is in range. |
| Params.ZeroThresholdIsBest | lib/icu_compress/cmp_icu.c:1702-1721 | In the zero modes the threshold separates exactly the symbols whose code word is at most as long as an escaped value from the longer ones, as far as the limit allows. |
| Params.MultiThresholdIsLargest | lib/icu_compress/cmp_icu.c:1734-1741 | In the multi modes the threshold is the largest that the parameter check accepts, and the largest under which all symbols have at most 32 bits. |
| ZigZag.MapToPosIsInterleave | lib/icu_compress/cmp_icu.c:99-115 | For every width the wrap-around code maps the signed n-bit differences 0, -1, 1, -2, 2 to 0, 1, 2, 3, 4 and so on. |
| ZigZag.MappedIs | lib/icu_compress/cmp_icu.c:99-115 | What is coded for a value and its prediction, in plain numbers: twice a small positive difference, twice a small negative one less 1, and the difference modulo 2^n in between. |
| ZigZag.MapToPosBijective | lib/icu_compress/cmp_icu.c:99-115 | For every width, each number below 2^n is the image of exactly one n-bit difference. |
| ZigZag.ReMapRestores | lib/decompress/decmp.c:287-297 | Unmapping, adding the model back with wrap-around and masking gives the value again. |
| Words.PowOf2Exact | lib/common/cmp_support.c:59-62 | The power-of-two test holds exactly for powers of two and for 0. |
| Words.ILog2Bounds | lib/common/cmp_support.c:39-45 | The logarithm by leading zeros is the exponent of the largest power of two not above the number. |
| Rdcu.CheckRdcuRoundTrip | test/cmp_decmp/test_cmp_decmp.c:719-797 | On buffers: what was compressed like the hardware does comes back as the rounded samples, or unchanged in raw mode, with equal updated models. |
| Rdcu.LossyRoundTrip | lib/icu_compress/cmp_icu.c:2281-2354 | In every coding mode and for rounding by 0 to 3 bits, each sample x at each position comes back as (x >> round) << round, and both sides have the same updated model. |
| Rdcu.CompressLikeRdcu | lib/icu_compress/cmp_icu.c:2281-2354 | Invalid configurations change nothing; otherwise the stream, the updated model, and the information structure with the used parameters, the error bit and both adaptive sizes, which are 0 for parameters that are unset or invalid and after a failed compression. |
| Rdcu.DecompressRdcuData | lib/decompress/decmp.c:2051-2084 | A recorded error or an invalid configuration is a failure that changes nothing; otherwise failure means exactly that the samples cannot be read; a readable stream is stored exactly; nothing outside the samples is written. |
| Rdcu.RoundedSample | lib/common/cmp_cal_up_model.h:39-52 | Rounding a buffer clears the low bits of each of its samples. |
| Rdcu.UpdatedSample | lib/icu_compress/cmp_icu.c:531-547 | Each imagette sample of the updated model is the mean of the rounded sample and the model's sample with weights 16 - model_value and model_value, rounded down. |
| Rdcu.ConfigAccepted | lib/icu_compress/cmp_icu.c:1673-1691 | Which RDCU configurations are accepted: five modes, rounding up to 3, a Golomb parameter from 1 to 65535 with a threshold of at least 2 whose last escape symbol has at most 32 bits, a model value up to 16 and a model where they are used. |
| Witnesses.CapacityOfSizeFails | lib/icu_compress/cmp_icu.c:441-444 | A chunk of 20 zero samples has a dry size of 83 bytes, does not fit a destination of 83 bytes, and fits one of 84. |
| Witnesses.UnusedModelValueFails | lib/icu_compress/cmp_icu.c:1890-1934 | With a model value of 256 in a differencing mode the dry run succeeds and the real run cannot store the header. |
| Witnesses.UpdateIsLost | lib/decompress/decmp.c:2013-2027 | A chunk that is read back with its updated model, and whose update is not complete without a buffer for the data. |
| Witnesses.RawMismatchSucceeds | lib/decompress/decmp.c:1984-1992 | A raw entity that holds a header and no data counts as decompressed although it holds no chunk. |

## Left out

- `programs/`: command line, file formats, parameter guessing.
- `lib/rdcu_compress/`: the control of the hardware (registers, packets, memory synchronisation).
- Entity header bytes: the header is a record with the ranges of its fields; `CompressChunk` returns it instead of writing it to the front of the destination, and leaves those bytes as they are. Timestamps, version, model id and model counter are not modelled.
- Entities other than chunks: imagette entities with and without adaptive parameters in `decompress_cmp_entiy`; the RDCU round trip uses `decompress_rdcu_data` instead.
- Adaptive imagette data types of the RDCU, which are decompressed like imagettes.
- Fast-cadence flux data: the compressor does not support it; only that error is modelled.
- NULL for mandatory arguments, and overlapping buffers, which the code rejects (`check_compression_buffers`); the methods require separate arrays, except for model and updated model.
- Wrap-around of `stream_len` and of the consumed-bits count: the chunk methods need no such requirement because the 24-bit chunk limit excludes it; the inner methods and the RDCU methods require sizes that keep the bit length below 2^32.
- CompressLikeRdcu: requires 64 times the data size to stay below 2^32, a bound on the sizes that the hardware cannot reach.
- DecompressRdcuData: requires samples outside raw mode, since the loop of the code computes samples - 1.
- The configuration structure is a value; the fields that `cmp_collection` sets in it for one call are arguments of the methods.
- Function pointers for coders and escape mechanisms are constructors of datatypes.
- Debug output, and the warning about unread bits at the end of a stream.
- Big-endian processors, on which the byte order functions do nothing.
