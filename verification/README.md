# Column-Engine: a verified model

Column-Engine is a columnar store. This project models its two cores and proves properties of them with Dafny 4.11
(`dafny verify dfyconfig.toml` checks every file).

**The codec stack and the `clmn` container.** Column vectors are encoded by bit packing, delta, run-length and
dictionary steps in the combination a flag word selects, or the one an adaptive chooser finds shortest. The container
writes encoded batches one after the other, patches the metadata offset of each batch back into its first eight bytes,
and ends with a schema and a 40-byte footer; a reader finds everything through those offsets and decodes only the
columns it was asked for. CSV conversion sits beside it.

**The query operators.** Top-k, sort, limit and offset, global and grouped aggregation, and filtering pull batches from
a child one at a time. What they answer is compared with plain definitions over the rows of the whole stream, so that
the way rows were split into batches drops out.

## How the model is built

- Bytes are numbers 0..255, machine words are written out (two's complement casts, 64-bit truncation, arithmetic modulo
  2^w, the 128-bit packing window with its shifts and ORs). Nothing wraps unless the definition says so.
- Imperative code is imperative here: the packer, the delta passes and the two sorts work in place on arrays; the
  writer, the readers, the operators and the aggregation objects are classes with the program's fields. Their methods
  are proved against specification functions, and lemmas say what those functions mean in plain numbers, characters and
  places, without using them: which bit lies where, which word is the difference, which row comes first, what a count or
  an average is, what a result column is called.
- Buffers that come from outside are parsed by functions returning `None` where the program would read out of bounds;
  the methods that model decoders ask for a `Some`.
- The LZ4 library is a parameter: two functions, of which theorems assume what its documentation promises (`Lz4.Sound`,
  a promise that can be kept: `Lz4.SomeLibraryIsSound`).
- A vector lives in memory, so its bytes number fewer than 2^56 (`Values.InMemory`).

| file | what it holds |
|---|---|
| `Words`, `PackedWords`, `Values`, `Images`, `Floats` | machine words, word blocks, typed values, their memory images byte by byte and bit by bit, what floating-point words mean |
| `BitPack`, `Delta`, `Rle`, `Distinct`, `Dict`, `Steps` | the encoding steps, and the layout each writes |
| `Encoding`, `Lz4`, `Codecs`, `FlagWords` | flag combinations, adaptive choice, the LZ4 step, whole-column codecs, what each flag bit does |
| `Tables`, `Layout`, `Clmn`, `ClmnReader`, `ClmnFile` | batches and rows, the file layout, writer, reader, round trip |
| `Source`, `Order`, `Sorting`, `TopK`, `Sort`, `Limit`, `Comparison` | streams, sort keys, the two library sorts, the ordering operators, what coming first means |
| `Aggregation`, `Accumulators`, `Global`, `Answers` | what aggregates mean, the objects that compute them, aggregation of a stream, each answer in terms of the column |
| `Grouping`, `GroupBy`, `GroupedAggregation`, `GroupByOperator`, `GroupTotals`, `Filter`, `Results` | keys and partition, grouping, the operator, conservation, filtering, what delivered rows say |
| `Csv`, `CsvFile` | the CSV automaton, writer, batch reader, round trip |

Some properties one might expect are false of the code. Each is proved with its exact condition:

- a column comes back from its encoding if and only if it survives the steps used (`Codecs.ColumnRoundTrip`). Codes are
  32 bits wide, so a dictionary, unless it is one of floats with NaNs, must not have more than 2^32 entries
  (`Encoding.SurvivesExactly`); and as -0.0 equals 0.0, neither a dictionary nor a run may hold both. So every column of
  at most 2^32 values without both zeros comes back under every flag word (`Codecs.ShortColumnRoundTrip`); a dictionary
  of 2^32 + 1 integers does not (`Codecs.SomeColumnIsLost`), nor does one of the two zeros (`Codecs.SignOfZeroIsLost`);
- run-length encoding writes the fewest runs that make up a column if and only if no run mixes the two zeros and no NaN
  is repeated bit by bit (`Rle.WrittenRunsAreFewest`; `Rle.RepeatedNaN` is an input, and `Floats.SomeNaN` a NaN); other
  than for floats it always does;
- what LZ4 compresses comes back if and only if it has at most 0x7E000000 bytes, since its size is cast to an `int`;
  longer inputs throw or are cut to their size modulo 2^32 (`Lz4.Lz4RoundTrip`; `Lz4.LongInputIsCut` is an input);
- batches written to a file come back, in full or reduced to the requested columns, if and only if these columns
  come back (`ClmnFile.WriteThenRead`); columns that are not requested need not;
- the sort comparator on one column is the strict weak order the library sorts demand if and only if no key is NaN or all
  rows tie (`Order.TiesAgreeExactly`);
- the extreme of a column is a number if and only if its first value is one; a NaN elsewhere is passed over
  (`Aggregation.ExtremeIsNaN`);
- a CSV table comes back if and only if no field has a quote and every field with a newline also has a comma
  (`CsvFile.TableReadBackExactly`); this is narrower than section 2 of RFC 4180, where quotes are doubled;
- limiting, or offsetting, every batch does so to the table if and only if the count is 0, it reaches the number of
  rows, or only one batch has rows (`Limit.LimitIsWholeTable`, `Limit.OffsetIsWholeTable`);
- the grouped result has every group's aggregates if and only if each minimum and maximum is over a string column,
  because result types are asked for before any update: other answers are decoded as strings
  (`GroupByOperator.ReadBackExactly`, `GroupByOperator.ReplyIsGroupTableExactly`; `GroupByOperator.IntegerExtremeIsMisread`
  is an input);
- a second reading of the schema leaves the reader in order if and only if no batch has been read and no columns were
  requested and found before (`ClmnReader.ReaderClmn.ReadSchema`);
- a sum equals its 64-bit result if and only if it fits 64 bits (`Aggregation.ToInt64`); group sums still add up to the
  whole sum modulo 2^64 (`GroupTotals.SumsAddUp`).

Floating-point columns hold IEEE 754 words. Order, equality, extremes and the integer parts that sums add up go by the
numbers the words stand for (`Floats`): the two zeros are equal, and a NaN equals nothing. So runs, dictionaries and
distinct counts merge the zeros and give every NaN a place of its own, which still comes back as it was.

## Model

| member | source | states |
|---|---|---|
| `BitPack.BitWidthIsLeast` | src/compression/encoding_bitpack.cpp:3-12 | a positive width holds a number exactly when it is at least the computed width |
| `BitPack.BitsRequired` | src/compression/encoding_bitpack.cpp:3-12 | the loop finds that least width, between 1 and 64 |
| `BitPack.PushBits` | src/compression/encoding_bitpack.h:17-18 | OR-ing a shifted value into the 128-bit window is addition: nothing overflows or overlaps |
| `BitPack.PopBits` | src/compression/encoding_bitpack.h:45-47 | masking and shifting split the window into its lowest digit and the rest |
| `BitPack.DrainWindow` | src/compression/encoding_bitpack.h:19-24 | with at most 71 bits buffered, whole bytes leave the window and 8*position + buffered bits stays the same |
| `BitPack.FillWindow` | src/compression/encoding_bitpack.h:40-44 | bytes enter until a value is complete; at most 71 bits are buffered and every index is in range |
| `BitPack.BitPackUnsigned` | src/compression/encoding_bitpack.h:8-30 | for every width 1..64 the output is the packed form of the vector |
| `BitPack.BitUnpackUnsigned` | src/compression/encoding_bitpack.h:32-50 | for every width 1..64 the output is the digits of the packed number, cast to the element type |
| `BitPack.PackedMeaning` | src/compression/encoding_bitpack.h:8-30 | the bytes read little-endian are the sum of input[i] * 2^(i*bits), and their number is ceil(n*bits/8) |
| `BitPack.UnpackPack` | src/compression/encoding_bitpack.h:32-50 | unpacking packed values restores them whatever bytes follow |
| `BitPack.DigitOfSum` | src/compression/encoding_bitpack.h:39-48 | each digit of the packed number is the value packed there, untouched by the digits above |
| `PackedWords.WriteWords` | src/compression/encoding_rle.h:29-43 | the width byte and packed words, or the raw words, are appended |
| `PackedWords.ReadWords` | src/compression/encoding_rle.h:52-63 | words are read back and the offset advances past them exactly |
| `PackedWords.ParseWordsBytes` | src/compression/encoding_dict.h:50-62 | a word block is recognised whatever follows it, packed or not |
| `Images.ByteAt` | src/compression/encoding_base.h:26-30 | byte i of a stored number is its i-th digit in base 256, the least significant first |
| `Images.TypeRanges` | src/kernel/types.h:11-22 | the numbers a column of each type holds, as literal bounds |
| `Images.WordImage` | src/compression/encoding_base.h:26-30 | a number is stored in as many bytes as its type has, as its two's complement digits |
| `Images.TextImage` | src/compression/encoding_base.cpp:17-25 | a string is stored as eight bytes of length and its characters |
| `Images.RawWordAt` | src/compression/encoding_rle.h:40-43 | unpacked word i of a vector lies at i times the word's width |
| `Images.WidthByteIsLeast` | src/compression/encoding_rle.h:31-39 | the width byte is the least width that holds every number |
| `Images.PackedBit` | src/compression/encoding_bitpack.h:8-30 | bit q of packed number i is bit i * bits + q of the output, counted from the lowest bit of the first byte |
| `Images.PaddingBit` | src/compression/encoding_bitpack.h:26-29 | the bits behind the last number are 0 |
| `Images.UnpackedBit` | src/compression/encoding_bitpack.h:32-50 | unpacking takes exactly those bits, from whatever bytes |
| `Values.ParseElementBytes` | src/execution/group_by_aggregation_operator.cpp:11-70 | the memory images of one type's values are prefix-free |
| `Values.ParseValuesBytes` | src/compression/encoding_base.cpp:17-38 | a block of values is read back whatever follows it, and its length found |
| `Values.ElementValueSize` | src/compression/encoding_base.cpp:3-6 | the size of a value is the length of its image |
| `Values.EstimateRaw` | src/compression/encoding_base.cpp:8-15 | the estimate is the exact length of the raw encoding |
| `Values.WriteValues` | src/compression/encoding_base.cpp:17-25 | the images of the values are appended in order |
| `Values.ReadValues` | src/compression/encoding_base.cpp:27-38 | the values at an offset are read and the offset advanced past them |
| `Floats.UnitsGrow` | src/kernel/column_utils.cpp:230-253 | greater magnitudes stand for greater numbers, across exponent steps and subnormals |
| `Floats.NumbersTellWordsApart` | src/kernel/column_utils.cpp:230-253 | two words stand for one number exactly when they are equal or both zero |
| `Floats.OneIsOne` | src/execution/aggregation_functions.cpp:27-40 | the word with the middle exponent and no fraction converts to 1 |
| `Floats.NaNWords` | src/compression/encoding_rle.h:14-23 | which words are NaN, as literal bounds |
| `Floats.ZeroWords` | src/compression/encoding_rle.h:14-23 | which words are zero |
| `Floats.EqualIs` | src/compression/encoding_rle.h:14-23 | elements are equal if and only if they are one word or both zero, and neither is NaN |
| `Floats.IntegerPartIs` | src/execution/aggregation_functions.cpp:27-40 | the integer part of a float by exponent and fraction, cut toward zero |
| `Floats.NumbersInOrder` | src/kernel/column_utils.cpp:230-253 | the order of floats read off their words: negative ones reversed, the zeros equal |
| `Floats.LabelsAreEquality` | src/compression/encoding_rle.h:14-23 | elements in different places are equal exactly when they have one label |
| `Floats.OneWordUnlessZero` | src/compression/encoding_dict.h:16-28 | equal elements are one word unless they are zeros of different sign |
| `Delta.SubThenAdd` | src/compression/encoding_delta.h:8-24 | wrapping subtraction and addition undo each other in both orders |
| `Delta.MinusIs` | src/compression/encoding_delta.h:8-15 | wrapping subtraction is a - b modulo 2^(8w), and a - b if and only if that fits |
| `Delta.PlusIs` | src/compression/encoding_delta.h:17-24 | wrapping addition is a + b modulo 2^(8w), and a + b if and only if that fits |
| `Delta.DifferencesAre` | src/compression/encoding_delta.h:8-15 | element i of the differences is v[i] - v[i - 1] modulo 2^(8w), exact where it fits |
| `Delta.RunningSumsAre` | src/compression/encoding_delta.h:17-24 | element i of the running sums is the sum of the first i + 1 elements modulo 2^(8w), exact where it fits |
| `Delta.SumsOfDifferences` | src/compression/encoding_delta.h:8-24 | running sums of the differences restore the vector modulo 2^w |
| `Delta.DifferencesOfSums` | src/compression/encoding_delta.h:8-24 | differences of the running sums restore the vector modulo 2^w |
| `Delta.DoDelta` | src/compression/encoding_delta.h:8-15 | the backward pass in place leaves the differences modulo 2^(8w) of neighbours, for a non-empty vector |
| `Delta.UndoDelta` | src/compression/encoding_delta.h:17-24 | the forward pass in place leaves the running sums modulo 2^(8w) |
| `Delta.EncodeDelta` | src/compression/encoding_delta.h:26-55 | the first element, the differences and their width are written as specified |
| `Delta.DecodeDelta` | src/compression/encoding_delta.h:57-78 | the decoder returns what the parse says and stops where it does |
| `Delta.DeltaRoundTrip` | src/compression/encoding_delta.h:26-78 | delta restores every non-empty vector inside any surroundings and consumes exactly its encoding |
| `Steps.RawDeltaLayout` | src/compression/encoding_delta.h:49-54 | unpacked, difference i lies at i times the element's width |
| `Steps.PackedDeltaLayout` | src/compression/encoding_delta.h:30-48 | packed, the first element, one width byte, and the other differences at that width |
| `Steps.LaterDifferenceIs` | src/compression/encoding_delta.h:32-44 | what is packed is v[i + 1] - v[i] modulo 2^(8w) |
| `Rle.WrittenRunsAreMaximal` | src/compression/encoding_rle.h:14-23 | the runs written are positive, cover the column, and neighbouring run values are not equal |
| `Steps.RunIs` | src/compression/encoding_rle.h:14-23 | run i begins where the runs before it end, is headed by the element there and holds its equals |
| `Rle.ExpandHeads` | src/compression/encoding_rle.h:64-71 | expanding the runs restores the vector if and only if equal neighbours are the same word |
| `Rle.WrittenRunsAreFewest` | src/compression/encoding_rle.h:14-23 | the runs written are the fewest that make up the column if and only if no run mixes the two zeros and no NaN is repeated; other than for floats, always |
| `Rle.RepeatedNaN` | src/compression/encoding_rle.h:14-23 | for example, a NaN and the same once more are two runs where one would do |
| `Rle.RunsCompared` | src/compression/encoding_rle.h:14-23 | the encoder writes at least as many runs as the column has runs of one word, and no more exactly when equal words are always found equal |
| `Rle.SameRuns` | src/compression/encoding_rle.h:14-23 | where equality is equality of words, the runs written are the runs of words |
| `Rle.SteadyExactly` | src/compression/encoding_rle.h:14-23 | equal neighbours are the same word if and only if no run mixes the two zeros; other than for floats, always |
| `Rle.EncodeRle` | src/compression/encoding_rle.h:9-45 | the loops write the maximal runs under the type's own `==`, values first, then counts |
| `Steps.RleLayout` | src/compression/encoding_rle.h:24-44 | eight bytes of run count, then the run values, then the counts, packed at their least width if asked |
| `Rle.DecodeRle` | src/compression/encoding_rle.h:47-72 | the runs at an offset are expanded and the offset advanced past them |
| `Rle.RleRoundTrip` | src/compression/encoding_rle.h:9-72 | run lengths restore the vector inside any surroundings, ending exactly at their encoding, if and only if no run mixes the two zeros |
| `Rle.EstimateRle` | src/compression/encoding_rle.h:74-101 | both estimates are the exact encoded lengths |
| `Distinct.DistinctFacts` | src/compression/encoding_dict.h:12-28 | first occurrences are distinct, and are the elements that occur |
| `Dict.EntryIsFirst` | src/compression/encoding_dict.h:16-28 | entry p is the first of the elements equal to it, so the zero met first stands for both, and the entries before it are the dictionary of the elements before it |
| `Dict.DictionaryOfWords` | src/compression/encoding_dict.h:12-28 | other than for floats the dictionary is the distinct elements in first-occurrence order |
| `Dict.BuildDictionary` | src/compression/encoding_dict.h:12-28 | one lookup per element, under the type's own `==`, leaves the dictionary in first-occurrence order and each element's 32-bit code |
| `Dict.CodeBitsIsLeast` | src/compression/encoding_dict.h:32-34 | the code width is the least that tells all entries apart |
| `Dict.LookupRestores` | src/compression/encoding_dict.h:62-66 | looking up all codes restores the vector if and only if every place survives its cast and equal elements are the same word |
| `Dict.TooManyEntries` | src/compression/encoding_dict.h:16-28 | past 2^32 entries the first surplus value gets code 0 and comes back as entry 0 |
| `Dict.EntriesDiffer` | src/compression/encoding_dict.h:16-28 | other than for floats no two entries are the same |
| `Dict.PlacesSurviveExactly` | src/compression/encoding_dict.h:16-28 | up to 2^32 entries every place survives; other than for floats, only then |
| `Dict.OneWordExactly` | src/compression/encoding_dict.h:16-28 | equal elements are the same word if and only if the column has not both zeros; other than for floats, always |
| `Dict.EncodeDict` | src/compression/encoding_dict.h:10-42 | entries and codes are written as specified |
| `Steps.DictLayout` | src/compression/encoding_dict.h:29-42 | eight bytes of entry count, then the entries, then four bytes a code, or a width byte and the codes packed |
| `Dict.DecodeDict` | src/compression/encoding_dict.h:44-67 | entries and codes at an offset are looked up and the offset advanced |
| `Dict.DictRoundTrip` | src/compression/encoding_dict.h:10-67 | the dictionary restores the vector inside any surroundings if and only if every place survives and the column has not both zeros; other than for floats, if and only if there are at most 2^32 entries |
| `Dict.EstimateDict` | src/compression/encoding_dict.h:69-90 | both estimates are the exact encoded lengths |
| `Encoding.PlainRoundTrip` | src/compression/encoding.h:34-179 | every combination of dictionary, runs, delta and packing is undone if and only if the column survives its steps |
| `Encoding.AlwaysDecodes` | src/compression/encoding.h:34-179 | decoding what was encoded stays in bounds and gives a column of the same type and length, surviving or not |
| `Encoding.SurvivesExactly` | src/compression/encoding.h:34-179 | other than for floats a column survives if and only if its dictionary, if it has one, has at most 2^32 entries |
| `Encoding.SomeCandidateMatches` | src/compression/encoding.h:40-76 | for every flag word some candidate tried has an encoding of the same length |
| `Encoding.BestIsLeast` | src/compression/encoding.h:40-76 | the candidate chosen is no longer than any combination, tried or not |
| `Codecs.ChooseBestFlags` | src/compression/encoding.cpp:49-54 | one of the two candidates, no longer than either, the earlier one on a tie |
| `Codecs.ConsiderCandidate` | src/compression/encoding.h:40-76 | an estimate that chooses as the real length does keeps the running best that of all candidates so far |
| `Codecs.EstimateIntegerBitpack` | src/compression/encoding_bitpack.h:52-83 | exact, except one byte too many for delta of a single element |
| `Codecs.PackedDeltaEstimate` | src/compression/encoding_bitpack.h:60-74 | that surplus byte never changes the choice |
| `Codecs.AdaptiveIntegerFlags` | src/compression/encoding.h:40-76 | the estimators lead to the candidate of least real length |
| `Codecs.AdaptiveTableFlags` | src/compression/encoding.h:185-208 | the same for float and string vectors |
| `Codecs.AdaptiveIsOptimal` | src/compression/encoding.h:40-134 | adaptive output is 8 bytes plus the least length over all flag words |
| `FlagWords.IntegerSteps` | src/compression/encoding.h:78-134 | which of the bits 0 to 3 of a flag word leads to which encoding of integers |
| `FlagWords.FloatSteps` | src/compression/encoding.h:181-227 | bits 7 to 9 for floats: the dictionary before runs |
| `FlagWords.StringSteps` | src/compression/encoding.cpp:56-103 | bits 4 to 6 for strings: runs before the dictionary |
| `FlagWords.AdaptiveSteps` | src/compression/encoding.h:37-76 | bit 11 writes the flags chosen in eight bytes, and then what these alone would give |
| `FlagWords.FirstShortestIsTaken` | src/compression/encoding.h:60-74 | of the raw encoding and the flag words tried, in their order, the first that is shortest is taken |
| `FlagWords.Lz4Steps` | src/compression/encoding.cpp:138-204 | bit 10 puts the LZ4 step on top |
| `Codecs.ColumnRoundTrip` | src/compression/encoding.cpp:138-260 | decoding restores the column for every type and flag word if and only if it survives the steps used |
| `Codecs.ShortColumnRoundTrip` | src/compression/encoding.cpp:138-260 | a column of at most 2^32 values without both zeros is restored for every type and flag word, adaptive or not |
| `Codecs.LongColumnIsLost` | src/compression/encoding_dict.h:16-28 | 0, 1, ..., 2^32 as a dictionary of 64-bit integers is not restored |
| `Codecs.SomeColumnIsLost` | src/compression/encoding_dict.h:16-28 | such an encodable column exists |
| `Codecs.SignOfZeroIsLost` | src/compression/encoding_dict.h:16-28 | 0.0 and -0.0 as a dictionary of floats are not restored |
| `Codecs.WordsHaveOneZero` | src/compression/encoding.cpp:138-260 | other than for floats a column never has both zeros |
| `Lz4.Lz4Compress` | src/compression/encoding_lz4.cpp:3-20 | two 32-bit sizes and the block of as many bytes as the truncated size says, or an exception |
| `Lz4.Lz4Decompress` | src/compression/encoding_lz4.cpp:22-38 | the block between those sizes is decompressed, or an exception where it does not fill the buffer |
| `Lz4.CompressedLayout` | src/compression/encoding_lz4.cpp:3-20 | four bytes of input size modulo 2^32, four bytes of block size, then the block |
| `Lz4.CompressedComesBack` | src/compression/encoding_lz4.cpp:3-38 | compression throws exactly when the truncated size is out of range; otherwise that many first bytes come back |
| `Lz4.Lz4RoundTrip` | src/compression/encoding_lz4.cpp:3-38 | an input comes back whole if and only if it is not longer than the library takes |
| `Lz4.LongInputIsCut` | src/compression/encoding_lz4.cpp:3-8 | for example, of 4 GiB and five bytes only five come back, without an exception |
| `Codecs.StoredRoundTrip` | src/compression/encoding.cpp:138-260 | with LZ4 on top, columns of at most the library's input size are stored without exception, and come back if and only if they survive the other steps |
| `Codecs.EncodeIntegerVector` | src/compression/encoding.h:34-134 | the encoder's branches produce the specified bytes, flags first in adaptive mode |
| `Codecs.DecodeIntegerVector` | src/compression/encoding.h:136-179 | the decoder's branches return what the parse says |
| `Codecs.EncodeFloatVector` | src/compression/encoding.h:181-227 | the same for floats |
| `Codecs.DecodeFloatVector` | src/compression/encoding.h:229-252 | the same for floats |
| `Codecs.EncodeStringVector` | src/compression/encoding.cpp:56-103 | the same for strings |
| `Codecs.DecodeStringVector` | src/compression/encoding.cpp:105-136 | the same for strings |
| `Codecs.EncodeColumn` | src/compression/encoding.cpp:138-204 | dispatch by type, then LZ4 where its flag is set; 128-bit columns and refused inputs throw |
| `Codecs.DecodeColumn` | src/compression/encoding.cpp:206-260 | LZ4 undone where its flag is set, then dispatch by type; 128-bit columns and damaged blocks throw |
| `Tables.FindColumn` | src/kernel/schema.cpp:15-22 | the first column of that name, or the number of columns |
| `Tables.CopyRowsTyped` | src/kernel/column_utils.cpp:28-114 | the elements at the given places, in that order |
| `Tables.CopyBatchRows` | src/execution/filter_operator.cpp:22-28 | copying places column by column picks those rows |
| `Tables.MergedRows` | src/kernel/column_utils.cpp:375-484 | concatenating columns concatenates rows |
| `Tables.MergeBatchesByRows` | src/kernel/column_utils.cpp:375-484 | the merged batch has the rows of all batches in order; null for none |
| `Tables.RowsDetermineBatch` | src/kernel/batch.h:16-30 | a batch is determined by its schema and rows |
| `Layout.BatchSections` | src/convertion/reader_writer_clmn.cpp:131-156 | a batch holds its metadata offset, its columns, its row count and its column offsets at the places they name |
| `Layout.ColumnFound` | src/convertion/reader_writer_clmn.cpp:92-107 | the stored column offset leads to the start of that column |
| `Layout.BatchFoundIn` | src/convertion/reader_writer_clmn.cpp:131-156 | batches lie end to end from the start of the file |
| `Layout.FileSections` | src/convertion/reader_writer_clmn.cpp:158-186 | the footer is found from the end and the schema through its stored offset |
| `Layout.TypeCodes` | src/convertion/reader_writer_clmn.cpp:158-173 | the type byte is the type's place in the declaration of the enumeration |
| `Clmn.BackPatched` | src/convertion/reader_writer_clmn.cpp:137-155 | overwriting the placeholder leaves exactly the batch's bytes, with everything before them untouched |
| `Clmn.WriterClmn.constructor` | src/convertion/reader_writer_clmn.cpp:114-126 | an empty file with no section, for every flag word |
| `Clmn.WriterClmn.PlaceBatch` | src/convertion/reader_writer_clmn.cpp:137-155 | columns, metadata and back-patch append one batch and leave the cursor at the end |
| `Clmn.WriterClmn.WriteBatch` | src/convertion/reader_writer_clmn.cpp:131-156 | a batch section is added and the counters grow; after the schema it throws and changes nothing |
| `Clmn.WriterClmn.WriteSchema` | src/convertion/reader_writer_clmn.cpp:158-173 | the schema section is added once; a second one throws and changes nothing |
| `Clmn.WriterClmn.WriteFooter` | src/convertion/reader_writer_clmn.cpp:175-186 | the footer has the counters and the distance back to the schema; without a schema it throws |
| `ClmnReader.ReaderClmn.constructor` | src/convertion/reader_writer_clmn.cpp:19-42 | the footer's five numbers are those written |
| `ClmnReader.ReaderClmn.ReadSchema` | src/convertion/reader_writer_clmn.cpp:44-75 | the written schema is read, the found columns are appended to the selection and the cursor goes to the first batch, whenever it is called; the reader is then in order if and only if no batch was read and nothing was selected by request |
| `ClmnReader.SelectColumns` | src/convertion/reader_writer_clmn.cpp:60-71 | the requested names that exist, in requested order, behind what was selected before |
| `ClmnReader.SelectedNames` | src/convertion/reader_writer_clmn.cpp:60-71 | the selected names are the requested ones with the unknown dropped |
| `ClmnReader.ExistingConcat` | src/convertion/reader_writer_clmn.cpp:60-71 | names are looked up one by one, in the order of the request |
| `ClmnReader.SelectedAreFirst` | src/convertion/reader_writer_clmn.cpp:60-71 | a name stands for the first column that has it |
| `ClmnReader.ReaderClmn.GetSchema` | src/convertion/reader_writer_clmn.cpp:77-82 | the selected schema, or an exception before it is read |
| `ClmnReader.ReaderClmn.ReadBatchAt` | src/convertion/reader_writer_clmn.cpp:92-111 | through the offsets, the selected columns are decoded, whatever the others hold, and the cursor ends on the next batch |
| `ClmnReader.ReaderClmn.ReadBatch` | src/convertion/reader_writer_clmn.cpp:84-112 | batch after batch, each as decoding its selected columns gives it; null at the end; an exception before the schema |
| `ClmnReader.ProjectAllIsIdentity` | src/convertion/reader_writer_clmn.cpp:55-58 | without a request the projection is the whole batch |
| `ClmnReader.ProjectIs` | src/convertion/reader_writer_clmn.cpp:101-111 | column j of a projection is the j-th selected column, with its name and type |
| `ClmnReader.DeliveredExactly` | src/convertion/reader_writer_clmn.cpp:101-111 | what is read is the projection of what was written if and only if the selected columns come back |
| `ClmnReader.RestorableExactly` | src/convertion/reader_writer_clmn.cpp:92-107 | a column LZ4 need not cut is read without exception and comes back if and only if it survives its encoding |
| `ClmnReader.ShortBatchRestorable` | src/convertion/reader_writer_clmn.cpp:92-111 | batches of at most 2^32 rows without both zeros in a selected column come back under every flag word |
| `ClmnFile.WriteFile` | src/convertion/from_csv_to_clmn.cpp:3-13 | batches, then schema, then footer produce the specified file |
| `ClmnFile.ReadFile` | src/execution/scan_operator.cpp:3-10 | reading until null returns, for every batch, what decoding its requested columns gives |
| `ClmnFile.WriteThenRead` | src/convertion/reader_writer_clmn.cpp:84-186 | writing any list of same-schema batches and reading back gives the same schema, and the same batches or their exact projection if and only if the requested columns come back |
| `Source.Drain` | src/execution/sort_operator.cpp:16-19 | pulling until null collects every batch |
| `Order.BytesOrdered` | src/kernel/column_utils.cpp:290-301 | string comparison is a total order whose ties are equal strings |
| `Order.KeysOrdered` | src/execution/top_k_operator.cpp:14-29 | the lexicographic comparison, either direction, is a total order on keys |
| `Order.BeforeIsOrder` | src/execution/top_k_operator.cpp:14-29 | on rows it is a strict weak order whose ties are equal keys |
| `Order.CompareAtMeansBefore` | src/execution/top_k_operator.cpp:14-29 | the comparator on row numbers compares the rows column by column and, where no key is NaN, by their keys, floating-point ones as numbers |
| `Order.TiesAgreeExactly` | src/execution/top_k_operator.cpp:14-29 | on one column, rows that tie with a third tie with each other if and only if no key is NaN or all rows tie |
| `Comparison.WordsInOrder` | src/kernel/column_utils.cpp:194-229 | integers compare as numbers |
| `Comparison.StringsInOrder` | src/kernel/column_utils.cpp:290-301 | a string is smaller where, behind a common front, it ends or has the smaller byte |
| `Comparison.TextsInOrder` | src/kernel/column_utils.cpp:290-301 | so do string elements, in both directions |
| `Comparison.FloatsInOrder` | src/kernel/column_utils.cpp:230-253 | floats compare as numbers, read off their words; NaN is before and behind nothing |
| `Comparison.BeforeIs` | src/execution/top_k_operator.cpp:14-29 | a row comes before another if and only if the first sort column in which they differ is smaller, or greater when descending |
| `Sorting.PartialSort` | src/execution/top_k_operator.cpp:13-30 | a permutation whose first places are sorted and none of the others is before them; tie order is left open |
| `Sorting.StableSort` | src/execution/sort_operator.cpp:41-49 | a sorted permutation, ties by increasing row number |
| `Sorting.MapPermutes` | src/execution/top_k_operator.cpp:31-35 | permuted row numbers pick permuted rows |
| `TopK.TopKFromBatch` | src/execution/top_k_operator.cpp:3-37 | min(k, n) rows in order, and no omitted row is before a kept one |
| `TopK.TopKOfTops` | src/execution/top_k_operator.cpp:68-72 | the top-k of two top-ks is the top-k of all their rows |
| `TopK.FindSortKeys` | src/execution/top_k_operator.cpp:58-65 | the places and types of the sort columns that exist, unknown names dropped |
| `TopK.KeepBest` | src/execution/top_k_operator.cpp:69-71 | one more batch keeps the running batch a top-k of everything seen |
| `TopK.TopKOperator.Next` | src/execution/top_k_operator.cpp:47-74 | for every split of the rows the answer is a top-k of the whole table, once |
| `Comparison.TopKIs` | src/execution/top_k_operator.cpp:47-74 | no row left out, and no later row, comes first in that sense |
| `Comparison.TopKOfIntegers` | src/execution/top_k_operator.cpp:47-74 | by an integer column the kept numbers ascend and none exceeds one left out; descending, the other way round |
| `Comparison.SortKeysConcat` | src/execution/top_k_operator.cpp:58-65 | sort columns take effect in the order of their names |
| `Sort.OneSortKey` | src/execution/top_k_operator.cpp:58-65 | a name is the first column that has it, or is dropped |
| `Sort.LeastKeysAgree` | src/execution/top_k_operator.cpp:67-73 | the least keys in order are unique even where the rows are not |
| `Sort.TopKKeysUnique` | src/execution/top_k_operator.cpp:67-73 | any two top-ks of one table have the same key sequence |
| `Sort.TopKKeysAreFirst` | src/execution/top_k_operator.cpp:67-73 | that sequence is the first k keys of every sorted permutation of the table |
| `Sort.StableSortUnique` | src/execution/sort_operator.cpp:39-49 | a table has one stable sort |
| `Sort.StableSortIsSorted` | src/execution/sort_operator.cpp:39-57 | the stable sort is a sorted permutation |
| `Sort.SortBatch` | src/execution/sort_operator.cpp:36-57 | the sorted row numbers pick the stable sort of the batch |
| `Sort.SortOperator.Next` | src/execution/sort_operator.cpp:10-58 | the stable sort of the whole table, or the merged table for an unknown column, once |
| `Comparison.StableSortIs` | src/execution/sort_operator.cpp:39-57 | no row comes before one ahead of it in that sense, and rows neither of which comes first stay in their order |
| `Comparison.SortOfIntegers` | src/execution/sort_operator.cpp:39-57 | by an integer column the numbers ascend, or descend, and equal ones stay in their order |
| `Comparison.SortedIntegers` | src/execution/sort_operator.cpp:39-49 | rows are sorted by an integer column if and only if its numbers do not decrease, or do not increase when descending |
| `Limit.LimitOperator.Next` | src/execution/limit_operator.cpp:8-26 | the first rows of one batch |
| `Limit.OffsetOperator.Next` | src/execution/limit_operator.cpp:33-53 | the rows of one batch from the offset on |
| `Limit.LimitIsWholeTable` | src/execution/limit_operator.cpp:8-26 | limiting every batch limits the table if and only if k is 0, nothing is cut, or one batch has rows |
| `Limit.OffsetIsWholeTable` | src/execution/limit_operator.cpp:33-53 | the same condition for dropping the first k rows |
| `Limit.LimitAll` | src/execution/limit_operator.cpp:8-26 | draining the operator gives the rows limited batch by batch |
| `Limit.OffsetAll` | src/execution/limit_operator.cpp:33-53 | draining the operator gives the rows dropped batch by batch |
| `Limit.OffsetOverTopK` | src/execution/limit_operator.cpp:33-53 | offset m over top-(k+m) has the keys m..m+k of every sorted permutation, for every split |
| `Limit.LimitOverSort` | src/execution/limit_operator.cpp:8-26 | limit k over sort is a top-k and a prefix of the stable sort |
| `Aggregation.OffsetSumIsLinear` | src/execution/aggregation_functions.cpp:257-266 | summing value + offset is the sum plus offset times the count |
| `Aggregation.OffsetSumConcat` | src/execution/aggregation_functions.cpp:226-232 | sums over two parts add up to the sum over both |
| `Aggregation.NeverOverflows` | src/execution/aggregation_functions.cpp:226-298 | fewer than 2^63 values keep the accumulator within 128 bits, with any 64-bit offset |
| `Aggregation.NumbersAddable` | src/execution/aggregation_functions.cpp:257-298 | 64-bit numbers can be added in any portions without overflow, with any 64-bit offset |
| `Aggregation.AverageFits` | src/execution/aggregation_functions.cpp:300-307 | the truncated quotient of 64-bit numbers always fits 64 bits |
| `Aggregation.QuotientRoundsTowardZero` | src/execution/aggregation_functions.cpp:302-304 | the quotient is the sum divided toward zero |
| `Aggregation.ToInt64` | src/execution/aggregation_functions.cpp:234-238 | the cast keeps the number if and only if it fits 64 bits |
| `Aggregation.DistinctCount` | src/execution/aggregation_functions.h:41-56 | the size of a set of values is the number of distinct values inserted |
| `Aggregation.DistinctNumberIs` | src/execution/aggregation_functions.h:41-56 | the count is the number of distinct values, floats compared as numbers, and one for every NaN |
| `Aggregation.ExtremeIsBest` | src/execution/aggregation_functions.h:170-181 | the running extreme is one of the values and none is better |
| `Aggregation.ExtremeIsFirst` | src/execution/aggregation_functions.h:170-181 | of equal extremes the first is kept |
| `Aggregation.AnswersAreExtremes` | src/execution/aggregation_functions.h:170-190 | minimum and maximum are values of the column that no value compares below, or above, and numbers unless the first value is NaN |
| `Aggregation.ExtremeIsNaN` | src/execution/aggregation_functions.h:170-181 | the running extreme is NaN if and only if the first value was |
| `Aggregation.IntegersAreModest` | src/execution/aggregation_functions.cpp:3-66 | every integer column holds 64-bit numbers |
| `Aggregation.DecimalIs` | src/execution/aggregation_functions.cpp:278-280 | the offset in a name is its decimal digits without leading zeros, behind a minus sign if negative |
| `Accumulators.ComputeColumnSum` | src/execution/aggregation_functions.cpp:3-66 | the sum of a column's integer parts, whenever each of them and each partial sum is an __int128; strings throw |
| `Accumulators.AggregationFunction.Update` | src/execution/aggregation_functions.cpp:226-396 | after any updates the fields are those of all values seen together; exceptions change nothing |
| `Accumulators.AggregationFunction.Compete` | src/execution/aggregation_functions.h:243-250 | the loop keeps the first best of all values seen |
| `Accumulators.AggregationFunction.AddToSum` | src/execution/aggregation_functions.cpp:257-298 | the sum, offset sum or average fields grow by the column without overflow |
| `Accumulators.AggregationFunction.AppendResultBytes` | src/execution/aggregation_functions.cpp:234-307 | the image of the answer for everything seen is appended |
| `Accumulators.AggregationFunction.ResultHasType` | src/execution/aggregation_functions.cpp:309-311 | the answer has the type the object reports |
| `Accumulators.UpdateAll` | src/execution/global_aggregation_operator.cpp:18-20 | every aggregate is updated in order until the first exception |
| `Global.MakeColumnFromBytes` | src/kernel/column_utils.cpp:307-373 | the column holds the values whose images the buffer holds |
| `Global.FedIsMerged` | src/execution/global_aggregation_operator.cpp:16-21 | feeding batches one by one is feeding their concatenation |
| `Global.ModestStreamInScope` | src/execution/global_aggregation_operator.cpp:16-21 | no update of a stream of 64-bit numbers overflows, however it is split |
| `Global.GlobalAggregationOperator.Next` | src/execution/global_aggregation_operator.cpp:9-39 | one row with every aggregate of the concatenated batches; the first exception; null for no batch |
| `Answers.VerdictIs` | src/execution/aggregation_functions.cpp:226-297 | an update throws exactly for a name no column has, and a sum or average for a string column |
| `Answers.AnswerTypeIs` | src/execution/aggregation_functions.cpp:408-413 | minimum and maximum have the column's type, everything else is a 64-bit integer |
| `Answers.DistinctAnswer` | src/execution/aggregation_functions.h:41-56 | a distinct count is the size of the set of the column's values, other than for floats |
| `Answers.DistinctFloatAnswer` | src/execution/aggregation_functions.h:41-56 | for floats it is the size of the set of its numbers, and one for every NaN |
| `Answers.SumAnswer` | src/execution/aggregation_functions.cpp:226-238 | a sum is the total of the column modulo 2^64, as a signed 64-bit number |
| `Answers.OffsetSumAnswer` | src/execution/aggregation_functions.cpp:257-272 | a sum with offset is the total of element plus offset, likewise |
| `Answers.AverageAnswer` | src/execution/aggregation_functions.cpp:289-307 | an average is the total divided by the row count toward zero; 0 without rows |
| `Answers.MinimumAnswer` | src/execution/aggregation_functions.h:170-190 | a minimum is the first of the least elements; a NaN counts only in first place; without rows it is 0 or the empty string |
| `Answers.MaximumAnswer` | src/execution/aggregation_functions.h:225-260 | a maximum is the first of the greatest, likewise |
| `Results.AnswerRowNamed` | src/execution/global_aggregation_operator.cpp:22-39 | the one row has each answer, its type, and the name spelled out |
| `Results.DistinctDelivered` | src/execution/global_aggregation_operator.cpp:22-39 | the distinct count delivered is the size of the set of values of all batches together |
| `Grouping.KeysArePrefixFree` | src/execution/group_by_aggregation_operator.cpp:11-70 | two keys that continue to equal byte strings are equal, and so are the continuations |
| `Grouping.KeyIsInjective` | src/execution/group_by_aggregation_operator.cpp:138-142 | two rows have the same key if and only if all group columns are equal |
| `Grouping.MatchingIs` | src/execution/group_by_aggregation_operator.cpp:153-154 | a group's list has exactly its rows, ascending |
| `Grouping.GroupsPartition` | src/execution/group_by_aggregation_operator.cpp:138-154 | every row is in the list of its own group and of no other |
| `Grouping.FirstRowsAscend` | src/execution/group_by_aggregation_operator.cpp:145-151 | groups come in first-occurrence order |
| `Grouping.GroupingConserves` | src/execution/group_by_aggregation_operator.cpp:138-154 | whatever is added up over the rows is conserved by grouping them |
| `GroupBy.AppendToKey` | src/execution/group_by_aggregation_operator.cpp:11-70 | the image of the element is appended |
| `GroupBy.RowKey` | src/execution/group_by_aggregation_operator.cpp:139-142 | the key is the images of the row's group columns, one after the other |
| `GroupBy.KeyFindsGroup` | src/execution/group_by_aggregation_operator.cpp:143-152 | the hash map has the key exactly when the group is known, and then names that group |
| `GroupBy.BuildGroups` | src/execution/group_by_aggregation_operator.cpp:133-154 | one pass leaves every group's first row and row list in first-occurrence order |
| `GroupedAggregation.SubAnswer` | src/execution/group_by_aggregation_operator.cpp:163-172 | aggregating a group's sub-batch is aggregating the group's rows of the table, in whatever order columns were listed |
| `GroupedAggregation.SubFault` | src/execution/group_by_aggregation_operator.cpp:110-131 | which exception a group's updates throw, the unnamed column included |
| `GroupedAggregation.GroupFaultIs` | src/execution/group_by_aggregation_operator.cpp:162-172 | the exception is that of the first aggregate that throws; one over a column without a name finds none |
| `GroupedAggregation.AggregateGroup` | src/execution/group_by_aggregation_operator.cpp:169-175 | fresh aggregates answer for one group, each appended to its buffer |
| `GroupByOperator.AggregateGroups` | src/execution/group_by_aggregation_operator.cpp:162-176 | the buffers hold every group's answers, image after image |
| `GroupByOperator.ModestGroupsInScope` | src/execution/group_by_aggregation_operator.cpp:162-176 | no group of a table of 64-bit numbers overflows, however it is grouped |
| `GroupByOperator.AnswerColumns` | src/execution/group_by_aggregation_operator.cpp:191-193 | every buffer is decoded as its early type, up to the first read past a buffer's end |
| `GroupByOperator.ReadBackExactly` | src/execution/group_by_aggregation_operator.cpp:115-117 | decoding a buffer with the type asked for early gives its answers back if and only if minimum and maximum are over strings |
| `GroupByOperator.IntegerExtremeIsMisread` | src/execution/aggregation_functions.cpp:408-413 | for example, one group's Int64 extreme, read as a string, runs past the buffer unless it is 0 |
| `GroupByOperator.GroupTable` | src/execution/group_by_aggregation_operator.cpp:101-195 | each result row has a group's values, and the decoded answers of the table filtered to that group |
| `GroupByOperator.ReplyIsGroupTableExactly` | src/execution/group_by_aggregation_operator.cpp:101-195 | the reply is the table of every group's aggregates if and only if minimum and maximum are over strings |
| `GroupByOperator.GroupByAggregationOperator.Next` | src/execution/group_by_aggregation_operator.cpp:79-196 | that table for the concatenated batches, the first exception, or null without rows, once |
| `Results.ReplyColumnNamed` | src/execution/group_by_aggregation_operator.cpp:109-117 | the result column of an aggregate has its name spelled out; unless an earlier column has it too, the name finds that column and sorting by it is by that column |
| `Results.ResultRowIs` | src/execution/group_by_aggregation_operator.cpp:162-193 | a result row aggregates exactly the rows of the table with its group values |
| `Results.RowsAreGrouped` | src/execution/group_by_aggregation_operator.cpp:138-154 | every row belongs to exactly one result row, and these come in the order of their first rows |
| `Results.GroupedCount` | src/execution/group_by_aggregation_operator.cpp:162-176 | a group's row count is the number of rows with its values |
| `Results.GroupedDistinct` | src/execution/group_by_aggregation_operator.cpp:162-176 | a group's distinct count is the size of the set of values its rows have |
| `Results.TopGroups` | exe/run_query.cpp:152-167 | group by, distinct count and top-k by the name of that count deliver the groups with the greatest counts, for every split |
| `GroupTotals.SplitIndependent` | src/kernel/column_utils.cpp:375-484 | two streams with the same rows merge to the same table |
| `GroupTotals.ColumnOfAnswers` | src/execution/group_by_aggregation_operator.cpp:191-193 | a count, sum, average, or extreme of strings is delivered as its answers, group by group |
| `GroupTotals.CountsAddUp` | src/execution/group_by_aggregation_operator.cpp:162-193 | group counts add up to the number of rows, whatever else is aggregated |
| `GroupTotals.SumsAddUp` | src/execution/group_by_aggregation_operator.cpp:162-193 | group sums add up to the whole sum, casts to 64 bits included |
| `Filter.KeptIs` | src/execution/filter_operator.cpp:15-21 | kept rows are those that satisfy the condition, as often as they occur |
| `Filter.FilterOperator.Next` | src/execution/filter_operator.cpp:8-29 | the rows of one batch the condition keeps, in order |
| `Filter.FilteredRows` | src/execution/filter_operator.cpp:15-28 | picking the kept places keeps the kept rows |
| `Filter.FilterCommutesWithMerge` | src/execution/filter_operator.cpp:8-29 | filtering every batch and merging gives the filtered merge of the batches |
| `Filter.FilterThenGroupBy` | src/execution/filter_operator.cpp:8-29 | group-by over a filter is group-by of the kept rows of the whole stream, for every split |
| `Csv.RowReadBack` | src/convertion/reader_writer_csv.cpp:42-81 | a written row of plain fields is read back, empty fields included, whatever follows |
| `Csv.RowIs` | src/convertion/reader_writer_csv.cpp:205-218 | a row is its fields, those with a comma in quotes, with commas between them and a line feed behind |
| `Csv.LastRowReadBack` | src/convertion/reader_writer_csv.cpp:60-64 | the end of the file ends a row of plain fields as a newline does |
| `Csv.OpenQuote` | src/convertion/reader_writer_csv.cpp:47-51 | a quote not closed before the end of the file is an exception |
| `Csv.ReadsNoQuotes` | src/convertion/reader_writer_csv.cpp:47-79 | no field that is read contains a quote |
| `Csv.RowNotReadBack` | src/convertion/reader_writer_csv.cpp:205-218 | a row with a quote, or a newline without a comma, is not read back |
| `CsvFile.ReaderCsv.ReadRowFromCsv` | src/convertion/reader_writer_csv.cpp:42-81 | the character loop runs the automaton; the end of the file inside quotes throws |
| `CsvFile.ReaderCsv.ReadRowsStrings` | src/convertion/reader_writer_csv.cpp:135-159 | up to a batch of rows as columns, the phantom last row dropped |
| `CsvFile.ReaderCsv.ReadBatch` | src/convertion/reader_writer_csv.cpp:161-179 | a batch and what is left make up what was left before; null at the end |
| `CsvFile.ReadInChunks` | src/convertion/reader_writer_csv.cpp:135-159 | reading a chunk and then the rest is reading the file, whatever the chunk size |
| `CsvFile.ReadAll` | src/convertion/from_csv_to_clmn.cpp:3-13 | batches of any positive size, none empty, flatten to the rows of the file |
| `CsvFile.WriterCsv.WriteBatch` | src/convertion/reader_writer_csv.cpp:193-219 | every row is appended, fields with a comma in quotes |
| `CsvFile.TableReadBackExactly` | src/convertion/reader_writer_csv.cpp:42-219 | a written table is read back if and only if every field is plain |
| `CsvFile.UnendedReadBackExactly` | src/convertion/reader_writer_csv.cpp:135-159 | a plain table without its last newline is read in full if and only if its last row is not one empty field, which is dropped |
| `CsvFile.RowsAreCut` | src/convertion/reader_writer_csv.cpp:150-153 | surplus fields of a row are dropped, and a short row is not read |
| `CsvFile.WriteThenRead` | src/convertion/reader_writer_csv.cpp:135-219 | the same for the writer and the batch reader, for every positive batch size |

## Left out

- TopK.TopKOperator.Next, Sort.SortOperator.Next: floating-point sort columns have no NaN, with which the comparator is
  not the strict weak order the library sorts demand; children deliver batches of one schema, as the static casts assume.
- Accumulators.ComputeColumnSum, Accumulators.AggregationFunction.Update: conversions to `__int128` of infinities, NaN and
  floats out of its range, and sums that overflow it, are undefined in C++ and excluded (`Aggregation.InScope`).
- Accumulators.AggregationFunction.Result: the seven aggregation classes behind one virtual interface are one class with
  a kind; the typed function inside minimum, maximum and distinct is its element type, the same for all batches. Row
  counts stay below 2^63.
- GroupByOperator.GroupByAggregationOperator.Next: asks that group columns and needed columns exist, since the program
  indexes a vector past its end otherwise.
- Filter.FilterOperator.Next: the predicate expression is any condition on rows; expression evaluation is not modelled.
- CsvFile.ReaderCsv.ReadRowsStrings: an open quote, which throws, and a row with fewer fields than columns, which the
  program indexes past its end, are one outcome.
- CsvFile.ReaderCsv.ReadBatch, CsvFile.WriterCsv.WriteBatch: conversion between strings and typed columns is not modelled.
- Delta.DoDelta: the empty vector, for which the counter `size - 1` wraps around, is excluded, and with it adaptive and
  delta encoding of empty integer columns.
- Clmn.WriterClmn.WriteBatch: asks that LZ4 refuses no column, since its exception leaves part of a batch behind.
- Lz4.Lz4Decompress: an exception and a read past the end of the buffer are one outcome.
- Values.InMemory: vectors of 2^56 bytes or more.
- 128-bit integer columns: they cannot be encoded, merged or grouped in the program either, where they throw.
- Files on disk, opening errors and stream state: a file is a byte sequence with a cursor.
- Hash functions and hash map internals: finite maps and sets; the order of an unordered set is arbitrary.
- Expressions, regular expressions, date and number parsing and printing, the schema file of the CSV reader.
- Query plans, the project, scan and write operators, command lines and the build.
