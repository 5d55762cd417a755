# A verified model of PSArcInterface

PSArcInterface reads and writes PSArc archives: files cut into blocks that are compressed with LZMA or zlib, a
table of contents, a table of block sizes and a manifest of paths. Its LZMA code is a copy of the LZMA SDK. This
project models three layers of it and proves what they promise:

1. **LZMA.** The range encoder with its carry, the adaptive bit models, the symbol machine of twelve states, the
   emission loop, the resumable decoder with its look-ahead, and the in-place reversal of the optimal path.
   `Stream.StreamRoundTrip` is the round trip for every valid parse; `StreamFormat.StreamIsFormat` says which bits
   the stream has, and `ToldRuns.DecodeToDicTells` what a decoder has in memory, both by the list of symbols alone.
   `LzmaDecoder.LzmaDec.DecodeToDic` ties the decoder in place to a decoder on values, about which chunking, output
   pieces, statuses and error behaviour are proved on arbitrary input.
2. **The match finder.** The binary trees in the cyclic array, as searched by `Bt4_MatchFinder_GetMatches`, the
   renormalization of positions, the batched search, and the pipeline of three threads as a system of steps.
   `FinderComplete.FourBytesAreServed` says what the finder does not miss, by the data alone, and
   `Progress.EveryCallReturns` that the pipeline gets on under every schedule.
3. **The container.** Byte orders, the layout of an archive, writing and reading it, block framing, the manifest,
   the tree of directories with its iterator, the packing order and the pool of workers.
   `ArchiveRoundTrip.LzmaArchiveRoundTrip` joins it to the first layer, `ArchiveSync.Downsync` says what is in the
   bytes written, digit by digit, `ArchiveReading.UnderstoodStands` the same of any bytes that are read, and
   `ArchiveSync.LzmaThereAndBack` runs all of it on an archive in memory.

Code that only computes is modelled by datatypes, functions and lemmas. Code that changes state is modelled by
classes and methods with the loops of the source (`RangeEnc`, `LzmaEnc`, `LzmaDec`, `MatchFinder`, `Iterator`,
`Archive`, `Semaphore`, the two endpoints, and the free-standing loops); their postconditions tie them to the
functions that the lemmas are about. Threads are modelled as step functions on a state that holds the place of each
thread, one statement on shared state being one step.

## How the modules fit

- `Bytes`, `Powers`, `Masks`, `Scalars`: words, bits and bytes.
- `RangeCoder` (coder on values) and `RangeEncoder` (class); `Symbols` (the decision machine that encoder, decoder
  and look-ahead share), `SymbolCoder`, `SymbolBounds`, `Lookahead`, `Lz`, `Layout`, `Cells`, `Distances`.
- `History` (what a list of symbols leaves: the text, the distances by last use, the state by the last kinds),
  `SymbolFormat` (the bits of every symbol).
- `Decoder`, `Chunking`, `OutputPieces`, `Stream`, `Endings`: the resumable decoder and whole streams on values;
  `ToldRuns`, `StreamFormat`: parses, decoders and streams against lists of symbols.
- `EncoderSteps`, `LzmaEncoder`; `DecoderSteps`, `DummyDecoder`, `LzmaDecoder`, `LzmaCalls`; `EncodeDecode`;
  `Backward`, `OptimalPath`.
- `Suffixes`, `MatchTree` (search tree on values), `SonArray` (the tree as shown by the array), `TreeSearch`,
  `Forest`, `Hashes`, `FinderSpec` (the finder on places in the data), `FinderComplete`, `FinderRefs`, `MatchFinder`,
  `BatchSearch`, `FoundSymbols`.
- `Threads`, `MtSync`, `Pipeline`, `Progress`.
- `BlockFraming`, `BlockBytes`, `LzmaBlocks`, `ZlibBlocks`, `Manifest`, `Container`, `ContainerWriter`,
  `ContainerReader`, `Upsync`, `ArchiveBytes` and `ArchiveReading` (the bytes at their absolute places), `FileBlocks`,
  `FileContents`, `ArchiveRoundTrip`, `LostFile`; `Paths`, `ArchiveTree`, `ArchiveClass`, `VisitOrder`,
  `PackingOrder`, `WorkerPool`; `ArchiveSync`.

## What a reader should know

- Machine integers are numbers; wrap-around is written out. Where the source selects with masks, the methods do too:
  `RC_BIT`, the direct bits and `LIT_PROBS` are computed on 32-bit words, with `Masks.And`.
- A probability cell is named by what it is for; `Layout` gives each cell its array index in the encoder and in the
  decoder. The trees that are read from the lowest bit are numbered differently on the two sides.
- The encoder chooses parses by prices. The model quantifies over all valid parses instead: `Coder.parse` is any
  function that gives one.
- `code < range` is not assumed of arbitrary input; the bound of 20 bytes and everything about the decoder rest on
  the range alone.
- The flags that `GetData` sets are a guess from the first bytes of a block and, for LZMA, its size.
  `FileBlocks.LzmaFlags` and `FileBlocks.ZlibFlags` say exactly when the guess is right,
  `FileContents.LzmaContent` and `FileContents.ZlibRereadIs` what becomes of the content when it is not, and
  `LostFile` has an archive that loses a file of twenty zeros.
- The list of zlib headers that `GetData` looks for lacks 78 5E, and those of smaller windows: a file whose blocks
  were compressed with such a header comes back compressed (`FileBlocks.ZlibMagicIs`, `FileContents.HeadersDecide`).
- `GetData` takes a block even for an empty file. Read from an archive, an empty file therefore has the beginning of
  the next file, contrary to what the round trip in `tests/integration/test_roundtrip.cpp:178-192` expects of an
  archive whose last file is empty: there the source reads behind its block table.
- `LZMADecompress` passes the size of the whole block, header included, as the size of the stream behind the header.
  The decoder may therefore look at up to 13 bytes behind the block; `tail` stands for those behind the last one.
- `operator++` of the iterator does not queue subdirectories. `Iterator.Advance` says what is lost; every loop of the
  source calls `operator*` before, and then nothing is.
- Files are kept by the string of their path. "a/b" and "a//b" are two files in one directory.

## Model

| member | source | states |
|---|---|---|
| `RangeCoder.RoundTrip` | libpsarc/compression/lzma/LzmaEnc.c:660-759 | For every list of modelled and direct bits: the decoder recovers exactly those bits from the flushed stream whatever bytes follow it, has consumed exactly the stream, ends with code 0, and the first byte is 0 |
| `RangeCoder.CarryStops` | libpsarc/compression/lzma/LzmaEnc.c:685-715 | A carry into the cached byte and any number of pending 0xFF bytes adds exactly one to the number they spell |
| `RangeCoder.ShiftLowExact` | libpsarc/compression/lzma/LzmaEnc.c:685-715 | One shift multiplies the exact lower end by 256, with or without a carry; a byte that was already output never changes |
| `RangeCoder.FlushWindow` | libpsarc/compression/lzma/LzmaEnc.c:717-722 | Flushing writes the exact lower end, so that every continuation of the stream lies in the last interval |
| `RangeCoder.WindowBack` | libpsarc/compression/lzma/LzmaEnc.c:726-759 | A stream that lies in the interval after a bit lies in the interval before it |
| `RangeCoder.BoundFits` | libpsarc/compression/lzma/LzmaDec.c:24-26 | With a probability in 31..2017, both parts of a normalized range keep at least 2^16 |
| `RangeCoder.BoundIsShare` | libpsarc/compression/lzma/LzmaDec.c:24-26 | A zero takes that share of the range which its probability is of 2048, rounded down to a multiple of the probability |
| `RangeCoder.AdaptSettles` | libpsarc/compression/lzma/LzmaEnc.c:728-737 | A bit moves the probability a thirty-second of the way, rounded down; equal bits settle at 31 or at 2017 from wherever they start, and stay there |
| `RangeCoder.TossModelled` | libpsarc/compression/lzma/LzmaDec.c:22-29 | A decoder in step with the encoder reads the modelled bit that was coded and stays in step |
| `RangeCoder.TossHalf` | libpsarc/compression/lzma/LzmaDec.c:491-512 | The same for a direct bit, whose branch-free sign test is exact on streams of the encoder |
| `RangeEncoder.RangeEnc.ShiftLow` | libpsarc/compression/lzma/LzmaEnc.c:685-715 | The method with its pending-byte loop computes the shift on the values low, cache, cacheSize and the output |
| `RangeEncoder.RangeEnc.EncodeFlag` | libpsarc/compression/lzma/LzmaEnc.c:766-786 | `RC_BIT_0` and `RC_BIT_1`, where the code branches on the bit anyway: one bit under an array element, and only that element adapts |
| `RangeEncoder.RangeEnc.EncodeBit` | libpsarc/compression/lzma/LzmaEnc.c:744-759 | The default `RC_BIT` on 32-bit words, its masks selecting range, increment and direction: the same coded bit, and only that array element adapts |
| `RangeEncoder.RangeEnc.EncodeDirect` | libpsarc/compression/lzma/LzmaEnc.c:2601-2608 | One pass of the loop that codes a direct bit |
| `RangeEncoder.RangeEnc.FlushData` | libpsarc/compression/lzma/LzmaEnc.c:717-722 | Five shifts |
| `RangeEncoder.AdaptsEitherWay` | libpsarc/compression/lzma/LzmaEnc.c:744-759 | One difference, shifted with its sign, moves a probability towards the bit just seen, whichever it is |
| `Symbols.StaysOnPath` | libpsarc/compression/lzma/LzmaEnc.c:2445-2629 | The bits that spell a symbol lead through the decision machine to that symbol and to no other |
| `SymbolCoder.SymbolRoundTrip` | libpsarc/compression/lzma/LzmaDec.c:255-545 | A decoder in step before a symbol reads the symbol that was coded, is in step after it, and has learned the same model |
| `SymbolBounds.LossStep` | libpsarc/compression/lzma/LzmaDec.c:22-26 | Every bit pays from a budget for the range that it may cost, a modelled bit by a factor of 66.1 and a direct bit by 2.001 |
| `SymbolBounds.SymbolTakesAtMost20Bytes` | libpsarc/compression/lzma/LzmaDec.h:48-51 | On arbitrary input, from a normalized range, one symbol takes at most 20 bytes, its last normalization included |
| `Lookahead.AskedIsBehind` | libpsarc/compression/lzma/LzmaDec.c:715-904 | No probability cell is read twice in one symbol |
| `Lookahead.LookaheadAgrees` | libpsarc/compression/lzma/LzmaDec.c:715-904 | A walk that never updates probabilities reads the same bits, the same symbol and the same bytes as the decoder that updates after every bit, on every input |
| `Lookahead.WalkReadsOnlyItsBytes` | libpsarc/compression/lzma/LzmaDec.c:1044-1082 | A symbol depends only on the bytes that it takes: any other buffer that holds them gives the same symbol |
| `Lz.CopyRepeats` | libpsarc/compression/lzma/LzmaDec.c:546-590 | Every byte that a copy produces equals the byte `rep0` before it, also when source and target overlap |
| `Lz.CopySplits` | libpsarc/compression/lzma/LzmaDec.c:616-652 | A copy may be cut anywhere and taken up again |
| `Lz.CopyReproduces` | libpsarc/compression/lzma/LzmaEnc.c:2445-2629 | A copy reproduces data that repeat themselves at its distance |
| `History.RepsMove` | libpsarc/compression/lzma/LzmaEnc.c:2507-2530 | For every symbol: the distance used moves to the front of the last four, a new one pushes the oldest out, and the others keep their order |
| `History.RemembersMore` | libpsarc/compression/lzma/LzmaDec.c:366-386 | After every list of symbols the last four distances are the first four of the history: all distances ever used, newest use first, followed by 1, 1, 1, 1 |
| `History.StateTellsMore` | libpsarc/compression/lzma/LzmaEnc.c:620-623 | After every list of symbols the state is the one that the kinds of the last four symbols determine |
| `History.SlotTreesByLength` | libpsarc/compression/lzma/LzmaDec.c:464-466 | One tree of slots for each of the lengths 2, 3 and 4, and one for all that are longer |
| `History.ToldMore` | libpsarc/compression/lzma/LzmaDec.c:255-593 | After every list of symbols that can be followed, data, distances and state are those that the list spells, read as text and as history |
| `SymbolFormat.SymbolIsFormat` | libpsarc/compression/lzma/LzmaEnc.c:2445-2629 | Every symbol is coded as the bits that the format has for it, written out from the numbers in it: match flags, trees from the top or from the lowest bit, direct bits |
| `StreamFormat.StreamIsFormat` | libpsarc/compression/lzma/LzmaEnc.c:2405-2640 | The stream of a parse is that of these bits for one symbol after the other, every context formed from the text and the kinds of symbols before it |
| `Layout.IndexInjective` | libpsarc/compression/lzma/LzmaDec.c:129-167 | Different probability cells have different array indices, on either side |
| `Layout.ReverseNodeInjective` | libpsarc/compression/lzma/LzmaEnc.c:900-916 | The node numbers of a tree that is read from the lowest bit are distinct, in the numbering of the encoder and in that of the decoder |
| `EncodeDecode.EncodeAndDecode` | libpsarc/compression/lzma/LzmaEnc.c:2405-2640 | Run one after the other: whatever choices the parser made that spell the data, and whatever follows in memory, the encoder in place writes the bits of their symbols, the decoder in place restores the data from them and uses exactly these bytes; its distances and its state are those of the history of the symbols, and both probability arrays agree cell by cell, each at its own index |
| `Cells.ContextFits` | libpsarc/compression/lzma/LzmaDec.c:255-262 | The contexts of a symbol stay inside the probability array |
| `Cells.MaskedIsLitCtx` | libpsarc/compression/lzma/LzmaEnc.c:1215-1216 | `LIT_PROBS`, with `lpMask` and a wrapping 32-bit position, is the literal context of the format; the decoder uses the same expression |
| `Cells.MaskedPosState` | libpsarc/compression/lzma/LzmaEnc.c:2826-2826 | `pbMask` on the wrapping position gives the position state |
| `Stream.StreamRoundTrip` | libpsarc/compression/lzma/LzmaEnc.c:2405-2629 | For every valid parse of a non-empty source, the stream decodes to the source and to the final model of the encoder, whatever follows it; exactly the stream is used |
| `Stream.SymbolInStream` | libpsarc/compression/lzma/LzmaDec.c:255-593 | The same for one symbol in the middle of a stream: machine, model and coder stay in lockstep |
| `Stream.ParseFollows` | libpsarc/compression/lzma/LzmaDec.c:255-593 | The same for any list of symbols that there is room for, whatever comes behind |
| `ToldRuns.ParseIsSpelling` | libpsarc/compression/lzma/LzmaEnc.c:2405-2640 | A parse is valid exactly if its symbols, read as plain text, spell the data and reach no farther back than there are data and dictionary |
| `ToldRuns.CoversIsSpelling` | libpsarc/compression/lzma/LzmaEnc.c:2432-2558 | Choices cover the data exactly if the symbols that they stand for, codes below 4 being read off the history, spell the data |
| `ToldRuns.DecodeToDicTells` | libpsarc/compression/lzma/LzmaDec.c:952-1196 | On any input, over any number of calls: what was produced is the beginning of the text of a list of valid symbols, and distances and state are those of its history |
| `Distances.IntervalOfSlot` | libpsarc/compression/lzma/LzmaEnc.c:211-252 | Every distance lies in the interval of its slot |
| `Distances.SlotOfInterval` | libpsarc/compression/lzma/LzmaDec.c:462-530 | A distance that is put together from a slot and a footer has that slot: slot and footer are a bijection with distances |
| `Distances.FastPosInit` | libpsarc/compression/lzma/LzmaEnc.c:211-227 | The loop fills the table with the slot of every distance below 2^14 |
| `Distances.GetPosSlot` | libpsarc/compression/lzma/LzmaEnc.c:230-252 | With one look into the table, the slot of every 32-bit distance |
| `EncoderSteps.TopAlignedIs` | libpsarc/compression/lzma/LzmaEnc.c:2589-2608 | Shifting the word to the left keeps exactly its last bits, at the top |
| `EncoderSteps.MarkedBits` | libpsarc/compression/lzma/LzmaEnc.c:2589-2608 | The mark that ends the loop of direct bits leaves the bits above the last four unchanged |
| `LzmaEncoder.LzmaEnc.EncodeTree` | libpsarc/compression/lzma/LzmaEnc.c:789-804 | A bit tree is coded from the top; the stream and the model are those of the walk to the leaf |
| `LzmaEncoder.LzmaEnc.EncodeMatched` | libpsarc/compression/lzma/LzmaEnc.c:806-828 | A literal after a match: three branches per node for as long as the match byte agrees |
| `LzmaEncoder.LzmaEnc.EncodeReverse` | libpsarc/compression/lzma/LzmaEnc.c:900-916 | A tree from the lowest bit, its nodes numbered in the order of arrival |
| `LzmaEncoder.LzmaEnc.EncodeLength` | libpsarc/compression/lzma/LzmaEnc.c:928-961 | A length: choice bits and one of three trees |
| `LzmaEncoder.LzmaEnc.EncodeDirectBits` | libpsarc/compression/lzma/LzmaEnc.c:2587-2608 | The loop of direct bits codes exactly `footerBits - 4` of them and ends |
| `LzmaEncoder.LzmaEnc.EncodeDistance` | libpsarc/compression/lzma/LzmaEnc.c:2561-2625 | Slot, footer, direct bits and align bits of a distance |
| `LzmaEncoder.LzmaEnc.EncodeRep` | libpsarc/compression/lzma/LzmaEnc.c:2476-2542 | Which of the last four distances, and whether one byte; that distance is then in front and the others keep their order, and all four are those that the symbol leaves |
| `LzmaEncoder.LzmaEnc.EncodeOp` | libpsarc/compression/lzma/LzmaEnc.c:2436-2632 | One pass of the emission loop codes the symbol of the choice; state and distances follow |
| `LzmaEncoder.LzmaEnc.EncodeChoices` | libpsarc/compression/lzma/LzmaEnc.c:2405-2640 | The emission loop and the flush output the stream of the parse that the choices describe |
| `LzmaEncoder.CoversIsParse` | libpsarc/compression/lzma/LzmaEnc.c:2432-2443 | Choices that cover the data with lengths and distances describe a valid parse of the data |
| `Decoder.BadRepCodeIsExact` | libpsarc/compression/lzma/LzmaDec.c:655-668 | The first symbol of a stream is a repetition exactly if the first code is at least `kBadRepCode` |
| `Decoder.TakeSound` | libpsarc/compression/lzma/LzmaDec.c:531-590 | On arbitrary input a symbol keeps every distance within the bytes produced, or ends in the data error; output stays below the limit |
| `Decoder.WriteRemSound` | libpsarc/compression/lzma/LzmaDec.c:616-652 | The rest of a match is copied up to the limit and no further |
| `Chunking.ChunkingIndependent` | libpsarc/compression/lzma/LzmaDec.c:952-1196 | If a call wants more input, going on with the rest gives the result, the bytes, the state and the use of input of one call on everything |
| `Chunking.AnyChunking` | libpsarc/compression/lzma/LzmaDec.c:952-1196 | However a stream is cut into pieces, the verdict and the state are those of one call |
| `Chunking.SettledIgnoresMore` | libpsarc/compression/lzma/LzmaDec.c:952-1196 | A call that did not want more input comes to the same end with more input behind |
| `Chunking.DecodeToDicKeepsUsable` | libpsarc/compression/lzma/LzmaDec.c:952-1196 | On arbitrary input a call never fails internally, buffers at most 20 bytes, uses at most what it was given, and can be followed by another |
| `Endings.StatusIsTrue` | libpsarc/compression/lzma/LzmaDec.h:105-185 | On any input and after any calls, every status means what it is documented to mean: an end mark read with code 0, output up to the limit, all input taken, or what is wrong |
| `Endings.TruncatedWantsMore` | libpsarc/compression/lzma/LzmaDec.c:952-1196 | Cut off anywhere, a stream leaves the decoder wanting more, with all it was given taken and no error |
| `Endings.ShortOfRoom` | libpsarc/compression/lzma/LzmaDec.c:952-1042 | Given less room than the data take, a call gives exactly as many bytes as there is room for; it is content if it may stop anywhere and reports an error if the data must end there, except where the code is zero |
| `Endings.MarkIsRead` | libpsarc/compression/lzma/LzmaDec.c:994-1042 | A stream with an end mark, given more room, restores the data, ends at the mark and uses exactly the stream; without more room the mark is read if the data must end there, except where the code is zero before it |
| `OutputPieces.ResumeWidens` | libpsarc/compression/lzma/LzmaDec.c:1200-1238 | A call under a nearer output limit that fills it, and then one under a further limit, do what one call under the further limit does |
| `OutputPieces.DecodeToDicWidens` | libpsarc/compression/lzma/LzmaDec.c:1200-1238 | The same for whole calls, with their buffered bytes |
| `OutputPieces.AgainAddsNothing` | libpsarc/compression/lzma/LzmaDec.c:1200-1238 | A call that neither failed nor filled its output, repeated on the rest of the input, adds nothing |
| `LzmaDecoder.LzmaDec.Bit` | libpsarc/compression/lzma/LzmaDec.c:22-29 | One modelled bit of the real decoder: the same walk on the arrays as on the model |
| `LzmaDecoder.LzmaDec.DecodeTree` | libpsarc/compression/lzma/LzmaDec.c:40-57 | A bit tree, from the top |
| `LzmaDecoder.LzmaDec.DecodeMatched` | libpsarc/compression/lzma/LzmaDec.c:289-317 | A literal after a match, with the branch-free offset |
| `LzmaDecoder.LzmaDec.DecodeReverse` | libpsarc/compression/lzma/LzmaDec.c:478-486 | A tree from the lowest bit, with the running mask of the decoder |
| `LzmaDecoder.LzmaDec.DecodeLength` | libpsarc/compression/lzma/LzmaDec.c:426-459 | A length |
| `LzmaDecoder.LzmaDec.DecodeDirectBits` | libpsarc/compression/lzma/LzmaDec.c:490-512 | The direct bits, on arbitrary input: the sign test on 32-bit words |
| `LzmaDecoder.LzmaDec.DecodeDistance` | libpsarc/compression/lzma/LzmaDec.c:462-530 | The distance of a match from slot, footer, direct bits and align bits |
| `LzmaDecoder.LzmaDec.CopyBytes` | libpsarc/compression/lzma/LzmaDec.c:546-590 | Both copy loops, straight and round the end of the buffer, append the copy of the match |
| `LzmaDecoder.LzmaDec.WriteRemainder` | libpsarc/compression/lzma/LzmaDec.c:616-652 | `LzmaDec_WriteRem`: the rest of the last match, and `checkDicSize` |
| `LzmaDecoder.LzmaDec.DecodeOne` | libpsarc/compression/lzma/LzmaDec.c:257-592 | One pass of the loop reads the next symbol and has its effect; no byte at or behind the end of the symbol is needed |
| `LzmaDecoder.LzmaDec.DecodeReal` | libpsarc/compression/lzma/LzmaDec.c:255-611 | `LZMA_DECODE_REAL`: several symbols, never reading at or behind the end of the input |
| `LzmaDecoder.LzmaDec.DecodeReal2` | libpsarc/compression/lzma/LzmaDec.c:686-700 | The loop is stopped at the dictionary size, which keeps `checkDicSize` 0 exactly while fewer bytes were produced |
| `LzmaDecoder.LzmaDec.TryDummy` | libpsarc/compression/lzma/LzmaDec.c:715-904 | The look-ahead gives the kind of the next symbol and where it ends, or that it does not end in the input; nothing is changed |
| `LzmaDecoder.LzmaDec.ReadHead` | libpsarc/compression/lzma/LzmaDec.c:959-985 | The five bytes that start a stream, collected over calls |
| `LzmaDecoder.LzmaDec.PeekSrc` | libpsarc/compression/lzma/LzmaDec.c:1039-1110 | Reading straight from the input: the look-ahead decides as the decoder on values does, and the internal failure is not reached |
| `LzmaDecoder.LzmaDec.PeekTemp` | libpsarc/compression/lzma/LzmaDec.c:1112-1190 | The same with buffered bytes |
| `LzmaDecoder.LzmaDec.DecodeToDic` | libpsarc/compression/lzma/LzmaDec.c:952-1196 | For every input the method does what the resumable decoder on values does; `SZ_ERROR_FAIL` is never returned |
| `DummyDecoder.CheckBit` | libpsarc/compression/lzma/LzmaDec.c:70-78 | A bit of the look-ahead: it is read and nothing is learned, or the input ends before it |
| `DummyDecoder.CheckDistance` | libpsarc/compression/lzma/LzmaDec.c:857-896 | Slot and footer in the look-ahead |
| `DummyDecoder.CheckRepKind` | libpsarc/compression/lzma/LzmaDec.c:781-823 | The bits that choose a repetition, in the look-ahead |
| `DummyDecoder.CheckCopy` | libpsarc/compression/lzma/LzmaDec.c:767-897 | Everything behind the match flag, in the look-ahead |
| `DummyDecoder.CheckLiteral` | libpsarc/compression/lzma/LzmaDec.c:736-766 | The literal tree, in the look-ahead |
| `LzmaCalls.DecodeToBuf` | libpsarc/compression/lzma/LzmaDec.c:1200-1238 | With a circular dictionary, the bytes written and the state reached are those of one call with a dictionary that has room for everything |
| `LzmaCalls.LzmaDecode` | libpsarc/compression/lzma/LzmaDec.c:1340-1363 | One call on a whole stream, the destination being the dictionary |
| `Backward.Backward` | libpsarc/compression/lzma/LzmaEnc.c:1167-1211 | In place, no entry is overwritten before it is read; the step returned and the entries from `optCur` to `optEnd` are the path of back references, compound steps expanded, front to back |
| `Backward.PathTotal` | libpsarc/compression/lzma/LzmaEnc.c:1167-1211 | The lengths of that path add up to the position that it leads to |
| `OptimalPath.PathIsAParse` | libpsarc/compression/lzma/LzmaEnc.c:1167-1211 | If the entries on the chain are true of the data (a literal or a copy of its length at its code; a literal before it; or a match, a literal and a repetition at the same distance), the path, as choices, is a valid parse of the data up to the last entry |
| `OptimalPath.TakeChoices` | libpsarc/compression/lzma/LzmaEnc.c:2432-2443 | Taking the returned step at once and the others from the table gives such choices |
| `Suffixes.StartLater` | libpsarc/compression/lzma/LzFind.c:955-1022 | If the first bytes of two suffixes agree, the comparison may start behind them |
| `Suffixes.AtMostTransitive` | libpsarc/compression/lzma/LzFind.c:955-1022 | The order on the first `lenLimit` bytes is transitive, and common prefixes combine as minima |
| `MatchTree.SplitKeeps` | libpsarc/compression/lzma/LzFind.c:955-1022 | The walk splits a sorted tree into two sorted trees, children still older than parents |
| `MatchTree.InsertKeeps` | libpsarc/compression/lzma/LzFind.c:955-1022 | An insertion keeps the tree sorted by suffix and ordered by age |
| `MatchTree.SearchIsTrue` | libpsarc/compression/lzma/LzFind.c:971-1018 | Every match reported is a true one of exactly its length, with strictly increasing lengths |
| `MatchTree.SearchBeatsAll` | libpsarc/compression/lzma/LzFind.c:971-1018 | If the passes do not run out, every node of the tree is served by a match reported: at least as long, and no farther away |
| `MatchTree.SearchFindsBest` | libpsarc/compression/lzma/LzFind.c:971-1018 | If the passes do not run out, the last match is the longest in the whole tree, and every match reported is the nearest one of its length or more |
| `SonArray.MayStartLater` | libpsarc/compression/lzma/LzFind.c:975-985 | Within the bounds of the walk the comparison may start at the smaller of `len0` and `len1` |
| `SonArray.EnclosedBelow` | libpsarc/compression/lzma/LzFind.c:1003-1016 | Going to either side keeps the bounds right |
| `SonArray.DescendSplits` | libpsarc/compression/lzma/LzFind.c:955-1022 | The walk in the cyclic array is the walk in the tree: it links the two parts, reports the same matches and changes no other live pair |
| `TreeSearch.GetMatchesSpec1` | libpsarc/compression/lzma/LzFind.c:955-1022 | The loop in place: the array of the walk, and the matches of the search |
| `TreeSearch.SkipMatchesSpec` | libpsarc/compression/lzma/LzFind.c:1025-1081 | The same walk without reporting |
| `TreeSearch.LinksIgnoreBest` | libpsarc/compression/lzma/LzFind.c:955-1081 | What is linked does not depend on what is reported, so that both functions leave the same array |
| `Forest.ForestInserted` | libpsarc/compression/lzma/LzFind.c:955-1022 | After an insertion and a move, all trees in the array are in order again, though old positions lose their slots |
| `Forest.RefsReduced` | libpsarc/compression/lzma/LzFind.c:787-866 | After the reduction a live reference keeps its distance and its place, and a stale one reads as empty |
| `Forest.ForestReduced` | libpsarc/compression/lzma/LzFind.c:787-866 | After the reduction the array shows the same trees |
| `Hashes.Hash2IsExact` | libpsarc/compression/lzma/LzFind.c:40-54 | The first byte and the hash of two determine the second byte, for every table |
| `Hashes.Hash3IsExact` | libpsarc/compression/lzma/LzFind.c:49-54 | The first byte and the hash of three determine the second and third byte |
| `FinderSpec.NextKeepsOk` | libpsarc/compression/lzma/LzFind.c:1202-1267 | Every position keeps heads and trees in order |
| `FinderSpec.MatchesAreTrue` | libpsarc/compression/lzma/LzFind.c:1202-1267 | Every answer lists true matches in reach, each longer than the one before |
| `FinderSpec.EveryPlaceIsServed` | libpsarc/compression/lzma/LzFind.c:1202-1267 | Every position of the tree is served by a match at least as long and no further away |
| `FinderSpec.LastIsLongest` | libpsarc/compression/lzma/LzFind.c:1202-1267 | In the answer: no place of the searched tree has a longer match than the last one (or than the heads gave), and every distance from the search is the smallest in the tree for its length or more |
| `FinderSpec.RunIsTrue` | libpsarc/compression/lzma/LzFind.c:1202-1267 | The same in every run over any data, at every position |
| `FinderComplete.FourBytesAreServed` | libpsarc/compression/lzma/LzFind.c:1202-1267 | At every position of every run over any data in which no walk ran out of passes: each place less than the cyclic size behind that repeats the next four bytes is served by a match at least as long and no farther away |
| `FinderComplete.PairIsServed` | libpsarc/compression/lzma/LzFind.c:1202-1267 | Without any condition on the passes: the latest place that repeats the next two bytes is served, unless a later place has the same hash |
| `FinderComplete.TripleIsServed` | libpsarc/compression/lzma/LzFind.c:1202-1267 | The same for three bytes |
| `FinderComplete.EnoughPasses` | libpsarc/compression/lzma/LzFind.c:955-1022 | With as many passes as there are data no walk runs out of them |
| `FinderRefs.MeansEntered` | libpsarc/compression/lzma/LzFind.c:1202-1267 | Entering a position in the arrays is entering it in the state on places |
| `FinderRefs.MeansReduced` | libpsarc/compression/lzma/LzFind.h:112-114 | Renormalization is invisible: the reduced arrays mean the same state, from which alone all later answers follow |
| `MatchFinder.Normalize3` | libpsarc/compression/lzma/LzFind.c:787-821 | The loop subtracts with saturation over the whole table |
| `MatchFinder.UpdateMaxLen` | libpsarc/compression/lzma/LzFind.c:1129-1134 | The length of the common prefix from three bytes on |
| `MatchFinder.HeadMatches` | libpsarc/compression/lzma/LzFind.c:1202-1264 | The matches of the short hashes |
| `MatchFinder.MatchFinder.SetLimits` | libpsarc/compression/lzma/LzFind.c:494-530 | The limits allow as many moves as neither wrap the counter nor leave the input nor the array |
| `MatchFinder.MatchFinder.CheckLimits` | libpsarc/compression/lzma/LzFind.c:824-870 | More input, a reduction and a new turn leave the state unchanged |
| `MatchFinder.MatchFinder.GetMatches` | libpsarc/compression/lzma/LzFind.c:1202-1267 | `Bt4_MatchFinder_GetMatches` gives the answer of the finder with unbounded positions, and all its matches are true |
| `MatchFinder.MatchFinder.Skip` | libpsarc/compression/lzma/LzFind.c:1529-1542 | `Bt4_MatchFinder_Skip` leaves the state that as many searches leave |
| `BatchSearch.BucketsAreAsked` | libpsarc/compression/lzma/LzFindMt.c:644-721 | Every position of a batch has its tree in the array when its turn comes, and its difference is neither 0 nor too large: the first two failure exits are unreachable |
| `BatchSearch.ChildIsOlder` | libpsarc/compression/lzma/LzFindOpt.c:361-380 | A child is older than its parent, so that the other failure exits are unreachable |
| `BatchSearch.LongMatchCopies` | libpsarc/compression/lzma/LzFindOpt.c:319-355 | When the root agrees in all bytes, a search is a copy of its pair and one match |
| `BatchSearch.GetMatchesSpecN2` | libpsarc/compression/lzma/LzFindOpt.c:223-400 | The batched search, shortcut included, leaves the array and the match lists of searching one position after the other |
| `FoundSymbols.FoundIsCodable` | libpsarc/compression/lzma/LzmaEnc.c:2544-2558 | A match that the finder reports, at any length up to its own, is a symbol that the encoder may emit, and it produces the data |
| `Threads.Semaphore.OptCreateInit` | libpsarc/compression/lzma/Threads.c:431-448 | Counter and maximum are set, or the arguments refused |
| `Threads.Semaphore.ReleaseN` | libpsarc/compression/lzma/Threads.c:451-473 | A release beyond the maximum is refused and changes nothing |
| `MtSync.PlaceOfWord` | libpsarc/compression/lzma/LzFindMt.c:37-42 | A block index that wraps at 2^32 leads to the same block as an unbounded one |
| `MtSync.AdvanceKeeps` | libpsarc/compression/lzma/LzFindMt.c:119-185 | Every step of the reading thread in `MtSync_GetNextBlock` and `MtSync_StopWriting` keeps the invariant |
| `MtSync.WorkKeeps` | libpsarc/compression/lzma/LzFindMt.c:440-541 | Every step of the writing thread keeps the invariant |
| `MtSync.ScribbleKeeps` | libpsarc/compression/lzma/LzFindMt.c:476-530 | Filling a block touches none of the blocks that are kept |
| `MtSync.BlocksAreConserved` | libpsarc/compression/lzma/LzFindMt.c:119-185 | Free, filled, held and written blocks are all blocks; no release is refused, not even the one of `MtSync_StopWriting` |
| `MtSync.HeldBlockStays` | libpsarc/compression/lzma/LzFindMt.c:119-145 | The block in hand is the one that was written under the same number, and the writer is at another place of the ring |
| `MtSync.OneCanGoOn` | libpsarc/compression/lzma/LzFindMt.c:119-185 | While the reading thread waits, the writing thread can go on |
| `MtSync.StopThenInit` | libpsarc/compression/lzma/LzFindMt.c:228-238 | A stopped link can be initialized, and is then as a new one |
| `Pipeline.StepKeeps` | libpsarc/compression/lzma/LzFindMt.c:732-786 | Every step of every thread of the two-level pipeline keeps the invariant of both links |
| `Pipeline.EveryRunIsSafe` | libpsarc/compression/lzma/LzFindMt.c:440-786 | In every interleaving of the three threads: no check of a buffer lock ends the process, no initialization fails, and each reader reads what was written |
| `Pipeline.InterleavingsAgree` | libpsarc/compression/lzma/LzFindMt.c:732-786 | In any two runs the LZ thread sees the same blocks, as far as it got in each |
| `Pipeline.NeverStuck` | libpsarc/compression/lzma/LzFindMt.c:732-786 | While the LZ thread waits, some thread can go on |
| `Progress.EveryCallReturns` | libpsarc/compression/lzma/LzFindMt.c:119-185 | However the three threads are scheduled, a call of the LZ thread for the next block comes back with exactly one more, and a call to stop comes back with the session at its end |
| `Progress.SomeSchedule` | libpsarc/compression/lzma/LzFindMt.c:732-786 | There is such a schedule: in every reachable state in which the LZ thread waits some thread can be chosen |
| `Pipeline.StoppedIsAsNew` | libpsarc/compression/lzma/LzFindMt.c:873-877 | After a stop, which also stops the HASH thread, `MatchFinderMt_InitMt` succeeds and the pipeline is as a new one |
| `Scalars.SwapEndian` | libpsarc/include/psarc_types.hpp:103-119 | The loop reverses the bytes |
| `Scalars.WriteScalar` | libpsarc/include/psarc_types.hpp:131-134 | A number is written in either byte order; the rest of the buffer stays |
| `Scalars.WrittenIsRead` | libpsarc/include/psarc_types.hpp:17-134 | What is written in a byte order is read back in the same, cut to 16, 24, 32 or 40 bits |
| `Scalars.ReadIsWritten` | libpsarc/include/psarc_types.hpp:17-134 | Reading loses nothing |
| `Scalars.SwappedIsBig` | libpsarc/include/psarc_types.hpp:103-129 | Reading with swapped bytes is reading a big-endian number |
| `Scalars.ByteOrderIsRecognized` | libpsarc/src/psarc_impl.cpp:22-28 | The byte order is recognized exactly if the version is at most 255, or, when swapped, not a multiple of 256; from 1 to 255 always |
| `BlockFraming.CompressBlocks` | libpsarc/src/psarc_compression.cpp:55-101 | The compression loops cut a file into blocks and store those that do not fit; a stored full block is recorded as 0 |
| `BlockBytes.BlocksStand` | libpsarc/src/psarc_compression.cpp:55-101 | A file is cut into full blocks and a last one; block by block, what stands in the output behind the blocks before is what it packs to if that fits and itself otherwise, with its flag and its recorded size |
| `BlockFraming.DecompressBlocks` | libpsarc/src/psarc_compression.cpp:104-175 | The decompression loops, block by block: an error ends them, a block that ends early leaves room that is zero at the end, and a block without information is taken as stored |
| `BlockFraming.BlocksAreRestored` | libpsarc/src/psarc_compression.cpp:55-174 | With resolved sizes and the flags of the blocks, decompression restores the file, whatever lies behind it in memory |
| `LzmaBlocks.PropsAreRestored` | libpsarc/compression/lzma/LzmaDec.c:1258-1282 | The five property bytes give back lc, lp, pb and the dictionary size |
| `ArchiveRoundTrip.LzmaBlockSpells` | libpsarc/src/psarc_compression.cpp:55-81 | The bytes of an LZMA block: one for lc, lp and pb, the sizes of the dictionary and of the block with the lowest byte first, and the stream; and that it is made exactly if it fits |
| `LzmaBlocks.LzmaRestoresBlock` | libpsarc/src/psarc_compression.cpp:65-81 | An LZMA block is restored from its 13-byte header and its stream, whatever parse the encoder chose and whatever follows; the decoder may look beyond the block and uses none of that |
| `LzmaBlocks.SomeCoderIsValid` | libpsarc/src/psarc_compression.cpp:55-81 | There is an encoder for every setting |
| `ZlibBlocks.UncompressGrowing` | libpsarc/src/psarc_compression.cpp:248-290 | The retries with doubled room end for every block, with all it holds or with the data error of zlib |
| `ZlibBlocks.ZlibIsFaithful` | libpsarc/src/psarc_compression.cpp:177-290 | Blocks that zlib compressed are restored from their bytes, whatever follows |
| `Manifest.GetStringsFromManifest` | libpsarc/src/psarc_impl.cpp:65-78 | The loop gives the lines of the manifest |
| `Manifest.MakeManifest` | libpsarc/src/psarc_impl.cpp:155-162 | The loop writes the paths as lines, the last without an end |
| `Manifest.JoinedMore` | libpsarc/src/psarc_impl.cpp:155-162 | One more path adds the byte 10 and the path |
| `Manifest.ManifestRoundTrip` | libpsarc/src/psarc_impl.cpp:155-163 | The paths come back from the manifest exactly if none holds the byte 10 and the last is not empty |
| `Container.FileLiesAtItsOffset` | libpsarc/src/psarc_impl.cpp:237-282 | The data of every file stand at the offset of its entry |
| `Container.EntriesAreContiguous` | libpsarc/src/psarc_impl.cpp:237-282 | Data ranges and block slices of neighbours adjoin and do not overlap |
| `ArchiveBytes.HeaderOfArchive` | libpsarc/src/psarc_impl.cpp:179-232 | The header of an archive, digit by digit at its absolute places |
| `ArchiveBytes.FilesStand` | libpsarc/src/psarc_impl.cpp:237-282 | For every file: its hash, its block number, its length and its offset at their absolute places in the entry, zeros behind them, the numbers counted over the files before it, and its bytes at that offset |
| `ArchiveBytes.SizesStand` | libpsarc/src/psarc_impl.cpp:284-313 | The recorded size of every block at its absolute place in the table |
| `ArchiveBytes.ContentIsHeld` | libpsarc/src/psarc_impl.cpp:237-313 | The entry of a file leads to its blocks: each stands at the offset named, behind the ones before it, packed exactly if that fits into the size of a block, and its recorded size stands in the table at the number named |
| `ContainerReader.EntryIsRead` | libpsarc/include/psarc_impl.hpp:18-35 | An entry is read back from its 30 bytes |
| `ContainerReader.SizeIsRead` | libpsarc/src/psarc_impl.cpp:30-38 | A recorded size is read back in 2, 3 or 4 bytes; that of a full block may wrap to 0 and is resolved to itself |
| `ContainerReader.ArchiveIsUnderstood` | libpsarc/src/psarc_impl.cpp:326-407 | Reading an archive in either byte order gives its settings, its entries in order and the sizes of all blocks; only an archive without files is refused |
| `ArchiveReading.WhatIsRefused` | libpsarc/src/psarc_impl.cpp:326-358 | Exactly the files that begin with "DSAR", or not with "PSAR", or are shorter than a header, are refused by their first bytes |
| `ArchiveReading.UnderstoodStands` | libpsarc/src/psarc_impl.cpp:360-407 | Of any bytes: what is understood is what stands there digit by digit, the settings in the header, every entry at its place and every recorded size behind them, up to the end of the table of contents |
| `ContainerWriter.WriteHeader` | libpsarc/src/psarc_impl.cpp:179-232 | The header, field by field, whatever the order of writing |
| `ContainerWriter.ToByteArray` | libpsarc/include/psarc_impl.hpp:30-35 | An entry over a reused buffer |
| `ContainerWriter.OutputHandle.Write` | tests/integration/memory_handles.hpp:16-22 | Writing at the cursor overwrites, and pads beyond the end |
| `ContainerWriter.WriteFiles` | libpsarc/src/psarc_impl.cpp:237-282 | The files go behind the room for the table of contents; offsets are collected on the way |
| `ContainerWriter.WriteArchive` | libpsarc/src/psarc_impl.cpp:230-313 | Writing with seeks back and forth leaves exactly the archive of the files |
| `Upsync.InputHandle.Read` | tests/integration/memory_handles.hpp:52-58 | A read beyond the end fails and leaves the cursor |
| `Upsync.CollectEntries` | libpsarc/src/psarc_impl.cpp:371-375 | The loop over the entries |
| `Upsync.ResolveSizes` | libpsarc/src/psarc_impl.cpp:399-402 | Sizes of 0 are replaced in place |
| `Upsync.Upsync` | libpsarc/src/psarc_impl.cpp:326-407 | The method reads what an archive says, and refuses other files |
| `FileBlocks.GetData` | libpsarc/src/psarc_impl.cpp:436-494 | The loop collects blocks, sizes and flags, a failed read leaving zeros and the cursor; it takes one block in any case |
| `FileBlocks.DataIsReadExactly` | libpsarc/src/psarc_impl.cpp:436-494 | It collects exactly the blocks of a file, a recorded size of 0 read as a full block, if and only if the file is not empty |
| `FileBlocks.EmptyFileTakesABlock` | libpsarc/src/psarc_impl.cpp:456-491 | For an empty file it collects the first block of the next file that has one |
| `FileBlocks.LzmaFlags` | libpsarc/src/psarc_impl.cpp:466-474 | For LZMA the flags are right exactly if no compressed block is as long as what it holds |
| `FileBlocks.ZlibFlags` | libpsarc/src/psarc_impl.cpp:475-479 | For zlib the flags are right exactly if every compressed block has one of the headers that are looked for, and no stored block begins with one in either order |
| `FileBlocks.ZlibMagicIs` | libpsarc/src/psarc_impl.cpp:475-479 | What is looked for, by section 2.2 of RFC 1950: in one of the two orders, 0x78 with a check sum that is right, no preset dictionary and a level other than 1; 78 5E is the header that is missed |
| `FileContents.LzmaContent` | libpsarc/src/psarc_impl.cpp:466-474 | For LZMA files of any number of blocks: the content that comes back, and that it is the right one exactly if every block that is compressed to its own length is compressed to itself |
| `FileContents.ZlibContent` | libpsarc/src/psarc_impl.cpp:475-479 | For zlib files of any number of blocks: the content that comes back, stored blocks that begin like a zlib stream being inflated |
| `FileContents.HeadersDecide` | libpsarc/src/psarc_impl.cpp:475-479 | For a zlib that may write any header of RFC 1950, where no stored block begins like a stream and no block like what it is compressed to: a file comes back exactly if the headers of its compressed blocks are of the largest window and not of level 1 |
| `FileContents.ZlibRereadIs` | libpsarc/src/psarc_impl.cpp:475-479 | A zlib file is lost as a whole exactly if some stored block begins like a zlib stream and is none; if the inflated lengths are those of the blocks, or there is one block, it comes back exactly if such blocks hold themselves |
| `ArchiveRoundTrip.FileComesBack` | libpsarc/src/psarc_impl.cpp:155-494 | Reading back an archive, which is refused exactly if its manifest is empty, gives a file its blocks exactly if it is not empty, and its content if the flags are right |
| `ArchiveRoundTrip.EmptyItemIsMisread` | libpsarc/src/psarc_impl.cpp:456-491 | An empty file is given the first block of the next file that is not empty, and a block beyond the table if there is none |
| `ArchiveRoundTrip.EmptyItemGetsContent` | libpsarc/src/psarc_impl.cpp:456-491 | In an LZMA archive it gets the content of that block, which is not empty, if the block is compressed or does not look compressed |
| `ArchiveRoundTrip.LostIsHarmed` | libpsarc/src/psarc_compression.cpp:25-81 | With the settings of `LZMACompress`, a block that is compressed to its own length and does not begin with 0x5D makes the file come back wrong |
| `ArchiveRoundTrip.PathsComeBack` | libpsarc/src/psarc_impl.cpp:409-431 | The paths come back in the order of the entries |
| `ArchiveRoundTrip.LzmaArchiveRoundTrip` | libpsarc/src/psarc_impl.cpp:155-494 | For LZMA archives the whole way from bits to files, whatever parses were chosen and for either of the settings that are recognized: what a file comes back as, and that it comes back right exactly if no block is compressed to other bytes of its own length |
| `ArchiveRoundTrip.RecognizedSettings` | libpsarc/src/psarc_impl.cpp:466-474 | Of all settings of lc, lp and pb, the blocks of exactly two are taken for LZMA blocks: 3, 0, 2, which `LZMACompress` uses, and 8, 4, 0 |
| `ArchiveRoundTrip.ZlibArchiveRoundTrip` | libpsarc/src/psarc_impl.cpp:155-494 | The same for zlib archives, with any valid headers: a file comes back if its headers are known and no stored block begins like a zlib stream; where blocks do not begin like what they are compressed to, it is the headers alone that decide; and it is lost as a whole exactly if some stored block begins like a stream and is none |
| `LostFile.RunTakesTwentyBytes` | libpsarc/src/psarc_compression.cpp:55-81 | A block of 19 to 274 zeros, coded as one literal and one repetition, is packed into exactly twenty bytes |
| `LostFile.TwentyZerosAreLost` | libpsarc/src/psarc_impl.cpp:466-474 | So twenty zeros do not come back, for every dictionary size and every block size of at least twenty |
| `LostFile.AnArchiveLosesItsFile` | libpsarc/src/psarc_impl.cpp:155-494 | A whole archive of a manifest and that file, which can be written and loses it |
| `Paths.ElementsOfClean` | libpsarc/src/psarc_archive.cpp:120-142 | Paths that are equal but for a slash in front have the same elements; the converse holds for paths without repeated or final slashes, and fails for "a/b" and "a//b" |
| `Paths.FormsAgree` | libpsarc/src/psarc_archive.cpp:319-340 | Comparing paths in relative or in absolute form makes no difference |
| `Paths.FormNamesTheSame` | libpsarc/src/psarc_archive.cpp:319-340 | A path without two slashes in front names the same file in every form it is written in |
| `Paths.ElementsJoin` | libpsarc/src/psarc_archive.cpp:120-142 | The elements of every path, by its slashes: a name alone is one, with or without a slash in front; a slash behind a name joins what is before it and behind it, where nothing but slashes behind it is one empty element |
| `ArchiveTree.InsertedIsFound` | libpsarc/src/psarc_archive.cpp:120-177 | A file that was added is found, and every other file is found as before, also one with the same elements under another spelling |
| `ArchiveTree.InsertedFiles` | libpsarc/src/psarc_archive.cpp:120-177 | Adding a file takes the place of the one under its path and of no other |
| `VisitOrder.FileGoes` | libpsarc/src/psarc_archive.cpp:120-177 | A file goes into the directory that its path leads to, in place of the one with the same path or behind the others; no other directory changes its files |
| `VisitOrder.DirectoryGoes` | libpsarc/src/psarc_archive.cpp:142-168 | A directory that is missing on the way is made behind the others; no other is made, and none is moved |
| `ArchiveTree.SearchedIsFound` | libpsarc/src/psarc_archive.cpp:179-254 | The search by elements and by whole path finds the file of that path |
| `ArchiveClass.BreadthHasAll` | libpsarc/include/psarc_archive.hpp:160-175 | Breadth first, every file of a tree comes exactly once |
| `VisitOrder.LevelByLevel` | libpsarc/include/psarc_archive.hpp:160-175 | The files are visited level by level: all of a level, in the order of its directories, before any below |
| `ArchiveClass.Iterator.constructor` | libpsarc/include/psarc_archive.hpp:129-140 | The manifest first, then the files of the root |
| `ArchiveClass.Iterator.Current` | libpsarc/include/psarc_archive.hpp:160-175 | Dereferencing gives the next file, and null exactly at the end; what is left does not change |
| `ArchiveClass.Iterator.Advance` | libpsarc/include/psarc_archive.hpp:141-154 | The new queues, and what is lost with the file taken off: exactly the files below the directories popped. It goes to the next file exactly if there are none or only the last file is dropped; after a dereference nothing is popped |
| `ArchiveClass.StepWithoutLooking` | libpsarc/include/psarc_archive.hpp:141-154 | Stepping without a dereference over two levels of directories loses the lower file |
| `ArchiveClass.Iterator.AtEnd` | libpsarc/include/psarc_archive.hpp:176-199 | Comparing with the end says whether anything is left |
| `ArchiveClass.Archive.AddFile` | libpsarc/src/psarc_archive.cpp:120-177 | The archive is a map from relative paths to files: a file is added or replaced, the manifest kept apart, and a path without elements refused |
| `ArchiveClass.Archive.FindFile` | libpsarc/src/psarc_archive.cpp:179-254 | The file of the map under that path, in either form, or nothing; for every name |
| `ArchiveClass.Archive.VisitsContents` | libpsarc/include/psarc_archive.hpp:129-199 | The number of files visited is `fileCount`, and each file of the map is among them exactly once |
| `ArchiveClass.Archive.AllFiles` | libpsarc/src/psarc_impl.cpp:108-116 | The loop of `Downsync` over the archive: manifest first, every file exactly once, level by level, and no null |
| `ArchiveClass.AddListed` | libpsarc/src/psarc_impl.cpp:416-431 | The loop of `Upsync` over any list of paths: the map and the manifest it leaves, and that it fails exactly at a path without elements |
| `ArchiveClass.ListingHolds` | libpsarc/src/psarc_impl.cpp:416-431 | If the listed paths differ, every one leads to the file of its entry, and there are no other files |
| `PackingOrder.SortByManifest` | libpsarc/src/psarc_impl.cpp:118-150 | The swaps leave the same files, beginning with those that the manifest lists and that are present; and if these come first already, in this order, no file is moved |
| `PackingOrder.ListedAre` | libpsarc/src/psarc_impl.cpp:128-149 | These are exactly the files that are listed and present, each once, and each listed before the first mention of those behind it |
| `WorkerPool.StepKeeps` | libpsarc/src/psarc_impl.cpp:200-221 | Every step of a worker keeps each file in exactly one state of work |
| `WorkerPool.AfterJoin` | libpsarc/src/psarc_impl.cpp:192-228 | In every interleaving of any number of workers, every file is compressed exactly once and the sum is the number of all blocks |
| `WorkerPool.EveryRunEnds` | libpsarc/src/psarc_impl.cpp:192-224 | However the workers take turns, all have finished after three steps for each file and one for each worker, and not before |
| `WorkerPool.TotalIsTheTable` | libpsarc/src/psarc_impl.cpp:230-231 | That sum is the length of the block table that the layout is made for |
| `ArchiveSync.FilesInOrder` | libpsarc/src/psarc_impl.cpp:108-150 | The loops of `Downsync` up to the packing order: every file once, level by level, but first those that the old manifest lists and that are present; an order that is right already is kept |
| `ArchiveSync.Downsync` | libpsarc/src/psarc_impl.cpp:95-316 | In all its steps, on any archive in memory: the bytes are those of the archive of the manifest and the files in packing order; in these bytes the header is spelled out, the first entry begins with sixteen zeros, every other one with the hash of the path that the manifest has in that line, and every entry has its plain length at its place and leads to the blocks of its file |
| `ArchiveSync.ArchiveListsFiles` | libpsarc/src/psarc_impl.cpp:237-313 | The same, for any files in any order |
| `ArchiveSync.Reload` | libpsarc/src/psarc_impl.cpp:326-434 | In all its steps, on any bytes: the map of files that the manifest of these bytes makes |
| `ArchiveSync.LzmaThereAndBack` | libpsarc/src/psarc_impl.cpp:95-494 | Packed and read again, an archive has the same paths, each leading to the entry of its file, where the bytes have the hash of that path; and a file that is not empty has its content exactly if no block of it is compressed to other bytes of its own length |

## Left out

- Prices, price tables, `GetOptimum` and `GetOptimumFast`: they decide how well data are compressed, not whether they come back.
- `WriteEndMarker` as a method: the archive code never asks the encoder for a mark. Streams with a mark are those of the values in `Endings`, and the decoder that may meet one is modelled.
- Output limits and output errors of the encoder, and its progress callbacks; `LzmaEncode` is taken to fail exactly if the stream does not fit.
- LZMA2, the partial initialization that keeps the dictionary (`remainLen` of 275), and the rounding of the dictionary size in the properties: any size that is at least 4096 may stand there.
- Allocation, CPU detection, the vector forms of the saturating subtraction, Windows threads and thread affinity.
- Hash chains, `Bt2`, `Bt3`, `Bt5` and the Zip finders; stream refill by callback and moving the window: the archive code compresses from memory.
- `MixMatches` and the LZ thread's own short hashes; the normalization of positions inside the threads; creation, destruction and the exit flag of the threads; the lock that only moving the window contends for.
- MtSync.Inv: a plain variable that one thread writes and the other reads, such as `stopWriting`, is read and written in one step; weaker memory orders are not modelled.
- Progress.EveryCallReturns: a schedule gives the next statement to a thread that can make it, for as long as the LZ thread waits; and the BT thread is taken to complete each block of matches after finitely many blocks of heads.
- zlib and MD5: zlib is any pair of functions whose compressed blocks begin with a header that is valid by section 2.2 of RFC 1950 and are restored, and the hash is any function from paths to 16 bytes.
- LzmaBlocks.LzmaRestoresBlock: block sizes below 13 are not modelled, for which the room left beside the header wraps around in the source.
- FileBlocks.GetData: block numbers beyond the table, and blocks of size 0 with a block size of 0, end the model; the source reads beyond its table, or does not end.
- Upsync.Upsync: an archive whose table of contents is shorter than its entries, or that has no entry, is called malformed; the source reads beyond its buffer.
- `File::Compress` followed by `File::Decompress` without an archive between: its flags do not describe stored partial blocks.
- Loading and clearing of file contents, the choice between source and memory, compression type NONE, big-endian hosts and lookups that ignore case.
- ArchiveClass.Archive.AddFile: `.` and `..` are names like others, as in the source. Directories are values that are replaced, as vectors of directories are in the source; references into them are not modelled. The first character that the source asks of an empty path is taken to be no slash.
- ArchiveSync.Downsync: the archive in memory keeps its old manifest; the source puts the new one in its place.
- ArchiveSync.Reload: an archive whose manifest cannot be decompressed, or lists fewer paths than there are entries, adds no files; the source goes on with an empty list and reads beyond it.
- ContainerWriter.WriteArchive: the endpoint is empty before, and progress callbacks are left out.
- psarc-cl, file handles and status texts.
