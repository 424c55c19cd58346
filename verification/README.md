# Verified models of the asset pipeline's codecs, protocols and kernels

This project models the parts of the asset pipeline whose correctness rests on an argument rather
than on plumbing, and proves what those parts promise:

* the **LZ4 HC codec**: the word-copy decoder, the hash-chain compressor with its price-driven
  parser, and the reuse of its tables from one buffer to the next without clearing them;
* the **PNG decoder**: the chunks of a file, the bit reader, canonical Huffman codes, stored, fixed and
  dynamic DEFLATE blocks, the five row filters, Adam7 interlacing and every colour type and bit depth, up
  to the end-to-end round trip from an image of samples to a file and back to its colours;
* two **concurrent protocols** as step systems with any number of threads: the keyed-lock path that
  fetches content, beside a cache that evicts it, and the digest worker pool;
* the **pinned disk cache** with its two maps, running total, live guards and budgeted eviction;
* four **kernels**: the jump-flood alpha bleed, the buffering and padding of streaming SHA-256, the
  threshold table that replaces a monotone function, and civil-date arithmetic over all integers.

Code that changes state step by step is modelled by methods over arrays and class fields, and each
such method is proved against a function on values; what the code promises is then proved of that
function. The function never shares the method's shortcuts. The LZ4 search is specified by a single
byte-counting walk without tables, memo or packed links; the decoders by functions on byte and bit
sequences that say which error comes first; the compressor's output by a function of the buffer alone,
which is how reuse of the tables is shown to leave no trace.

`Bytes.dfy` holds bytes, results and the match copy that LZ4 and DEFLATE share. The `Lz4*`, `Png*` and
remaining files each hold one module named after what it models.

Some results are not obvious from the code:

* The lock map of `get_bounded` does not by itself give one fetch at a time: evicting a lock that is in
  use lets a second thread in. `FetchLocks.ExclusiveExactly` gives the exact condition, and
  `FetchLocks.TwoInside` a run that violates exclusion whenever the condition fails.
* Even with room for every lock, content is not written once: what a thread has written the disk cache may
  evict, and the next call fetches and writes it again. `FetchLocks.SingleFetch` counts writes against
  evictions exactly; `FetchLocks.WrittenTwice` is a run of one thread that writes a key twice.
* The inflater accepts over-subscribed and incomplete code lengths. What it then accepts is still exactly
  what some stream of blocks denotes (`PngInflateExactly.InflatesExactly`), and which symbols such lengths
  leave without a codeword is decided by `PngHuffman.HasCode`; all have one if and only if the lengths
  satisfy the Kraft inequality (`PngHuffman.KraftExactly`).
* The prices of the LZ4 parser are `i32` in the code, and the price of a literal run overflows in buffers
  the compressor admits: it fits exactly up to 2139095039 literals (`Lz4Prices.LiteralsFitExactly`). Up to
  `Lz4Prices.MAX_PRICED` bytes no price wraps.
* The shortcuts of the LZ4 search, chain swaps and pattern jumps, lose nothing: only running out of attempts
  can keep it from the longest match in the window (`Lz4Longest.FindsLongest`).
* `inflate` compares with its cap only between blocks, so the cap bounds what precedes the last block;
  `PngDeflateStream.StreamInflates` states exactly when a well-formed stream is refused.
* Decoding image data whose samples are well formed can fail in one way only, a pixel without a colour in
  the palette; `PngDecoder.ImageDecodes` says that it fails exactly then.
* The fixed distance code of `build_fixed_huffman` has 30 symbols, not 32, so in a fixed block the two
  reserved codes never decode to a symbol (`PngFixedCodes.FixedDistInRange`).
* Several guards of the LZ4 search can never fire (`Lz4Matcher.ProtectAlways` and the bounds in
  `Lz4Matcher.JumpBounds`), and the bounds guard of the Adam7 decoder never fails (`PngAdam7.PassInside`).

## Model

| member | source | states |
|---|---|---|
| Bytes.CopyMatch | crate/src/lz4.rs:140-186 | an overlapping copy keeps what is there and makes every new byte equal the byte one offset before it |
| Bytes.CopyMatchUnique | crate/src/lz4.rs:140-186 | those properties determine the copy, which is what ties every way of copying to it |
| Lz4Decoder.CopyWords | crate/src/lz4.rs:141-154 | eight-byte words that overshoot the end give the byte-wise copy when the offset is at least 8, inside eight bytes of slack |
| Lz4Decoder.CopyPattern | crate/src/lz4.rs:155-179 | storing one eight-byte pattern repeatedly gives the byte-wise copy for offsets 1, 2 and 4 |
| Lz4Decoder.CopyBytes | crate/src/lz4.rs:180-186 | the remaining offsets |
| Lz4Decoder.ReadRun | crate/src/lz4.rs:77-90 | a length nibble and its extension bytes, or truncation |
| Lz4Decoder.LiteralsInto | crate/src/lz4.rs:77-102 | literals are appended, or the exact error the reference meets first |
| Lz4Decoder.MatchInto | crate/src/lz4.rs:104-188 | a match is appended as the reference appends it, or fails with the same error |
| Lz4Decoder.Decompress | crate/src/lz4.rs:51-195 | on every input, valid or malformed, the result or error of the byte-at-a-time reference (lines 1433-1532); no overshoot survives |
| Lz4Encoding.PushRun | crate/src/lz4.rs:964-971 | a length run is written as its 255s and remainder |
| Lz4Encoding.PushRunByPairs | crate/src/lz4.rs:984-994 | the loop that writes two bytes a turn writes the same run |
| Lz4Encoding.EncodeSequence | crate/src/lz4.rs:953-1001 | exactly one sequence of the block format is appended: token, literal length, literals, offset, match length |
| Lz4Encoding.EmitLastLiterals | crate/src/lz4.rs:1297-1311 | the final sequence: a token and literals, no match |
| Lz4Encoding.DecodeOneSequence | crate/src/lz4.rs:70-188 | decoding the bytes of a sequence copies its literals, then its match |
| Lz4Encoding.DecodeMatches | crate/src/lz4.rs:70-188 | the decoder, fed the sequences of any valid parse, arrives at the prefix the parse covers |
| Lz4Encoding.RoundTrip | crate/src/lz4.rs:51-195 | any valid parse, whoever chose its matches, decodes back to the buffer |
| Lz4Exactly.SequencesRead | crate/src/lz4.rs:51-195 | any sequences of the block format decode to what they denote, canonical or not, whatever the free half of the last token holds |
| Lz4Exactly.SequencesSound | crate/src/lz4.rs:51-195 | input that decodes is made of such sequences |
| Lz4Exactly.DecodesExactly | crate/src/lz4.rs:51-195 | the decoder returns given bytes if and only if the input is a block that denotes them and they have the size asked for, or both are empty |
| Lz4Encoding.PriceIsExact | crate/src/lz4.rs:935-951 | the price functions are the exact sizes of what is written |
| Lz4Encoding.EncodedSize | crate/src/lz4.rs:1023 | no parse expands a buffer by more than n / 255 + 2 bytes, inside the reserved n / 255 + 16 |
| Lz4Counters.Count | crate/src/lz4.rs:226-287 | counting sixteen and eight bytes at a time, with an overlapping last word, equals the byte-wise count |
| Lz4Counters.CountTail | crate/src/lz4.rs:226-287 | the re-read last word, or bytes when it would start before the buffer, finishes the same count |
| Lz4Counters.CommonLengthUnique | crate/src/lz4.rs:226-287 | the count is determined by equality up to it and difference at it |
| Lz4Counters.CountPattern | crate/src/lz4.rs:506-532 | the longest forward run of a repeated four-byte pattern |
| Lz4Counters.ReverseCountPattern | crate/src/lz4.rs:534-566 | the longest backward run, through full words, half words and a shifted tail |
| Lz4Counters.RotatedInPhase | crate/src/lz4.rs:506-566 | a rotated pattern continues the run at any phase |
| Lz4Tables.HcCtx.constructor | crate/src/lz4.rs:333-351 | fresh tables are quiet and already rebased |
| Lz4Tables.HcCtx.Prepare | crate/src/lz4.rs:367-377 | from any quiet tables, every entry ends up at least 64 KiB behind the base, and no index of the buffer, nor one 64 KiB above it, wraps |
| Lz4Tables.HcCtx.NothingIndexed | crate/src/lz4.rs:353-366 | rebased tables say of any buffer what cleared ones would |
| Lz4Tables.HcCtx.LinkValues | crate/src/lz4.rs:396-403 | the packed pair of links is a function of the buffer alone, whatever stale slots hold |
| Lz4Tables.HcCtx.Link | crate/src/lz4.rs:410-422 | linking a position keeps the tables exact for the last 64 Ki positions |
| Lz4Tables.HcCtx.Insert | crate/src/lz4.rs:379-424 | in batches or singly, every position up to the target is indexed |
| Lz4Tables.HcCtx.QuietAfter | crate/src/lz4.rs:1022 | once `hi` covers the buffer the tables are quiet again, ready for the next |
| Lz4Search.ProbeGenuine | crate/src/lz4.rs:664-696 | a match counted by the probe is genuine and ends by the limit |
| Lz4Search.RunsMatch | crate/src/lz4.rs:739-797 | two runs of one byte match for as long as both last, without comparing bytes |
| Lz4Search.PatternJumpOk | crate/src/lz4.rs:698-802 | a pattern jump keeps the longest match genuine |
| Lz4Search.AdvanceOk | crate/src/lz4.rs:804-898 | so does every step, by chain walk, chain swap or pattern jump |
| Lz4Search.FindMatch | crate/src/lz4.rs:906-932 | every match is genuine, at an offset of 1 to 65535, at least four bytes long, and keeps the end-of-block conditions |
| Lz4Longest.SwapCompletes | crate/src/lz4.rs:587-607 | swapping chains passes over no place that matches further than the longest match so far |
| Lz4Longest.SwapLongest | crate/src/lz4.rs:587-607 | of the links inside a match of at most nineteen bytes the scan chooses the longest |
| Lz4Longest.PatternJumpCompletes | crate/src/lz4.rs:698-802 | neither does a pattern jump |
| Lz4Longest.AdvanceCompletes | crate/src/lz4.rs:804-898 | nor any step; each goes back, and the longest match never gets shorter |
| Lz4Longest.Exhaustive | crate/src/lz4.rs:804-898 | a search that ends with attempts left, or starts within the first 96 bytes, has followed its chain to the end of the window |
| Lz4Longest.FindsLongest | crate/src/lz4.rs:906-932 | such a search finds the longest match in the window, the nearest of that length, and none exactly when no place matches four bytes |
| Lz4Longest.FindsNearest | crate/src/lz4.rs:906-932 | any match found, attempts left or not, cannot be extended and is longer than every nearer one |
| Lz4Longest.AtLeastHead | crate/src/lz4.rs:664-696 | nor is it shorter than the match at the head of the chain |
| Lz4Longest.ReadsWord | crate/src/lz4.rs:219-223 | the hash looks at exactly the little-endian number of four bytes |
| Lz4Matcher.RecountInRun | crate/src/lz4.rs:609-625 | anywhere in a remembered maximal run, recounting would give the remembered distances |
| Lz4Matcher.PatternMemo.Runs | crate/src/lz4.rs:705-737 | remembered or counted, the run lengths are the recounted ones |
| Lz4Matcher.ProtectAlways | crate/src/lz4.rs:568-571 | inside one buffer the wrapping dictionary guard never fires, so its failure branches are dead |
| Lz4Matcher.LowestIndex | crate/src/lz4.rs:640-647 | the window test in 32-bit indices gives the lowest position a match may start at, without wrapping |
| Lz4Matcher.ChainSwapScan | crate/src/lz4.rs:587-607 | the accelerated scan of the links inside a match |
| Lz4Matcher.JumpInRun | crate/src/lz4.rs:739-797 | the index arithmetic of a jump computes the jump of the specification |
| Lz4Matcher.PatternPath | crate/src/lz4.rs:698-802 | whether to jump, and where, with the memo |
| Lz4Matcher.WalkPairs | crate/src/lz4.rs:804-869 | the two-links-a-turn phase is the single-loop walk |
| Lz4Matcher.WalkSwapped | crate/src/lz4.rs:871-898 | so is the phase after a chain swap |
| Lz4Matcher.FindLongerMatch | crate/src/lz4.rs:628-932 | over tables, memo and word counters, the match the walk over the buffer alone finds |
| Lz4Matcher.StaleHead | crate/src/lz4.rs:657-804 | a head from before the base ends the search as an empty chain does |
| Lz4Parse.FirstTableOk | crate/src/lz4.rs:1073-1108 | the first table of a block: every entry is a literal or a genuine match that ends at its position |
| Lz4Parse.RelaxedOk | crate/src/lz4.rs:1162-1222 | relaxing keeps that of every live entry, whatever the prices |
| Lz4Parse.PathTiles | crate/src/lz4.rs:1264-1281 | walking any live table back from any position tiles exactly the bytes before it with literals and genuine matches |
| Lz4Parse.BlockTiles | crate/src/lz4.rs:1227-1246 | a block's hops, forced final match included, tile exactly the bytes the block consumes |
| Lz4Parse.PlaceOk | crate/src/lz4.rs:1283-1295 | hops laid end to end extend a valid parse |
| Lz4Parse.DecompressCompressed | crate/src/lz4.rs:1011-1315 | decompressing what was compressed gives the buffer back, for every buffer up to the decompression limit |
| Lz4Parse.CompressedSize | crate/src/lz4.rs:1023 | compressed output fits the reserved n + n / 255 + 16 |
| Lz4Parse.EndOfBlock | crate/src/lz4.rs:1031-1042 | matches start at least 12 bytes and end at least 5 bytes before the end; short buffers have none |
| Lz4Choices.RelaxedChooses | crate/src/lz4.rs:1162-1222 | up to the last match position each entry becomes the cheapest of the old step, more literals and the match shortened to end there, with the code's ties; literals follow |
| Lz4Choices.TurnSearches | crate/src/lz4.rs:1110-1160 | a position is left without a search only when neither its next byte nor a match could be cheaper; a long match ends the block |
| Lz4Choices.SkipsUnmatched | crate/src/lz4.rs:1039-1059 | between blocks, places where the search finds nothing become literals, and no others |
| Lz4Choices.TakesLongMatch | crate/src/lz4.rs:1061-1072 | a match of more than 64 bytes at the next place with any is taken whole |
| Lz4Choices.OnlyLiterals | crate/src/lz4.rs:1039-1059 | a buffer without matches is stored as literals |
| Lz4Choices.CompressedRun | crate/src/lz4.rs:1011-1315 | the exact bytes more than 70 equal bytes are compressed to |
| Lz4Prices.TurnPrices | crate/src/lz4.rs:1110-1225 | a turn of the parser keeps every live price within the price of the literals before the block and twice the position |
| Lz4Prices.BlockPrices | crate/src/lz4.rs:1073-1233 | so does a whole block, from its first table on |
| Lz4Prices.PricesFit | crate/src/lz4.rs:1110-1225 | in a buffer of at most 2139086872 bytes no live price, and nothing computed from one, leaves `i32` |
| Lz4Prices.MatchPriceFits | crate/src/lz4.rs:1178-1214 | neither does the price of a new match entry |
| Lz4Prices.LiteralsFitExactly | crate/src/lz4.rs:935-942 | the price of a run of literals fits `i32` if and only if the run has at most 2139095039 |
| Lz4Compressor.FillFirstEntries | crate/src/lz4.rs:1073-1100 | the incremental cost of the first match's lengths is the price of each |
| Lz4Compressor.RelaxMatchInto | crate/src/lz4.rs:1178-1214 | the in-place relaxation, with its running price and moving last position, is the relaxation on values |
| Lz4Compressor.Relax | crate/src/lz4.rs:1162-1222 | literals, match and trailing literals together |
| Lz4Compressor.ReversePath | crate/src/lz4.rs:1264-1281 | after turning the links around in place, the table read forwards from 0 spells the path read backwards before |
| Lz4Compressor.WriteHops | crate/src/lz4.rs:1283-1295 | the forward walk writes exactly the placed matches and leaves the literals between them to the next sequence |
| Lz4Compressor.EncodePath | crate/src/lz4.rs:1253-1295 | a finished block is written as the parse says, ending where the block ends |
| Lz4Compressor.ParseBlockInto | crate/src/lz4.rs:1073-1233 | the in-place parser stops where the parser on values stops, with the same final match |
| Lz4Compressor.CompressTurn | crate/src/lz4.rs:1039-1246 | one turn of the main loop advances output and parse together |
| Lz4Compressor.CompressWithCtx | crate/src/lz4.rs:1019-1250 | the output is a function of the buffer alone; the tables are left quiet |
| Lz4Compressor.CompressHc | crate/src/lz4.rs:1011-1017 | the same with a pooled context in any quiet state |
| Lz4Compressor.ReuseMatchesFresh | crate/src/lz4.rs:353-377 | after any history of buffers a reused context gives exactly the bytes a fresh one gives, and they decompress to the buffer |
| PngBits.LoadAbove | crate/src/png.rs:48-55 | bytes loaded above the buffered bits come after them in the stream |
| PngBits.TakeLow | crate/src/png.rs:64-67 | masking takes the first bits, shifting leaves the others |
| PngBits.BitReader.Ensure | crate/src/png.rs:47-57 | loading consumes nothing, and fails only when too few bits are left |
| PngBits.BitReader.GetBits | crate/src/png.rs:60-69 | exactly the next unread bits, LSB first, are taken |
| PngBits.BitReader.AlignByte | crate/src/png.rs:72-76 | exactly the bits up to the next byte boundary of the stream are dropped |
| PngHuffman.CodeFits | crate/src/png.rs:86-107 | under the Kraft inequality each canonical code fits its length |
| PngHuffman.KraftExactly | crate/src/png.rs:86-127 | the Kraft inequality holds if and only if every symbol has a codeword |
| PngHuffman.PrefixBeyond | crate/src/png.rs:110-127 | every proper prefix of a codeword lies beyond the codes of its own length |
| PngHuffman.DecodeCodeword | crate/src/png.rs:110-127 | for any lengths, over-subscribed ones included, decoding the codeword of a symbol whose code fits its length gives the symbol and consumes exactly the codeword |
| PngHuffman.DecodeExactly | crate/src/png.rs:110-127 | for any lengths a symbol is returned exactly when its code fits and the bits start with its codeword |
| PngHuffman.DecodeSound | crate/src/png.rs:110-127 | for any lengths, what is decoded is the codeword of the symbol returned |
| PngHuffman.PrefixFree | crate/src/png.rs:86-127 | no codeword starts another, for any lengths |
| PngHuffman.BuildTable | crate/src/png.rs:86-107 | counts, offsets and symbols of any list of lengths, each region filled with the symbols of its length in order |
| PngHuffman.DecodeSymbol | crate/src/png.rs:110-127 | over the reader, the decoder on bit sequences, for any lengths at all; the symbol table is never indexed outside |
| PngInflater.MatchAfter | crate/src/png.rs:160-169 | length, extra bits, distance symbol and extra bits, with the error met first |
| PngInflater.CopyBack | crate/src/png.rs:173-177 | the byte-by-byte copy from the growing output is the overlapping copy |
| PngInflater.InflateBlockHuffman | crate/src/png.rs:145-181 | the loop over symbols has the outcome of the decoder on bit sequences, errors included |
| PngInflater.InflateStoredBlock | crate/src/png.rs:282-294 | alignment, length, complement and bytes of a stored block |
| PngInflater.ReadDynamicHuffman | crate/src/png.rs:205-267 | the tables of a dynamic block, with each of its errors |
| PngInflater.BuildFixedHuffman | crate/src/png.rs:183-199 | the tables of the fixed codes |
| PngInflater.Inflate | crate/src/png.rs:269-310 | on every input, well formed or not, the outcome of the decoder on bit sequences |
| PngDeflate.TokenReads | crate/src/png.rs:145-181 | inflating the bits of a token applies the token |
| PngDeflate.TokensRead | crate/src/png.rs:145-181 | inflating the bits of any token list, under any code lengths that give its symbols codewords, gives the bytes the tokens denote |
| PngFixedCodes.FixedCodes | crate/src/png.rs:183-199 | the canonical codes of the fixed lengths are the codes section 3.2.6 of RFC 1951 lists |
| PngFixedCodes.FixedLitKraft | crate/src/png.rs:183-199 | they satisfy the Kraft inequality |
| PngFixedCodes.FixedDistCodes | crate/src/png.rs:183-199 | distance codes are their symbols in five bits |
| PngFixedCodes.FixedDistKraft | crate/src/png.rs:183-199 | and satisfy the Kraft inequality |
| PngFixedCodes.FixedDistInRange | crate/src/png.rs:197-198 | in a fixed block every distance symbol decoded is below 30, so none is reported as invalid |
| PngFixedCodes.LengthsContiguous | crate/src/png.rs:129-135 | the length ranges follow one another without gap, up to 258 |
| PngFixedCodes.DistancesContiguous | crate/src/png.rs:136-143 | so do the distance ranges |
| PngFixedCodes.ExtraBitsPattern | crate/src/png.rs:133-143 | extra bits grow with the symbols as section 3.2.5 of RFC 1951 lays them out |
| PngFixedCodes.EveryMatchHasToken | crate/src/png.rs:129-143 | the tables cover every length from 3 to 258 and every distance from 1 to 32768 |
| PngDynamicCodes.OpsRead | crate/src/png.rs:217-262 | reading run-coded code lengths expands the runs |
| PngDynamicCodes.Arranged | crate/src/png.rs:201-213 | lengths are put where the table says, the others stay |
| PngDynamicCodes.ArrangedCode | crate/src/png.rs:201-213 | the lengths sent end up at the symbols section 3.2.7 of RFC 1951 sends them for, given by a formula and not by the table |
| PngDynamicCodes.HeaderReads | crate/src/png.rs:205-267 | reading the header of a dynamic block gives the code lengths it describes, the transmission order again by formula |
| PngDeflateStream.StoredReads | crate/src/png.rs:282-294 | a stored block, at any bit position and after any padding, gives its bytes |
| PngDeflateStream.BlockReads | crate/src/png.rs:279-306 | any block, final or not, gives what it denotes |
| PngDeflateStream.StreamInflates | crate/src/png.rs:269-310 | any stream of stored, fixed and dynamic blocks inflates to what it denotes, exactly when the bytes before the last block stay within the cap |
| PngDeflateStream.TrueSizeInflates | crate/src/png.rs:269-310 | given the true size, always |
| PngInflateExactly.TokensSound | crate/src/png.rs:145-181 | bits on which the symbol loop succeeds are those of a token list that denotes the output |
| PngInflateExactly.StoredSound | crate/src/png.rs:282-294 | an accepted stored block is padding, length, complement and the bytes appended |
| PngInflateExactly.HeaderSound | crate/src/png.rs:205-267 | an accepted dynamic header is the encoding of the code lengths read |
| PngInflateExactly.PiecesSound | crate/src/png.rs:269-310 | whatever is accepted is a stream of blocks that denotes the output |
| PngInflateExactly.InflatesExactly | crate/src/png.rs:269-310 | inflating returns given bytes if and only if some stream of blocks starts the data, denotes them and keeps within the cap before its last block |
| PngInflate.CapIs | crate/src/png.rs:270 | the cap is a sixteenth above the size expected, or 4096 bytes above when that is more |
| PngFilter.PaethIsNearest | crate/src/png.rs:538-550 | the predictor is the neighbour closest to a + b - c, with ties left, above, upper left |
| PngFilter.RowRoundTrip | crate/src/png.rs:571-603 | unfiltering undoes filtering, for each filter type |
| PngFilter.FilterUnfiltered | crate/src/png.rs:571-603 | and filtering undoes unfiltering: each filter is a bijection on rows |
| PngFilter.ImageRoundTrip | crate/src/png.rs:552-606 | an image filtered with any filter on each row comes back |
| PngFilter.Reconstruction | crate/src/png.rs:552-606 | every byte of every decoded image satisfies the equation of section 6 of RFC 2083 on its neighbours in the image |
| PngFilter.FilterEquations | crate/src/png.rs:552-606 | the five equations written out for every byte of every decoded image |
| PngUnfilter.UnfilterRowInto | crate/src/png.rs:561-603 | one row rebuilt in place, rows above untouched; only filter types 0 to 4 are accepted |
| PngUnfilter.Unfilter | crate/src/png.rs:552-606 | the in-place decoder, short data and bad filter types included |
| PngPixels.SampleBack | crate/src/png.rs:609-623 | samples packed at any depth are read back |
| PngPixels.PixelSizes | crate/src/png.rs:507-511 | the distance from a pixel to the next, for each format |
| PngPixels.RowSizes | crate/src/png.rs:513-517 | a row is the fewest bytes that hold the bits of its pixels |
| PngColors.ScaleIsNearest | crate/src/png.rs:626-641 | scaling to eight bits maps 0 to 2^depth - 1 onto 0 to 255, rounding to the nearest |
| PngColors.PackedColor | crate/src/png.rs:672-776 | every pixel of packed rows, of every colour type, has the colour of its samples |
| PngAdam7.OnePass | crate/src/png.rs:778-781 | every pixel is in exactly one pass |
| PngAdam7.PassInside | crate/src/png.rs:783-799 | a pass has exactly the positions that fall inside the image, so the decoder's bounds guard always holds |
| PngAdam7.WrittenOnce | crate/src/png.rs:835-851 | over the seven passes each pixel of the image is written exactly once |
| PngInterlace.PassesRead | crate/src/png.rs:801-854 | the filtered passes, one after the other, unfilter to the passes, unless a pass has a pixel without a colour |
| PngInterlace.InterlaceRoundTrip | crate/src/png.rs:801-854 | any image of any format, split into passes with any filters, decodes to its colours, and fails exactly when a pixel has none |
| PngInterlace.EstimateIsExact | crate/src/png.rs:519-535 | for every format, data shorter than the estimate fails, longer data never fails for being short, and only the estimated bytes are looked at |
| PngDeinterlacer.EstimateRawSize | crate/src/png.rs:519-535 | for every format, the loop over passes adds up what the decoder reads |
| PngDeinterlacer.ScatterPass | crate/src/png.rs:830-851 | every pixel of a pass shows its colour and every other pixel is unchanged, or some pixel of the pass has no colour |
| PngDeinterlacer.DecodeAdam7 | crate/src/png.rs:801-854 | on every input of every format, the image assembled from the passes, or the first error |
| PngDecoder.ZlibInflate | crate/src/png.rs:324-350 | the zlib header checks in order, then the inflated body |
| PngDecoder.ZlibBodyIs | crate/src/png.rs:324-350 | exactly which two header bytes are accepted, and where the compressed data then starts |
| PngDecoder.ToRgba8 | crate/src/png.rs:644-776 | the image of the colours of unfiltered rows, or the error of a pixel without one |
| PngDecoder.Decode | crate/src/png.rs:484-504 | from image data to pixels, of every format, interlaced or not, or the first error |
| PngDecoder.ImageDecodes | crate/src/png.rs:484-504 | any image of any format with any filters, in any blocks behind any valid zlib header, interlaced or not, decodes to its colours, and fails exactly when a pixel has none |
| PngDecoder.RgbaPicture | crate/src/png.rs:742-753 | an 8-bit RGBA image is its own picture |
| PngPictures.GreyPicture | crate/src/png.rs:715-724 | grey pixels show their scaled sample, transparent exactly where it is the one named |
| PngPictures.RgbPicture | crate/src/png.rs:732-741 | RGB pixels show their scaled samples, transparent exactly where they are the colour named |
| PngPictures.GreyAlphaPicture | crate/src/png.rs:725-731 | grey pixels with alpha show both scaled samples |
| PngPictures.RgbaSamplesPicture | crate/src/png.rs:742-753 | RGBA pixels show their four scaled samples |
| PngPictures.PalettePicture | crate/src/png.rs:754-770 | palette pixels show the entry of their index and its transparency byte, opaque when there is none |
| PngPictures.PaletteShown | crate/src/png.rs:754-770 | a palette image has a picture exactly when every index has a whole entry |
| PngChunks.KindNames | crate/src/png.rs:352-427 | the signature and the kinds of chunks are the names of the format |
| PngChunks.HeaderBack | crate/src/png.rs:387-417 | a header is read from its thirteen bytes and from no others |
| PngChunks.Collect | crate/src/png.rs:372-430 | the loop over chunks, with its errors |
| PngChunks.ChunksRead | crate/src/png.rs:372-430 | any chunks before the end chunk are read back in order |
| PngChunks.Absorbed | crate/src/png.rs:386-427 | image data is joined, of every other kind the last chunk counts, other chunks are ignored, and reading fails exactly when a header is bad |
| PngDecoder.HeaderAccepted | crate/src/png.rs:432-482 | exactly which headers are accepted: not empty, at most 64 Mi pixels, and one of the formats |
| PngDecoder.DecodeRgba8 | crate/src/png.rs:367-505 | on every byte string, the image or the first error |
| PngDecoder.FileDecodes | crate/src/png.rs:367-505 | a file of an image decodes to the image's size and colours, however its data is cut into chunks, whatever other chunks lie between and whatever follows the end |
| DigestPool.Workers | crate/src/live.rs:163 | at least one worker, no more than jobs or work calls for |
| DigestPool.StepKeepsInv | crate/src/live.rs:165-180 | no step loses an index, claims one twice or fills a wrong slot |
| DigestPool.FinishedIsFull | crate/src/live.rs:165-180 | when all workers have stopped, every slot holds its own outcome |
| DigestPool.StepDecreases | crate/src/live.rs:165-180 | no schedule runs forever |
| DigestPool.CanStep | crate/src/live.rs:165-180 | until all have stopped, some worker can move |
| DigestPool.AssembleIsSerial | crate/src/live.rs:183-199 | assembling full slots over the filtered work is the serial scan over all items |
| DigestPool.PoolIsSerial | crate/src/live.rs:142-200 | for any jobs and any schedule a finished pool reports what a serial scan of first occurrences does, having claimed every index exactly once |
| DigestPool.PoolReports | crate/src/live.rs:182-199 | what the report says: the digest of exactly the hashes whose first GLB has one, exactly those not deployed, and every failure of a first GLB in item order |
| FetchLocks.LocksBounded | crate/src/live.rs:202-228 | over every run the map holds at most as many locks as its capacity allows, or one when that is 0 |
| FetchLocks.StepKeepsInv | crate/src/live.rs:202-228 | with room for every key, no lock is ever replaced and its holders are exactly the threads inside |
| FetchLocks.SingleFetch | crate/src/live.rs:386-420 | at most one thread per key is past the second check; writes of a key and evictions of it balance exactly, and it is fetched again only after a failed write or an eviction |
| FetchLocks.OnceWithoutEviction | crate/src/live.rs:386-420 | as long as nothing is evicted, each key is written at most once, and never if it was there |
| FetchLocks.WrittenTwice | crate/src/live.rs:372-420 | one eviction in between brings a second write, by a single thread and whatever the capacity |
| FetchLocks.TwoInside | crate/src/live.rs:202-228 | otherwise a run puts two threads past the check for one key |
| FetchLocks.ExclusiveExactly | crate/src/live.rs:202-228 | mutual exclusion over all runs holds if and only if the keys asked for fit the lock map |
| JitCache.JitDiskCache.constructor | crate/src/jitcache.rs:57-67 | an empty cache |
| JitCache.JitDiskCache.Bump | crate/src/jitcache.rs:46-54 | the entry moves to the newest tick, nothing else changes |
| JitCache.JitDiskCache.Pin | crate/src/jitcache.rs:81-105 | one more guard, on a new empty entry or on the entry made newest |
| JitCache.JitDiskCache.DropGuard | crate/src/jitcache.rs:32-44 | one guard less; the last guard of an empty entry removes it from both maps; the count never saturates |
| JitCache.JitDiskCache.Record | crate/src/jitcache.rs:107-148 | the new size, at least the old one while pinned, as the newest entry; then the total fits or everything that takes space is pinned |
| JitCache.JitDiskCache.RecordedEntry | crate/src/jitcache.rs:107-148 | a pinned entry never shrinks and takes one of the two sizes; any other takes the size recorded |
| JitCache.JitDiskCache.Touch | crate/src/jitcache.rs:150-158 | a present entry becomes the newest |
| JitCache.JitDiskCache.SeedMany | crate/src/jitcache.rs:160-187 | new non-empty items in order, then eviction as above |
| JitCache.SeededIs | crate/src/jitcache.rs:160-187 | seeding keeps every entry and adds exactly the new keys of non-empty items, each with its first item, unpinned and in item order |
| JitCache.JitDiskCache.Oldest | crate/src/jitcache.rs:193-201 | the scan in tick order finds the evictable entry older than every other |
| JitCache.JitDiskCache.EvictLocked | crate/src/jitcache.rs:190-212 | victims are unpinned, non-empty, older than every evictable survivor, and no more than needed |
| JitCache.EvictedMore | crate/src/jitcache.rs:190-212 | evicting the oldest extends a correct eviction |
| JitCache.Run | crate/src/jitcache.rs:56-188 | over every run of operations the maps stay in bijection, the total is the sum of the sizes and reference counts are the live guards |
| AlphaBleed.SpreadOk | crate/src/alpha_bleed.rs:45-80 | after the rounds a pixel has a seed exactly when an opaque pixel reaches it by at most one axis step of each length in order; seeds are opaque and within the summed distance |
| AlphaBleed.TapsAre | crate/src/alpha_bleed.rs:60-65 | the taps are exactly the places of the image one axis step away |
| AlphaBleed.RoundNearest | crate/src/alpha_bleed.rs:53-76 | after a round a transparent pixel's seed is at most as far as that of any place a step away |
| AlphaBleed.BledPixel | crate/src/alpha_bleed.rs:82-93 | alpha and opaque pixels never change; a reached transparent pixel takes the colour of an opaque pixel at L1 distance at most 31, any other keeps its own |
| AlphaBleed.BledAt | crate/src/alpha_bleed.rs:3-94 | the same on coordinates and whole pixels |
| AlphaBleed.BledFromBeside | crate/src/alpha_bleed.rs:3-94 | a transparent pixel with an opaque one directly beside, above or below takes the colour of such a pixel |
| AlphaBleed.NothingToBleed | crate/src/alpha_bleed.rs:10-24 | the early return changes nothing the flood would change |
| AlphaBleed.PackUnpack | crate/src/alpha_bleed.rs:26-43 | packed seeds give their coordinates back, as signed numbers too, and never collide with -1 |
| AlphaBleed.PickPacked | crate/src/alpha_bleed.rs:53-76 | comparing packed seeds picks the seed the index form picks |
| AlphaBleed.FillRound | crate/src/alpha_bleed.rs:45-80 | one round from one buffer into the other |
| AlphaBleed.Recolour | crate/src/alpha_bleed.rs:82-93 | colours are copied from the snapshot, not from pixels already recoloured |
| AlphaBleed.AlphaBleedInPlace | crate/src/alpha_bleed.rs:3-94 | the packed form equals the index-seed form (lines 98-173) for every image it can pack |
| Sha256Stream.Sha256.UpdateInternal | crate/src/hashes.rs:123-146 | the state absorbs exactly the data, in whole blocks, and buffers the rest |
| Sha256Stream.Sha256.Update | crate/src/hashes.rs:77-101 | the same, with the length counted modulo 2^64 |
| Sha256Stream.Sha256.Finalize | crate/src/hashes.rs:103-121 | exactly the padding is absorbed, the buffer is left empty, and the digest is that of the message |
| Sha256Stream.PaddingFills | crate/src/hashes.rs:103-115 | message and padding fill whole blocks |
| Sha256Stream.ZerosFewest | crate/src/hashes.rs:106-113 | the zeros are the fewest that do |
| Sha256Stream.PaddingLength | crate/src/hashes.rs:104-114 | below 2^64 bits the last eight bytes are the message length in bits |
| Sha256Stream.PaddingBits | crate/src/hashes.rs:103-115 | the padding as bits: a one, the fewest zeros, and the length in bits modulo 2^64 |
| Sha256Stream.HashChunks | crate/src/hashes.rs:77-121 | however a message is cut into updates, its digest is the same |
| Sha256Stream.StateIsDetermined | crate/src/hashes.rs:77-146 | the state depends only on what was absorbed |
| Thresholds.Curve.BuildTable | crate/src/dxt1_pure.rs:317-337 | each entry is the smallest argument that reaches its level |
| Thresholds.Curve.ThresholdCompares | crate/src/dxt1_pure.rs:311-316 | comparing with a threshold is comparing with its level |
| Thresholds.Curve.Lookup | crate/src/dxt1_pure.rs:339-353 | eight halving steps give the function's own value at every point, clamped arguments included |
| Dates.YearOfEraHolds | crate/src/dates.rs:5 | the closed formula finds the year that holds the day |
| Dates.MonthHolds | crate/src/dates.rs:8 | and the month |
| Dates.EraOfDayFloors | crate/src/dates.rs:3 | truncating division after the shift rounds down, for negative days too |
| Dates.DateOfEveryDay | crate/src/dates.rs:1-23 | every integer day is a valid Gregorian date that converts back to it |
| Dates.DayOfEveryDate | crate/src/dates.rs:1-23 | every valid date, negative years included, is the date of its day |
| Dates.ConsecutiveDays | crate/src/dates.rs:1-13 | the date of the next day is the next date of the calendar |
| Dates.Epoch | crate/src/dates.rs:1-23 | day 0 is 1 January 1970, which with the above fixes every date |

## Left out

LZ4:

* SIMD bodies (`hash_batch_8_avx2` and the like): the scalar hash of each position is their meaning.
* Machine words are sequences of their bytes in memory order; exclusive-or followed by a count of
  trailing or leading zeros is the first or last differing byte.
* `count_back` and the other branches for a look-back length above zero: the only caller passes zero.
* The cached `lo16` and `mo_add` are recomputed where they are used.
* The tests `distance > match_index`, the window test in the pattern path and the failure branches of
  `protect_dict_end`: the bounds proved show that they are never taken.
* The thread-local pool: the context is a parameter.

- Lz4Compressor.CompressHc: buffers are at most `i32::MAX` bytes, since the code keeps positions and match lengths in `i32`. Up to `Lz4Prices.MAX_PRICED` bytes prices fit `i32` too; between the two limits the table, tiling and round-trip results hold whatever the prices are, but which matches the code chooses is not modelled.
- Lz4Compressor.CompressWithCtx: the same limit on the buffer.
- Lz4Compressor.ReuseMatchesFresh: the same limit on every buffer of the history.

PNG:

* Chunk checksums, which the decoder skips unread.
* Sizes and positions are unbounded integers; in the code they are `usize`, taken to be 64 bits wide.

- PngHuffman.DecodeSymbol: counts, codes and table offsets are unbounded integers; the reader's buffer does keep its 32 bits.

Protocols and cache:

* What a digest or a fetch computes, and the file system, network and metrics around it.
* Poisoned locks and panicking threads.
* `live.rs` apart from the lock map, `ensure_content` and the digest pool.

- FetchLocks.SingleFetch: any stored key may be evicted at any time, which allows more runs than the cache's budget and pins do.
- JitCache.JitDiskCache.EvictLocked: renaming and deleting the victims' files is not modelled; the victims' keys are returned.
- JitCache.JitDiskCache.Record: the total and the clock are unbounded, so `u64` overflow is not modelled.

Kernels:

- Sha256Stream.Sha256.Finalize: the block function and the initial value are parameters, and the digest is the final hash value before its bytes are laid out.
- Thresholds.Curve.Lookup: floats in [0, 1] are their order-preserving bit patterns, so NaN is excluded; that the colour curve is monotone is assumed of the function, as in the code.
- Dates.DateOfEveryDay: over all integers, not the `i64` range; `iso8601_utc` is not modelled.
