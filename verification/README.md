# zlib, modelled and proved

A Dafny model of the zlib that this repository carries, and proofs about it: compression from the calls of
`deflate()` down to the bits, the checksums, and the file layer on top. A small extra is the disassembly loop of
Capstone. `dafny verify dfyconfig.toml` checks all of it.

The main results:

- **Round trip.** Whatever the level, strategy, wrapper, and division of input and output into calls, a stream that
  has come to its end is read back as its input by a decoder written from RFC 1950, 1951 and 1952
  (`Members.ReadsBack`), and repeated calls with Z_FINISH do come to that end (`Members.FinishUp`). Nothing is assumed
  about the encoder: trees are built, limited, described and sent as `trees.c` does it. `compress2()` as a whole comes
  back with its source, or has used up its space (`Compress.Compress2`).
- **Flushing.** What a sync or full flush has delivered decodes to all input given so far (`Members.FlushedReads`), and
  what follows a full flush is decoded without anything before it (`Members.RestartReads`), wherever in a run of calls
  it was (`Members.Run`).
- **Matching.** Every link of a hash chain leads to the last string inserted before with the same hash, and stays right
  when the window slides. So `longest_match()` finds only real repetitions, and none that the chain budget allows to see
  is longer, unless it stopped at a nice one (`LongestMatch.LongestMatch`). What the compressors make of it, symbol by
  symbol, is stated for each step (`DeflateSlow.Step`, `DeflateFast.Step`, `DeflateRle.Step`).
- **Huffman trees.** No code that fits takes fewer bits, unless the tree is deeper than the limit, for which there must
  be as many symbols as a Fibonacci number says (`HuffmanOptimal.LeastOrDeep`). Codes are prefix-free, use the code
  space exactly even after lengths were cut off, and the lengths the encoder keeps are exactly the bits it sends.
- **CRC-32.** Braids of every shape, in both byte orders, give the message times x^32 modulo the polynomial, conditioned
  as RFC 1952 asks (`Crc32.Crc32Z`); combination is concatenation; the table of powers wraps rightly.
- **Adler-32.** Deferred and division-free reduction are exact, and so is combination; the sums are also given in full
  (`Adler32.AdlerInFull`).
- **gz files.** Any mix of reads, pushback, seeks and gzdirect(), also on files that are cut off, is a cursor in a byte
  sequence (`GzCursor.Run`), and chance has no say in what comes out (`GzCursor.Determined`); the writer conserves data.

## Layout

| modules | source |
|---|---|
| Deflate, GzipHeader, ZlibHeader, Members, CheckValue, Compress | the calls of deflate(), headers and trailers, whole runs, compress2() |
| Compressors, DeflateSlow, DeflateFast, DeflateRle, DeflateStored | the five compressors |
| DeflateState, Window, HashFn, LongestMatch, Lz77 | window, dictionary, matcher, meaning of symbols |
| BlockFlush, Tallies, HuffmanTree, NodeHeap, HuffmanLengths, HuffmanOptimal, Kraft, BitCost, TreeSender, TreeTables | trees.c |
| PrefixCodes, Symbols, CodeLengths, BlockTrees, BlockStream, BlockFormat, BitReading | the format, and the decoder |
| Pending | bit buffer and pending buffer |
| Crc32, CrcSpec, CrcPoly, CrcPowers, CrcWords, CrcBraid, CrcBigEndian, Once | crc32.c |
| Adler32 | adler32.c |
| GzFile, GzReader, GzCursor, GzWriter | gzread.c, gzlib.c, gzwrite.c |
| Disasm | cs_disasm() and cs_disasm_iter() |
| Bits | machine words as numbers |

Input and output, and what the operating system and the inflater may do, are parameters or arbitrary choices:
`read()` and `write()` transfer any positive number of bytes or fail, the inflater stops anywhere it may.

## Findings

Places where the code does not do what its documentation says, each with an input and the exact condition.

- `adler32_z()` with a single byte reduces the second half once only. From a start that is not reduced the result can
  be one that is no checksum: exactly when `ReducedOnceTooLittle` holds, as for `Adler32.SingleByteNotReduced`
  (`Adler32.Adler32Z`; external/zlib/adler32.c:70-78).
- `gzgetc()` takes a byte from the buffer without regard to a pending seek. It returns the byte before the seek exactly
  when something is buffered while the seek is pending (`GzReader.Reader.GetC`), which only `gzdirect()` brings about,
  by looking for the header in between (`GzCursor.Run`). In a file of 10, 20, 30, seeking to 2, asking `gzdirect()` and
  reading a byte gives 10 (`GzReader.DirectSpoilsSeek`; external/zlib/gzread.c:421-427).
- A refused `gzseek()` forgets a seek that was pending. What is to come is as before if and only if none was pending or
  nothing was left to come (`GzReader.Reader.Seek`, `GzCursor.RefusedForgets`; for writing `GzWriter.Writer.SeekTo`). In
  a file reading as 10, 20, 30, after seeking to 2 and then to -1 in vain, the next byte is 10
  (`GzReader.RefusedSeekForgets`; external/zlib/gzlib.c:352-388).
- Bytes pushed back outlive `gzseek()`, although they are to be discarded when the file is repositioned
  (external/zlib/zlib.h:1531-1532). Some of them are still to come if and only if the target lies among them and the
  file is not read as it is, or is and the target is before the start (`GzCursor.SeekKeepsPushed`,
  `GzReader.Reader.Seek`). In a gzip file of 10, 20, after reading a byte, pushing back 99 and seeking to 0, the next
  byte is 99 (`GzReader.PushedOutlivesSeek`; external/zlib/gzlib.c:358-401).
- A read that ends inside a member is to leave Z_BUF_ERROR, and Z_OK only after a complete one
  (external/zlib/zlib.h:1409-1414). After a short read of such a file Z_BUF_ERROR is noted if and only if avail_out was
  not zero when gz_decomp() returned with all input used (`GzReader.Reader.ReadBytes`; the predicate `Noted` holds
  after every operation). If the last byte of input is used up just as the room for output is, the read ends with Z_OK
  and 0 bytes, even when the inflater still holds output (`GzReader.EndsUnnoticed`, `GzReader.MayEndUnnoticed`).
  gzgets() always notes it (`GzReader.Reader.Gets`; external/zlib/gzread.c:165-190, 300-303).
- A comment says that a symbol added to make a tree has index 0 or 1; it can be 2, exactly when symbol 1 is the only
  one in use. It has no extra bits either (`HuffmanTree.AtLeastTwo`; external/zlib/trees.c:653-660).

## Model

| member | source | states |
|---|---|---|
| Members.ReadsBack | external/zlib/deflate.c:946-1255 | At every level, with every strategy and wrapper: what a complete stream has delivered, with anything after it, is read by a decoder written from RFC 1951, 1950 and 1952 alone (header; blocks bit by bit with stored, fixed and dynamic codes; where the last block ends the trailer, taken apart byte by byte and compared with the Adler-32, or the CRC-32 and the length, of what was read) as the whole input, and its length is found |
| Members.TrailerRead | external/zlib/deflate.c:1226-1247 | The trailer written is one the reader accepts: Adler-32 with its most significant byte first, CRC-32 and length with the least significant first |
| Compress.Compress2 | external/zlib/compress.c:22-60 | Input and space handed over in pieces: the result is a zlib stream that reads back as the source to its last byte and begins with the two bytes known for its level (78 01, 78 5e, 78 9c, 78 da), or all the space was used up; the loop ends |
| Compress.DeflateInit | external/zlib/deflate.c:374-545 | The configuration of each level gives a stream at its start, with the sizes that memLevel 8 and 15 window bits ask for |
| Compressors.TuningGrows | external/zlib/deflate.c:112-130 | Every row meets what deflate() requires of it, the first three levels and only they take matches at once, and with the same compressor a higher level never looks for less |
| Compressors.MethodsApart | external/zlib/deflate.c:1182-1185 | Level 0 stores whatever the strategy; Z_HUFFMAN_ONLY and Z_RLE have a compressor of their own, and all else is searched, lazily from level 4 on |
| Members.Run | external/zlib/deflate.c:946-1255 | Any sequence of calls, with any division of input and output space and any flushes: input read and input waiting are together the input given, delivered bytes stay, Z_STREAM_END means that the stream is complete, a flush that leaves space over that all input has been delivered, and every full flush that did so stays a place to restart from |
| Members.FinishUp | external/zlib/zlib.h:326-332 | Calling with Z_FINISH again and again, with any output space but none at all, comes to the end of the stream and loses nothing |
| Members.FlushedReads | external/zlib/zlib.h:286-293 | After a sync or full flush that left output space over, the bytes delivered decode to all input given so far |
| Members.PartlyFlushedReads | external/zlib/zlib.h:296-303 | After a partial flush so do the bits up to the empty block, of which at least three follow |
| Members.FlushedRestarts | external/zlib/zlib.h:313-317 | A full flush that left space over makes its place one to restart from |
| Members.RestartReads | external/zlib/zlib.h:313-317 | From such a place on, the bytes of the complete stream decode to the rest of the input, with nothing known of what came before |
| Members.CompleteStream | external/zlib/deflate.c:1220-1255 | A complete stream is the header, the bits of its blocks and the trailer; and its symbols, expanded by copying, are the whole input, in whichever form each block was sent |
| Members.StrategyKept | external/zlib/deflate.c:1182-1185 | At level 0 no block holds symbols, at any other no data is stored outright; with Z_HUFFMAN_ONLY no symbol is a match, with Z_RLE every match has distance 1; no match reaches beyond MAX_DIST |
| Members.HeaderRead | external/zlib/deflate.c:991-1173 | A reader of the format finds the end of the header where the writer put it, for all three wrappers |
| Members.HeaderBytes | external/zlib/deflate.c:995-1046 | How zlib streams and gzip members begin: the two bytes for each level, and 1f 8b 08 with the byte that tells the slowest level from the fastest |
| Members.GzipRecognised | external/zlib/gzread.c:115-129 | What deflate() writes as a gzip member the gz layer takes for one |
| Members.PlainIsHeader | external/zlib/deflate.c:1034-1046 | The ten bytes written without gzip fields are the header of empty fields |
| Deflate.Stream.constructor | external/zlib/deflate.c:635-667 | A stream around a state just reset is at the start of its header, with the last flush at -2 |
| Deflate.Stream.Deflate | external/zlib/deflate.c:946-1255 | One call: nothing of the input is lost; the space used is the bytes delivered; errors are returned exactly for the calls Rejects describes, and change nothing; Z_OK means that the output space is used up or all input is read; with Z_FINISH every Z_OK brings the end closer in a well-founded order; the flush is remembered unless space ran out |
| Deflate.RanksInOrder | external/zlib/deflate.c:132-133 | The ranks put Z_BLOCK between no flush and a partial flush, and below all of them the marks of a call that ran out of space and of none at all |
| Deflate.RefusedWhen | external/zlib/deflate.c:946-992 | A call is refused exactly after the end, without output space, and when there is neither input nor output waiting and no more is asked for than before |
| Deflate.Stream.Enter | external/zlib/deflate.c:950-989 | A call is refused exactly under the four conditions of the source; what is pending goes out first, and Z_OK is returned here only when that used up all space |
| Deflate.Stream.WriteHeader | external/zlib/deflate.c:991-1173 | From wherever the last call stopped: the bytes put are always a beginning of the one header the fields define, and compression starts only with all of it put and nothing pending |
| Deflate.Stream.WriteZlib | external/zlib/deflate.c:993-1029 | The zlib header is complete when compression begins, whether or not it has been delivered |
| Deflate.Stream.WritePlain | external/zlib/deflate.c:1031-1055 | The same for the gzip header without fields |
| Deflate.Stream.WriteFixed | external/zlib/deflate.c:1056-1080 | The fixed fields are put, and taken into the CRC if the header is to have one |
| Deflate.Stream.CopyExtra | external/zlib/deflate.c:1082-1106 | The extra field is put exactly once across suspensions, in pieces as large as the pending buffer allows, and the CRC covers what is put |
| Deflate.Stream.WriteText | external/zlib/deflate.c:1109-1151 | A zero-terminated string is put exactly once across suspensions, and the CRC covers what is put |
| Deflate.Stream.HcrcUpdate | external/zlib/deflate.c:936-943 | After the bytes put since `beg` the running CRC is that of all header bytes so far, if a header CRC is wanted |
| Deflate.Stream.WriteHcrc | external/zlib/deflate.c:1152-1173 | The two bytes are the low half of the CRC-32 of all header bytes before them |
| Deflate.Stream.RunBlock | external/zlib/deflate.c:1178-1226 | The call of the compressor and what follows it: going on means that all input is read and the output is clear; stopping, that the space is used up or the input is; with Z_FINISH there is less left to compress |
| Deflate.Stream.FinishFlush | external/zlib/deflate.c:1203-1225 | A flush adds exactly its marker block, and all input is then in blocks; after a sync or full flush no bits are left over; a full flush forgets all strings and marks the place |
| Deflate.Stream.WriteTrailer | external/zlib/deflate.c:1228-1254 | The trailer is put once, after the last block; Z_STREAM_END only when nothing is pending |
| GzipHeader.HeaderParses | external/zlib/deflate.c:1056-1173 | Parsing a header that was written gives back every field, and its end; the header CRC is checked |
| ZlibHeader.HeaderFields | external/zlib/deflate.c:995-1013 | Method 8, the window size, no dictionary, the level, and a multiple of 31 |
| ZlibHeader.CommonHeaders | external/zlib/deflate.c:995-1013 | With the largest window the header is 7801, 785e, 789c or 78da by level, and 7801 for the strategies from Z_HUFFMAN_ONLY on |
| Compressors.Compress | external/zlib/deflate.c:1182-1185 | Whichever compressor is used: nothing is lost, the state between calls is kept, the results mean what deflate() takes them to mean, and with Z_FINISH there is less left to do |
| Compressors.Mark | external/zlib/deflate.c:1204-1207 | Exactly one empty block is added: a fixed one for a partial flush, else a stored one |
| Compressors.Forget | external/zlib/deflate.c:1211-1218 | After a full flush no string is known, the window is empty, any compressor may go on, and blocks from here on are known not to refer to anything before |
| DeflateSlow.Compress | external/zlib/deflate.c:1910-2030 | For every division of input and output: what has been tallied and put into blocks, the byte held back and the lookahead are together the input read; at the end all of it is in blocks, the last of which, only, is marked |
| DeflateSlow.Step | external/zlib/deflate.c:1929-2014 | One step: a match held is tallied if none longer is found at the next string, else the byte held back goes out by itself; what is found reaches the nice length or is the longest that the budget lets see, but for what is discarded; the step keeps the state and takes at least one byte |
| DeflateSlow.FindMatch | external/zlib/deflate.c:1936-1963 | longest_match() is called exactly if the match held is below max_lazy and the head of the chain within MAX_DIST, and its result kept unless it is at most 5 and filtered, or 3 and further than 4096; the match is a real repetition within the lookahead and the permitted distance |
| DeflateSlow.TallyHeld | external/zlib/deflate.c:1971-1974 | The held match is tallied at its true distance, even when it starts at window index -1 after a slide |
| DeflateSlow.MovePastMatch | external/zlib/deflate.c:1976-1990 | Exactly the strings of the match that have three bytes are inserted; chains and running hash stay good |
| DeflateFast.Compress | external/zlib/deflate.c:1811-1902 | The same for deflate_fast() |
| DeflateFast.Step | external/zlib/deflate.c:1829-1892 | One step: a match of three bytes or more is tallied as soon as it is found, else a literal; what is found reaches the nice length or is the longest that the budget lets see |
| DeflateFast.FindMatch | external/zlib/deflate.c:1838-1846 | longest_match() is called exactly if the head of the chain is within MAX_DIST |
| DeflateFast.InsertMatch | external/zlib/deflate.c:1860-1870 | All strings of a short match are inserted, and no others; chains and running hash stay good |
| DeflateFast.SkipMatch | external/zlib/deflate.c:1872-1884 | Skipping a long match restarts the running hash rightly |
| DeflateRle.Compress | external/zlib/deflate.c:2038-2103 | The same for deflate_rle(): matches are runs at distance 1 |
| DeflateRle.Step | external/zlib/deflate.c:2055-2097 | One step: the longest run of the byte before, from 3 to 258, is tallied at distance 1, else a literal |
| DeflateRle.RunLength | external/zlib/deflate.c:2057-2074 | The run is the longest, up to 258, and the scan stays in the window |
| DeflateHuff.Compress | external/zlib/deflate.c:2109-2139 | The same for deflate_huff(): every symbol is one byte |
| DeflateStored.Compress | external/zlib/deflate.c:1627-1802 | Stored blocks and the end of the window are together the input read, across direct copy, both slides and the pending path; the last block is marked exactly when finishing; finish_started and need_more mean that the space is used up, or that there is no input and no Z_FINISH |
| DeflateStored.StoreDirect | external/zlib/deflate.c:1668-1708 | A block is sent from the window and then from the input, with LEN at most 65535 and a header of (bi_valid + 42) >> 3 bytes that drains at once |
| DeflateStored.Turn | external/zlib/deflate.c:1640-1709 | The loop stops if and only if there is no room for a block worth its header, or nothing left to flush, or not enough input; a block takes all that is left unless 65535 bytes or the output space limit it; it is marked as last exactly when finishing with all input |
| DeflateStored.CopyDirect | external/zlib/deflate.c:1632-1709 | All turns together: what is taken is in blocks; the last block is marked only when finishing with all input sent |
| DeflateStored.KeepHistory | external/zlib/deflate.c:1712-1745 | The window then ends with the bytes copied |
| DeflateStored.FillRest | external/zlib/deflate.c:1756-1777 | Input left over enters the window; some remains only if a window of it waits to be stored |
| DeflateStored.StoreWindow | external/zlib/deflate.c:1779-1798 | What cannot be copied directly is stored from the window; with any flush something always is, and uses up the output space |
| DeflateState.State.constructor | external/zlib/deflate.c:412-524 | The sizes of deflateInit2_() make every block fit the pending buffer; the state is that before any input |
| DeflateState.State.Reset | external/zlib/deflate.c:635-702 | Nothing is emitted or pending, no string is known, and the check value is that of no data |
| DeflateState.State.ReadBuf | external/zlib/deflate.c:218-239 | As much input as fits enters the window, and the check value and total_in cover all input read |
| DeflateState.State.Slide | external/zlib/deflate.c:277-287 | Exactly the live bytes move down, all positions and chains with them, and nothing changes in terms of the stream |
| DeflateState.State.InsertPending | external/zlib/deflate.c:306-325 | Exactly the strings whose third byte has now arrived are inserted |
| DeflateState.State.FillWindow | external/zlib/deflate.c:251-368 | Input moves to the window and nothing else; reads have at least two bytes of room; strings that waited for input are inserted; afterwards there is lookahead or no input, and room for a search |
| DeflateState.State.ZeroAhead | external/zlib/deflate.c:332-364 | The 258 bytes a search may look at beyond the data have been written |
| DeflateState.State.InsertString | external/zlib/deflate.c:150-164 | The string joins the chain of its hash; the old head is the last string inserted before with the same hash, or there is none above window index 0 |
| DeflateState.State.TallyLit | external/zlib/deflate.h:351-358 | The symbols stand for one byte more; the block is full exactly when the buffer is |
| DeflateState.State.TallyDist | external/zlib/deflate.h:359-369 | The symbols stand for the match as well; sixteen bits suffice for the distance and eight for the length less 3 |
| DeflateState.State.FlushBlockOnly | external/zlib/deflate.c:1586-1598 | The block covers exactly the bytes since the last one; its stored length is its decoded length |
| DeflateState.State.Transmit | external/zlib/trees.c:995-1087 | The bits sent are those of the block, with usable trees built for it |
| Window.InsertChains | external/zlib/deflate.c:154-164 | Linking a string in front keeps the chain invariant: the head of each chain is the last string inserted with its hash, and the link of every string less than a window away the last one before it with the same hash, or NIL if there is none above window index 0 |
| Window.Insert | external/zlib/deflate.c:154-164 | The statement on the arrays is that link; what it returns is the last string with the hash before this one |
| Window.SlidChains | external/zlib/deflate.c:182-209 | Rebasing all indices keeps that invariant: links to strings that drop off become NIL, all others stay the last of their hash |
| Window.SlideHash | external/zlib/deflate.c:182-209 | slide_hash() is that rebasing, on both tables |
| Window.ClearHash | external/zlib/deflate.c:166-178 | No string is known afterwards |
| Window.SlotIsMask | external/zlib/deflate.c:160-164 | Masking with w_mask is the remainder by the window size |
| HashFn.RollOn | external/zlib/deflate.c:133-141 | The running hash of two bytes and a third is the hash of the three, whatever came before them |
| HashFn.HashOfThree | external/zlib/deflate.c:135-141 | The hash of three bytes in closed form |
| HashFn.ThirdByte | external/zlib/deflate.c:1429-1437 | With eight hash bits or more, and a shift that pushes a byte out in three, equal hashes and two equal bytes imply an equal third |
| LongestMatch.LongestMatch | external/zlib/deflate.c:1348-1489 | The result cut to the lookahead is that of the plain search; a result above prev_length comes with a start that really repeats for that length at a permitted distance; unless it stopped at a nice length, no string inserted nearer than MAX_DIST (or at the head of the chain), with fewer newer ones of its hash than the budget, repeats for longer; and none of these that is nearer than the start repeats for as long |
| LongestMatch.SearchIsBest | external/zlib/deflate.c:1396-1488 | The search finds a longest match among its candidates, the nearest of these, unless it stopped at a nice one |
| LongestMatch.VisitsAll | external/zlib/deflate.c:1485-1487 | Following the chain leads to every string of the same hash above the limit, until the budget is spent |
| LongestMatch.NextCandidate | external/zlib/deflate.c:1485-1486 | A link leads to the end, beyond the limit, or to an older string with the same hash: overwritten slots are never followed |
| LongestMatch.Probe | external/zlib/deflate.c:1424-1437 | The quick rejection never rejects a candidate longer than the best so far |
| LongestMatch.Compare | external/zlib/deflate.c:1438-1456 | The unrolled comparison finds exactly how far the two places agree, up to 258 |
| LongestMatch.WalkChain | external/zlib/deflate.c:1396-1487 | The loop over the chain is the plain search |
| BlockStream.CoveredInflates | external/zlib/trees.c:1027-1071 | Blocks that cover the input expand to it, whichever of them are stored |
| BlockStream.CoversFromMark | external/zlib/deflate.c:1211-1218 | The blocks from a mark on cover the rest of the input by themselves |
| BlockStream.StreamAligned | external/zlib/trees.c:1078-1084 | After the last block the stream ends at a byte boundary |
| BlockFormat.StreamDecodes | external/zlib/trees.c:995-1087 | The bits of all blocks, each with its own trees, decode to the input they cover |
| BlockFormat.SoFarDecodes | external/zlib/deflate.c:1203-1225 | The bits of blocks none of which is the last decode to what they cover |
| BlockFormat.MarkDecodes | external/zlib/deflate.c:1211-1218 | The bits after a mark decode by themselves |
| BlockFormat.ChosenReads | external/zlib/trees.c:1027-1071 | Whichever form is chosen for a block, the decoder reads it as the same bytes |
| BlockFormat.StoredDecodes | external/zlib/trees.c:858-873 | A stored block is read back at any bit position |
| BlockFormat.FixedDecodes | external/zlib/trees.c:1049-1054 | A block with the fixed codes is read back |
| BlockFormat.FixedWords | external/zlib/trees.c:352-362 | The codes for literals and lengths are those of the table in RFC 1951, bit by bit |
| BlockFormat.FixedDistanceWords | external/zlib/trees.c:364-368 | The codes for distances are the five-bit numbers |
| BlockFormat.DynamicDecodes | external/zlib/trees.c:1055-1061 | A block with its own codes is read back, the codes from their description |
| BlockFormat.EmptyDecodes | external/zlib/trees.c:882-893 | The ten bits of _tr_align() are an empty block with the fixed codes |
| BlockTrees.FixedFirst | external/zlib/trees.c:352-362 | The first fixed codes of 7, 8 and 9 bits are those RFC 1951 lists |
| BlockTrees.ChosenIsShortest | external/zlib/trees.c:1020-1065 | No form that may be used takes fewer bytes, by the real bits of both codes; of equals stored comes first, then fixed |
| BlockTrees.SymbolSize | external/zlib/deflate.c:461-464 | A symbol takes at most 31 bits with the fixed codes |
| BlockTrees.ChosenSize | external/zlib/deflate.c:485-493 | Whichever form is chosen, a block takes at most 31 bits a symbol and 30 more |
| BlockTrees.FixedStaysBehind | external/zlib/deflate.c:466-483 | With the fixed codes, what m symbols become never reaches the symbols not yet read from the same buffer |
| PrefixCodes.PrefixFree | external/zlib/trees.c:194-231 | No canonical code is the beginning of another, for all lengths that leave room |
| PrefixCodes.CodeRead | external/zlib/trees.c:194-231 | So a code that was sent is the one that is read |
| PrefixCodes.BiReverse | external/zlib/trees.c:149-161 | send_bits() given the result sends the code with its first bit first |
| PrefixCodes.GenCodes | external/zlib/trees.c:194-231 | Every symbol in use gets its canonical code, reversed |
| Symbols.LengthParts | external/zlib/trees.c:910-918 | Every match length gets a code and extra bits that mean it by the table of RFC 1951 |
| Symbols.DistParts | external/zlib/trees.c:919-931 | So does every distance up to 32768 |
| Symbols.LengthsListed | external/zlib/trees.c:62-66 | The extra bits and bases of the length codes are those RFC 1951 gives, here by formula, which is what the decoder uses |
| Symbols.DistsListed | external/zlib/trees.c:68-69 | So are those of the distance codes |
| Symbols.BlockRead | external/zlib/trees.c:895-949 | Whatever the two codes, the symbols sent are read as the bytes they stand for |
| CodeLengths.ItemsStandForLengths | external/zlib/trees.c:747-792 | The run-length items that send_tree() sends stand for the lengths, whatever was sent before |
| CodeLengths.ItemsAreGreedy | external/zlib/trees.c:747-792 | What send_tree() sends is what a plain greedy encoder sends: up to 138 zeros at once, up to six times the length before, else a length by itself |
| CodeLengths.TreesRead | external/zlib/trees.c:826-853 | Both trees sent one after the other are read in one go |
| CodeLengths.OrderListed | external/zlib/trees.c:71-72 | bl_order is the order of RFC 1951, section 3.2.7, here by formula |
| CodeLengths.ArrangedBack | external/zlib/trees.c:808-848 | Lengths sent in the order of bl_order, up to the last that is not zero, are all restored by a decoder that puts them in the order of RFC 1951 |
| CodeLengths.LastSent | external/zlib/trees.c:808-816 | The last length sent is not zero, unless it is the fourth |
| CodeLengths.SomeLengthSent | external/zlib/trees.c:808-816 | At least four of them are sent without asking for it, since one beyond the repeat codes is not zero |
| TreeTables.StaticInit | external/zlib/trees.c:294-350 | The tables give every length and distance the code and base of the format |
| TreeSender.CompressBlock | external/zlib/trees.c:895-949 | The bits sent are those of the symbols in order and the end-of-block code |
| TreeSender.SendTree | external/zlib/trees.c:747-792 | The bits sent are those of the run-length items |
| TreeSender.SendAllTrees | external/zlib/trees.c:826-853 | The bits sent describe the three codes |
| TreeSender.MaxBlIndex | external/zlib/trees.c:808-816 | The last length to send |
| NodeHeap.PqDownHeap | external/zlib/trees.c:500-526 | The heap order is restored and its nodes stay the same |
| NodeHeap.PqRemove | external/zlib/trees.c:479-491 | The node taken is the least by frequency, and among equals by depth, and the rest stays a heap |
| HuffmanTree.AtLeastTwo | external/zlib/trees.c:648-661 | At least two symbols take part, what the symbols made up would cost is deducted, none of them is above 2, and 2 is one exactly if symbol 1 alone is in use |
| HuffmanTree.Combine | external/zlib/trees.c:668-695 | The two least frequent nodes become sons of a new one, which weighs what they do, and the nodes taken stay sorted |
| HuffmanTree.CombineAll | external/zlib/trees.c:668-697 | All nodes end up in the order of their weights, fathers before sons, two sons for each inner node |
| HuffmanTree.BuildTree | external/zlib/trees.c:625-704 | Every symbol in use gets a length within the limit and the canonical code for it, the code space is used exactly, opt_len and static_len grow by exactly the bits that were counted, and no other lengths take fewer bits, unless a node is too deep, for which the symbols must be at least a Fibonacci number |
| Kraft.Repair | external/zlib/trees.c:577-591 | However many lengths were cut off at the limit, the repair ends with the code space used exactly |
| Kraft.MoveFrees | external/zlib/trees.c:581-589 | Each move frees exactly one unit and keeps the number of leaves |
| HuffmanLengths.FirstPass | external/zlib/trees.c:552-574 | The lengths are the depths of the nodes, or overfill the code space by one unit for every two nodes cut off |
| HuffmanLengths.GiveOut | external/zlib/trees.c:593-610 | Every leaf gets a repaired length, as many of each as counted, and opt_len follows |
| HuffmanLengths.GenBitLen | external/zlib/trees.c:538-611 | The lengths are the depths of the tree unless a node is deeper than the limit; within the limit and using the code space exactly in any case; the lengths kept are the bits needed |
| HuffmanOptimal.Join | external/zlib/trees.c:668-695 | For any lengths that fit, joining the two lightest nodes leaves lengths that fit and take less by the weight of the new node |
| HuffmanOptimal.Best | external/zlib/trees.c:532-537 | No lengths that fit take less than the depths of the tree |
| HuffmanOptimal.AncestorWeighs | external/zlib/trees.c:552-564 | A node that is j levels up weighs at least the j-th Fibonacci number |
| HuffmanOptimal.LeastOrDeep | external/zlib/trees.c:532-537 | The lengths take the fewest bits of all that give every symbol in use a code, or the tree is too deep, and then the symbols are at least a Fibonacci number |
| Tallies.Tally | external/zlib/trees.c:1093-1117 | The counts are those of all symbols tallied |
| Tallies.InitBlock | external/zlib/trees.c:436-450 | Before the first symbol only the end-of-block code is counted |
| Tallies.BlockCost | external/zlib/trees.c:1055-1067 | The bits of a block are those of all that was counted: what the debug build compares as compressed_len and bits_sent |
| BlockFlush.ScanTree | external/zlib/trees.c:706-745 | Each item is counted as often as send_tree() will send it |
| BlockFlush.StaticLTree | external/zlib/trees.c:352-362 | static_ltree holds the fixed codes |
| BlockFlush.StaticDTree | external/zlib/trees.c:363-367 | static_dtree holds codes of five bits |
| BlockFlush.TreeSpace.BuildBlTree | external/zlib/trees.c:794-806 | The code for the items has a word for each of them, and its cost is the bits of the items |
| BlockFlush.TreeSpace.BuildTrees | external/zlib/trees.c:1003-1024 | The three trees can always be used for the block, and opt_len and static_len are exactly the bits of both forms |
| BlockFlush.Choose | external/zlib/trees.c:1025-1055 | The choice made from these lengths is that from the bits themselves |
| BlockFlush.FlushBlock | external/zlib/trees.c:995-1087 | What is sent is the block in the form chosen, padded after the last; the counts start afresh |
| BlockFlush.EncodeBlock | external/zlib/trees.c:995-1087 | From the symbols of a block to its bits, with the trees on record |
| Pending.Output.SendBits | external/zlib/trees.c:246-285 | The bits of the value follow all bits sent before |
| Pending.Output.BiFlush | external/zlib/trees.c:163-176 | At most seven bits stay behind, and no bit is lost |
| Pending.Output.BiWindup | external/zlib/trees.c:178-192 | Zeros up to a byte boundary |
| Pending.Output.FlushPending | external/zlib/deflate.c:910-933 | Delivered and pending bytes are together all bytes put; as much as fits is delivered |
| Pending.Output.StoredHeader | external/zlib/deflate.c:1642-1646 | The header of a stored block takes (bi_valid + 42) >> 3 bytes |
| Pending.Output.PatchLengths | external/zlib/deflate.c:1672-1677 | Replacing the lengths turns an empty header into that of the block |
| Pending.Output.StoredBlock | external/zlib/trees.c:855-873 | Header, lengths, complement and bytes follow all bits sent before |
| Pending.Output.Align | external/zlib/trees.c:882-893 | Ten bits, and at most seven stay behind |
| CheckValue.CheckConcat | external/zlib/deflate.c:227-235 | Updating the check value piece by piece is checking the whole |
| CrcPoly.MulXBijective | external/zlib/crc32.c:148-170 | Multiplying by x can be undone, so no power of x is zero |
| CrcPoly.MultComm | external/zlib/crc32.c:148-170 | Multiplication modulo the polynomial is commutative |
| CrcPoly.MultAssoc | external/zlib/crc32.c:148-170 | and associative |
| CrcPoly.XPowAdd | external/zlib/crc32.c:172-187 | Powers of x multiply by adding exponents |
| CrcPowers.TableSquares | external/zlib/crc32.c:324-329 | Each entry of the shipped table is the square of the one before, and the first that of the last |
| CrcPowers.TableHoldsPowers | external/zlib/crc32.c:172-187 | The table holds x^(2^k) for every k, however far past its end k wraps |
| CrcPowers.PowersWrap | external/zlib/crc32.c:172-187 | x^(2^32) is x, which justifies k & 31 |
| CrcSpec.CrcIsRemainder | external/zlib/crc32.c:284-309 | The register is the message times x^32 modulo the polynomial |
| CrcSpec.UpdateIsRemainder | external/zlib/crc32.c:694-1010 | crc32() in full, for any running value: its complement moved on by the length of the message, plus the message times x^32, complemented with 0xffffffff |
| CrcSpec.UpdateConcat | external/zlib/crc32.c:1021-1026 | The checksum of a concatenation, by continuing or by shifting and adding |
| CrcSpec.TableStep | external/zlib/crc32.c:716-719 | The step by table is eight steps bit by bit |
| CrcWords.BraidIsShiftedCrc | external/zlib/crc32.c:523-540 | The lookups in the braid tables feed a word and move its CRC on over the other words of a block |
| CrcBraid.NextBlock | external/zlib/crc32.c:775-832 | A block keeps the braids carrying the register |
| CrcBraid.LastBlock | external/zlib/crc32.c:835-856 | The last block gives the register of the whole |
| Crc32.MultModP | external/zlib/crc32.c:148-170 | The loop ends, and gives the product, for every nonzero first operand |
| Crc32.X2nModP | external/zlib/crc32.c:172-187 | The result is x^(n * 2^k) |
| Crc32.MultModPEnds | external/zlib/crc32.c:148-170 | Some turn of the loop breaks if and only if the first operand is not zero |
| Crc32.X2nModPEnds | external/zlib/crc32.c:172-187 | The shifted n becomes zero if and only if n is not negative |
| Crc32.Tables.constructor | external/zlib/crc32.c:310-335 | All tables hold what they should, for every N and W |
| Crc32.CrcWordLittle | external/zlib/crc32.c:672-681 | Feeding the bytes of a word |
| Crc32.CrcWordBig | external/zlib/crc32.c:683-689 | The same on swapped words |
| Crc32.FeedBlocks | external/zlib/crc32.c:706-986 | Alignment and all blocks leave the register of the bytes taken, and less than a block remains |
| Crc32.Crc32Z | external/zlib/crc32.c:694-1010 | For every buffer, length, alignment, N, W and byte order the braided calculation is the CRC a byte at a time: the remainder of the message with all ones before and after, or of what continues a running value |
| Crc32.Combine64 | external/zlib/crc32.c:1021-1026 | The first CRC shifted over len2 zero bytes, plus the second; for a negative len2, against which zlib.h warns, the call does not come back |
| Crc32.CombineGen64 | external/zlib/crc32.c:1034-1039 | The operator is x^(8 len2), never zero; for a negative len2 the call does not come back |
| Crc32.CombineOp | external/zlib/crc32.c:1047-1049 | Applying the operator and adding; with the operator 0, which is never generated, the call does not come back |
| Crc32.CombineIsConcat | external/zlib/crc32.c:1021-1049 | Both ways of combining give the CRC of the concatenation, for all messages and all starts |
| Adler32.Adler32Z | external/zlib/adler32.c:61-125 | The result is what RFC 1950 defines if and only if not a single byte is added to an unreduced start as ReducedOnceTooLittle describes; from reduced starts always, and reduced |
| Adler32.AdlerInFull | external/zlib/adler32.c:10-15 | The defined checksum in closed form: the sum of the bytes and their sum weighted by place, each modulo 65521, from any start |
| Adler32.SingleByteNotReduced | external/zlib/adler32.c:70-78 | A start and a byte for which it is not |
| Adler32.NmaxIsLargest | external/zlib/adler32.c:10-12 | NMAX is exactly the largest n of the formula |
| Adler32.BlockFits | external/zlib/adler32.c:94-106 | A block of NMAX bytes fits 32 bits even from unreduced halves |
| Adler32.MOD | external/zlib/adler32.c:27-60 | Exact modulo 65521 below 2^32, with or without division |
| Adler32.MOD28 | external/zlib/adler32.c:34-38 | below 2^28 |
| Adler32.MOD63 | external/zlib/adler32.c:44-55 | below 2^63 |
| Adler32.Combine | external/zlib/adler32.c:133-155 | The result is the combined checksum if and only if the sums are not so large that two subtractions leave them unreduced; so always for reduced operands |
| Adler32.CombineIsConcat | external/zlib/adler32.c:133-155 | which makes it the checksum of the concatenation, for every length |
| GzCursor.Run | external/zlib/gzread.c:268-574 | Any mix of gzread, gzgetc, gzgets, gzungetc, gzseek, gzrewind and gzdirect, on any file: without an error, what comes out is what comes out of a byte sequence with a cursor, pushed-back bytes and a pending seek. Left to chance are only how a file that is cut off ends, and how far has been read ahead |
| GzCursor.Determined | external/zlib/gzread.c:268-556 | On a file none of whose members is cut off, any two runs of the same operations return the same, however the file was read and inflated, if no seek is refused and gzdirect() not called |
| GzCursor.SeekKeepsPushed | external/zlib/gzlib.c:339-409 | A seek that is not refused leads to its target, but for bytes pushed back, of which some stay exactly under the condition stated |
| GzCursor.RefusedForgets | external/zlib/gzlib.c:352-388 | A refused seek leaves what is to come as it was if and only if none was pending or nothing was to come |
| GzCursor.StandsAtStart | external/zlib/gzlib.c:69-82 | A reader just opened stands at the start |
| GzReader.Reader.Load | external/zlib/gzread.c:12-34 | The bytes are the next of the file; fewer than asked only at its end, which is noted |
| GzReader.Reader.Avail | external/zlib/gzread.c:43-65 | Never with a full buffer, so the end is not noted too early; unused input is kept |
| GzReader.Reader.LookHeader | external/zlib/gzread.c:76-149 | Finding a header, ignoring trailing bytes or starting to copy does not change what is to come |
| GzReader.Reader.Decomp | external/zlib/gzread.c:156-200 | The bytes are the next of what is to come; less than asked only at the end of a member or of the file; Z_BUF_ERROR is noted exactly if room is left inside a member |
| GzReader.Reader.Fetch | external/zlib/gzread.c:208-233 | The loop ends, the buffer stays empty only if nothing is to come, and Z_BUF_ERROR is noted exactly if the buffer is not filled inside a member |
| GzReader.Reader.Skip | external/zlib/gzread.c:236-262 | Exactly so many bytes are passed over, or all there are |
| GzReader.Reader.ReadBytes | external/zlib/gzread.c:268-342 | The bytes are the next `len` after a pending seek; fewer only at the end, and then Z_BUF_ERROR is noted if and only if that is inside a member and the inflater had room left |
| GzReader.Reader.GetC | external/zlib/gzread.c:408-431 | A buffered byte if there is one, without regard to a pending seek; else the next byte after the seek, or the end |
| GzReader.Reader.UngetC | external/zlib/gzread.c:438-496 | The byte is the next to come, before all that was to come; it fails only for a full buffer or an earlier error |
| GzReader.Reader.Gets | external/zlib/gzread.c:499-556 | The next bytes up to and with a newline, at most len - 1, and a zero; fewer only at the end, and an end inside a member is always noted |
| GzReader.Reader.IsDirect | external/zlib/gzread.c:559-574 | True exactly for a file that does not begin with a member; looking for a header does not change what is to come |
| GzReader.Reader.Rewind | external/zlib/gzlib.c:318-336 | All of the file is to come again |
| GzReader.Reader.Seek | external/zlib/gzlib.c:339-409 | A successful seek returns the position gztell() reports, and what is to come counts from the start of the data after going back or in a file read as it is, else from the next byte, pushed back or not; a refused one forgets a pending seek, which changes what is to come exactly if something was left to come |
| GzReader.DirectSpoilsSeek | external/zlib/gzread.c:421-427 | A run in which gzgetc() returns the byte before a pending seek, because gzdirect() has filled the buffer |
| GzReader.RefusedSeekForgets | external/zlib/gzlib.c:352-388 | A run in which a refused seek makes a pending one forgotten |
| GzReader.PushedOutlivesSeek | external/zlib/gzlib.c:358-401 | A run in which a byte pushed back is returned after gzseek() |
| GzReader.EndsUnnoticed | external/zlib/gzread.c:300-303 | From a state in which input and room were used up together, a read inside a member returns nothing and leaves Z_OK, though output is lost |
| GzReader.MayEndUnnoticed | external/zlib/gzread.c:165-190 | A file with which the inflater may get there |
| GzWriter.Writer.Comp | external/zlib/gzwrite.c:65-139 | All buffered input is passed on in order; with a flush the file receives everything; finishing ends the member |
| GzWriter.Writer.Zero | external/zlib/gzwrite.c:143-169 | Exactly so many zeros follow |
| GzWriter.Writer.Write | external/zlib/gzwrite.c:173-234 | All of the data follows what was written, and the zeros of a pending seek; or it fails with an error |
| GzWriter.Writer.PutC | external/zlib/gzwrite.c:287-329 | One byte follows |
| GzWriter.Writer.Printf | external/zlib/gzwrite.c:359-428 | The text follows if it is shorter than the buffer, else nothing |
| GzWriter.Writer.SplitHalves | external/zlib/gzwrite.c:418-426 | Of an overfull buffer the first half is passed on and the rest moved down intact |
| GzWriter.Writer.FlushAll | external/zlib/gzwrite.c:528-554 | Everything written so far, with the zeros of a pending seek, has reached the file |
| GzWriter.Writer.SeekTo | external/zlib/gzlib.c:339-409 | Forward only; a refused seek changes no data, but forgets a pending one |
| Once.RunKeeps | external/zlib/crc32.c:236-246 | What holds after every step of every interleaving |
| Once.OnceOnly | external/zlib/crc32.c:236-246 | The initialiser is entered at most once, and no caller returns before it has finished |
| Once.NeverStuck | external/zlib/crc32.c:236-246 | While some caller has yet to return, some thread can make progress |
| Disasm.SweepTiles | external/capstone/cs.c:1153-1259 | The instructions tile the input consumed, each at the address where the one before ends, modulo 2^64, and the sweep ends only for the count, the end of the code or an undecodable instruction |
| Disasm.SweepAddresses | external/capstone/cs.c:1279-1283 | Instruction k is at the starting address plus the sizes of all before it, modulo 2^64 |
| Disasm.Cursor.Next | external/capstone/cs.c:1357-1449 | The iterator yields the next instruction and moves past it, its address by the size modulo 2^64, or stays |
| Disasm.StepThrough | external/capstone/cs.c:1357-1449 | Repeating the iterator any number of times is the sweep, and leaves code and address moved on by the sizes of all instructions |
| Disasm.DisasmAll | external/capstone/cs.c:1110-1313 | The array returned holds exactly the instructions of the sweep, through every growth and the final cut |

## Left out

- Crc32.MultModP: requires a first operand other than zero, for which alone the loop of the source ends (Crc32.MultModPEnds); Crc32.CombineOp, which passes on what a caller gives, has a result of its own for the rest.
- Crc32.X2nModP: n is a natural number; for a negative n the loop of the source does not end where shifting keeps the sign (Crc32.X2nModPEnds); Crc32.Combine64 and Crc32.CombineGen64 have a result of their own for that.
- Crc32.Crc32Z: the incoming value is below 2^32; where uLong is wider, the bits above are masked off by the source.
- BlockTrees.FixedStaysBehind: covers the fixed codes. That no beginning of a block with its own codes overtakes the symbols rests, in the comment of the source, on the average over the whole block, which does not bound every beginning; symbols are kept apart from the output here, so nothing else depends on it.
- HuffmanTree.BuildTree: if a node is too deep, the repaired lengths are not claimed to be the best within the limit, nor does the source promise it.
- GzCursor.Run: says nothing after an operation that failed, nor about the bytes a read has stored before it fails.

- deflateParams, deflatePrime, deflateTune, deflateCopy, deflateSetDictionary, deflateGetDictionary, deflatePending, the promises of deflateBound and compressBound, and the bookkeeping of `matches` for level changes.
- The counts of symbols are made when a block is flushed, not while it is tallied; Tallies.Tally shows that they are the same.
- The symbol buffer lies in the pending buffer in the source and is a sequence here; the unions of ct_data are two arrays.
- Builds with FASTEST, LIT_MEM, UNALIGNED_OK, FORCE_STORED or FORCE_STATIC, and 16-bit integers.
- detect_data_type(), which only sets a hint.
- The wrap-around of `depth` and `Freq` in trees.c: frequencies stay below 65536 and depths below 256 for at most 32767 symbols; both are unbounded here.
- inflate() itself: the decoder here is written from the format. In the gz layer the inflater and the compressor are any that keep their contracts.
- The ARM instructions for CRC-32, the table printer under MAKECRCH, and once() without atomics.
- The interleaving of the loads in the braid loops, which has no effect.
- Allocation failures, lazy allocation in gz_look() and gz_init(), open(), lseek() failures, error strings, gzoffset, gzeof, gzclearerr, gzclose, gzsetparams, and the 32-bit limits of gzread() and gzwrite().
- printf formatting: gzvprintf() is given the text.
- Non-blocking descriptors, and read() errors other than that one occurred.
- The decoder, details, skipdata callbacks and error codes of Capstone; the wrap-around of cache_size beyond 2^32 bytes.
- CLI11 and the application files.
