# Huffman multi-file codec in Dafny

This project models the core of a small C Huffman codec. The codec joins
several input files into one compressed stream and marks every file
boundary with the token `FILE_SEP`. It has two pipelines.

- **Binary pipeline.** `compressFork.c` counts byte frequencies over all
  inputs and forces every byte of `FILE_SEP` to a count of at least 1. It
  builds a Huffman tree with an array-backed min-heap, generates codes
  depth-first (left `0`, right `1`, depth cap 255) and saves them to
  `codes.txt` as `%d:%s` lines. The compressor then packs, per input file,
  the codes of `FILE_SEP` and of the file's bytes MSB-first into bytes and
  pads the last byte with zeros. Finally it concatenates the per-file
  outputs. The stream is decoded by `Fork/decompressFork.c`, which has a
  64-byte lookahead window and writes with a lag, or by
  `Serial/decompressSerial.c`, which uses a prefix-match cursor.
- **Text pipeline.** `compressS.c` writes the code strings as the
  characters `'0'`/`'1'`, with a literal `FILE_SEP` before each file, and
  handles a single-symbol input by giving the symbol the code `"0"`. The
  text is decoded by `decompressFork.c`, which splits the text at `strstr`
  matches, or by `decompressS.c`, a character matcher that rewinds with
  `fseek` on a false start.

The modules follow the program's structure:

- The compressor side:
  - `PriorityQueue` is the heap.
  - `HuffmanTree` and `TreeBuilder` build the tree.
  - `Frequencies` holds the counting loops.
  - `CodeGen` is `generateCodes` and `validateCodes`.
  - `Codebook` is the `codes.txt` format.
  - `Packing` and `BitPacker` are `writeBits` and `compressFileChild`.
  - `TextEncoder` is `compressMultipleFiles`.
- The decoder side:
  - `DecodeTree` and `TreeRebuild` are the trees rebuilt from `codes.txt`, kept in an arena of nodes with index 0 as the root and -1 as NULL.
  - `TreeDecoder` is the tree walk and `readBit`.
  - `Framing` is `strstr` and splitting.
  - `ForkDecoder`, `SerialDecoder`, `ChunkDecoder` and `StreamDecoder` are the four delimiter detectors.

Each C loop is a Dafny `method` with its loop. That method is proved equal
to a function of its inputs (or, for in-place updates, of the old state).
Lemmas then prove what the code promises about that function. Fatal
errors (`exit(EXIT_FAILURE)`) become error results. An input file that does not open is `None`. A
NULL-pointer dereference in a decoder is modelled as a "crashed" outcome
rather than excluded by a precondition.

Each decoder has two kinds of theorem:

- A round trip over the tree rebuilt from the saved codes, wherever the code delivers one.
- A finding, where the code does not deliver one. Each finding has a concrete counterexample and a corrected definition with its round trip proved.

## Model

| member | source | states |
|---|---|---|
| PriorityQueue.MinQueue.constructor | compressFork.c:44-46 | `initPriorityQueue`: a fresh 256-slot queue that holds no node and is heap-ordered |
| PriorityQueue.MinQueue.Enqueue | compressFork.c:48-56 | the size grows by one, the queued multiset gains exactly the new node, heap order (parent frequency ≤ child frequency) is kept, and the slots equal the sift-up reference `Enqueued` |
| PriorityQueue.MinQueue.SiftUp | compressFork.c:49-54 | the hole-based sift-up loop leaves the array equal to the reference `SiftUpFrom` of the old array |
| PriorityQueue.MinQueue.Dequeue | compressFork.c:58-76 | returns the old root, which is in the queue and has the minimum frequency of all queued nodes; the size drops by one, the multiset loses exactly that node, and heap order is kept |
| PriorityQueue.MinQueue.SiftDown | compressFork.c:61-74 | the sift-down loop (smaller child first, stop when the last node fits) leaves the array equal to the reference `SiftDownFrom` |
| PriorityQueue.EnqueuedHeap | compressS.c:43-51 | sifting a node up into a heap gives a heap one longer whose multiset is the old one plus the node |
| PriorityQueue.DequeuedHeap | compressS.c:53-71 | removing the root and sifting the last node down gives a heap one shorter without the root, and the root's frequency is a minimum of the old heap |
| PriorityQueue.RootIsMinimal | compressFork.c:58-59 | in a heap-ordered sequence no node is lighter than the root |
| PriorityQueue.SiftUpFromHeap | compressFork.c:50-54 | the sift-up reference turns a heap with a hole into a heap with the same multiset as the heap plus the node |
| PriorityQueue.ChildToFollow | compressFork.c:64-67 | the chosen child is a child of `i` whose frequency is no larger than either child's |
| PriorityQueue.SiftDownFromHeap | compressFork.c:62-74 | the sift-down reference restores heap order and keeps the multiset |
| PriorityQueue.EnqueuedInPlace | compressFork.c:48-56 | sifting up in the whole 256-slot array changes only the first `size + 1` slots, and those are `Enqueued` of the queued prefix |
| HuffmanTree.Leaf | compressFork.c:32-42 | `createNode` makes a node with no children |
| HuffmanTree.PositiveSymbolsCount | compressFork.c:82-85 | the symbols collected from the table are exactly those with a positive count, each once |
| HuffmanTree.ForestLeavesAdd | compressFork.c:84 | adding a tree to the forest adds exactly its leaf symbols to the forest's leaves |
| TreeBuilder.EnqueueLeaves | compressFork.c:82-86 | the queue holds one leaf per positive-count symbol, weighted by its count, and never more than 256 nodes |
| TreeBuilder.MergeForest | compressFork.c:88-95 | the merge loop leaves one tree (or none when the queue was empty), keeps the forest's leaf symbols and keeps every tree binary and weighted by the table |
| TreeBuilder.MergeStep | compressFork.c:89-94 | merging two queued trees under a parent whose frequency is their sum keeps the leaves and the weighting |
| TreeBuilder.TakeLast | compressFork.c:97 | the last dequeued tree carries all the forest's leaf symbols and is binary and weighted |
| TreeBuilder.BuildTree | compressFork.c:78-98 | returns no tree exactly when no count is positive; otherwise the leaves are exactly the positive-count symbols with their counts, and every internal node has two children whose frequencies sum to its own |
| TreeBuilder.BuildTreeWithSingleCase | compressS.c:73-103 | as for `BuildTree`, and with exactly one positive symbol the root has only a left child, which is that symbol's leaf; with two or more the tree is binary |
| TreeBuilder.NoPositiveSymbols | compressFork.c:97 | no symbol is collected exactly when no count is positive |
| Frequencies.CountFile | compressS.c:137-143 | every entry `frequencies[b]` grows by the number of occurrences of `b` in the file and by nothing else |
| Frequencies.CountFrequencies | compressFork.c:292-302 | each `frequencies[b]` is the number of occurrences of byte `b` across all inputs that open |
| Frequencies.ForceDelimiter | compressFork.c:304-310 | each byte of `FILE_SEP` with count 0 is raised to 1; its other counts and the counts of all other bytes are unchanged |
| Frequencies.ForkFrequencies | compressFork.c:292-310 | the table is the total count, raised to 1 exactly at the zero-count bytes of `FILE_SEP`, so every delimiter byte has count ≥ 1 |
| Frequencies.TotalChars | compressS.c:246-247 | the loop computes the sum of the table |
| Frequencies.SumOfTotalCounts | compressS.c:236-247 | the sum over the counted table is the total length of the inputs that open |
| Frequencies.EmptyInput | compressS.c:245-251 | the total is 0 exactly when every input that opens is empty |
| CodeGen.GenerateCodes | compressFork.c:108-129 | the recursion over `currentCode` and `codes` computes the reference `Assign` and leaves the path prefix as it found it |
| CodeGen.GenerateCodeTable | compressFork.c:319-321 | every code is the root-to-leaf path (left `0`, right `1`) of a leaf with its symbol and shorter than 255; every leaf at depth below 255 gets a code; the table is prefix-free |
| CodeGen.AssignSound | compressFork.c:108-129 | an entry the recursion sets is the current path followed by a path to a leaf with that symbol, shorter than the cap |
| CodeGen.AssignComplete | compressFork.c:109-113 | a leaf whose path is shorter than the cap gets a code |
| CodeGen.CodesOfPrefixFree | compressFork.c:108-129 | no code is a prefix of another symbol's code |
| CodeGen.LeafAtUnique | compressFork.c:111-113 | a symbol that occurs once in the tree has only one path to its leaf |
| CodeGen.CodeIsLeafPath | compressFork.c:108-129 | for a symbol that occurs once, its code is exactly its root-to-leaf path |
| CodeGen.ShallowTreeCodesAll | compressFork.c:109 | when the tree is shallower than the cap, every leaf symbol gets a code |
| CodeGen.SingleSymbolCode | compressS.c:118-121 | for the single-symbol root, the only code is `"0"` for its leaf |
| CodeGen.CodesAreBitStrings | compressS.c:118-126 | under an internal root every code is a non-empty string of `'0'`/`'1'` |
| CodeGen.ValidateCodes | compressS.c:153-161 | fails exactly when some symbol with a positive count has no code |
| CodeGen.ValidatesShallowTree | compressS.c:261-264 | validation passes for a tree built from the table that is shallower than the cap |
| Codebook.SaveCodes | compressFork.c:100-106 | the loop writes the text `SavedFrom(codes, 0)`: one `"<i>:<code>\n"` line per present code, in ascending `i` |
| Codebook.LoadCodes | compressFork.c:139-151 | the `fscanf` loop computes `LoadFrom`, which stores each code read under its symbol; the C stores a symbol outside 0..255 out of bounds without any message, and the model gives `None` for it (see Left out) |
| Codebook.LoadSaved | compressFork.c:139-151 | loading the saved text of a table of non-empty codes without white space or NUL gives back the same table |
| Codebook.GeneratedCodesRoundTrip | compressFork.c:319-327 | the table generated from any internal root survives being saved and loaded |
| Codebook.ScanEntryOfLine | compressFork.c:147 | `%d:%s` reads back the symbol and code of a saved line and stops at its newline |
| Codebook.DecimalValue | compressFork.c:103 | the decimal text `%d` writes has value `n`, and at most three digits below 1000 |
| Codebook.CString | compressFork.c:148 | what `strdup` copies: the longest NUL-free prefix |
| Codebook.FgetsLength | Serial/decompressSerial.c:31 | `fgets` with a 266-byte buffer reads through the first newline, or 265 characters, or to the end |
| Codebook.FgetsLine | Serial/decompressSerial.c:31-34 | a saved line whose code has at most 260 characters is read whole by one `fgets` |
| Packing.PutBit | compressFork.c:156-158 | ORing in a bit at position `p` sets that bit if the input bit is 1 and changes no other bit |
| Packing.Pack | compressFork.c:154-211 | packing a bit string gives `(n + pad) / 8` bytes, where the pad is below 8 |
| Packing.PackBits | compressFork.c:207-211 | the bits of the packed bytes are the input followed by zero padding to a whole byte |
| Packing.PackWhole | compressFork.c:160-164 | whole written bytes followed by fewer than 8 pending bits pack to the same bytes plus one flushed byte when bits are pending |
| Packing.ByteBitsOf | compressFork.c:157 | the byte built from up to 8 bits holds them MSB-first with zeros below |
| BitPacker.BitWriter.constructor | compressFork.c:179-180 | a new output has no bytes, an empty buffer and `bitPos` 0 |
| BitPacker.BitWriter.PushBit | compressFork.c:156-164 | one bit is appended to the written bits; a byte is written when 8 are pending |
| BitPacker.BitWriter.WriteBits | compressFork.c:154-166 | the written bits grow by the code's bits (1 for `'1'`, 0 otherwise) up to its NUL; `8 * bytes + bitPos` grows by the code length, so whole bytes and `bitPos` advance by its `div 8` and `mod 8`; buffer bits not yet written stay 0 |
| BitPacker.BitWriter.Flush | compressFork.c:207-211 | a partial byte is written once, and nothing is pending afterwards |
| BitPacker.WriteCodes | compressFork.c:183-204 | writes the codes of the symbols in order and stops at the first symbol without a code |
| BitPacker.WriteSymbol | compressFork.c:195-203 | writing one coded byte extends the written bits by its code and keeps the writer's invariant |
| BitPacker.CompressFileChild | compressFork.c:167-217 | the child's output is `ChildResult`. For an input that opens, that is `ChildOutput`: the packed codes of `FILE_SEP` and the file, or only the whole bytes before a missing code. For an input that does not open, it is an empty temporary file and a failed child |
| BitPacker.ChildFails | compressFork.c:183-204 | the child fails exactly when a byte of `FILE_SEP` or of the file has no code |
| BitPacker.ChildBits | compressFork.c:183-211 | a complete child writes the delimiter's codes, then the file's codes, then zeros to a whole byte |
| BitPacker.ChildStopped | compressFork.c:187-203 | a failing child leaves only the whole bytes of what it wrote: the unflushed buffer is lost |
| BitPacker.MergedBits | compressFork.c:221-249 | the bits of the concatenated temporary files are the concatenation of their bits |
| BitPacker.MergedPadding | compressFork.c:207-246 | for two files, the merged stream carries the first file's zero padding between the two files' codes |
| BitPacker.EmittedIsCodeBits | compressFork.c:195-204 | for a complete file the emitted bits are the concatenated codes of its bytes |
| DecodeTree.CodeTree.constructor | Fork/decompressFork.c:48 | a tree of one root with no children |
| DecodeTree.CodeTree.InsertCode | Fork/decompressFork.c:28-40 | the node-creating loop computes the reference `InsertBits` along the code's directions and keeps the arena well formed |
| DecodeTree.InsertWalk | Serial/decompressSerial.c:36-46 | the cursor loop over the arena creates missing children and labels the last node, as `InsertBits` says |
| DecodeTree.InsertFollows | Fork/decompressFork.c:28-40 | after inserting a code, following its directions from the root ends at a node labelled with the symbol, and every existing link is kept |
| DecodeTree.InsertEnd | Fork/decompressFork.c:39 | the end of the inserted path carries the symbol, a new end is a leaf, and no other node's symbol changes |
| DecodeTree.InsertLinks | Fork/decompressFork.c:31-37 | existing links are never replaced, and a link that changes lies on the inserted path |
| DecodeTree.InsertShape | Fork/decompressFork.c:31-37 | every new node lies on the inserted path |
| DecodeTree.DirsOfBits | Serial/decompressSerial.c:38-44 | on a string of `'0'`/`'1'` both steerings read the same directions |
| DecodeTree.Grow | Fork/decompressFork.c:32-35 | creating a child adds one blank node linked from its parent and changes no other link or symbol |
| TreeRebuild.BuildTreeFromFile | Fork/decompressFork.c:42-56 | the `fscanf` loop builds `BuildFrom` of the text, inserting each read code with `'0'` left, `'1'` right and other characters skipped |
| TreeRebuild.RebuildTreeFromCodes | Serial/decompressSerial.c:27-49 | the `fgets`/`sscanf` loop builds `RebuildFrom`: lines that do not scan are skipped, `'0'` goes left and anything else right, and the symbol is cast to a byte |
| TreeRebuild.BuildSaved | Fork/decompressFork.c:51-53 | reading a saved table inserts its codes in ascending symbol order |
| TreeRebuild.RebuildSaved | decompressFork.c:33-49 | reading a saved table line by line inserts its codes in ascending symbol order |
| TreeRebuild.InsertTableReaches | Fork/decompressFork.c:28-40 | inserting a prefix-free table of non-empty bit strings leaves every code leading from the root to a leaf with its symbol |
| TreeRebuild.BuildFromSavedReaches | Fork/decompressFork.c:42-56 | the tree built from a decodable saved table decodes every code to its symbol |
| TreeRebuild.RebuildFromSavedReaches | decompressS.c:26-48 | the same for `rebuildTreeFromCodes` on lines that fit its buffer |
| TreeRebuild.GeneratedTableDecodable | compressS.c:105-127 | the compressors' tables from an internal root are decodable and fit a line |
| TreeRebuild.StepInv | Serial/decompressSerial.c:36-46 | inserting one more code of a prefix-free table keeps every earlier code on its leaf and places the new one on a leaf |
| TreeRebuild.NoBitPrefix | compressFork.c:108-129 | in a decodable table no code's bits are a prefix of another symbol's |
| TreeRebuild.ToByteOfByte | Serial/decompressSerial.c:46 | the cast to `unsigned char` keeps a symbol in 0..255 |
| TreeDecoder.BitReader.constructor | Serial/decompressSerial.c:67-68 | a reader that has consumed no bit |
| TreeDecoder.BitReader.ReadBit | Serial/decompressSerial.c:51-61 | a byte is fetched only when `bitPos` is 0; EOF exactly when every bit was consumed; otherwise the next stream bit, MSB-first, with `bitPos` in 0..7 |
| TreeDecoder.EagerDecodes | Fork/decompressFork.c:119-176 | on a tree where every code reaches its leaf, the walk that dereferences the child right away decodes the concatenated codes back to the symbols, and returns to the root after each leaf |
| TreeDecoder.LazyDecodes | Serial/decompressSerial.c:77-141 | the same for the walk that tests for NULL |
| TreeDecoder.LazyRoundTrip | decompressFork.c:62-72 | the walk over the codes of a byte sequence gives the sequence back, without a crash, back at the root |
| TreeDecoder.CodeTextBits | compressS.c:174-177 | the text of concatenated codes is `'0'`/`'1'` only and steers as its bits |
| TreeDecoder.NextBit | Serial/decompressSerial.c:51-61 | stream bit `i` is bit `7 - i mod 8` of byte `i div 8` |
| Framing.FindFrom | decompressFork.c:108 | `strstr`: the first occurrence at or after `i`, or none when there is no occurrence after `i` |
| Framing.JoinSplit | decompressFork.c:107-134 | the pieces between successive, non-overlapping occurrences, joined with the separator, give the text back |
| Framing.SplitFree | decompressFork.c:107-134 | no piece holds the separator |
| Framing.SplitFrame | compressS.c:172-176 | splitting separator-prefixed pieces that hold no separator gives an empty head and the pieces |
| Framing.DelimiterBorderless | compressS.c:172 | no proper prefix of `FILE_SEP` is a suffix of it, so its occurrences cannot overlap |
| ForkDecoder.DecodeStream | Fork/decompressFork.c:108-198 | the decoding loop over `fileSize * 8` bits, with the shifted window and the segment buffer, computes `ForkDecode` |
| ForkDecoder.Accept | Fork/decompressFork.c:127-176 | one decoded symbol takes one `ForkStep`: the window keeps the last 64 symbols, a delimiter is recognised exactly when the last 8 symbols since the reset are `FILE_SEP`, and `fileIndex` counts the files written |
| ForkDecoder.Store | Fork/decompressFork.c:166-167 | storing one symbol at `outputPos` extends the buffer's filled prefix by that symbol |
| ForkDecoder.WindowShift | Fork/decompressFork.c:130-132 | the `memmove` shift keeps the window equal to the last symbols since the reset |
| ForkDecoder.ForkDecodeWalk | Fork/decompressFork.c:119-198 | the decoder is the detector run over the symbols of the eager walk over the stream's bits |
| ForkDecoder.NoDetect | Fork/decompressFork.c:165-172 | with no delimiter, the segment buffer lags `delimiterLength` symbols behind those decoded since the reset, and is empty before the first delimiter |
| ForkDecoder.FirstPiece | Fork/decompressFork.c:134-163 | a delimiter writes the piece before it minus its last symbol when started and at least 2 long, and then resets |
| ForkDecoder.DetectPieces | Fork/decompressFork.c:129-198 | on a symbol stream the detector writes `AsWritten` of its pieces between delimiters |
| ForkDecoder.ForkFiles | Fork/decompressFork.c:129-198 | from the start state the pieces before the first delimiter are dropped and the rest are written as `AsWritten` |
| ForkDecoder.ForkFramed | Fork/decompressFork.c:129-198 | on the symbol stream of framed files, without padding bits, the code writes each middle file without its last symbol and the last file without its last 8 |
| ForkDecoder.ForkRoundTripAsWritten | Fork/decompressFork.c:119-198 | decoding the codes of framed files gives `AsWritten`, not the files |
| ForkDecoder.ForkLagCounterexample | Fork/decompressFork.c:165-167 | for the files `"ab"` and `"cd"` the code writes only `"a"`, while the lag-free segmenter gives both files |
| ForkDecoder.SegmentFrame | Fork/decompressFork.c:134-198 | the corrected detector gives back non-empty framed files that hold no delimiter |
| ForkDecoder.ForkRoundTripCorrected | Fork/decompressFork.c:119-198 | decoding the codes of framed files with the corrected detector gives the files back |
| ForkDecoder.LazyOrEager | Fork/decompressFork.c:124-127 | on a tree where every code reaches its leaf the eager walk never dereferences NULL |
| SerialDecoder.DecompressToMultipleFiles | Serial/decompressSerial.c:63-158 | the `readBit` loop with the match cursor computes `SerialDecode`, including the append of a dangling partial match to the last output |
| SerialDecoder.Accept | Serial/decompressSerial.c:89-138 | one decoded leaf takes one `SerialStep`: an `'F'` starts a match, a mismatch writes the matched prefix and the symbol without re-testing it, a full match opens the next output; `delim_index` stays below 8 |
| SerialDecoder.WritePrefix | Serial/decompressSerial.c:95-99 | writes the first `n` bytes of the buffer to the open output, if any |
| SerialDecoder.SerialFromWalk | Serial/decompressSerial.c:77-142 | the decoder is the state machine run over the symbols of the lazy walk over the bits |
| SerialDecoder.PlainRun | Serial/decompressSerial.c:127-137 | symbols other than `'F'` are written as they come |
| SerialDecoder.FeedDelimiter | Serial/decompressSerial.c:105-125 | a whole `FILE_SEP` opens a new, empty output, even after an empty segment |
| SerialDecoder.SerialFramed | Serial/decompressSerial.c:77-157 | framed files that contain no `'F'` are decoded back to the files |
| SerialDecoder.SerialRoundTrip | Serial/decompressSerial.c:63-158 | decoding the codes of framed files without `'F'` gives the files back |
| SerialDecoder.SerialCounterexample | Serial/decompressSerial.c:91-104 | for the files `"F"` and `"x"` the code writes one file, `F` + `FILE_SEP` + `x` |
| SerialDecoder.RetestedSplits | Serial/decompressSerial.c:91-157 | the corrected matcher, which re-tests the mismatching symbol, writes the pieces after the first delimiter |
| SerialDecoder.RetestedFrame | Serial/decompressSerial.c:91-157 | the corrected matcher gives back any framed files that hold no delimiter |
| SerialDecoder.RetestedCounterexample | Serial/decompressSerial.c:91-104 | the corrected matcher gives `"F"` and `"x"` back |
| ChunkDecoder.DecompressChunk | decompressFork.c:62-72 | the loop computes `Decompressed`: `'0'` left, `'1'` right, other characters ignored, and each leaf emits its symbol and resets the cursor |
| ChunkDecoder.NextChunk | decompressFork.c:107-149 | one turn of the loop: the chunk before the next `strstr` match (decoded if non-empty) and the position after the match, or the final chunk |
| ChunkDecoder.DecodeChunk | decompressFork.c:112-131 | a non-empty chunk is decoded into one output, and an empty chunk gives none |
| ChunkDecoder.SplitStart | decompressFork.c:102-105 | the chunks are the non-empty pieces of the text after a leading `FILE_SEP`, skipped only at offset 0 |
| ChunkDecoder.DecompressToMultipleFiles | decompressFork.c:78-157 | the outputs are the decoding of each non-empty chunk of the NUL-terminated text, after a leading `FILE_SEP` at offset 0 is skipped |
| ChunkDecoder.TurnStep | decompressFork.c:107-134 | each turn decodes at most one chunk and moves the start forward past the match |
| ChunkDecoder.ChunksOfText | decompressFork.c:102-134 | the chunks are non-empty and hold no `FILE_SEP`, and the pieces with the separators rebuild the text after the leading `FILE_SEP` |
| ChunkDecoder.DecompressedCodeText | decompressFork.c:62-72 | a chunk of concatenated codes from a decodable table decodes to the original bytes |
| ChunkDecoder.ChunksOfFrame | decompressFork.c:97-149 | the chunks of framed bit strings are the non-empty ones among them, in order |
| ChunkDecoder.TextRoundTrip | decompressFork.c:78-157 | on the text `compressS.c` writes, output `i` is the `i`-th non-empty input file |
| StreamDecoder.Consume | decompressS.c:91-97 | a data character moves the cursor (`'0'` left, `'1'` right, others nowhere); a leaf writes its symbol to the open output and resets the cursor; reading `'0'`/`'1'` at a NULL cursor is a crash, and other characters leave it NULL |
| StreamDecoder.DecompressToMultipleFiles | decompressS.c:50-102 | the `fgetc` loop with the `fseek` rewind computes `Stream`, with `delim_pos` below 8 between iterations |
| StreamDecoder.DelimiterRun | decompressS.c:65-82 | a whole `FILE_SEP` opens the next output, even after an empty segment, and resets the cursor |
| StreamDecoder.BreakAt | decompressS.c:84-89 | a broken partial match rewinds to its first character and reads it again as data |
| StreamDecoder.MatchLength | decompressS.c:65-67 | the length of the longest match of a prefix of `FILE_SEP` at `w`: all matched characters agree, and a shorter match stops at a differing character or at EOF |
| StreamDecoder.DanglingRun | decompressS.c:60-63 | a partial `FILE_SEP` match cut off by EOF writes nothing more |
| StreamDecoder.StreamIsOnePass | decompressS.c:60-99 | the rewinding matcher equals a one-pass reference that takes each position as a delimiter, a dangling match at EOF or a data character |
| StreamDecoder.FrameRun | decompressS.c:60-99 | framed code texts are decoded file by file into new outputs without a crash |
| StreamDecoder.StreamRoundTrip | decompressS.c:50-102 | the decoder gives back the files whose code texts were framed, in order |
| StreamDecoder.TextPipeline | compressS.c:163-184 | when every byte of every input that opens has a code, `compressMultipleFiles` succeeds and `decompressToMultipleFiles` of its text gives back those inputs |
| TextEncoder.CompressFile | compressS.c:170-180 | writes `FILE_SEP` and the codes of the file's bytes, and fails exactly at the first byte without a code |
| TextEncoder.CompressMultipleFiles | compressS.c:163-184 | the loop computes `Compressed`: inputs that do not open are skipped, and the run stops at the first byte without a code |
| TextEncoder.CompressedFrame | compressS.c:163-184 | when every byte has a code, the text is `FILE_SEP` followed by the code text, for each input that opens |
| TextEncoder.CompressedFails | compressS.c:175-180 | the run fails exactly when some input that opens holds a byte without a code |
| TextEncoder.CodedPrefix | compressS.c:174-180 | counts the leading bytes that have a code; the byte after them has none |

## Left out

- SerialDecoder.SerialDecode, StreamDecoder.Stream, ChunkDecoder.Decompressed: after a NULL dereference the model gives the open output every symbol handed to `fputc` before the crash. The process dies without flushing stdio, so the file on disk holds only a prefix of that, possibly nothing. Buffered output is not modelled. Outputs already closed are complete; this is why the Fork decoder, which writes each file whole, is unaffected.
- Directory scanning, `stat`/`mkdir` and the `.txt` file-name filter are not modelled. Neither are output path formatting, nor `fopen`/`fclose` of the compressor's own files. These are file-system I/O. An input that cannot be opened is modelled as `None`. A failing output `fopen` in a decoder is left out: the model always gets its output.
- `fork`, `wait` and `waitpid` are not modelled, nor the `pids[100]` table. The model runs the children one after another as one sequential pass, and gives each output as a sequence of files.
- `mergeTemporaryFiles` is modelled only by its effect, the concatenation of the per-file outputs (`BitPacker.MergedBits`). Its temporary file names and `remove` are I/O.
- `clock_gettime` and the `double` timing arithmetic are diagnostics. The `printf` messages are left out too.
- Memory management is left out, because it has no meaning in the model. That covers `malloc`, `calloc`, `strdup`, `free`, `freeHuffmanTree` and `freeTree`, and the allocation failures that call `perror`/`exit`.
- The multi-file round trip for `compressFork.c` followed by `Fork/decompressFork.c` or `Serial/decompressSerial.c` is not asserted. It does not hold: each file's zero padding lands mid-stream (`BitPacker.MergedPadding`). The decoders' theorems are therefore stated on one stream of codes without padding in between.
- Parsing of decimal `%d` values with `int` overflow is not modelled; the model's values are unbounded.
- Array bounds the C code does not check are preconditions or are left out:
  - the 256-byte `currentCode`/`code[]` buffers: codes longer than 255 are not produced by generation, and a longer code in `codes.txt` is read whole;
  - the `MAX_FILES` limit of 100 inputs;
  - the `pids[100]` limit;
  - the `codes[symbol]` index in `loadCodesFromFile` (compressFork.c:147): the C writes outside `char *codes[256]` for a symbol outside 0..255, which is undefined behaviour with no message; `Codebook.LoadFrom` and `Codebook.LoadCodes` give `None` for it instead.
- Reading `codes.txt` in the compressor child is modelled as taking the already-loaded table as a parameter.
- `TreeBuilder.BuildTree`: the loop bound `size < 256` is proved from the number of positive symbols. The model does not capture a C `int` frequency sum that overflows: frequencies are unbounded integers.
- `Frequencies.CountFrequencies`, `Frequencies.CountFile`: counts are unbounded integers. A 32-bit `int` count overflowing after 2^31 occurrences is not modelled.
- `Frequencies.TotalChars`, `Frequencies.EmptyInput`: `int total_chars` (compressS.c:246-247) is an unbounded sum in the model. Its overflow once the inputs total 2^31 bytes is not modelled. Neither is a wrap to 0 at a multiple of 2^32 bytes, which would make the C take the "no characters" exit at compressS.c:248 wrongly.
- `ForkDecoder.DecodeStream`: `int bitPos` compared with `fileSize * 8` (Fork/decompressFork.c:116-118) is an unbounded index in the model. Its overflow on a compressed file of 2^28 bytes or more is not modelled.
- `ChunkDecoder.NextChunk`: `int chunkLen` (decompressFork.c:111 and 138) is an unbounded length in the model. Its overflow on a chunk of 2^31 characters or more is not modelled.

## Findings

| source | as written | input that shows it | evidently intended | confidence | as-written member | corrected member |
|---|---|---|---|---|---|---|
| Fork/decompressFork.c:165-167 | a symbol enters the segment buffer only `delimiterLength` symbols after it was decoded, and the lookahead is never flushed; each middle file loses its last symbol and the last file loses up to its last 8 (exactly 8 on a stream without padding) | two files `"ab"` and `"cd"` framed with `FILE_SEP`: the code writes only `"a"` | each segment between delimiters is written whole | not executed | ForkDecoder.ForkLagCounterexample | ForkDecoder.SegmentFrame |
| Serial/decompressSerial.c:91-104 | on a mismatch after a partial match the mismatching symbol is written as data, without testing whether it starts a new `FILE_SEP` | two files `"F"` and `"x"`: the stream `FILE_SEP F FILE_SEP x` decodes to one file, `F` + `FILE_SEP` + `x` | the mismatching symbol is tested against `DELIMITER[0]` again | not executed | SerialDecoder.SerialCounterexample | SerialDecoder.RetestedFrame |
