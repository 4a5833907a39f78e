# Verification of transcribe-cpp

A Dafny model of the parts of the transcription library that are hardest to get right, with proofs. Four cores, each a
fast or stateful implementation beside a plain definition of what it is for.

1. **FFT against the DFT.** `Radix2` is the in-place radix-2 transform with its bit-reversal loop and incrementally
   computed twiddles; `MixedRadix` is the recursive transform that halves even sizes, falls back to the quadratic sum
   on odd ones and works inside tight 2N input and 8N output buffers. Both are methods on interleaved arrays, proved
   equal to the sum in `Dft`. Arithmetic is exact (pairs of reals); the roots of unity enter only through the laws
   they satisfy (`RootFamily`, `LutLaws`).
2. **Byte-level BPE.** `Utf8`, `ByteMaps` and `CodepointFlags` are the tables and the codec. `Regexes` gives regular
   expressions the meaning of a backtracking engine; `Patterns` states the documented pretokenizer patterns, and the
   three splitters are proved against them. `Bpe` is byte pair encoding by definition; `SymbolList`, `Seeding` and
   `MergeLoop` are the linked list, the priority queue with stale entries and the loop that refines it. `ByteBpe`,
   `Vocabulary`, `Pretokenizer` and `Tokenizers` put the pieces together and prove that decoding undoes encoding.
3. **Batched decoding and work distribution.** `GreedyDecode` decodes one utterance on its own; `BatchDecode` is the
   lockstep loop with its growing attention window and flat mask, proved to refine it row by row. `ParallelFor` is the
   atomic-counter protocol as interleaved steps.
4. **Sessions and streaming text.** `StreamText` is the commitment of text from hypotheses that may be rewritten
   anywhere; `Session` is the dispatcher around arbitrary family hooks, for streams, single runs and batches.
   `Results` holds the snapshots and the definition of a batch as lone runs.

Conventions. Bytes are integers below 256, strings are sequences of bytes, integers are unbounded. A C++ exception is
an explicit outcome (`None`, `Thrown`). A family hook is any function from what it finds in the session
(`Entry`: the fields hooks own, the lifecycle state, the stream configuration, the text view and the update buffer) to
its status, the fields it leaves and what it wrote into the update buffer (`HookResult`). Checks of caller parameters
enter the dispatcher as the verdicts of those checks, in the order the code makes them. The step graph of batched
decoding is an oracle from what a row's mask leaves visible in the row's own key-value memory to its next token, and a
rebuild keeps that memory. The Unicode data is a parameter; `Classified` lists what the splitters need of it: every
codepoint has a category and at most one of letter, number and whitespace, and the ASCII characters named in the
code are of the expected kind. `UnicodeTable` derives it from conditions on the range data. Without it the splitters are still proved to tile the text.

Where the code and its documentation part ways the model follows the code:

- The GPT-2 splitter cuts a run of three or more whitespace codepoints before something else into single codepoints;
  `Gpt2Splitter.DocumentedIff` says that this is the only difference from the documented pattern.
- The granite splitter leaves newlines out of a symbol run; `GraniteSplitter.DocumentedIff` is the same for it.
- The last codepoint of the byte map is 0x143; the comments say 0x142.
- `has_encoder` answers true for a `char` vocabulary loaded with the default pretokenizer name, although encode then
  refuses every non-empty text by its configuration (`Tokenizers.HasEncoderFails`). `Tokenizers.EncoderAfterLoad` says
  that a `char` vocabulary without a GPT-2 name is the only case of that kind; a vocabulary that lacks pieces is read,
  and may encode nothing either (`Tokenizers.HasEncoderFailsOnPieces`).
- A rejected single run keeps the previous result but has already dropped the batch results (`Session.Session.Run`).
- The serial batch drops partial text of utterances that did not end OK (`Results.Slot`).

## Model

| member | source | states |
|---|---|---|
| `Radix2.FftRadix2` | src/transcribe-cpp/src/transcribe-mel.cpp:228-270 | for every power of two n, the in-place buffer ends as the DFT of its input with the root of unity of order n: cell 2k holds the real part of bin k, cell 2k + 1 its imaginary part (also the copy at transcribe-kaldi-fbank.cpp:105-143) |
| `Radix2.FftInterleaved` | src/transcribe-cpp/src/transcribe-mel.cpp:228-270 | permutation and stages together: read as interleaved complex numbers the buffer ends as the DFT sums of what it held |
| `Radix2.PermuteBitReversed` | src/transcribe-cpp/src/transcribe-mel.cpp:229-241 | the carry loop visits the bit reversal of i and the swaps leave the bit-reversed permutation of the input |
| `BitReversal.NextReversed` | src/transcribe-cpp/src/transcribe-mel.cpp:232-236 | the inner bit loop turns the reversal of i-1 into the reversal of i |
| `BitReversal.RevInvolution` | src/transcribe-cpp/src/transcribe-mel.cpp:237-240 | bit reversal is an involution on [0, n), so every pair is swapped exactly once |
| `Radix2.ButterflyGroup` | src/transcribe-cpp/src/transcribe-mel.cpp:250-267 | the incrementally updated twiddle is the k-th power of the group root and every butterfly of the group is applied once |
| `Radix2.CombineBlocks` | src/transcribe-cpp/src/transcribe-mel.cpp:249-268 | a group of butterflies turns two blocks holding the DFTs of the even and odd subsequences into one block holding the DFT of the whole |
| `Radix2.Stage` | src/transcribe-cpp/src/transcribe-mel.cpp:249-269 | stage invariant: if every half-length block holds the DFT of its subsequence then so does every full-length block afterwards |
| `Radix2.HalfTurn` | src/transcribe-cpp/src/transcribe-mel.cpp:246-248 | the stage root squared is the root of the previous stage and its half power is -1 |
| `Radix2.NextPow2` | src/transcribe-cpp/src/transcribe-kaldi-fbank.cpp:22-28 | the padded frame size is the least power of two that holds the frame, the precondition of the FFT |
| `Dft.CooleyTukey` | src/transcribe-cpp/src/transcribe-mel.cpp:215-225 | the DFT of a sequence of even length is even bin plus (first half) or minus (second half) the twiddled odd bin |
| `MixedRadix.MixedRadixFft` | src/transcribe-cpp/src/transcribe-mel.cpp:178-226 | for every size dividing the table size the first 2N output cells hold the DFT of the N real inputs, real part before imaginary part; inputs and everything outside the 2N and 8N buffers survive |
| `MixedRadix.MixedRadixHalves` | src/transcribe-cpp/src/transcribe-mel.cpp:199-225 | the even half transform survives the computation of the odd half through the same scratch |
| `MixedRadix.HalfTransform` | src/transcribe-cpp/src/transcribe-mel.cpp:199-212 | one parity is copied into the scratch half and transformed into its own output region, touching nothing else |
| `MixedRadix.DftNaive` | src/transcribe-cpp/src/transcribe-mel.cpp:163-176 | the quadratic leaf fills every bin with its DFT sum |
| `MixedRadix.NaiveBin` | src/transcribe-cpp/src/transcribe-mel.cpp:165-172 | one bin accumulated through the tables is the DFT sum |
| `MixedRadix.Combine` | src/transcribe-cpp/src/transcribe-mel.cpp:214-225 | the final butterflies produce all bins from the two half transforms without reading a bin already overwritten |
| `MixedRadix.HalfTurnIndex` | src/transcribe-cpp/src/transcribe-mel.cpp:214-218 | the unreduced index k * step of the final butterflies stays inside the table and reads the k-th power of the root |
| `MixedRadix.TableIsPower` | src/transcribe-cpp/src/transcribe-mel.cpp:305-319 | from the construction laws of the table, reading it at i modulo its size is the i-th power of the root |
| `MixedRadix.RootHalves` | src/transcribe-cpp/src/transcribe-mel.cpp:154-157 | halving an even size that divides the table squares the root and its half power is -1 |
| `Utf8.CptsFromUtf8` | src/transcribe-cpp/src/transcribe-unicode.cpp:117-125 | decodes the whole text or fails exactly when some codepoint is malformed |
| `Utf8.DecodeEncode` | src/transcribe-cpp/src/transcribe-unicode.cpp:48-125 | decoding the encoding of any codepoints up to 0x10FFFF gives them back |
| `Utf8.EncodeBytes` | src/transcribe-cpp/src/transcribe-unicode.cpp:48-73 | the bytes of every encoded codepoint, as section 3 of RFC 3629 lays them out: leading byte by length, then six bits per continuation byte, most significant first |
| `Utf8.EncodeExamples` | src/transcribe-cpp/src/transcribe-unicode.cpp:48-73 | the bytes of one codepoint of each of the four lengths |
| `Utf8.CanonicalIff` | src/transcribe-cpp/src/transcribe-unicode.cpp:75-115 | a text is a concatenation of encoded codepoints exactly when it decodes to valid codepoints that encode back to it (the decoder itself accepts more) |
| `Utf8.OverlongDecodes` | src/transcribe-cpp/src/transcribe-unicode.cpp:75-92 | an over-long two-byte form that the decoder accepts and that is not canonical |
| `Utf8.ReencodingShrinks` | src/transcribe-cpp/src/transcribe-unicode.cpp:75-115 | re-encoding what was decoded never takes more bytes than were read |
| `Utf8.SplitAtBoundary` | src/transcribe-cpp/src/transcribe-unicode.cpp:36-73 | cutting encoded text at a non-continuation byte cuts between codepoints |
| `ByteMaps.ByteCptInjective` | src/transcribe-cpp/src/transcribe-unicode.cpp:250-290 | the byte to codepoint map is injective; its top codepoint is 0x143, one above the comment |
| `ByteMaps.ByteCptExamples` | src/transcribe-cpp/src/transcribe-unicode.cpp:259-289 | some entries of the map: printable ASCII stays, the space becomes U+0120, the newline U+010A, 0xAD becomes U+0143 |
| `ByteMaps.ByteMap.constructor` | src/transcribe-cpp/src/transcribe-unicode.cpp:259-289 | the two table-filling passes build the definition: visible bytes stand for themselves, hidden ones are numbered from 256 in order |
| `ByteMaps.ByteMap.UnicodeToByteIff` | src/transcribe-cpp/src/transcribe-unicode.cpp:303-323 | the inverse recognises exactly the glyphs of the 256 bytes, and any non-canonical spelling the permissive decoder reads as one of their codepoints |
| `ByteMaps.ByteMap.GlyphRoundTrip` | src/transcribe-cpp/src/transcribe-unicode.cpp:299-323 | unicode_to_byte undoes byte_to_unicode for every byte |
| `CodepointFlags.FlagsTable.constructor` | src/transcribe-cpp/src/transcribe-unicode.cpp:153-183 | the dense array holds the specified flags of every BMP codepoint, for every sorted range table that starts at 0 and has a sentinel |
| `CodepointFlags.FlagsTable.Lookup` | src/transcribe-cpp/src/transcribe-unicode.cpp:185-204 | array lookup and binary search agree with: flags of the last range at or below c, with WHITESPACE if c is in the set |
| `CodepointFlags.FlagBits` | src/transcribe-cpp/src/transcribe-unicode.h:31-59 | which bits of the range data mean number, letter, whitespace and any category |
| `UnicodeTable.TableClassifies` | src/transcribe-cpp/src/transcribe-unicode.cpp:149-205 | range data in which every range has a category and at most one of letter, number and whitespace (with the ASCII characters as expected) classify every codepoint up to 0x10FFFF |
| `UnicodeTable.SplitsByPattern` | src/transcribe-cpp/src/transcribe-unicode.cpp:214-218 | with such a table the split points of every decodable text are exactly those of the pattern |
| `QwenSplitter.Split` | src/transcribe-cpp/src/transcribe-unicode.cpp:345-468 | the split points are strictly increasing and end at the length; on classified text they are exactly the ordered-choice greedy matches of the documented seven alternatives, and every pretoken ends where the rule for its first codepoints says |
| `QwenSplitter.StepMatches` | src/transcribe-cpp/src/transcribe-unicode.h:107-117 | at every position of a classified text the documented pattern has a match, and it ends where the branches of the code end |
| `QwenSplitter.StepObeys` | src/transcribe-cpp/src/transcribe-unicode.cpp:365-456 | the rule, stated on the codepoints: an apostrophe and s, t, m, d or re, ve, ll in either case make a pretoken; otherwise a maximal run of letters, after one other codepoint or none, a single number, a maximal symbol run with its newlines, or whitespace cut after its last newline or before its last codepoint |
| `GraniteSplitter.Split` | src/transcribe-cpp/src/transcribe-unicode.cpp:512-630 | the same for granite, whose symbol alternative stops before newlines: increasing split points, the ordered-choice matches of the pattern, and the rule for every pretoken |
| `GraniteSplitter.StepObeys` | src/transcribe-cpp/src/transcribe-unicode.cpp:512-630 | the rule of the granite splitter: numbers come in runs of at most three, symbol runs stop before newlines |
| `GraniteSplitter.DocumentedIff` | src/transcribe-cpp/src/transcribe-unicode.h:151-166 | the code splits like the documented pattern with trailing newlines if and only if no symbol is followed by a newline |
| `GraniteSplitter.DocumentedFails` | src/transcribe-cpp/src/transcribe-unicode.cpp:505-511 | a symbol followed by a newline on which code and documented pattern differ |
| `Gpt2Splitter.Split` | src/transcribe-cpp/src/transcribe-unicode.cpp:671-840 | the same for GPT-2, with the whitespace alternatives the code implements and contractions in lower case only |
| `Gpt2Splitter.StepObeys` | src/transcribe-cpp/src/transcribe-unicode.cpp:692-838 | the rule of the GPT-2 splitter: contractions in lower case, then maximal runs of letters, numbers or symbols after at most one space; other whitespace goes whole at the end of the text and codepoint by codepoint elsewhere |
| `Gpt2Splitter.DocumentedIff` | src/transcribe-cpp/src/transcribe-unicode.h:125-130 | the code splits like the documented pattern if and only if no run of three whitespace codepoints stands before something else |
| `Gpt2Splitter.DocumentedFails` | src/transcribe-cpp/src/transcribe-unicode.cpp:798-814 | three spaces and a letter, on which code and documented pattern differ |
| `Patterns.MatchContractions` | src/transcribe-cpp/src/transcribe-unicode.cpp:365-392 | the contraction branch is the first alternative of the pattern, with or without case folding |
| `Patterns.MatchWhiteBeforeWhite` | src/transcribe-cpp/src/transcribe-unicode.cpp:430-456 | the rule that gives the last whitespace back is greedy matching with negative lookahead |
| `Patterns.MatchNewlineRun` | src/transcribe-cpp/src/transcribe-unicode.cpp:430-456 | cutting after the last newline of a whitespace run is greedy matching of whitespace and then newlines with backtracking |
| `Splitters.ContractionObeys` | src/transcribe-cpp/src/transcribe-unicode.cpp:365-392 | which codepoints after an apostrophe end a pretoken two or three codepoints later, with and without case folding |
| `Splitters.WhiteStepObeys` | src/transcribe-cpp/src/transcribe-unicode.cpp:430-456 | a whitespace run is cut after its last newline, or else left whole at the end of the text or when it is a single codepoint, or else gives its last codepoint back |
| `Bpe.BestIs` | src/transcribe-cpp/src/transcribe-tokenizer.cpp:302-311 | the pair chosen is the one of least rank and, on ties, leftmost; there is none exactly when no pair can be merged |
| `Bpe.NaiveKeeps` | src/transcribe-cpp/src/transcribe-tokenizer.cpp:556-618 | merging loses no byte, makes no piece and keeps every property closed under joining |
| `Bpe.NaiveTrace` | src/transcribe-cpp/src/transcribe-tokenizer.cpp:580-618 | the result is reached from the pieces by a finite trace in which each step joins one neighbour pair of least rank, the leftmost of them, and no neighbours in the result have a rank |
| `Bpe.NaiveMergesBest` | src/transcribe-cpp/src/transcribe-tokenizer.cpp:584-613 | joining the best pair first changes nothing about the result |
| `Bpe.NaiveMergesPair` | src/transcribe-cpp/src/transcribe-tokenizer.cpp:584-613 | two pieces with a rank become one, two pieces without stay two |
| `SymbolList.FreshIsAdjacent` | src/transcribe-cpp/src/transcribe-tokenizer.cpp:588-605 | a popped entry whose slots are alive and whose sizes match is the pair of a slot and its current right neighbour |
| `SymbolList.FreshIsBest` | src/transcribe-cpp/src/transcribe-tokenizer.cpp:584-605 | a fresh entry from the top of the queue is the best pair of naive BPE |
| `SymbolList.EmptyIsDone` | src/transcribe-cpp/src/transcribe-tokenizer.cpp:584-618 | with the queue empty no pair of neighbours can be merged |
| `SymbolList.MergeKeepsChain` | src/transcribe-cpp/src/transcribe-tokenizer.cpp:607-613 | unlinking the right slot keeps the list a doubly linked chain that tiles the word |
| `SymbolList.MergePieces` | src/transcribe-cpp/src/transcribe-tokenizer.cpp:607-613 | one list update is one merge of the naive algorithm |
| `MergeLoop.Workspace.Seed` | src/transcribe-cpp/src/transcribe-tokenizer.cpp:563-578 | seeding makes one slot per codepoint or per byte, linked in order (raw bytes: lines 392-402) |
| `MergeLoop.Workspace.Run` | src/transcribe-cpp/src/transcribe-tokenizer.cpp:580-618 | linked list, priority queue and stale-entry dropping: the pieces left are reached from the seeds by a trace of merges, each of the leftmost pair of least rank, and no neighbours left have a rank; they are those of naive BPE; the loop terminates by 3 * live slots + queue length (raw bytes: lines 404-434) |
| `MergeLoop.Workspace.MergeTop` | src/transcribe-cpp/src/transcribe-tokenizer.cpp:607-617 | a fresh entry is merged and its new neighbour pairs are enqueued, so the queue again covers every mergeable neighbour pair |
| `MergeLoop.DropStale` | src/transcribe-cpp/src/transcribe-tokenizer.cpp:590-605 | dropping a stale entry leaves every mergeable neighbour pair covered |
| `MergeLoop.MergeKeepsReady` | src/transcribe-cpp/src/transcribe-tokenizer.cpp:607-617 | the loop invariant survives a merge |
| `ByteBpe.ReadSpell` | src/transcribe-cpp/src/transcribe-tokenizer.cpp:222-253 | reading the spelling of any bytes in the alphabet of either vocabulary gives the bytes back |
| `ByteBpe.SpelledJoin` | src/transcribe-cpp/src/transcribe-tokenizer.cpp:234-250 | joining two spelled pieces joins the bytes they stand for |
| `ByteBpe.DecodePieces` | src/transcribe-cpp/src/transcribe-tokenizer.cpp:620-649 | ids emitted for pieces, whole or by fallback, decode to what the pieces spell |
| `ByteBpe.KnownPieces` | src/transcribe-cpp/src/transcribe-tokenizer.cpp:620-629 | when all final pieces are in the vocabulary there is exactly one id per piece, its own |
| `ByteBpe.EmitPiecesGrouped` | src/transcribe-cpp/src/transcribe-tokenizer.cpp:620-649 | the ids come in groups, one per final piece in order: the id of a known piece, else the ids of its symbols (raw bytes: lines 436-461) |
| `ByteBpe.EncodeWordsIsAllPieces` | src/transcribe-cpp/src/transcribe-tokenizer.cpp:556-650 | the ids of all pretokens are those of their final pieces in order |
| `ByteBpe.JoinedPieceIsOneId` | src/transcribe-cpp/src/transcribe-tokenizer.cpp:580-629 | two symbols with a rank whose join is in the vocabulary end as one id |
| `ByteBpe.ReadForeign` | src/transcribe-cpp/src/transcribe-tokenizer.cpp:234-250 | a symbol that is no glyph of a byte is decoded to itself |
| `ByteBpe.DecodeOneId` | src/transcribe-cpp/src/transcribe-tokenizer.cpp:209-233 | an id outside the vocabulary decodes to nothing, any other to what its piece reads as |
| `ByteBpe.EncodeWordsRoundTrip` | src/transcribe-cpp/src/transcribe-tokenizer.cpp:556-650 | over all pretokens: the ids decode to the text, there are at most as many ids as bytes, and none is missing when all single-byte pieces are in the vocabulary |
| `Vocabulary.BuildIndex` | src/transcribe-cpp/src/transcribe-tokenizer.cpp:728-733 | piece to id with the first occurrence winning |
| `Vocabulary.BuildMergeRanks` | src/transcribe-cpp/src/transcribe-tokenizer.cpp:770-801 | fails exactly when a line has no cut; otherwise the first line of each key gives its rank |
| `Vocabulary.RankIsFirstLine` | src/transcribe-cpp/src/transcribe-tokenizer.cpp:527-535 | the rank looked up for a pair is the number of the first merges line that spells it, for pieces without the separator bytes |
| `Vocabulary.RawRankIsFirstIndex` | src/transcribe-cpp/src/transcribe-tokenizer.cpp:353-361 | with a raw vocabulary the rank of a pair is the first index of the joined piece, left before right, and there is none exactly when no entry is the join |
| `Pretokenizer.Pretokenize` | src/transcribe-cpp/src/transcribe-unicode.cpp:472-499 | fails exactly on text that does not decode to valid codepoints; otherwise the pretokens are the spelled chunks between the split points |
| `Pretokenizer.ChunksCover` | src/transcribe-cpp/src/transcribe-unicode.cpp:472-499 | the chunks between the split points concatenate to the re-encoded text |
| `Tokenizers.Tokenizer.Load` | src/transcribe-cpp/src/transcribe-tokenizer.cpp:658-830 | each status exactly when it is due, over all keys the loader reads; on OK the tokenizer holds the contents of the file, with the defaults of absent keys |
| `Tokenizers.Tokenizer.LoadColumns` | src/transcribe-cpp/src/transcribe-tokenizer.cpp:735-801 | scores and token types must match the vocabulary in length, merges must all have a cut |
| `Tokenizers.Tokenizer.LoadSpecials` | src/transcribe-cpp/src/transcribe-tokenizer.cpp:803-829 | absent special ids stay, ids of the wrong type are errors |
| `Tokenizers.Tokenizer.LoadDecodeOnly` | src/transcribe-cpp/src/transcribe-tokenizer.cpp:844-901 | the in-memory loaders: an empty vocabulary is refused without change, anything else replaces the vocabulary |
| `Tokenizers.Tokenizer.EmitFallback` | src/transcribe-cpp/src/transcribe-tokenizer.cpp:631-648 | the fallback spells a piece symbol by symbol or fails on the first unknown symbol (raw bytes: lines 447-461) |
| `Tokenizers.Tokenizer.EmitWalk` | src/transcribe-cpp/src/transcribe-tokenizer.cpp:620-649 | the unconditional walk from slot 0 emits the pieces of the finished list in order; when all of them are in the vocabulary the ids are theirs, one each |
| `Tokenizers.Tokenizer.Encode` | src/transcribe-cpp/src/transcribe-tokenizer.cpp:469-652 | the configuration refusals, the exception and the two outcomes of reading the text; ids are those of naive BPE on the pretokens, grouped by final piece with one id for each piece in the vocabulary; on classified text the outcome is the only one the definition allows, so OK and the missing-piece error are exact |
| `Tokenizers.EncodeGroups` | src/transcribe-cpp/src/transcribe-tokenizer.cpp:556-652 | encoded ids split into one group per final piece of the pretokens, a single id where the piece is in the vocabulary |
| `Tokenizers.PatternByName` | src/transcribe-cpp/src/transcribe-tokenizer.cpp:500-518 | the name gpt2 or a raw vocabulary selects the GPT-2 pattern, granite the granite one, any other name the Qwen2 one; ranks come from the vocabulary when it is raw, from the merges otherwise |
| `Tokenizers.Tokenizer.DecodePieceBytes` | src/transcribe-cpp/src/transcribe-tokenizer.cpp:234-250 | glyph by glyph, anything that is not a glyph passes through |
| `Tokenizers.Tokenizer.Decode` | src/transcribe-cpp/src/transcribe-tokenizer.cpp:209-253 | the concatenation of what the in-range ids stand for |
| `Tokenizers.EncodeThenDecode` | src/transcribe-cpp/src/transcribe-tokenizer.cpp:209-253 | ids that encode gives for a text decode to that text if and only if it is canonical UTF-8 (else to its re-encoding), and there are at most as many ids as bytes; both byte-level modes, any pretokenizer |
| `Tokenizers.AllBytesSuffice` | src/transcribe-cpp/src/transcribe-tokenizer.cpp:631-648 | with all 256 single-byte pieces in the vocabulary encode never runs into a missing piece |
| `Tokenizers.HasEncoderIff` | src/transcribe-cpp/src/transcribe-tokenizer.cpp:121-132 | has_encoder holds exactly when encode passes its configuration checks, except that a raw vocabulary also needs a GPT-2 pretokenizer name |
| `Tokenizers.EncoderAfterLoad` | src/transcribe-cpp/src/transcribe-tokenizer.cpp:121-132 | has_encoder answers true although encode refuses by configuration (InvalidArg, before reading the text) if and only if the file is a char vocabulary whose pretokenizer name is not a GPT-2 one; in every other case with has_encoder true encode reads the text and fails only on undecodable text or a missing piece; with has_encoder false it refuses by configuration |
| `Tokenizers.HasEncoderFails` | src/transcribe-cpp/src/transcribe-tokenizer.cpp:688-709 | the input: a char vocabulary without a pretokenizer key |
| `Tokenizers.HasEncoderFailsOnPieces` | src/transcribe-cpp/src/transcribe-tokenizer.cpp:631-648 | another input on which has_encoder is true and no non-empty text encodes, this time for missing pieces: a gpt2 vocabulary with one empty piece and one merge |
| `Tokenizers.EncodesUnique` | src/transcribe-cpp/src/transcribe-tokenizer.cpp:469-652 | a classified text has one outcome: its ids, or a missing piece |
| `Tokenizers.RoundTrip` | src/transcribe-cpp/src/transcribe-tokenizer.cpp:469-652 | end to end: with an encoder configured and all single-byte pieces known every canonical text encodes and decodes to itself; any text that encodes comes back unchanged exactly when it is canonical |
| `Tokenizers.Tokenize` | src/transcribe-cpp/src/transcribe.cpp:2488-2526 | a non-negative result counts the ids of the text; a negative one is minus the number of ids, which did not fit; INT_MIN only when there are no ids, too many to count, or some that would fit but a null buffer; a buffer of one entry per byte never makes the caller retry |
| `Tokenizers.TokenizeRetrying` | src/transcribe_glue.cpp:737-748 | the retry contract: a second call with as many entries as the first asked for delivers all ids, and INT_MIN is left exactly for texts without ids or with too many |
| `UnicodeTable.TableSettles` | src/transcribe-cpp/src/transcribe-unicode.cpp:214-218 | a tokenizer over clean range data gives every text one outcome |
| `ParallelFor.EverySchedule` | src/transcribe-cpp/src/transcribe-batch-util.cpp:90-123 | under every interleaving no index runs twice, and once all workers have joined every index has run and the flag is the conjunction of the results |
| `ParallelFor.RunKeeps` | src/transcribe-cpp/src/transcribe-batch-util.cpp:104-111 | every atomic action keeps: each index handed out has run once or is held by exactly one worker, and each failure has lowered the flag or is about to |
| `ParallelFor.JoinedIsComplete` | src/transcribe-cpp/src/transcribe-batch-util.cpp:117-122 | all workers joined means every index ran exactly once and the result is right |
| `ParallelFor.RoundsFinish` | src/transcribe-cpp/src/transcribe-batch-util.cpp:104-121 | enough rounds in which every worker moves bring all workers to the join |
| `ParallelFor.ParallelForAll` | src/transcribe-cpp/src/transcribe-batch-util.cpp:90-123 | under a scheduler that picks any unfinished worker it terminates with the conjunction of all results |
| `GreedyDecode.GreedyNext` | src/transcribe-cpp/src/transcribe-batch-util.cpp:336-350 | one more draw of a row on its own appends the token or stops at end of sequence |
| `GreedyDecode.GreedyStopped` | src/transcribe-cpp/src/transcribe-batch-util.cpp:336-350 | after end of sequence a larger budget changes nothing |
| `GreedyDecode.GreedyIs` | src/transcribe-cpp/src/transcribe-batch-util.cpp:336-350 | each token is drawn from the history before it and is not end of sequence; the sequence falls short of its budget exactly if the next draw is end of sequence |
| `GreedyDecode.VisibleIsHistory` | src/transcribe-cpp/src/transcribe-batch-util.cpp:240-259 | with the mask open exactly on 0..p a row sees its own history and nothing else |
| `GreedyDecode.OpenCell` | src/transcribe-cpp/src/transcribe-batch-util.cpp:241-245 | opening one position in one row of the flat mask touches no other cell |
| `GreedyDecode.WindowGrows` | src/transcribe-cpp/src/transcribe-batch-util.cpp:266-271 | doubling and clamping is the step of the closed form min(init * 2^g, limit) |
| `GreedyDecode.GrowthBound` | src/transcribe-cpp/src/transcribe-batch-util.cpp:266-277 | the window grows at most k times for any k with init * 2^k at least the limit |
| `BatchDecode.WiderMask` | src/transcribe-cpp/src/transcribe-batch-util.cpp:272-276 | the widened mask shows every row exactly the positions before posv |
| `BatchDecode.DrawsAlone` | src/transcribe-cpp/src/transcribe-batch-util.cpp:240-259 | a step gives a row the token it would draw alone |
| `BatchDecode.SoloIsOwn` | src/transcribe-cpp/src/transcribe-batch-util.cpp:303-352 | a finished row in plain terms: each token drawn from the prompt and the tokens before it, within max_new and the memory; if truncated one of the two bounds is reached, if not the draw after the last token is end of sequence |
| `BatchDecode.StepLoop.RunStep` | src/transcribe-cpp/src/transcribe-batch-util.cpp:240-259 | entered only with the position inside the window; it opens exactly that position in every row and computes |
| `BatchDecode.StepLoop.EnsureWindow` | src/transcribe-cpp/src/transcribe-batch-util.cpp:262-279 | afterwards the position fits, the mask is unchanged in meaning and the window still follows the closed form |
| `BatchDecode.StepLoop.FeedPrompt` | src/transcribe-cpp/src/transcribe-batch-util.cpp:282-301 | after the prompt every row remembers the prompt and its argmax is its own first token |
| `BatchDecode.StepLoop.CollectTokens` | src/transcribe-cpp/src/transcribe-batch-util.cpp:303-313 | each live row appends its own next token or finishes, finished rows stay |
| `BatchDecode.StepLoop.Generate` | src/transcribe-cpp/src/transcribe-batch-util.cpp:316-352 | every row stays in step with its own greedy decode; the loop stops only when all are finished or the cap is reached |
| `BatchDecode.StepLoop.Run` | src/transcribe-cpp/src/transcribe-batch-util.cpp:200-365 | each valid row, whatever the other rows do: each token is the draw after the prompt and the tokens before it and not end of sequence, there are at most max_new (but one, if max_new is smaller) and at most max_n_kv - prompt_len + 1, a truncated row has reached one of the two bounds, and after the last token of any other the draw is end of sequence; OK means quiet polls, computed steps and built windows throughout; every other status is explained by the answer at the very step or window the loop had reached; error paths leave prefixes; no step is wasted; rebuilds are logarithmic |
| `StreamText.Utf8FloorBoundary` | src/transcribe-cpp/src/transcribe.cpp:1103-1111 | the last boundary at or before a position |
| `StreamText.CommonPrefixBytes` | src/transcribe-cpp/src/transcribe.cpp:1113-1120 | the longest common prefix, cut back to a boundary |
| `StreamText.TokenPrefixIsTokenText` | src/transcribe-cpp/src/transcribe.cpp:1126-1147 | from above: what a family commits by token count is text of those tokens, up to one leading space |
| `StreamText.TokenPrefixKeeps` | src/transcribe-cpp/src/transcribe.cpp:1126-1147 | and from below: all the token text if the full text starts with it, all but its leading space if the full text drops that, and otherwise every aligned prefix the two share |
| `StreamText.FamilyCandidateIs` | src/transcribe-cpp/src/transcribe.cpp:1149-1164 | committing by tokens comes first; without committed tokens everything is committed once all words or all segments are, and else nothing |
| `StreamText.AppendedGrows` | src/transcribe-cpp/src/transcribe.cpp:1211-1231 | text is appended exactly when the hypothesis still starts with the committed text at a boundary and the candidate goes further, and then up to the boundary of the candidate |
| `StreamText.FeedAppends` | src/transcribe-cpp/src/transcribe.cpp:1263-1300 | a feed keeps the stream invariant (start equals committed length, nothing committed under ON_FINALIZE, bounded history) and only appends text of the hypothesis |
| `StreamText.FeedSplits` | src/transcribe-cpp/src/transcribe.cpp:1286-1292 | committed plus tentative is the hypothesis if and only if the hypothesis starts with the committed text and has a boundary there |
| `StreamText.PrefixAligned` | src/transcribe-cpp/src/transcribe.cpp:1103-1111 | where one well-formed text starts another it ends at a boundary |
| `StreamText.FeedWellFormed` | src/transcribe-cpp/src/transcribe.cpp:1211-1231 | well-formed hypotheses keep the committed text well-formed |
| `StreamText.FeedShows` | src/transcribe-cpp/src/transcribe.cpp:1286-1292 | with well-formed text, committed plus tentative is the hypothesis if and only if the hypothesis starts with the committed text |
| `StreamText.FeedEvidence` | src/transcribe-cpp/src/transcribe.cpp:1166-1194 | generic agreement: whenever committed text grows, all of it starts each of the last n hypotheses |
| `StreamText.FeedCommitsTokens` | src/transcribe-cpp/src/transcribe.cpp:1126-1147 | family boundary: when the hypothesis starts with the text of the committed tokens, exactly that text is committed, or what already was if that is more |
| `StreamText.FeedCommitsTrimmedTokens` | src/transcribe-cpp/src/transcribe.cpp:1136-1143 | the same without the leading space the full text leaves out |
| `StreamText.FeedCommitsAll` | src/transcribe-cpp/src/transcribe.cpp:1156-1163 | the whole hypothesis is committed once all its words or all its segments are |
| `StreamText.FeedCommitsAtOnce` | src/transcribe-cpp/src/transcribe.cpp:1166-1194 | with an agreement of one the whole hypothesis is committed at once |
| `StreamText.FeedCommitsAgreement` | src/transcribe-cpp/src/transcribe.cpp:1184-1194 | and nothing less: every well-formed text that starts each of the last n hypotheses is committed |
| `StreamText.StreamAppendOnly` | src/transcribe-cpp/src/transcribe.cpp:1263-1300 | over every stream and its finalize, earlier committed text is a prefix of later committed text |
| `StreamText.FinalizeSettles` | src/transcribe-cpp/src/transcribe.cpp:1233-1256 | finalize leaves nothing tentative and commits the final text, or keeps what was committed if the final text left it |
| `StreamText.StreamWellFormed` | src/transcribe-cpp/src/transcribe.cpp:1211-1231 | over every stream of well-formed hypotheses the committed text is well-formed |
| `StreamText.HistoryIsRecent` | src/transcribe-cpp/src/transcribe.cpp:1180-1183 | the history is always the n most recent hypotheses of the stream |
| `StreamText.StreamEvidence` | src/transcribe-cpp/src/transcribe.cpp:1166-1194 | over every stream, a feed that grows the committed text has n agreeing hypotheses behind all of it |
| `Results.SlotsUnique` | src/transcribe-cpp/src/transcribe.cpp:2323-2361 | the slots of a serial batch and the point where it stops are determined by the utterances and the polls |
| `Results.SlotsAre` | src/transcribe-cpp/src/transcribe.cpp:2327-2353 | slot by slot: a malformed utterance has an invalid-argument slot, any other the status of its own run; a slot that is not OK is empty; from the stop on all are aborted |
| `Session.Session.ClearResult` | src/transcribe-cpp/src/transcribe-model.cpp:14-42 | what a new utterance wipes and what it leaves alone: lifecycle, timings, flags and batch results |
| `Session.Session.TokenPrefixRawBytes` | src/transcribe-cpp/src/transcribe.cpp:1126-1147 | the loop over committed tokens computes the family boundary that StreamText.TokenPrefixKeeps and StreamText.TokenPrefixIsTokenText describe |
| `Session.Session.GenericCandidateRawBytes` | src/transcribe-cpp/src/transcribe.cpp:1166-1194 | remembers the hypothesis among the last n and finds where they agree |
| `Session.Session.AppendCommittedRawPrefix` | src/transcribe-cpp/src/transcribe.cpp:1211-1231 | moves the view as specified and reports growth exactly |
| `Session.Session.FinalizeCommittedText` | src/transcribe-cpp/src/transcribe.cpp:1233-1256 | committed text becomes the final text unless the final text left it; the change is reported exactly |
| `Session.Session.ApplyStreamTextPolicy` | src/transcribe-cpp/src/transcribe.cpp:1263-1300 | the text view moves by the feed or finalize function, and both change flags are exact |
| `Session.Session.PublishObservableDelta` | src/transcribe-cpp/src/transcribe.cpp:1323-1341 | the revision moves exactly when the hook moved it or something observable moved, in the second case by one, and the update says so |
| `Session.Session.BeginVerdict` | src/transcribe-cpp/src/transcribe.cpp:1698-1797 | the preflight checks of begin in order; OK exactly when all of them hold |
| `Session.Session.StreamBegin` | src/transcribe-cpp/src/transcribe.cpp:1695-1847 | a rejection changes nothing; otherwise the hook finds a cleared, ACTIVE session with revision 0 and no result whatever came before, and the stream is active with the policy and agreement the caller gave, or failed with the status of the hook |
| `Session.Session.StreamFeed` | src/transcribe-cpp/src/transcribe.cpp:1867-1914 | the hook is reached only from ACTIVE with samples, and finds the session as the last call left it and a clean update buffer; rejections change nothing, hook failures fail the stream and keep the text, successes follow the text policy; the update buffer is wiped by a rejection, left as the hook wrote it by a failure, and completed by a success; committed text only grows |
| `Session.Session.StreamFinalize` | src/transcribe-cpp/src/transcribe.cpp:1916-1952 | the same for finalize, which ends in FINISHED with settled text, nothing tentative, and marks the buffer final whatever the hook did |
| `Session.Session.StreamReset` | src/transcribe-cpp/src/transcribe.cpp:1954-1970 | after the reset hook, if the model has one, back to IDLE with nothing left of the stream: no result, revision 0, no text; only timings and the truncation flag stay as the hook left them |
| `Session.Session.ParamVerdict` | src/transcribe-cpp/src/transcribe.cpp:2079-2142 | the shared parameter checks of run and batch in order; OK exactly when all of them hold |
| `Session.Session.RunOneInner` | src/transcribe-cpp/src/transcribe.cpp:2049-2180 | a rejection preserves everything; otherwise the run hook finds a cleared, idle session, the same whatever came before |
| `Session.Session.Run` | src/transcribe-cpp/src/transcribe.cpp:2182-2199 | all fields hooks own are afterwards what the hook makes of a cleared session; otherwise like the inner run, but a well-shaped call drops the batch results even when it is then rejected |
| `Session.Session.RunNext` | src/transcribe-cpp/src/transcribe.cpp:2327-2353 | one turn of the serial loop: the slot of a lone run of the utterance, or the abort, whatever state the previous utterance left |
| `Session.Session.RunBatch` | src/transcribe-cpp/src/transcribe.cpp:2242-2369 | exactly n slots on OK or ABORTED: before the stop each carries the status of its own utterance (invalid argument if malformed) and the result of its lone run if that is OK, else nothing; from the stop on all are empty and aborted; the stop is the first poll or run that aborts; the scratch slot mirrors the first, the other owned fields are those of the last run, and a polled abort leaves the aborted flag up; the batched hook path keeps its slots and is padded |
| `Session.BatchLikeLone` | src/transcribe-cpp/src/transcribe.cpp:2311-2353 | isolation: whatever two sessions of one model did before, an OK slot of a serial batch in one is what a lone run of that utterance leaves in the other |
| `Session.Session.Replay` | src/transcribe-cpp/src/transcribe.cpp:1686-1693 | over every sequence of begin, feed, finalize, reset, run and batch calls with arbitrary hook results: the state is FAILED exactly when the last status is not OK, an active stream is one the model supports, the text view is that of the feeds so far, and committed text is append-only between clears |
| `Session.Session.CommittedWellFormed` | src/transcribe-cpp/src/transcribe.cpp:1211-1256 | in every reachable stream state, well-formed hypotheses mean well-formed committed text |

## Left out

- Floating point: rounding, overflow and the accuracy of sin and cos; the transforms are proved in exact arithmetic from the laws of the roots.
- Machine integers: sizes, ids, the revision counter and products such as `k * n * stride` are unbounded here.
- Radix2.RootFamily: the roots of unity are a parameter, because the cosines and sines that supply them are not modelled.
- Radix2.FftRadix2: the two copies of the routine are the same code; one model stands for both.
- MixedRadix.LutLaws: the table construction enters through its laws, for the same reason.
- Mel and Kaldi filter banks, windows, logarithms and normalisation, which are formulas without structure to prove.
- MergeLoop.Workspace.Run: the binary heap of the standard library is a queue whose top is any minimal entry.
- BatchDecode.StepLoop.Run: ggml graph building, backend placement and tensor transfer are the oracle and the rebuild answers.
- ParallelFor.ParallelForAll: thread creation and the memory model; each atomic action is one step and relaxed ordering adds none.
- Tokenizers.Tokenizer.Load: how a GGUF key is found and its type checked; each key is absent, of the wrong type, or a value. The state after a failed load is not described.
- Tokenizers.Tokenizer.Decode: the SentencePiece decoder, whose encoder does not exist in the repository.
- The special-piece map of adapters that synthesise literals, and set_pretokenizer.
- Session.Session.StreamFeed: an exception inside a hook is caught outside the dispatcher and is not modelled.
- Results.Lone: a hook does not see the batch results collected so far nor the last status; the run hooks of the repository do not read them.
- Session.Session.RunOneInner: state that families keep in their own derived sessions, such as key-value caches, is outside what a hook finds; the dispatcher does not reset it either.
- Session.Session.RunBatch: a batched hook is any function to a list of slots; the family hooks themselves are not modelled.
- Session.Session.BeginVerdict: struct sizes, the common parameter validation and extension probes enter as verdicts.
- Storage of the caller's language strings for the lifetime of a stream, null session handles, and fields absent from short structs.
- The Unicode range data itself, the `.bin` file parser, the loader, the architecture registry, device selection, logging and the R interface apart from its buffer size.
