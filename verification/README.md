# Verified models of the ds4 host algorithms

This project models the host-side algorithms of the ds4 inference engine that stand alone, and proves
what they are for. `dafny verify dfyconfig.toml` checks everything. Each group of files follows one
source file.

- **Radix tree** (`lex_order`, `rax_*`, `rax`). A heap of node records, each with its header bits, edges
  and tagged slots, represented by a tree that remembers addresses; a position in the tree is a context
  of frames, which is what the C code keeps on its stack. Insertion and removal are update and deletion
  of a finite map, no node leaks, and the iterator lists keys in lexicographic order. `rax_layout` goes
  down to bytes: the memmoves that edit a packed node.
- **Worker pool** (`row_shares`, `worker_pool`, `worker_pool_runs`). Every lock, wait, wakeup and row of
  work is a step, and the steps of all threads interleave freely.
- **Tokenizer** (`byte_symbols`, `byte_pairs`, `pre_tokenizer`, `tokenizer`, `hash_table`,
  `vocabulary`). Byte pair encoding with its pre-tokenizer and chat markers, the open-addressed table it
  looks tokens up in, and loading both from a model file.
- **Sampler** (`argmax`, `candidates`, `sample_heap`, `nucleus`, `sampler`, `full_sampler`, `top_k`,
  `sampled`, `sampling`). Each fast path is proved equal to one reference: sort all candidates, keep, draw;
  and what the reference draws is said of the logits.
- **Checkpoint store** (`sha1`, `checkpoint_file`, `kv_directory`, `kv_store`). Streaming SHA-1 against
  FIPS 180-4, file headers, eviction under a byte budget, storing, longest-prefix lookup and loading.
- **GGUF reader** (`gguf_values`, `gguf`, `gguf_file`). Parsing as a cursor that moves, as a function of
  the bytes, and as the inverse of writing.
- **Ring windows** (`ring`, `raw_cache`, `dspark_cache`). Which token lies in which slot, and which rows
  an attention call sees.

Integers are unbounded in Dafny; where the code's 32 or 64 bits matter the wrap-around is written out.
Four promises hold only under a bound, and the exact bound is proved: rows of a parallel call
(`RowShares.AllShared`), tensors inside the file (`GgufFile.KnownTensorInside`), the sum of file sizes
(`KvStore.KvStore.Evict`), and what is read from a ring after a rewind (`RawCaches.RunReadsExactly`).

## Model

| member | source | states |
|---|---|---|
| `Rax.Rax.GenericInsert` | src/support/rax.c:629-1083 | insertion is map update: for every tree and key of at most one node's length the map becomes the old one with the key set, or stays when the key exists and overwriting is off; the flag says whether the key is new, and the old value is the one replaced |
| `Rax.Rax.Remove` | src/support/rax.c:1269-1465 | removal is map deletion: exactly the given key goes, after slot removal, cleanup upwards and recompression; the flag and old value are right and every other key keeps its value |
| `Rax.Rax.Find` | src/support/rax.c:1101-1117 | lookup agrees with the map for every key |
| `Rax.Rax.LowWalk` | src/support/rax.c:559-620 | the walk ends where no further byte of the key can be matched; the stack it returns is the chain of nodes above that place |
| `RaxSearch.StopsGet` | src/support/rax.c:559-620 | where the walk stopped decides the lookup: the key is stored exactly when all of it was matched at a key node or inline leaf, and then that place has its value |
| `Rax.Rax.SplitMismatch` | src/support/rax.c:825-939 | splitting a compressed node at a mismatch leaves a one-edge plain node at the right path; the map is untouched |
| `RaxEdits.SplitTreeGet` | src/support/rax.c:825-939 | the up to three nodes of a split answer every lookup like the node they replace |
| `Rax.Rax.CutInside` | src/support/rax.c:940-1003 | a key that ends inside a compressed node is added by cutting the node there, and nothing else changes |
| `RaxEdits.CutTreeGet` | src/support/rax.c:940-1003 | the two nodes of a cut answer every lookup like the old one, but for the new key |
| `RaxEdits.ChainTreeGet` | src/support/rax.c:1005-1028 | a compressed chain hung below a childless node adds exactly the spelled key |
| `Rax.Rax.MaterializeInline` | src/support/rax.c:212-226 | an inline leaf becomes a node of its own with the same value, linked in the same slot, whose bit is cleared |
| `RaxEdits.MaterializeGet` | src/support/rax.c:212-226 | turning an inline leaf into a node changes no lookup |
| `RaxEdits.AddKidGet` | src/support/rax.c:307-454 | a new edge answers for the keys that start with its byte and for no others |
| `RaxEdits.DropKidGet` | src/support/rax.c:1141-1205 | a removed edge takes away the keys that start with its byte and no others |
| `Rax.Rax.AddChildNoAlloc` | src/support/rax.c:307-454 | the node gains one edge at its sorted position; an inline leaf pushed out of the 13-bit bitmap becomes a node with the same value; every address stays accounted for |
| `Rax.Rax.RemoveCleanup` | src/support/rax.c:1226-1265 | useless nodes are freed upwards until a node that is needed, and the map and the stack above stay right; recompression is tried exactly when the node that stays has no key and one child |
| `Rax.Rax.CountChain` | src/support/rax.c:1391-1402 | the counting scan gives the number of nodes and the length of the joined string of the whole chain |
| `Rax.Rax.DrainChain` | src/support/rax.c:1426-1443 | the copying scan joins the same strings, frees the same nodes and keeps the end of the chain |
| `Rax.Rax.Recompress` | src/support/rax.c:1370-1462 | joining a chain into one compressed node changes no key |
| `RaxRemoval.CollapsedGet` | src/support/rax.c:1370-1462 | the joined node answers every lookup like the chain |
| `RaxRemoval.ChainFits` | src/support/rax.c:1391-1443 | with keys bounded by the node size every chain fits one node, so the two scans see the same nodes |
| `RaxRemoval.SomeKey` | src/support/rax.c:1226-1265 | below every node that is kept there is a key |
| `RaxShape.EveryNode` | src/support/rax.h:100-150 | in every reachable tree: branches strictly sorted, compressed nodes of two bytes or more with one slot, inline leaves below index 13 only, pointers to allocated nodes other than the head, childless nodes are keys except the head; numele and numnodes are exact |
| `RaxShape.AllInTree` | src/support/rax.c:1226-1265 | nothing leaks: each allocated node belongs to the tree |
| `RaxSeek.WantedIsAsked` | src/support/rax.c:1911-1930 | the operator strings, character by character: ">" asks for the keys after the given one, "<" for those before it, "=" behind either also for the key itself, "=" alone only for it, "^" and "$" for any; no other string starts an operator |
| `RaxIteration.RaxIterator.Seek` | src/support/rax.c:1899-2108 | the iterator lands on the greatest key asked for with "<" and "$", on the least with the others, with its data, or at EOF exactly when no key is asked for; a string that is no operator is refused |
| `RaxIteration.RaxIterator.SeekKey` | src/support/rax.c:1951-2108 | the four comparing operators and equality, from the walk to the final position |
| `RaxIteration.RaxIterator.SeekFromInline` | src/support/rax.c:1962-1983 | a walk that stopped on an inline leaf is resolved to the wanted key on either side of it |
| `RaxIteration.RaxIterator.SeekFromNode` | src/support/rax.c:1992-2101 | a walk that stopped at or inside a node is resolved by what mismatched |
| `RaxIteration.RaxIterator.RebuildKey` | src/support/rax.c:1998-2018 | the key of the current node is spelled by the links between the nodes on the stack |
| `RaxIteration.RaxIterator.NextStep` | src/support/rax.c:1680-1785 | from any position the forward step finds the least key among those still wanted, or EOF exactly when there is none |
| `RaxIteration.RaxIterator.PrevStep` | src/support/rax.c:1803-1893 | the backward step finds the greatest key among those still wanted, or EOF |
| `RaxIteration.RaxIterator.SeekGreatest` | src/support/rax.c:1790-1798 | descending by last children reaches the greatest key under a node |
| `RaxIteration.RaxIterator.Next` | src/support/rax.c:2113-2123 | raxNext moves to the least key greater than the current one; right after a seek it stays; 0 exactly at the end; key and data are an association of the map |
| `RaxIteration.RaxIterator.Prev` | src/support/rax.c:2128-2138 | raxPrev moves to the greatest key smaller than the current one, likewise |
| `RaxRuns.ForwardRunLists` | src/support/rax.c:2113-2123 | a run of raxNext up to EOF lists every key from its first on, once, strictly ascending |
| `RaxRuns.BackwardRunLists` | src/support/rax.c:2128-2138 | a run of raxPrev lists every key down from its first, once, strictly descending |
| `RaxRuns.SeekThenNext` | src/support/rax.c:1666-1785 | seeking with >, >= or ^ and stepping forward lists exactly the keys asked for |
| `RaxRuns.SeekThenPrev` | src/support/rax.c:1800-1893 | seeking with <, <= or $ and stepping backward lists exactly the keys asked for |
| `RaxRuns.ListForward` | src/support/rax.c:1899-2123 | with ">", ">=" or "^" the loop over a live iterator ends and yields exactly the keys the string asks for, ascending, with their values |
| `RaxRuns.ListBackward` | src/support/rax.c:1899-2138 | with "<", "<=" or "$" the same, descending |
| `RaxLayout.PackedNode.AddChildNoAlloc` | src/support/rax.c:307-454 | the in-place memmoves on header, characters, padding, child words and value word decode to "insert edge and slot at pos" for every size and padding residue; all other edges, slots, tags and the value are unchanged |
| `RaxLayout.PackedNode.RemoveChildAt` | src/support/rax.c:1141-1205 | the memmoves of a removal decode to "delete edge and slot at pos", likewise |
| `RaxLayout.OpenedRecord` | src/support/rax.c:366-454 | the opened bytes read as the old record with a gap for one edge |
| `RaxLayout.ClosedRecord` | src/support/rax.c:1158-1197 | the closed bytes read as the old record without one edge |
| `RaxLayout.TagsUp` | src/support/rax.c:438-445 | the shifted bitmap tags each slot as before, one place further up; the tag at index 12 falls off |
| `RaxLayout.TagsDown` | src/support/rax.c:1189-1197 | the shifted bitmap tags each later slot as before, one place down |
| `RaxLayout.PackedNode.FindChildPos` | src/support/rax.c:294-302 | the scan finds the place that keeps the edges sorted |
| `RaxLayout.PackedNode.StoreInline` | src/support/rax.c:1043-1046 | storing a value in a slot changes that slot alone |
| `RaxLayout.PackedNode.StoreChild` | src/support/rax.c:212-226 | storing a pointer over an inline value changes that slot alone |
| `RaxLayout.PackedNode.SetDataWord` | src/support/rax.c:271-281 | the last word holds the value and the node is a key; a NULL value takes no word |
| `RaxLayout.PackedNode.GetDataWord` | src/support/rax.c:284-290 | the value read is the one stored |
| `RowShares.ShareOf` | src/engine/core/platform.c:430-462 | shares of different threads do not overlap, and each is a block of consecutive rows |
| `RowShares.AllShared` | src/engine/core/platform.c:430-462 | every row is in a share exactly when the rounding sum n + threads - 1 stays below 2^64 |
| `WorkerPool.InvInit` | src/engine/core/platform.c:374-407 | the pool starts in a good state |
| `WorkerPool.InvStep` | src/engine/core/platform.c:332-462 | every step of every thread keeps it, for all interleavings, spurious wakeups included |
| `WorkerPoolRuns.ReturnedCallsRanOnce` | src/engine/core/platform.c:430-462 | over every run: a call that returned ran each of its rows exactly once, exactly when its rounding sum did not wrap |
| `WorkerPoolRuns.WrappedCallRunsNothing` | src/engine/core/platform.c:430-462 | a run in which a call of 2^64 - 1 rows returns without having run any |
| `WorkerPoolRuns.NeverTwice` | src/engine/core/platform.c:332-462 | over every run: no row is run twice or outside its call, finished or not |
| `WorkerPoolRuns.NoStaleJob` | src/engine/core/platform.c:332-370 | over every run: a worker in fn has the job of the latest call; done never exceeds the workers, and all have reported when it reaches their number |
| `WorkerPoolRuns.TakesOnce` | src/engine/core/platform.c:344-370 | a worker that took a generation never takes it again while the call is in progress |
| `WorkerPoolRuns.NoDeadlock` | src/engine/core/platform.c:332-462 | whenever a call or a shutdown is pending, some thread can move without a spurious wakeup |
| `WorkerPoolRuns.StepLowersRank` | src/engine/core/platform.c:332-462 | each real step of a call, serial or not and from its first lock on, or of a shutdown brings its end nearer |
| `WorkerPoolRuns.BoundedCall` | src/engine/core/platform.c:430-462 | a call, from its first step on, or a shutdown takes a bounded number of steps, apart from spurious wakeups |
| `ByteSymbols.ByteToCodepoint` | src/engine/model/tokenizer.c:156-170 | the count of gaps gives the code point of every byte |
| `ByteSymbols.CodepointToByte` | src/engine/model/tokenizer.c:739-753 | the byte of a code point, exactly for the code points that have one |
| `ByteSymbols.CodepointInjective` | src/engine/model/tokenizer.c:156-170 | no two bytes share a code point |
| `ByteSymbols.Codepoints` | src/engine/model/tokenizer.c:156-170 | bytes 33 to 126, 161 to 172 and from 174 on stand for themselves; the others follow each other from 256 to 323 |
| `ByteSymbols.AnyUtf8Read` | src/engine/model/tokenizer.c:138-154 | a code point written in UTF-8 is read back, and its character ends where it was written to end, for every code point of up to four bytes |
| `ByteSymbols.SymbolBytes` | src/engine/model/tokenizer.c:174-184 | no symbol holds a space, a zero byte, or the byte 0xEF that starts the fullwidth bar |
| `ByteSymbols.DecodeEncode` | src/engine/model/tokenizer.c:174-184 | decoding undoes byte encoding for every byte string |
| `ByteSymbols.DecodeText` | src/engine/model/tokenizer.c:782-790 | the loop of ds4_token_text yields the bytes of the code points that have one and drops the others |
| `BytePairs.BestPair` | src/engine/model/tokenizer.c:240-249 | one scan finds the leftmost pair of least rank, or that there is none |
| `BytePairs.MergePairs` | src/engine/model/tokenizer.c:239-267 | the in-place loop leaves what repeated merging of the best pair leaves |
| `BytePairs.LeastRankFirst` | src/engine/model/tokenizer.c:203-267 | the adjacent pair of the least rank in the merge table, the leftmost of several, is joined first |
| `BytePairs.NoRankNoMerge` | src/engine/model/tokenizer.c:203-267 | symbols of which no adjacent pair has a rank are left as they are |
| `BytePairs.MergedIsDone` | src/engine/model/tokenizer.c:239-267 | merging stops only when no adjacent pair has a rank |
| `BytePairs.MergeSpells` | src/engine/model/tokenizer.c:253-266 | a merge keeps what the symbols spell, and its result is a token |
| `BytePairs.EmitPiece` | src/engine/model/tokenizer.c:220-285 | encode, cut, merge and push: the tokens of a piece are appended |
| `BytePairs.EmittedIds` | src/engine/model/tokenizer.c:269-274 | symbols that are tokens are emitted as their ids, one for one |
| `BytePairs.EmittedBytes` | src/engine/model/tokenizer.c:274-280 | a symbol that is no token is emitted as the ids of those of its bytes that are tokens, in order |
| `BytePairs.PieceReturns` | src/engine/model/tokenizer.c:220-285 | the tokens of a piece render to the piece |
| `BytePairs.GetTokenText` | src/engine/model/tokenizer.c:764-792 | the text of a token: literal for special tokens, decoded otherwise, empty for an unknown id |
| `BytePairs.RenderTokens` | src/storage/ds4_kvstore.c:653-665 | rendering concatenates the texts of the tokens |
| `PreTokenizer.ScanPiece` | src/engine/model/tokenizer.c:401-456 | the chain of branches and its loops find the end of the piece; what a piece is, the rows below say by the characters in it |
| `PreTokenizer.ByteClasses` | src/engine/model/tokenizer.c:293-315 | digits, letters, white space, newlines and symbols by their bytes |
| `PreTokenizer.CjkCodepoints` | src/engine/model/tokenizer.c:317-366 | a code point written in three bytes counts as CJK or kana exactly when it lies in U+4E00 to U+9FA5 or U+3040 to U+30FF |
| `PreTokenizer.DigitPiece` | src/engine/model/tokenizer.c:401-406 | a digit starts a piece of one to three digits, of fewer than three only when no digit follows |
| `PreTokenizer.CjkPiece` | src/engine/model/tokenizer.c:407-410 | CJK characters and kana make a piece of as many as follow |
| `PreTokenizer.MarkedWord` | src/engine/model/tokenizer.c:411-415 | a symbol takes all ASCII letters behind it |
| `PreTokenizer.WordPiece` | src/engine/model/tokenizer.c:416-417 | a letter starts a piece of all letters that follow, character by character |
| `PreTokenizer.LedWord` | src/engine/model/tokenizer.c:418-423 | a blank, or any byte but a newline, digit, letter or symbol, takes all letters behind it |
| `PreTokenizer.SymbolPiece` | src/engine/model/tokenizer.c:424-433 | symbols, with one blank before them, take all symbols and then all newlines that follow |
| `PreTokenizer.SpacePiece` | src/engine/model/tokenizer.c:434-455 | white space ends behind its last newline; without one it goes to its end, but for a last blank before a letter or symbol |
| `PreTokenizer.OtherPiece` | src/engine/model/tokenizer.c:456-461 | any other byte is a piece alone |
| `PreTokenizer.BranchMoves` | src/engine/model/tokenizer.c:401-461 | every branch consumes at least one byte, so the pieces partition the text and the guard against standing still never acts |
| `Tokenizer.TokenizeText` | src/engine/model/tokenizer.c:393-461 | the loop appends the tokens of the text |
| `Tokenizer.TextPieces` | src/engine/model/tokenizer.c:393-461 | the text is cut at its beginning, at the end of each piece and at its end, and its tokens are those of the pieces in order |
| `Tokenizer.TextReturns` | src/engine/model/tokenizer.c:393-461 | detokenizing undoes tokenizing: for every byte string and merge-closed vocabulary the tokens render to the text |
| `Tokenizer.SpecialAt` | src/engine/model/tokenizer.c:572-596 | the first marker that stands at a position |
| `Tokenizer.TokenizeChat` | src/engine/model/tokenizer.c:610-629 | markers become their own tokens and the spans between them are tokenized |
| `Tokenizer.PlainChat` | src/engine/model/tokenizer.c:610-629 | a chat in which no marker stands has the tokens of plain text |
| `Tokenizer.MarkerCuts` | src/engine/model/tokenizer.c:591-629 | the first place where a marker stands, and of several the first listed, cuts the chat into the text before it, its own token, and the rest |
| `Tokenizer.MarkerText` | src/engine/model/tokenizer.c:755-792 | a marker token renders to its marker |
| `Tokenizer.ChatReturns` | src/engine/model/tokenizer.c:610-629 | rendering the tokens of a rendered chat, markers included, gives the chat back |
| `Tokenizer.BuildPrompt` | src/storage/ds4_kvstore.c:685-698 | exact stored tokens followed by the tokens of the suffix |
| `Tokenizer.PromptReturns` | src/storage/ds4_kvstore.c:685-698 | that prompt renders to the requested text whenever the stored tokens render to its beginning |
| `HashTables.NextPow2` | src/engine/model/tokenizer.c:6-10 | the least power of two not below n |
| `HashTables.Table.Seek` | src/engine/model/tokenizer.c:23-56 | the probe loop of both operations ends, and ends at the key's slot or at a free slot that shows the key is absent |
| `HashTables.Stopped` | src/engine/model/tokenizer.c:23-56 | where probing stops, the slot has the key's value or the key is nowhere in the table |
| `HashTables.SomeFree` | src/engine/model/tokenizer.c:23-56 | a table with fewer keys than slots has a free slot |
| `HashTables.Inserted` | src/engine/model/tokenizer.c:35-38 | filling the free slot makes the table hold the map with the key added |
| `HashTables.Overwritten` | src/engine/model/tokenizer.c:28-31 | overwriting the key's slot makes it hold the map with the key changed |
| `HashTables.Table.Put` | src/engine/model/tokenizer.c:23-39 | a put is map update |
| `HashTables.Table.Get` | src/engine/model/tokenizer.c:41-56 | a get is map lookup; a table without slots answers no |
| `HashTables.LastPutWins` | src/engine/model/tokenizer.c:23-56 | the map after any puts gives a key its last value, and no value when it was never put |
| `HashTables.Fill` | src/engine/model/tokenizer.c:12-39 | a table made for a number of entries takes any sequence of that many puts and holds that map |
| `Vocabularies.ParsedStrings` | src/engine/model/tokenizer.c:474-497 | in an accepted file an array of strings can be read to its end, and has no more strings than an eighth of the file, so the tables made for it have room |
| `Vocabularies.ReadTable` | src/engine/model/tokenizer.c:491-505 | the loop reads the strings that stand one after the other and leaves a table that gives each its last number |
| `Vocabularies.VocabLoaded` | src/engine/model/tokenizer.c:463-514 | in a loaded vocabulary ids are ids of their strings and marker ids are ids of their texts, as the round trips ask; and it is closed under merges exactly when every byte symbol and every merge result is in its token list |
| `Vocabularies.PlacesAreNumbers` | src/engine/model/tokenizer.c:491-505 | the id of a token and the rank of a merge are its place in the list, of several places the last |
| `Vocabularies.LoadedChatReturns` | src/engine/model/tokenizer.c:474-514 | with lists so closed, the tokens of any chat render to the chat |
| `Vocabularies.Load` | src/engine/model/tokenizer.c:463-514 | loading succeeds exactly when both string arrays are there, the tokens number at most 2^31 - 1 and all seven markers are among them; then the tables hold the vocabulary of the two lists |
| `Vocabularies.StringsReadBack` | src/engine/model/tokenizer.c:478-505 | what a file was written with as an array of strings is what loading reads |
| `Vocabularies.LoadWritten` | src/engine/model/tokenizer.c:474-514 | from a written file to a chat: the loaded vocabulary has the written tokens, and with lists closed under merges the tokens of every chat render to the chat |
| `Argmax.Unrolled8` | src/engine/model/tokenizer.c:839-895 | the eight-lane scan with its merge and tail returns the first index of the greatest value above the start, or the start |
| `Argmax.Scan` | src/engine/model/tokenizer.c:931-939 | the plain loop returns the same |
| `Argmax.Agree` | src/engine/model/tokenizer.c:839-940 | for all contents and ranges the two return the same index and value |
| `Argmax.SampleArgmax` | src/engine/model/tokenizer.c:926-940 | either way, the first index of a greatest logit, or the default |
| `Argmax.ArgmaxUnique` | src/engine/model/tokenizer.c:926-940 | only one index is right |
| `Argmax.ArgmaxExcluding8` | src/engine/model/tokenizer.c:904-924 | the two-range form gives the first greatest logit of an id other than the excluded one |
| `Argmax.ArgmaxExcluding` | src/engine/model/tokenizer.c:1334-1351 | the plain loop without the id gives the same |
| `Argmax.ExcludingUnique` | src/engine/model/tokenizer.c:904-924 | only one answer is right, so the two agree |
| `SampleHeap.SiftUp` | src/engine/model/tokenizer.c:971-980 | restores the heap order, permuting the elements |
| `SampleHeap.SiftDown` | src/engine/model/tokenizer.c:982-999 | restores the heap order, permuting the elements |
| `SampleHeap.RootSmallest` | src/engine/model/tokenizer.c:971-999 | the root is the smallest of the heap |
| `SampleHeap.Offer` | src/engine/model/tokenizer.c:1029-1039 | after any scanned candidates the heap holds exactly the cap greatest by logit descending and id ascending, and the running sum is theirs |
| `Candidates.SortedUnique` | src/engine/model/tokenizer.c:957-964 | there is one way to sort |
| `Candidates.SortSorted` | src/engine/model/tokenizer.c:957-964 | the reference sort is strictly descending |
| `Candidates.TopIsPrefix` | src/engine/model/tokenizer.c:1016-1040 | the k greatest, in order, are the beginning of the sorted list |
| `Sampler.CompareIsGt` | src/engine/model/tokenizer.c:957-969 | the qsort comparison and the heap comparison are the same strict order |
| `Sampler.SortedHeap` | src/engine/model/tokenizer.c:1016-1052 | the heap, sorted, is the beginning of all candidates sorted, with its sum |
| `Nucleus.Filter` | src/engine/model/tokenizer.c:1053-1065 | the loop keeps as many candidates as the reference, with their sum |
| `Nucleus.KeptRight` | src/engine/model/tokenizer.c:1053-1065 | these are at least one; no shorter beginning has topP of the mass; all but the first have a share of at least minProb; and if any are left out, the mass is reached or the next share is below minProb; no other number is so |
| `Nucleus.UniformRange` | src/engine/model/tokenizer.c:941-955 | the random number lies in [0, 1) |
| `Nucleus.DrawLoop` | src/engine/model/tokenizer.c:1077-1086 | the drawing loop takes the candidate at which the running sum passes the drawn number |
| `Nucleus.PickDraws` | src/engine/model/tokenizer.c:1046-1087 | sampling a sorted list of weights keeps just those and returns the first at which the running sum reaches the random part of the kept sum |
| `Nucleus.KeptOfPrefix` | src/engine/model/tokenizer.c:1046-1065 | a beginning that has the mass keeps the same candidates as the whole |
| `Nucleus.KeptOfCut` | src/engine/model/tokenizer.c:1175-1232 | cutting off what min-p rejects keeps the same candidates |
| `Nucleus.PickOfPrefix` | src/engine/model/tokenizer.c:1046-1087 | then the token and the generator state are the same too |
| `Sampler.PickOfHeap` | src/engine/model/tokenizer.c:1046-1087 | sampling from a beginning with the mass is sampling from everything |
| `Sampler.FastTopP` | src/engine/model/tokenizer.c:1001-1087 | for weights that grow with the logit, accepts exactly when the candidates fit the heap or its 512 greatest have the mass; when it accepts, token and generator state are those of sorting everything; when it declines the generator is untouched |
| `FullSampler.SampleAll` | src/engine/model/tokenizer.c:1207-1249 | sorting all candidates, filtering and drawing |
| `FullSampler.SurvivorsPrefix` | src/engine/model/tokenizer.c:1175-1222 | the survivors of min-p, sorted, are a beginning of all candidates sorted, and what follows is below the bound |
| `FullSampler.PickOfSurvivors` | src/engine/model/tokenizer.c:1175-1249 | sampling from the survivors gives the token and state of sampling from everything |
| `FullSampler.SampleSurvivors` | src/engine/model/tokenizer.c:1172-1249 | the path that sorts survivors only equals the full sort |
| `FullSampler.BoundaryRejects` | src/engine/model/tokenizer.c:1131-1157 | a logit below the rejection boundary has a weight that min-p rejects |
| `FullSampler.SamplePlain` | src/engine/model/tokenizer.c:1126-1170 | the path without sorting draws in id order from the weights min-p keeps, with or without the boundary |
| `TopK.ShiftIn` | src/engine/model/tokenizer.c:1284-1291 | the insertion loop puts a candidate at its place in the descending array |
| `TopK.Rank` | src/engine/model/tokenizer.c:1281-1291 | one logit: the array stays the k greatest in order |
| `TopK.TopKScan` | src/engine/model/tokenizer.c:1277-1292 | after any logits the array is the first k of a stable descending sort |
| `Sampled.SortRanks` | src/engine/model/tokenizer.c:957-966 | the sorted candidates are all finite logits, the greater first and of equal ones the smaller id, each with its weight relative to the greatest |
| `Sampled.FullDrawn` | src/engine/model/tokenizer.c:1205-1250 | sorting everything draws from the nucleus of that ranking, by shares of its whole weight |
| `Sampled.PlainIsDrawn` | src/engine/model/tokenizer.c:1124-1170 | without a nucleus, the draw is by id from exactly the logits whose weight is at least minP; minP above one leaves the greatest |
| `Sampling.SampleFullVocab` | src/engine/model/tokenizer.c:1089-1250 | whichever path is taken, fast or slow, the token and generator state are those of the reference sampler, which draws as the rows above say; without a finite logit the choice is greedy |
| `Sampling.SampleTopK` | src/engine/model/tokenizer.c:1274-1321 | the top-k path draws from the nucleus of the first k of the ranking, by shares of their weight |
| `Sampling.SampleTopPMinP` | src/engine/model/tokenizer.c:1252-1322 | the dispatch on temperature, top-k, top-p and min-p; k is cut to 1024 and to the vocabulary |
| `Fips180.ZeroBits` | src/storage/ds4_kvstore.c:295-310 | section 5.1.1 of FIPS 180-4: the zero bytes are the least solution of the padding equation in bits |
| `Fips180.LengthFits` | src/storage/ds4_kvstore.c:295-310 | below 2^61 bytes the 64-bit length field is the length in bits |
| `Sha1.Context.Transform` | src/storage/ds4_kvstore.c:226-266 | one block is compressed as section 6.1.2 says |
| `Sha1.Context.Update` | src/storage/ds4_kvstore.c:278-293 | any split of a message into updates accumulates the message |
| `Sha1.Context.Final` | src/storage/ds4_kvstore.c:295-310 | the digest of the whole message; the padding loop ends |
| `Sha1.BytesHex` | src/storage/ds4_kvstore.c:321-328 | the digest in lower-case hexadecimal |
| `CheckpointFile.HeaderReads` | src/storage/ds4_kvstore.c:393-440 | reading a header undoes writing it, for every header the program can store |
| `CheckpointFile.HeaderFields` | src/storage/ds4_kvstore.c:393-415 | where each field stands in the 48 bytes |
| `CheckpointFile.HeaderReplaced` | src/storage/ds4_kvstore.c:485-502 | rewriting the header keeps text and payload |
| `KvStore.KvStore.Refresh` | src/storage/ds4_kvstore.c:468-483 | the listing has each valid file once, in any directory order |
| `KvDirectory.ListingTotal` | src/storage/ds4_kvstore.c:561-570 | a listing accounts for every byte of the valid files |
| `KvDirectory.EntryExactly` | src/storage/ds4_kvstore.c:442-463 | a file counts exactly when its header is valid and header, text and payload lie in it and fit 64 bits |
| `KvStore.KvStore.PickVictim` | src/storage/ds4_kvstore.c:572-587 | the first entry of lowest score and, among those, oldest use |
| `KvStore.KvStore.Evict` | src/storage/ds4_kvstore.c:561-607 | without unlink failures the files and the room asked for fit afterwards exactly when their sizes summed below 2^64; each removed file was the victim of a listing above the target, and no more are removed |
| `KvDirectory.SumWraps` | src/storage/ds4_kvstore.c:568-569 | three files of sizes a signed 64-bit number can say whose 64-bit sum is zero |
| `KvStore.KvStore.Open` | src/storage/ds4_kvstore.c:609-645 | after opening the valid files fit the budget, exactly when their sizes summed below 2^64; files kept are unchanged |
| `KvStore.KvStore.Run` | src/storage/ds4_kvstore.c:923-1340 | over any run, every request does to the directory that the requests before it left, and answers, what a store or a load on its own does; the valid files fit the budget after each of them |
| `KvStore.KvStore.Serve` | src/storage/ds4_kvstore.c:609-1340 | the same from opening on: there is one outcome for each request, the files fit the budget when the store is opened and after every request, and if every checkpoint was and is stored under its own text, every load that hits renders byte for byte to the prompt it was asked for |
| `KvStore.KvStore.ExistingCompatible` | src/storage/ds4_kvstore.c:843-865 | yes exactly when the same text is stored for the model, quantization and context; otherwise a valid file of that name is removed and nothing else |
| `KvStore.KvStore.Store` | src/storage/ds4_kvstore.c:923-1155 | success exactly when the store is admissible and the text is stored already or can be written; then the file under the hash of the text says model, quantization, reason, tokens, context, no hits and now for both times, and holds text and payload; the files fit the budget before and after; without unlink failures the only other files that go are an incompatible one of the same text and the victims that make room, one by one and no more than needed; stores under own text keep every checkpoint so |
| `KvStore.KvStore.FitsExactly` | src/storage/ds4_kvstore.c:769-813 | the test for size is that of 52 bytes, text and payload and a hundredth more, rounded up, against 64 bits and the budget |
| `KvStore.KvStore.FileRecords` | src/storage/ds4_kvstore.c:1072-1088 | what can be read back from the file of a saving, field by field |
| `KvStore.KvStore.SavedServes` | src/storage/ds4_kvstore.c:1076-1210 | the file of a saving is listed, and serves a prompt that begins with its text exactly for its model, contexts no smaller, its quantization if others are rejected, and a minimum that its tokens reach |
| `KvStore.KvStore.SavedIsLoaded` | src/storage/ds4_kvstore.c:923-1340 | over two requests: a load for the same model and quantization and a context no smaller, of a prompt that begins with the text just stored, goes to an entry at least as long; if that is the stored one, it restores exactly the stored tokens and continues them with the tokens of the rest |
| `KvStore.KvStore.SavedTooWide` | src/storage/ds4_kvstore.c:1200-1202 | for a smaller context it is not the entry that serves |
| `KvStore.KvStore.SavedTwice` | src/storage/ds4_kvstore.c:840-890 | storing the same text again finds it stored exactly for the same model, a context no smaller, and the same quantization if others are rejected |
| `KvStore.KvStore.Write` | src/storage/ds4_kvstore.c:1044-1110 | evict, write, rename: the new file is complete, and a failure leaves only evictions |
| `KvStore.KvStore.FindTextPrefix` | src/storage/ds4_kvstore.c:1190-1213 | the first of the longest entries, then of most tokens, that serve the prompt, or none |
| `KvStore.KvStore.TryLoad` | src/storage/ds4_kvstore.c:1215-1340 | a hit exactly when the best entry's file passes its checks and restores its token count; the prompt is its exact tokens and the tokens of the rest, and renders byte for byte to the requested prompt if checkpoints are stored under their own text; the file then counts one hit more and keeps everything else |
| `KvStore.KvStore.TouchedReads` | src/storage/ds4_kvstore.c:485-502 | after a hit the file says one hit more, modulo 2^32, and the time; every other field, byte and file is as before |
| `GgufValues.Cursor.Has` | src/engine/core/platform.c:474-480 | the bounds test is exact, without an overflowing sum |
| `GgufValues.Cursor.Number` | src/engine/core/platform.c:482-501 | a little-endian number, and the cursor moves exactly on success |
| `GgufValues.Cursor.String` | src/engine/core/platform.c:503-511 | the range of a length-prefixed string inside the file |
| `GgufValues.Cursor.SkipValue` | src/engine/model/gguf.c:61-99 | skipping ends where the value ends, or fails |
| `GgufValues.SkipWritten` | src/engine/model/gguf.c:61-99 | a written value, arrays nested up to the depth limit included, is skipped exactly |
| `GgufValues.Widths` | src/engine/model/gguf.c:39-59 | the widths of the value types by their numbers |
| `Gguf.TensorBytesRight` | src/engine/model/gguf.c:112-119 | the size of a tensor is that of the blocks it needs, exactly when the rounding sum stays below 2^64 |
| `Gguf.BlockSizes` | src/engine/model/gguf.c:6-37 | the blocks of the tensor types, composed of elements at so many bits, scales and minima |
| `Common.AlignedUp` | src/engine/core/platform.c:513-516 | the least multiple not below the value |
| `Gguf.Model.ParseMetadata` | src/engine/model/gguf.c:229-259 | the loop fills the entries of the file and takes over its alignment, or fails when they do not parse |
| `Gguf.Model.ReadDims` | src/engine/model/gguf.c:280-287 | the dimensions and their product, refused when it reaches 2^64 |
| `Gguf.Model.ParseTensors` | src/engine/model/gguf.c:263-317 | succeeds exactly when the directory parses and every tensor passes the bounds check |
| `Gguf.Model.Open` | src/engine/model/gguf.c:321-352 | opening is parsing, success and failure alike, the 32-byte minimum included |
| `GgufFile.ParseWritten` | src/engine/model/gguf.c:229-352 | parsing a written file recovers keys, types, value positions and dimensions; it is accepted exactly when it has 32 bytes and its data hold the tensors |
| `GgufFile.FileStarts` | src/engine/model/gguf.c:340-343 | a written file starts with GGUF and version 3 |
| `GgufFile.DataAligned` | src/engine/model/gguf.c:237-300 | the data of an accepted file start at the least multiple, not below the end of the directory, of the last nonzero uint32 written under general.alignment, or of 32 when there is none |
| `Gguf.MaxIsMost` | src/engine/model/gguf.c:313-315 | the recorded maximum is that of the tensor sizes |
| `GgufFile.DecodedAgain` | src/engine/model/gguf.c:138-215 | decoding at the recorded positions gives the values that were written |
| `GgufFile.FindOwn` | src/engine/model/gguf.c:131-136 | with distinct keys a lookup finds its own entry |
| `GgufFile.GetU32` | src/engine/model/gguf.c:145-150 | the number at the key's entry when it has that type |
| `GgufFile.GetU64Compat` | src/engine/model/gguf.c:152-166 | the number at the key's entry for either width |
| `GgufFile.GetString` | src/engine/model/gguf.c:138-143 | the string at the key's entry |
| `GgufFile.GetArray` | src/engine/model/gguf.c:206-215 | item type, length and position of the array at the key's entry |
| `GgufFile.KnownTensorInside` | src/engine/model/gguf.c:292-316 | the recorded size of an accepted tensor of known type is that of its blocks exactly when the rounding sum and the size stay below 2^64; in files below 2^61 - 32 bytes, a tensor with elements lies inside the file with all its blocks exactly then |
| `GgufFile.SizeWrapsToZero` | src/engine/model/gguf.c:112-119 | a count whose rounding sum wraps and a count whose size is given up: the bounds check passes both as tensors of no bytes |
| `GgufFile.OverflowAccepted` | src/engine/model/gguf.c:292-316 | for every known type and count whose rounding sum or size leaves 64 bits there is a file of less than 100 bytes that is accepted with that tensor, recorded with no bytes, its blocks longer than the file |
| `GgufFile.FindFirst` | src/engine/model/gguf.c:131-136 | looking a key up in the parsed table is looking it up in what was written, absent and repeated keys included |
| `GgufFile.GetAll` | src/engine/model/gguf.c:131-215 | on an opened file each getter gives what was written under the key, and nothing for another type or an absent key |
| `GgufFile.ReadBack` | src/engine/model/gguf.c:131-352 | writing a file, opening it and asking for any key gives back what was written under it |
| `Rings.SlotsApart` | src/engine/runtime/dspark_prefill.c:417-430 | positions less than one lap apart never share a slot |
| `Rings.LinearHeld` | src/engine/runtime/decode_primitives.c:497-503 | reading slot after slot from that of a position gives the text from there on |
| `Rings.StoreExtends` | src/engine/runtime/dspark_prefill.c:417-430 | storing the next position loses at most the one a lap before |
| `RawCaches.SpanForBatch` | src/engine/runtime/decode_primitives.c:505-520 | the rows a batch attends to: what it asks for, cut to what fits and to what exists by the 32-bit position of its last token |
| `RawCaches.SpanCovers` | src/engine/runtime/decode_primitives.c:505-520 | every query of a batch finds its whole window in the span exactly when the batch and the window before it fit the ring |
| `RawCaches.CapCovers` | src/engine/runtime/long_prompt.c:259-291 | the capacity chosen for a context covers every batch exactly when the widest stays within 8192 rows or the window |
| `RawCaches.RawCache.ReadsEnd` | src/engine/runtime/decode_primitives.c:497-503 | the rows read from raw_start are the last n_raw tokens in order whenever the ring still keeps them |
| `RawCaches.RawCache.Encode` | src/engine/runtime/dspark_prefill.c:417-477 | one token: its row is stored in slot pos mod cap, nothing else changes, and the span read is the last min(window, cap, pos + 1) tokens in order when the ring keeps them |
| `RawCaches.RawCache.EncodeBatch` | src/engine/runtime/prefill_attention.c:413-456 | a batch: its rows are stored one after the other and the span read is the end of the text in order when the ring keeps it |
| `RawCaches.RawCache.Save` | src/engine/session/session_state.c:124-133 | a checkpoint has the slots of the live rows, oldest first, and these are the end of the text when the ring keeps it |
| `RawCaches.RawCache.Load` | src/engine/session/session_state.c:257-266 | loading puts any saved rows where the ring expects them, whatever its capacity |
| `RawCaches.Resume` | src/engine/session/session_state.c:193-266 | a session saved from one ring and loaded into another goes on with the same rows in view, whenever the first ring kept them |
| `RawCaches.Run` | src/engine/runtime/dspark_prefill.c:417-477 | over any run of tokens, batches and rewinds the ring and the text are where the moves lead, and each attention call returns the rows that its span names at that moment |
| `RawCaches.ExactAfter` | src/engine/runtime/decode_primitives.c:497-503 | when stored rows are new to the text, a slot holds the row of its token exactly from one bound on: storing raises it to one lap behind the end, going back lowers it to the new end |
| `RawCaches.RawCache.Rewind` | src/engine/session/batch.c:443-449 | going back cuts the text, and what the slots hold is kept up to the new end |
| `RawCaches.RunReadsRight` | src/engine/runtime/decode_primitives.c:497-520 | at any move of any run, the rows read are exactly the newest of the text, in order, if the span lies behind that bound |
| `RawCaches.RunReadsExactly` | src/engine/runtime/decode_primitives.c:497-520 | and only then, when every stored row is new to the text |
| `RawCaches.RewindTooFar` | src/engine/runtime/decode_primitives.c:497-520 | a run whose rewind goes back past what the ring keeps: the next token reads the row of a token that is gone |
| `RawCaches.OnwardIsKept` | src/engine/runtime/decode_primitives.c:505-520 | in a session that never goes back, except to start over, and whose batches fit the ring, every span lies behind that bound |
| `DsparkCaches.DsparkCache.SetWindow` | src/engine/runtime/dspark_prefill.c:92-108 | sets exactly the windows that fit the ring and 32 bits; refuses others without a change |
| `DsparkCaches.DsparkCache.CropToPrefix` | src/engine/runtime/dspark_prefill.c:110-124 | keeps the part of the window before the prefix, or nothing when the prefix is outside; the window ends at the session's end |
| `DsparkCaches.DsparkCache.ClaimAppendedRow` | src/engine/runtime/dspark_prefill.c:134-147 | one row more, or the window moves on by one when full; valid afterwards exactly when the position is not the last 32-bit number |
| `DsparkCaches.DsparkCache.WindowIs` | src/engine/runtime/dspark_prefill.c:67-90 | a valid window is a contiguous part of the session's rows |
| `DsparkCaches.DsparkCache.Seed` | src/engine/runtime/verifier.c:783-836 | the window becomes the batch, or empty |
| `DsparkCaches.DsparkCache.Maintain` | src/engine/runtime/dspark_verify.c:5-102 | the window gains the row and drops its oldest when full; nothing is stored when it does not end at the position |
| `DsparkCaches.DsparkCache.Draft` | src/engine/runtime/verifier.c:898-1156 | draft rows never touch the window, and the stage sees the window followed by them |
| `DsparkCaches.DsparkCache.Restore` | src/engine/session/spec_frontier.c:45-60 | a saved window is put back exactly when it is valid, and holds its tokens as long as no row was stored over them |
| `DsparkCaches.SuffixAlways` | src/engine/runtime/dspark_prefill.c:60-147 | a window that ends where the session ends does so after any steps, given that restored windows do |
| `DsparkCaches.Run` | src/engine/runtime/dspark_prefill.c:60-147 | over any mix of reset, seed, append, crop, draft and restore the cache does what is said of each step, the window stays valid, holds consecutive rows of the session, and keeps ending where the session ends, given that restored windows do |

## Left out

- Rax keys longer than RAX_NODE_MAX_SIZE: the counting scan guards the size of a chain and the copying scan does not, so they agree only under the bound.
- Rax allocation failure, errno, and the raw pointer comparison by which some loops find a child: allocation succeeds and slots are told apart by their bitmap tag.
- Rax maximal compression: a compressed node that loses its key is not recompressed (src/support/rax.c:1313-1320), so it is not claimed.
- Rax random walk, raxCompare, defragmentation, debug printing, raxTouch, node callbacks, and freeing a whole tree.
- RaxIteration.RaxIterator.Seek: after an operator that is refused the iterator is not at EOF and must not be stepped, as in the code; nothing is promised of it.
- The iterator's static key buffer and stack: their growth by realloc is not modelled, the key at EOF is restored as a whole.
- Threads: a call made from inside a row of a parallel call runs serially within that row; a call nested in one that itself ran serially, which may use the pool (src/engine/core/platform.c:433-436), is not modelled. There is one outside caller, and the pool is not started again after its shutdown.
- WorkerPoolRuns.ReturnedCallsRanOnce: the generation counter wraps at 2^32 as in the code; more than one call is never pending.
- Vectors that grow by realloc (tokens, listings, candidate buffers) are sequences; memory is not exhausted.
- Token ids and token counts above 2^31 - 1, where the code's int would go negative.
- The chat template and tool-result wrapping: they build the text that the model takes as given.
- Vocabularies.Load: a missing table, marker or string ends the program in the code and is None here; the lookups of the markers are a loop over their texts.
- HashTables.Table.Put: is specified while one slot stays free besides the new key, which a table made for the number of its entries guarantees; hash_bytes is any function, and the mask of a power of two is written as a remainder.
- Floating point: sums, products and quotients of the sampler are exact reals, expf is any weight that grows with its argument, never negative and one at zero, and the nextafterf boundary is any number whose weight min-p rejects.
- Sampler.SortDescending: qsort is modelled by its result.
- TopK.TopKScan: the parallel arrays of ids, logits and weights are one array of records.
- The eviction score of an entry is an arbitrary function of entry, time and incoming text; only comparisons matter.
- Trailer hooks and kv_cache_rewrite_trailer: a rewrite grows a file outside the budget check, so the budget is proved for runs without hooks.
- The directory is a map from names to contents; unlink failures are a set of stuck names, a failed write or rename is an input, and time is an argument. Temporary files left by a crash are not part of it.
- KvStore.KvStore.TryLoad: the tokens a payload restores are an arbitrary function of the payload; KV tensors themselves are not modelled.
- Logging, mmap, mlock, dirent, environment variables (but for the switch of the argmax form), and command line.
- GgufFile.ParseWritten: model_get_f32_compat and the boolean getter are left out; arrays are decoded to item type, count and position only, as the code does.
- RawCaches.RawCache.Encode: a rewind is the session getting shorter, to any length: ds4_session_rewind (src/engine/session/batch.c:443-449) clamps the position to the text and asks no more, so `RawCaches.RunReadsExactly` says which reads go wrong after it. DS4_METAL_GRAPH_RAW_CAP is not modelled.
- The comment on src/engine/runtime/long_prompt.c:293-294 says that the larger model prefills in chunks of 8192; the code it calls chooses 4096 (src/engine/model/math.c:89-109). CapCovers holds for every chunk size and says which ones are covered.
- DsparkCaches.DsparkCache.Seed: the checks that weights and buffers are ready, and failing GPU calls, are left out here and in Maintain and Draft.
- DsparkCaches.DsparkCache.Draft: the several stage caches are one ring, since each is written and read at the same slots.
- CUDA kernels, layer encoding, capture masks, weight binding, terminal interface, benchmarks: not part of this model.
