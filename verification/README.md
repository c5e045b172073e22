# Verified models of four vendored Go libraries

This project models four libraries that are vendored in the zk-hibechain tree and proves what each of
them is for. `dafny verify dfyconfig.toml` checks everything.

**Snappy** (`Bytes`, `SnappyFormat`, `SnappyEmit`, `SnappyEncodeBlock`, `SnappyDecode`, `SnappyBlock`,
`SnappyFraming`, `SnappyWriter`, `SnappyReader`, `SnappyStream`). `SnappyFormat` and `SnappyFraming` give
the block format and the framing format as functions from bytes to the data they stand for; `SnappyTags`,
`SnappyVarint` and `SnappyChunks` show that these read every encoding that the formats list. Encoder and
decoder, writer and reader are array-based methods proved against those functions only, so that they fit
together by construction: `SnappyBlock.RoundTrip` for blocks and `SnappyStream.Pipe` for streams. The hash
is a parameter (any function), the checksum is a parameter (any function), and both widths of Go's `int`
are covered.

**Parallel tree walk** (`Walk`, `WalkProof`, `WalkTheorems`, `WalkOrder`). The bounded channel, the WaitGroup counter,
the worker goroutines with their call stacks (including inline recursion when the channel is full) and
the waiting caller are a transition system; a run is any schedule of atomic steps. The theorems hold for
every finite tree, every walkFn, every channel capacity of at least one, every number of workers, and
every schedule.

**Lexical paths** (`Paths`, `Clean`, `Rel`). A path means a list of elements; `Clean`'s backtracking byte
loop over its lazy buffer, and `Rel`'s segment scanner, are methods proved to compute that meaning.

**ARC and 2Q caches** (`Lru`, `CacheOps`, `Recency`, `Arc`, `ArcHistory`, `ArcCache`, `TwoQueue`,
`TwoQueueHistory`, `TwoQueueCache`). The caches are classes over LRU objects updated in place; every method
equals an operation on a value-level cache, and what holds over all sequences of operations is proved of
that, much of it from the history of operations alone.

**Properties** (`Expand`, `PropertiesText`, `PropertiesGrammar`, `PropertiesMeaning`,
`PropertiesRoundTrip`, `PropertiesExact`, `PropertiesLexer`). Expansion of nested expressions, and the text
format: the state-machine lexer, the parser loop and the printer are proved equal to functions; what these
make of every spelling of a line and of repeated keys is stated independently, and the round trip is
characterised exactly.

## Where the code and its documentation differ

- `encodeBlock` documents that it needs `MaxEncodedLen(len(src))` bytes, but `Encode` calls it after the
  varint header has used some of them. `SnappyEncodeBlock.HasRoom` is the weaker need that is met: one
  spare byte in 65 and three more.
- `ARCCache` and `TwoQueueCache` are documented as fixed size. ARC can hold one entry more than its size,
  and so can 2Q when the share for recent entries is the whole cache. `Arc.SizeKeptIff` and
  `TwoQueue.SizeKeptIff` say exactly when, and when an overfull cache comes back; `OverflowExample` in each module is a run that does it.
- `expand` is documented to refuse circular references. It does (`Expand.EndlessIsCircular`), but it also
  refuses a key that is merely used twice, as `Expand.RepeatedKeyIsRefused` shows.
  `Expand.FinishedExpansion` says exactly when a value with a result is refused, and `Expand.CircularIff`
  when any value is.
- Properties written as UTF-8 do not always parse back: the escape character, '=' in keys, keys that look
  like comments, empty keys and values with a leading space are not escaped.
  `PropertiesExact.RoundTripIff` says exactly which properties come back.

## Model

| member | source | states |
|---|---|---|
| SnappyFormat.ParseElement | golang/snappy/snappy.go:15-39 | an element at the front of a byte string takes at least one byte and never more than there are |
| SnappyFormat.Expand | golang/snappy/snappy.go:15-39 | decoding only ever appends to what has been decoded |
| SnappyFormat.CopyForwardSplit | golang/snappy/encode_other.go:50-88 | copying a and then b bytes at one offset is copying a + b bytes, also when the copy overlaps itself |
| SnappyFormat.CopyOfMatch | golang/snappy/encode_other.go:194-208 | a copy at the distance of a match reproduces exactly the matched source bytes, overlap included |
| SnappyFormat.ExpandAppend | golang/snappy/snappy.go:15-39 | meanings compose: what follows continues from what came before |
| SnappyTags.LiteralCodeReads | golang/snappy/snappy.go:15-39 | every encoding of a literal, with up to four length bytes and also when fewer would do, is read as that literal, whatever follows |
| SnappyTags.CopyCodeReads | golang/snappy/snappy.go:15-39 | every encoding of a copy, with an offset of 11, 16 or 32 bits, is read as that copy, whatever follows |
| SnappyTags.CutShort | golang/snappy/decode_other.go:27-46 | what stops inside the encoding of an element is no element |
| SnappyDecode.LiteralHeader | golang/snappy/decode_other.go:19-47 | the header arithmetic reads the literal that the format defines, or finds it cut short |
| SnappyDecode.CopyHeader | golang/snappy/decode_other.go:60-83 | the tag arithmetic reads the copy that the format defines, or finds it cut short |
| SnappyDecode.ForwardCopy | golang/snappy/decode_other.go:88-95 | the in-place loop performs the byte-by-byte forward copy and changes nothing behind it |
| SnappyDecode.DecodeLiteral | golang/snappy/decode_other.go:18-58 | one literal step: accepted and applied as the format says, or refused because it is cut short or too long; the unsupported-length code exactly when the announced length is no int |
| SnappyDecode.HugeLiteralNeeds32Bit | golang/snappy/decode_other.go:48-51 | a literal whose length is no int can be met only with 32-bit ints |
| SnappyDecode.DecodeCopy | golang/snappy/decode_other.go:60-95 | one copy step: accepted and applied as the format says, or refused because it is cut short, reaches too far back or is too long |
| SnappyDecode.DecodeElements | golang/snappy/decode_other.go:9-101 | total; returns 0 if and only if the input expands to exactly n bytes, and then the buffer holds them; returns the unsupported-length code if and only if elements that apply within n bytes lead to a literal whose length is no int; no access out of range; nothing from n on is touched |
| SnappyEmit.CopySize | golang/snappy/encode_other.go:50-88 | a copy always takes fewer bytes than it stands for |
| SnappyEmit.EmitLiteral | golang/snappy/encode_other.go:20-42 | the bytes written mean the literal to any decoder, with the exact size, and earlier bytes are kept |
| SnappyEmit.EmitCopy | golang/snappy/encode_other.go:44-88 | the 64/60/remainder tags together mean the one whole forward copy to any decoder, with the exact size |
| SnappyEncodeBlock.Load32Injective | golang/snappy/encode_other.go:9-12 | equal 32-bit loads are equal bytes |
| SnappyEncodeBlock.Load64Shifts | golang/snappy/encode_other.go:219-229 | the three words shifted out of one 64-bit load are the three 32-bit loads they replace |
| SnappyEncodeBlock.TableShift | golang/snappy/encode_other.go:122-125 | the shift stays between 18 and 24 and the table is large enough for the input or of maximal size |
| SnappyEncodeBlock.FindMatch | golang/snappy/encode_other.go:161-179 | for any hash: loads stay in range, positions only advance, table entries stay below the position and fit 16 bits, a match found is a real four-byte match with an earlier position, one at the starting position is never missed, and the search gives up only when the next probe would pass the limit |
| SnappyEncodeBlock.ExtendMatch | golang/snappy/encode_other.go:90-99 | returns the longest extension: the two stretches agree and the next bytes differ or the input ends |
| SnappyEncodeBlock.Reindex | golang/snappy/encode_other.go:219-229 | both positions are entered in the table, whose entries stay below the position; a match is reported if and only if the entry's word is that of the position, and otherwise the next hash is that of the next position |
| SnappyEncodeBlock.EmitMatch | golang/snappy/encode_other.go:197-208 | offset and length meet emitCopy's assumptions, the output then decodes to the input up to the end of the match, within one byte in 65 |
| SnappyEncodeBlock.EmitMatches | golang/snappy/encode_other.go:194-230 | consecutive copies keep the output decoding to the input so far; the position strictly advances |
| SnappyEncodeBlock.EncodeMatches | golang/snappy/encode_other.go:145-231 | the main loop ends with output that decodes to the input up to nextEmit, within one byte in 65 |
| SnappyEncodeBlock.EncodeBlock | golang/snappy/encode_other.go:105-238 | for any hash and whatever was decoded before, the block decodes to its input and is at most one byte in 65 and three bytes longer |
| SnappyBlock.Leb128RoundTrip | golang/snappy/encode.go:25-26 | the varint header reads back, whatever follows it |
| SnappyBlock.PutUvarint | golang/snappy/encode.go:25-26 | the loop writes the varint and keeps earlier bytes |
| SnappyBlock.DecodedLen | golang/snappy/decode.go:30-43 | an accepted header lies within the input and announces a length that fits an int |
| SnappyVarint.HeaderReads | golang/snappy/decode.go:30-43 | a header in any number of base-128 digits is accepted if and only if there are at most ten and the number fits 32 bits and an int; the error tells which of the two it does not fit |
| SnappyVarint.EndlessHeader | golang/snappy/decode.go:30-36 | a header that does not end is corrupt |
| SnappyBlock.Decode | golang/snappy/decode.go:50-72 | succeeds if and only if the block has a meaning, which the result then is, and otherwise returns the error that the block's meaning determines; reuses a large enough buffer and otherwise allocates |
| SnappyBlock.MaxEncodedLen | golang/snappy/encode.go:72-106 | non-negative if and only if 32 + n + n/6 fits 32 bits and an int, and then that bound |
| SnappyBlock.EncodeInto | golang/snappy/encode.go:25-40 | header and pieces fit into 32 + n + n/6 bytes, header included, and decode to the input across block boundaries |
| SnappyBlock.Encode | golang/snappy/encode.go:13-41 | refuses exactly the inputs without a bound; otherwise the output decodes to the input and is within MaxEncodedLen; a large enough buffer is used in place |
| SnappyBlock.RoundTrip | golang/snappy/encode.go:18-41 | for every input with a bound, every hash and both word sizes, Decode of Encode returns the input |
| SnappyFraming.MaxEncodedPayload | golang/snappy/snappy.go:63-71 | the hard-coded buffer bound is MaxEncodedLen of the maximal block |
| SnappyFraming.ReadChunk | golang/snappy/decode.go:128-236 | a chunk that is not refused lies within the stream, and refusal is never an end of file |
| SnappyFraming.StreamAppend | golang/snappy/decode.go:118-237 | a whole stream followed by more carries the data of both |
| SnappyFraming.OnlyVerifiedData | golang/snappy/decode.go:148-206 | all delivered data is payloads, each the body, raw or as the block it is, of a chunk in the stream whose checksum field matches it |
| SnappyChunks.SkippableChanges | golang/snappy/decode.go:231-235 | padding and reserved skippable chunks, put anywhere behind a whole stream, change nothing (sections 4.4 and 4.6) |
| SnappyChunks.IdentifierRepeats | golang/snappy/decode.go:208-223 | a repeated stream identifier changes nothing (section 4.1) |
| SnappyChunks.IdentifierChecked | golang/snappy/decode.go:208-223 | an identifier with any other body ends the stream as corrupt |
| SnappyChunks.ReservedIsRefused | golang/snappy/decode.go:226-230 | a reserved unskippable chunk ends the stream as unsupported (section 4.5) |
| SnappyChunks.OversizedIsRefused | golang/snappy/decode.go:139-143 | a chunk longer than the buffer ends the stream as unsupported, whatever its type |
| SnappyChunks.DataIsDelivered | golang/snappy/decode.go:148-206 | a data chunk of at most 65536 bytes with matching checksum delivers its payload and then what follows (sections 4.2 and 4.3) |
| SnappyChunks.BadDataIsRefused | golang/snappy/decode.go:148-206 | any other data chunk ends the stream, with the error of its block when that is at fault and as corrupt otherwise |
| SnappyChunks.TruncatedIsCorrupt | golang/snappy/decode.go:107-115 | a stream that stops inside a chunk is corrupt, unless the chunk's header already makes it unsupported |
| SnappyChunks.IdentifierComesFirst | golang/snappy/decode.go:131-138 | a stream that does not begin with the identifier carries nothing and is an error |
| SnappyWriter.ChunkCarries | golang/snappy/encode.go:225-258 | a chunk as laid out by the writer, compressed or not, carries its payload |
| SnappyWriter.Writer.FillChunk | golang/snappy/encode.go:225-247 | obuf holds the chunk or its header; the encoder stays within obuf and the magic bytes are kept; the chunk is compressed if and only if its block is shorter by an eighth |
| SnappyWriter.Writer.WriteChunk | golang/snappy/encode.go:211-258 | the sink then carries the payload in addition, the stream identifier first; or a sink error is recorded, and the sink still starts with the stream it held |
| SnappyWriter.Writer.WriteAll | golang/snappy/encode.go:207-262 | all of p is carried; or the sink fails and the count returned is of the whole chunks before, which the sink still carries; after an error nothing is sent |
| SnappyWriter.Writer.Write | golang/snappy/encode.go:171-205 | what was accepted is what the sink carries followed by the buffer; complete unless an error is reported; what fits the buffer is only buffered; if the sink fails, the bytes counted follow what was written before on the sink, or they completed a buffer that was lost; errors are sticky |
| SnappyWriter.Writer.Flush | golang/snappy/encode.go:264-275 | the buffer is forwarded and empty; errors are sticky |
| SnappyWriter.Writer.Close | golang/snappy/encode.go:277-285 | success means that the sink carries everything accepted; afterwards the writer is valid and holds an error, so that every call is refused |
| SnappyReader.Reader.ReadFull | golang/snappy/decode.go:107-115 | fills exactly when enough is left; a proper end is told from a truncated stream |
| SnappyReader.Reader.TakeCompressed | golang/snappy/decode.go:148-179 | a compressed chunk is taken as the framing format defines it |
| SnappyReader.Reader.TakeUncompressed | golang/snappy/decode.go:181-206 | an uncompressed chunk is taken as the framing format defines it |
| SnappyReader.Reader.TakeChunk | golang/snappy/decode.go:128-236 | one chunk of any type, or the end, is taken as the framing format defines it |
| SnappyReader.Reader.Read | golang/snappy/decode.go:117-237 | delivers the next bytes of what the stream carries, at least one if there is room; an error only after everything was delivered, and then for good |
| SnappyStream.Compress | golang/snappy/encode.go:171-285 | for any sequence of Write and Flush and then Close: success means that the stream carries the concatenated input; on a reliable sink it succeeds |
| SnappyStream.ReadToEnd | golang/snappy/decode.go:117-237 | with any read sizes, exactly what the stream carries and then the reason it ends |
| SnappyStream.Pipe | golang/snappy/encode.go:126-139 | whatever is written in whatever pieces is read in whatever pieces, followed by a proper end of file |
| Walk.ExpectedIsVisible | MichaelTJones/walk/walk.go:22-35 | the expected calls contain each node with no skipped or failed proper ancestor exactly once, and no other node |
| WalkProof.InitInv | MichaelTJones/walk/walk.go:146-159 | the invariant holds when the workers start |
| WalkProof.CheckKeeps | MichaelTJones/walk/walk.go:76-79 | asking terminated() keeps the invariant |
| WalkProof.CallKeeps | MichaelTJones/walk/walk.go:81-91 | a call of walkFn keeps the invariant, for every answer |
| WalkProof.StopKeeps | MichaelTJones/walk/walk.go:60-67 | recording an error keeps the invariant |
| WalkProof.ListKeeps | MichaelTJones/walk/walk.go:103-131 | a step over the directory entries keeps the invariant |
| WalkProof.PresumedKeeps | MichaelTJones/walk/walk.go:115-118 | the non-blocking send after the presumed increment keeps the invariant and never meets a closed channel |
| WalkProof.UndoKeeps | MichaelTJones/walk/walk.go:119-122 | undoing the increment and recursing inline keeps the invariant |
| WalkProof.ReceiveKeeps | MichaelTJones/walk/walk.go:69-71 | receiving an item keeps the invariant |
| WalkProof.ReleaseKeeps | MichaelTJones/walk/walk.go:71-73 | the decrement after a visit keeps the invariant and never goes below zero |
| WalkProof.CallerKeeps | MichaelTJones/walk/walk.go:150-162 | returning from Wait and the deferred close keep the invariant |
| WalkProof.StepKeepsInv | MichaelTJones/walk/walk.go:69-162 | every enabled step of any goroutine keeps the invariant |
| WalkProof.RunInv | MichaelTJones/walk/walk.go:69-162 | the invariant holds in every state of every run |
| WalkTheorems.Accounting | MichaelTJones/walk/walk.go:69-162 | the counter is queued items plus items held plus presumed sends; no negative counter and no send after close; at zero the queue is empty and no worker is visiting |
| WalkTheorems.CalledAtMostOnce | MichaelTJones/walk/walk.go:76-133 | in every run, failing or not, each node is called at most once and only if it is visible |
| WalkTheorems.NilMeansAllVisited | MichaelTJones/walk/walk.go:135-162 | if Walk returns nil, every visible node was called exactly once |
| WalkTheorems.ErrorWasAnswered | MichaelTJones/walk/walk.go:135-162 | if Walk returns an error, walkFn gave it as a fatal answer to a visited node |
| WalkTheorems.NilIffNoError | MichaelTJones/walk/walk.go:81-131 | Walk returns nil if and only if walkFn answered every call with nil, or with SkipDir for a directory |
| WalkTheorems.ChannelBounded | MichaelTJones/walk/walk.go:115-122 | the channel never holds more than its capacity |
| WalkOrder.CallsInOrder | MichaelTJones/walk/walk.go:94-131 | in every run a node is called after its directory and after all plain files listed before it, all of which answered nil; after an error for a plain file nothing behind it is visited |
| WalkOrder.StopsAfterError | MichaelTJones/walk/walk.go:53-58 | once an error is recorded, walkFn is called only where a worker is already past the test: on the node it is about to call and on plain files of directories being listed |
| WalkTheorems.VisitsExactlyOnce | MichaelTJones/walk/walk.go:135-162 | if walkFn fails on no visible node, Walk returns nil having called it exactly once on each visible node and on no other |
| WalkTheorems.FirstErrorStableInRuns | MichaelTJones/walk/walk.go:60-67 | firstError, once set, never changes in the rest of the run |
| WalkTheorems.StepDecreases | MichaelTJones/walk/walk.go:69-162 | every step decreases a measure on the unvisited tree and the goroutines |
| WalkTheorems.RunsAreFinite | MichaelTJones/walk/walk.go:69-162 | no run is longer than the measure of the initial state |
| WalkTheorems.SomebodyCanMove | MichaelTJones/walk/walk.go:69-162 | no deadlock: until Walk has returned, some goroutine can take a step |
| WalkTheorems.StuckMeansReturned | MichaelTJones/walk/walk.go:135-162 | a run that cannot go on has ended with Walk returning |
| Paths.CleanedCanonical | MichaelTJones/walk/walk.go:228-248 | cleaning leaves plain elements, with ".." only in front and only when unrooted |
| Paths.ResolveText | MichaelTJones/walk/walk.go:228-248 | a rendered canonical element list reads back as itself |
| Paths.CleanedIdempotent | MichaelTJones/walk/walk.go:228-248 | cleaning a cleaned path changes nothing |
| Paths.CleanedShortest | MichaelTJones/walk/walk.go:228 | the cleaned path is equivalent to the path, and no other non-empty path equivalent to it is shorter |
| Clean.LazyBuf.Append | MichaelTJones/walk/walk.go:203-214 | the lazy buffer behaves as an eager one that is appended to |
| Clean.LazyBuf.Index | MichaelTJones/walk/walk.go:196-201 | reads back what was appended |
| Clean.LazyBuf.String | MichaelTJones/walk/walk.go:216-221 | returns what an eager buffer would hold |
| Clean.Backtrack | MichaelTJones/walk/walk.go:287-292 | the byte loop gives up exactly the last element and its separator |
| Clean.StepUp | MichaelTJones/walk/walk.go:283-301 | a ".." element has its effect on the element list; the write index stays behind the read index |
| Clean.StepElement | MichaelTJones/walk/walk.go:302-312 | a real element is appended, with a separator if needed; the write index stays behind the read index |
| Clean.CleanPath | MichaelTJones/walk/walk.go:249-321 | for every path the loop computes the cleaned path of the element-list definition |
| Rel.JoinPaths | MichaelTJones/walk/walk.go:343-353 | leading empty elements are ignored and the rest is joined and cleaned |
| Rel.SkipCommon | MichaelTJones/walk/walk.go:381-403 | the unbounded loop ends, at the first elements in which the two paths differ |
| Rel.UpPath | MichaelTJones/walk/walk.go:407-426 | the precomputed buffer size is exactly filled with the ".." elements and the rest of the target |
| Rel.JoinInvertsRelative | MichaelTJones/walk/walk.go:355-361 | joining the base with the relative path gives the cleaned target |
| Rel.RelatableIff | MichaelTJones/walk/walk.go:355-361 | the paths on which Rel succeeds are exactly those between which any relative path leads |
| Rel.RelPath | MichaelTJones/walk/walk.go:362-428 | succeeds if and only if both paths are rooted or neither is and the base has no ".." that the target does not share; the result joined to the base is the cleaned target |
| Lru.AddedFacts | hashicorp/golang-lru/simplelru/lru.go:50-70 | an added key is present with its value, others keep theirs, nothing is dropped unless a new key meets a full list, and the capacity holds |
| Recency.AddedPlaces | hashicorp/golang-lru/simplelru/lru.go:50-70 | an added key comes first, the others keep their order, and only the last can be lost |
| Lru.LRU.Add | hashicorp/golang-lru/simplelru/lru.go:50-70 | updates and refreshes, or inserts and drops the oldest when over capacity; reports eviction exactly then |
| Lru.LRU.Get | hashicorp/golang-lru/simplelru/lru.go:72-79 | returns the value and makes the key the newest |
| Lru.LRU.Remove | hashicorp/golang-lru/simplelru/lru.go:97-105 | takes the key out of list and table; reports whether it was there |
| Lru.LRU.RemoveOldest | hashicorp/golang-lru/simplelru/lru.go:107-116 | drops the oldest entry and returns its key and value |
| Arc.ReplacedKeeps | hashicorp/golang-lru/arc.go:179-194 | making room keeps the invariant, remembers the evicted key in the matching ghost list, and frees a slot unless t2 is empty and t1 is within p |
| Arc.PutKeeps | hashicorp/golang-lru/arc.go:84-177 | Add keeps the invariant, and everything cached agrees with the map of values added |
| Arc.GotKeeps | hashicorp/golang-lru/arc.go:62-82 | Get keeps the invariant and the agreement with the map |
| Arc.DeletedKeeps | hashicorp/golang-lru/arc.go:212-228 | after Remove the key is in none of the four lists, although only one is changed |
| Arc.After | hashicorp/golang-lru/arc.go:30-238 | after any operations on a new cache the invariant and the agreement with the plain map hold |
| Arc.RunInvariant | hashicorp/golang-lru/arc.go:17-28 | in every run: four disjoint lists, each within the size, p within 0 and the size, at most size + 1 cached entries |
| Arc.HitsAreLatest | hashicorp/golang-lru/arc.go:248-257 | in every run a hit returns the last value added for the key since its last removal |
| Arc.AddThenHit | hashicorp/golang-lru/arc.go:84-177 | in every run what has just been added is found with its value |
| Arc.RemoveForgets | hashicorp/golang-lru/arc.go:212-228 | in every run a removed key is gone from all four lists |
| Arc.SizeKeptIff | hashicorp/golang-lru/arc.go:103-130 | an Add on a cache within its size stays within it if and only if not: hit in b1, p raised to the size, t1 full, t2 empty; an Add on a cache with one entry too many brings it back if and only if it promotes into a full t2, or hits b2 with t2 full and p lowered to at most 1, or adds a new key with t1 full and p at the size |
| Arc.OverflowExample | hashicorp/golang-lru/arc.go:179-194 | a run on a cache of size one that ends with two entries |
| ArcHistory.HistoryDecides | hashicorp/golang-lru/arc.go:62-177 | in every run, from the history alone: a recent entry was last named by its Add, a frequent one has been used at least twice since it was last removed, and both lists are in order of last use |
| ArcHistory.EvictsLeastRecent | hashicorp/golang-lru/arc.go:179-194 | in every run, what an Add evicts was used less recently than everything that stays in its list |
| ArcHistory.PutPlaces | hashicorp/golang-lru/arc.go:84-177 | an added key that was known, cached or not, becomes the newest frequent entry, a new one the newest recent entry; the others keep their order |
| ArcHistory.GotPlaces | hashicorp/golang-lru/arc.go:62-82 | a hit becomes the newest frequent entry and leaves the recent ones; a miss changes nothing |
| ArcHistory.VictimRule | hashicorp/golang-lru/arc.go:179-194 | which entry is given up, by the lengths of the lists and the moved p, and that its key becomes the newest of its ghost list |
| ArcHistory.CountAfterAdd | hashicorp/golang-lru/arc.go:84-177 | the number of entries after an Add, in all cases |
| ArcHistory.GhostHitMovesP | hashicorp/golang-lru/arc.go:103-155 | only a hit among the evicted keys moves p: up for b1, down for b2, by the ratio of the ghost lists but at least one, within 0 and the size |
| ArcHistory.GhostsAreTrimmed | hashicorp/golang-lru/arc.go:162-172 | adding a new key keeps the ghost lists within their shares size - p and p, and does not cut them below |
| ArcCache.ARCCache.Get | hashicorp/golang-lru/arc.go:62-82 | the object makes the step of the value-level cache and returns what it holds |
| ArcCache.ARCCache.Add | hashicorp/golang-lru/arc.go:84-177 | the object makes the step of the value-level cache; the divisions are by lists that are not empty |
| ArcCache.ARCCache.Replace | hashicorp/golang-lru/arc.go:179-194 | the object makes the step of the value-level cache |
| ArcCache.ARCCache.Remove | hashicorp/golang-lru/arc.go:212-228 | the object makes the step of the value-level cache |
| ArcCache.ARCCache.Purge | hashicorp/golang-lru/arc.go:230-238 | all four lists are empty; p is kept |
| ArcCache.ARCCache.Peek | hashicorp/golang-lru/arc.go:248-257 | returns what the cache holds, changing nothing |
| ArcCache.ARCCache.Contains | hashicorp/golang-lru/arc.go:240-246 | says whether the cache holds the key, changing nothing |
| ArcCache.NewARC | hashicorp/golang-lru/arc.go:30-60 | an empty cache, or none for a size that is not positive |
| ArcCache.Drive | hashicorp/golang-lru/arc.go:62-238 | for any operations on the object, every lookup answers as the value-level cache does, and every hit is the last value added |
| TwoQueue.EnsuredSpaceKeeps | hashicorp/golang-lru/2q.go:142-161 | making room keeps the invariant, remembers a key evicted from the recent list, and frees a slot except in the one immovable state |
| TwoQueue.PutKeeps | hashicorp/golang-lru/2q.go:108-140 | Add keeps the invariant and the agreement with the plain map |
| TwoQueue.After | hashicorp/golang-lru/2q.go:45-197 | after any operations on a new cache the invariant and the agreement hold |
| TwoQueue.RunInvariant | hashicorp/golang-lru/2q.go:29-37 | in every run: three disjoint lists, and at most size entries when the recent share is below the size |
| TwoQueue.HitsAreLatest | hashicorp/golang-lru/2q.go:205-212 | in every run a hit returns the last value added for the key since its last removal |
| TwoQueue.AddThenHit | hashicorp/golang-lru/2q.go:108-140 | in every run what has just been added is found with its value |
| TwoQueue.RemoveForgets | hashicorp/golang-lru/2q.go:177-189 | in every run a removed key is gone from all three lists |
| TwoQueue.SizeKeptIff | hashicorp/golang-lru/2q.go:142-161 | an Add on a cache within its size stays within it if and only if not: hit in recentEvict, recent list full, nothing frequent, recent share equal to the size; an Add on a cache with one entry too many brings it back if and only if it promotes a key into a full frequent list |
| TwoQueue.OverflowExample | hashicorp/golang-lru/2q.go:142-161 | a run on a cache of size one, with the whole size as recent share, that ends with two entries |
| TwoQueueHistory.HistoryDecides | hashicorp/golang-lru/2q.go:87-140 | in every run, from the history alone: a recent entry was last named by its Add, a frequent one has been used at least twice since it was last removed, and both lists are in order of last use |
| TwoQueueHistory.EvictsLeastRecent | hashicorp/golang-lru/2q.go:142-161 | in every run, what an Add evicts was used less recently than everything that stays in its list |
| TwoQueueHistory.PutPlaces | hashicorp/golang-lru/2q.go:108-140 | an added key that was known, cached or not, becomes the newest frequent entry, a new one the newest recent entry; the others keep their order |
| TwoQueueHistory.GotPlaces | hashicorp/golang-lru/2q.go:87-106 | a hit becomes the newest frequent entry and leaves the recent ones; a miss changes nothing |
| TwoQueueHistory.VictimRule | hashicorp/golang-lru/2q.go:142-161 | which entry is given up, by the lengths of the lists and the target for recent entries, and that an evicted recent key is remembered |
| TwoQueueHistory.CountAfterAdd | hashicorp/golang-lru/2q.go:108-161 | the number of entries after an Add, in all cases |
| TwoQueueCache.Cache.Get | hashicorp/golang-lru/2q.go:87-106 | the object makes the step of the value-level cache and returns what it holds |
| TwoQueueCache.Cache.Add | hashicorp/golang-lru/2q.go:108-140 | the object makes the step of the value-level cache |
| TwoQueueCache.Cache.EnsureSpace | hashicorp/golang-lru/2q.go:142-161 | the object makes the step of the value-level cache |
| TwoQueueCache.Cache.Remove | hashicorp/golang-lru/2q.go:177-189 | the object makes the step of the value-level cache |
| TwoQueueCache.Cache.Peek | hashicorp/golang-lru/2q.go:205-212 | returns what the cache holds, changing nothing |
| TwoQueueCache.New2QParams | hashicorp/golang-lru/2q.go:45-85 | an empty cache with the truncated shares of the size; none exactly when size or ratios are out of range or the ghost share is below one entry |
| TwoQueueCache.RatioKeepsSize | hashicorp/golang-lru/2q.go:9-18 | with a ratio for recent entries below one no run ever exceeds the size |
| TwoQueueCache.Drive | hashicorp/golang-lru/2q.go:87-197 | for any operations on the object, every lookup answers as the value-level cache does, and every hit is the last value added |
| Expand.Index | magiconair/properties/properties.go:717-727 | the first occurrence, or -1 when there is none |
| Expand.LeftmostSplits | magiconair/properties/properties.go:717-729 | the expression cut out is prefix, key and postfix at its place in the string |
| Expand.ExpandFrom | magiconair/properties/properties.go:713-746 | defined for every input, however substitution splices expressions together (no precondition; the measure is unseen defined keys, then length, then the empty key); a successful result contains no prefix |
| Expand.SuccessIsNormalForm | magiconair/properties/properties.go:713-746 | a successful result is the normal form of plain leftmost replacement |
| Expand.SeenOnlyRefuses | magiconair/properties/properties.go:733-744 | remembering keys can only refuse, never change a result |
| Expand.Follows | magiconair/properties/properties.go:733-745 | expansion is plain leftmost replacement for as long as no key comes a second time, and refused as soon as one does |
| Expand.FinishedExpansion | magiconair/properties/properties.go:716-720 | where plain replacement comes to an end, expansion gives its result, and is refused if and only if a key was replaced twice on the way |
| Expand.BrokenExpansion | magiconair/properties/properties.go:722-726 | where plain replacement meets a malformed expression, expansion says so, and is refused as circular if and only if a key was replaced twice before |
| Expand.CircularIff | magiconair/properties/properties.go:733-735 | refused as circular if and only if plain replacement comes to a key for the second time |
| Expand.MalformedIff | magiconair/properties/properties.go:722-726 | malformed if and only if plain replacement meets an expression without postfix before any key repeats |
| Expand.OkIff | magiconair/properties/properties.go:713-746 | succeeds with a result if and only if plain replacement ends with it before any key repeats |
| Expand.EndlessIsCircular | magiconair/properties/properties.go:713-715 | when plain replacement never ends, expansion is refused as circular |
| Expand.SelfReferenceIsEndless | magiconair/properties/properties.go:713-715 | an expression that is its own value is replaced for ever, and is refused as circular |
| Expand.ReplacesExpression | magiconair/properties/properties.go:728-745 | the first expression is replaced by its property, or without one by its environment variable, or without either by nothing, unless its key was seen |
| Expand.SingleExpression | magiconair/properties/properties.go:728-745 | a value with one expression expands to the value with the property, or without one the environment variable, in place |
| Expand.UnfinishedExpression | magiconair/properties/properties.go:722-726 | a prefix with no postfix behind it is malformed |
| Expand.EnvironmentIsFallback | magiconair/properties/properties.go:737-740 | the environment matters only for keys that are no properties |
| Expand.EmptyPrefixFails | magiconair/properties/properties.go:716-720 | with an empty prefix no expansion succeeds |
| Expand.RepeatedKeyIsRefused | magiconair/properties/properties.go:733-735 | a key used twice is refused as circular although plain replacement ends with a result |
| PropertiesText.ScanKey | magiconair/properties/lex.go:228-264 | a key ends at an unescaped delimiter or at the end of the text, and an empty key consumes nothing |
| PropertiesText.ScanValue | magiconair/properties/lex.go:277-306 | a value ends at an unescaped line end or at the end of the text |
| PropertiesGrammar.KeyReads | magiconair/properties/lex.go:228-264 | every spelling of a key, raw, escaped or by hexadecimal number, is read as the key it means, up to a delimiter, a line end or the end |
| PropertiesGrammar.ValueReads | magiconair/properties/lex.go:277-306 | every spelling of a value, continued lines included, is read as the value it means, up to a line end or the end |
| PropertiesGrammar.NumberReads | magiconair/properties/lex.go:330-349 | an escape by four hexadecimal digits in either case is read as the rune with that number |
| PropertiesGrammar.LineReads | magiconair/properties/lex.go:184-306 | a line with any indentation, any spelling of key and value and any separator (whitespace, at most one ':' or '=', whitespace) is read as its key and its value |
| PropertiesGrammar.LastLineReads | magiconair/properties/lex.go:252-263 | the last line may lack its line end; a key alone there has no value item |
| PropertiesGrammar.CommentReads | magiconair/properties/lex.go:209-226 | a line that starts with '#' or '!' is a comment, without its leading whitespace |
| PropertiesGrammar.LastCommentReads | magiconair/properties/lex.go:209-226 | a comment that the text ends in is no item of its own |
| PropertiesGrammar.EmptyLines | magiconair/properties/lex.go:184-207 | empty lines say nothing, and a line of whitespace is a value without a key |
| PropertiesGrammar.BadEscape | magiconair/properties/lex.go:308-349 | an escape that the text ends in, or a number without four hexadecimal digits, is an error in keys and in values |
| PropertiesLexer.Lexer.AcceptRun | magiconair/properties/lex.go:124-129 | consumes exactly the longest run of runes of the given set |
| PropertiesLexer.Lexer.ScanEscapeSequence | magiconair/properties/lex.go:308-328 | reads exactly the escape sequence, or refuses exactly the invalid ones |
| PropertiesLexer.Lexer.ScanUnicodeLiteral | magiconair/properties/lex.go:330-349 | succeeds exactly on four hexadecimal digits and appends their rune |
| PropertiesLexer.Lexer.LexBeforeKey | magiconair/properties/lex.go:184-207 | the items emitted and those still to come are the items of the text |
| PropertiesLexer.Lexer.LexInComment | magiconair/properties/lex.go:209-226 | the items emitted and those still to come are the items of the comment and what follows |
| PropertiesLexer.Lexer.LexInKey | magiconair/properties/lex.go:228-264 | the items emitted and those still to come are the items of the key and what follows |
| PropertiesLexer.Lexer.LexBeforeVal | magiconair/properties/lex.go:266-275 | skips whitespace, one delimiter and whitespace |
| PropertiesLexer.Lexer.LexInValue | magiconair/properties/lex.go:277-306 | the items emitted and those still to come are the items of the value and what follows |
| PropertiesLexer.Lexer.Run | magiconair/properties/lex.go:175-180 | the state machine terminates and emits exactly the items of the text |
| PropertiesLexer.ParseLoop | magiconair/properties/parser.go:16-55 | the loop takes up entries, order of keys and comments as the item grammar defines, or fails |
| PropertiesLexer.ParseText | magiconair/properties/parser.go:16-55 | lexer and parser loop together parse the text |
| PropertiesMeaning.ParsesIff | magiconair/properties/parser.go:24-51 | parsing succeeds if and only if no item is an error and every value has a key |
| PropertiesMeaning.LastValueCounts | magiconair/properties/parser.go:32-51 | the keys are those among the items, and the value of a key is the last one given to it |
| PropertiesMeaning.KeysInOrder | magiconair/properties/parser.go:32-36 | the keys are listed once each, in order of first occurrence |
| PropertiesMeaning.CommentsOfLast | magiconair/properties/parser.go:28-44 | the comments of a key are those directly before its last occurrence that has any |
| PropertiesLexer.EncodeUtf8 | magiconair/properties/properties.go:760-768 | every rune is escaped in order |
| PropertiesLexer.WriteText | magiconair/properties/properties.go:585-630 | one line for each key, in order |
| PropertiesLexer.WriteAndParse | magiconair/properties/properties.go:573-577 | writing and parsing as performed gives the same map and order back if and only if all keys and values are covered, and then without comments |
| PropertiesRoundTrip.GoodLine | magiconair/properties/properties.go:623 | a line with a covered key and value lexes to that key and value and then the following lines |
| PropertiesRoundTrip.GoodRoundTrip | magiconair/properties/properties.go:585-630 | covered properties parse back with the same map and the same order of keys |
| PropertiesRoundTrip.LexKeys | magiconair/properties/lex.go:184-306 | a text of whole lines yields at most one key for each line |
| PropertiesExact.KeyComesOut | magiconair/properties/properties.go:788-804 | a printed key never reads back longer, and reads back the same only without escape character and '=' |
| PropertiesExact.ValueComesOut | magiconair/properties/properties.go:788-804 | a printed value ends with its line, no longer and the same only without escape character, or its trailing escape character joins it to the next line |
| PropertiesExact.ParseGrows | magiconair/properties/parser.go:24-51 | parsing adds at most as many keys as there are key items, and with as many it overwrites nothing |
| PropertiesExact.OnlyGoodReadsBack | magiconair/properties/properties.go:585-630 | printed entries that parse back are all covered |
| PropertiesExact.RoundTripIff | magiconair/properties/properties.go:585-630 | for every ordered map: printing and parsing gives back the same map and order if and only if every key is non-empty, free of the escape character and '=' and does not start a comment, and every value is free of the escape character and does not start with a space |

## Left out

- SnappyEncodeBlock.EncodeBlock: states that the output decodes to the input and how long it can be, not how well it compresses; which matches are found depends on the hash.
- SnappyWriter.Writer.Write: after an error of the sink, how much of the failing chunk the sink has taken is not stated; the source does not know it either.
- Snappy: the amd64 assembly, the CRC-32C table, the unbuffered Writer, Reset, and read errors other than the end of the input.
- Walk: failing lstat and failing directory reads, symbolic links and real file systems; the tree is fixed and walkFn answers by path.
- Paths: Windows volumes and separators (the Unix case is modelled), EvalSymlinks.
- LRU and caches: locks (each operation is atomic), eviction callbacks and Keys.
- TwoQueueCache.New2QParams: the ratios are real numbers, so that the rounding of floating-point products is not modelled.
- Properties: text is a sequence of runes, so invalid UTF-8 does not occur; positions of items and line numbers in error messages, the lexer goroutine's interleaving with the parser, comments in output, ISO-8859-1 output, typed getters, Set, Filter, Merge and loading.
