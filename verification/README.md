# kod: verified models of its deterministic core

kod is a coding agent that runs in a terminal. This project models the parts of it where a subtle mistake would
silently corrupt something, and proves what each of them promises. `dafny verify dfyconfig.toml` checks all of it.

Code that works by changing things step by step is modelled as methods over arrays, classes and loops, and each method
is proved against a specification function; the theorems are about that function. Readers that undo a writer (PNG,
zlib, base64, JSON, UTF-8) are written from the public formats, not from the code.

- **Pictures of text** (`Raster`, `Png`, `Zlib`, `Crc`, `Base64`). Long text is drawn into a packed one-bit buffer and
  written as a PNG by hand. Any output decodes to the picture the text and the font describe.
- **Parse cache** (`Recency`, `ParseCache`, `CacheThreads`). A vector stamped with ticks, two caps, and a lock that is
  dropped while parsing. It equals a plain recency list after every interleaving and no caller can tell it is there.
- **Context reduction** (`Fences`, `Regions`, `Shake`, `Splicing`, `Prune`). Byte cursors find fenced and tagged blocks; a gated,
  ordered plan replaces heavy ones; another plan blanks results that have been read again since.
- **Transcript sync** (`Json`, `Utf8`, `Digest`, `DeltaSync`, `Chat`). Canonical JSON, framed fields, and a memo that
  tells how much of what was last sent is still valid.
- **Repository map** (`PageRank`). The ranking of files by their imports, over real numbers.
- **Instruction files** (`Imports`, `Sections`, `Glob`). Import expansion with a shared visited set, a line parser and
  a backtracking matcher.
- **Policy** (`Policy`, `ResolvePath`). Layers that may only narrow, and the path resolution their rules rest on.

`Bytes`, `Text`, `Sequences` and `Option` hold what these share.

Where the code and its documentation disagree, the model follows the code:

- `scan_regions` documents that regions never overlap. They do when a fence starts inside an XML block, and exactly then
  (`Regions.DisjointIff`, `Regions.FenceInBlockOverlaps`).
- `find_xml_blocks` documents that openers start a line. After a block whose closing tag has text behind it, the next
  opener need not (`Regions.BlockStartsMidLine`); `Regions.BlocksStartLinesIff` says exactly when all openers do.
- The guard matcher is documented to keep a single `*` within a path segment and to let a globstar stand for whole
  segments. It does neither: a star crosses slashes, and a globstar with its slash also stops in mid-name
  (`Glob.LongerNameAccepted`). `Glob.DocumentedIff`, `Glob.StarlessIff`, `Glob.SegmentlessIff` and `Glob.NeitherAgrees`
  say exactly where code and documentation agree, a globstar without a slash being read as any text.
- The policy layers are documented to narrow only. A stricter command-line preset can be undercut by a project mode
  accepted before it is applied (`Policy.NarrowsIff`), and the project's history flag replaces the one before it
  (`Policy.HistoryNarrowsIff`).
- `plan_prune` is documented to go from the newest message to the oldest. It goes from the oldest to the newest
  (`Prune.OldestFirst`, `Prune.NewestFirstIff`).
- A line longer than the picture is documented to end in `...`. It is cut off (`Raster.CutIsEllipsisIff`).

## Model

| member | source | states |
|---|---|---|
| `Crc.Crc32` | crates/kod-core-quality/src/snapcompact.rs:355-365 | the two nested loops compute `Checksum`, the bit-by-bit register with all ones going in and out |
| `Crc.ChecksumIsRemainder` | crates/kod-core-quality/src/snapcompact.rs:355-365 | for every byte sequence, the checksum is the remainder of RFC 2083, section 3.4: message bits least significant first, padded with 32 zeros, first 32 coefficients inverted, divided by the generator over GF(2), remainder inverted |
| `Crc.DivisionIdentity` | crates/kod-core-quality/src/snapcompact.rs:355-365 | the long division that the remainder comes from is division: p = q * g + r for every polynomial, with the generator written out from its exponents |
| `Crc.FeedIsDivision` | crates/kod-core-quality/src/snapcompact.rs:359-362 | one turn of the inner loop per message bit is one row of the division, from any register value |
| `Crc.RegisterFeedsBits` | crates/kod-core-quality/src/snapcompact.rs:357-362 | absorbing a byte and stepping eight times is feeding its eight bits one by one |
| `Crc.StepInjective` | crates/kod-core-quality/src/snapcompact.rs:360-361 | no two 32-bit states step to the same state |
| `Crc.StepSurjective` | crates/kod-core-quality/src/snapcompact.rs:360-361 | every 32-bit state is reached by a step; with the row above, each bit step is a bijection |
| `Crc.StepsInjective` | crates/kod-core-quality/src/snapcompact.rs:359-362 | so is any number of steps injective |
| `Crc.StepLinear` | crates/kod-core-quality/src/snapcompact.rs:360-361 | each bit step is linear over GF(2), so with the rows above a linear bijection |
| `Crc.StepsLinear` | crates/kod-core-quality/src/snapcompact.rs:359-362 | so is any number of steps: the register of a difference is the difference of the registers |
| `Crc.BurstDetected` | crates/kod-core-quality/src/snapcompact.rs:355-365 | two messages of equal length that differ only inside a window of at most four bytes have equal checksums exactly when they are equal |
| `Zlib.ZlibStored` | crates/kod-core-quality/src/snapcompact.rs:316-352 | the loops produce exactly the stored-block stream of the data: header, blocks of at most 65535 bytes, closed-form Adler-32 |
| `Zlib.InflateUndoesStored` | crates/kod-core-quality/src/snapcompact.rs:316-352 | a reader written from RFC 1950, section 2.2 and RFC 1951, section 3.2.4 (header divisible by 31, LEN and NLEN complementary, one final block, Adler-32 checked, nothing behind it) recovers every byte sequence, the empty one and those of many blocks included |
| `Zlib.InflateUndoesBlocks` | crates/kod-core-quality/src/snapcompact.rs:323-340 | the blocks alone are read back whatever follows them, up to exactly the end of the final one |
| `Zlib.AdlerStep` | crates/kod-core-quality/src/snapcompact.rs:343-348 | reducing a and b modulo 65521 at every byte keeps them equal to the closed-form sums reduced once |
| `Zlib.BlocksLength` | crates/kod-core-quality/src/snapcompact.rs:323-340 | the blocks take up the data and exactly five bytes for each block, one block for every 65535 bytes or part thereof and one for no bytes |
| `Png.WriteChunk` | crates/kod-core-quality/src/snapcompact.rs:302-312 | length, kind, data and CRC over kind and data, in that order |
| `Png.LengthField` | crates/kod-core-quality/src/snapcompact.rs:303-306 | the length field of a chunk reads back as the length, up to the largest that fits 32 bits |
| `Png.EncodeMonoPng` | crates/kod-core-quality/src/snapcompact.rs:271-300 | the file is signature, IHDR, one IDAT with the filtered scanlines, IEND |
| `Png.TakeWritten` | crates/kod-core-quality/src/snapcompact.rs:302-312 | a chunk reader that checks length and CRC gets back the kind, the data and what follows |
| `Png.DecodeUndoesEncode` | crates/kod-core-quality/src/snapcompact.rs:271-352 | a decoder after RFC 2083 (sections 3.1, 3.2, 3.4: chunks, lengths, CRCs, header fields, zlib stream, filter bytes, packed rows) recovers width, height and every sample of any buffer |
| `Png.NamesAre` | crates/kod-core-quality/src/snapcompact.rs:277-300 | the chunk names and the signature, byte by byte, and the chunk that ends every file |
| `Png.HeaderIs` | crates/kod-core-quality/src/snapcompact.rs:283-288 | the header byte by byte: width and height, highest byte first, bit depth one, gray, the standard methods |
| `Crc.CheckValue` | crates/kod-core-quality/src/snapcompact.rs:355-365 | the checksum of the four letters of the empty last chunk is AE426082 in hexadecimal, as in every PNG file |
| `Raster.SetPixel` | crates/kod-core-quality/src/snapcompact.rs:254-263 | changes one sample of the packed buffer and no other, for every row width |
| `Raster.DrawGlyph` | crates/kod-core-quality/src/snapcompact.rs:224-235 | inks exactly the set bits of the glyph in its cell, on top of what was inked before |
| `Raster.FinishedPicture` | crates/kod-core-quality/src/snapcompact.rs:218-239 | the buffer with all cells drawn is the expected picture: black at (x, y) exactly when line y/10 has a character at column x/8 within 200 columns, y%10 is below 8, and that glyph row has bit 7-(x%8) |
| `Raster.RasterizeToPng` | crates/kod-core-quality/src/snapcompact.rs:200-240 | end to end for every text and font: nothing but white space in the first 200 lines is `Empty`, more than 200 lines is `TooLarge` with the count, and any other output decodes to the expected picture; all buffer accesses are in bounds |
| `Text.LinesFirst` | crates/kod-core-quality/src/snapcompact.rs:201 | the text up to a line feed is a line, less one carriage return at its end, and what follows is split alike: blank lines stay |
| `Text.LinesLast` | crates/kod-core-quality/src/snapcompact.rs:201 | text without a line feed is one line, or none when it is empty |
| `Text.TrimIs` | crates/kod-core-quality/src/snapcompact.rs:202 | trimming takes off the white space on both sides and nothing else |
| `Text.TrimNothingIff` | crates/kod-core-quality/src/snapcompact.rs:202 | nothing is left exactly of a text that is all white space |
| `Raster.GlyphIs` | crates/kod-core-quality/src/snapcompact.rs:243-252 | the glyph of each character, in numbers: printable ASCII from the table, a tab as a space, anything else as a question mark |
| `Raster.PixelIs` | crates/kod-core-quality/src/snapcompact.rs:211-239 | the expected picture pixel by pixel, in numbers: 1600 pixels wide, ten rows for each line, and white exactly where no glyph has ink, found by halving the glyph row |
| `Raster.CutIsEllipsisIff` | crates/kod-core-quality/src/snapcompact.rs:187-189 | the picture with long lines cut off is the one with the documented ellipsis if and only if, in every long line, the last three characters that show have the glyph of a dot |
| `Base64.Base64Encode` | crates/kod-core-quality/src/snapcompact.rs:370-396 | the chunk loop produces the specified groups, padding included |
| `Base64.DecodeUndoesEncode` | crates/kod-core-quality/src/snapcompact.rs:370-396 | a strict decoder after RFC 4648, section 4 (leftover bits zero, padding only at the end) recovers every byte sequence |
| `Base64.Injective` | crates/kod-core-quality/src/snapcompact.rs:370-396 | different byte sequences have different encodings |
| `Base64.EncodedLength` | crates/kod-core-quality/src/snapcompact.rs:372-394 | four characters for every three bytes or part thereof |
| `Base64.PaddingExact` | crates/kod-core-quality/src/snapcompact.rs:384-393 | a character is `=` exactly when it is among the last (3 - n % 3) % 3 |
| `Base64.Vectors` | crates/kod-core-quality/src/snapcompact.rs:370-396 | three vectors of RFC 4648, section 10 |
| `ParseCache.Cache.constructor` | crates/kod-ast/src/parse_cache.rs:72-77 | a new cache is valid and holds nothing |
| `ParseCache.Cache.Clear` | crates/kod-ast/src/parse_cache.rs:91-95 | drops every item |
| `ParseCache.Cache.Probe` | crates/kod-ast/src/parse_cache.rs:102-121 | answers the tree stored for exactly this hash, language and source, and makes it the most recent item; a miss leaves the items alone |
| `ParseCache.Cache.Insert` | crates/kod-ast/src/parse_cache.rs:124-164 | the item goes to the recent end in place of one with its key, then the least recent ones go until both caps hold; a source over the byte cap changes nothing |
| `ParseCache.Cache.Parse` | crates/kod-ast/src/parse_cache.rs:171-231 | whether served from the cache or parsed afresh, the answer is the uncached parse of that source, whatever the hash function; a parse that is needed and would pass its deadline answers nothing and caches nothing |
| `ParseCache.LruIndex` | crates/kod-ast/src/parse_cache.rs:251-257 | the index with the smallest tick |
| `ParseCache.RecentNewest` | crates/kod-ast/src/parse_cache.rs:105-118 | the entry stamped last is last in recency order, wherever it stands in the vector |
| `ParseCache.RecentWithout` | crates/kod-ast/src/parse_cache.rs:134-164 | removing an entry from the vector removes its key from the recency order and disturbs no other |
| `ParseCache.EvictStep` | crates/kod-ast/src/parse_cache.rs:144-163 | removing the least recently used entry while a cap is exceeded is one step of the list eviction |
| `Recency.LongestFitIsLongest` | crates/kod-ast/src/parse_cache.rs:143-163 | what is left after eviction is a suffix that fits both caps, and no longer suffix does |
| `Recency.FirstFitIsLongestFit` | crates/kod-ast/src/parse_cache.rs:143-163 | there is only one such suffix, and eviction leaves it |
| `Recency.TouchAfterEviction` | crates/kod-ast/src/parse_cache.rs:102-164 | using a key after eviction gives the same longest fitting suffix as using it on the full history: what was evicted never matters again |
| `Recency.ProbeTracks` | crates/kod-ast/src/parse_cache.rs:102-121 | a probe keeps the cache equal to the longest fitting suffix of the history, and a hit returns the parse |
| `Recency.InsertTracks` | crates/kod-ast/src/parse_cache.rs:124-164 | so does an insertion, including of a key already present and of a source too large to cache |
| `Recency.InsertedIsKept` | crates/kod-ast/src/parse_cache.rs:124-164 | the entry just inserted survives its own insertion |
| `CacheThreads.NextKeepsInvariant` | crates/kod-ast/src/parse_cache.rs:102-231 | every step of every thread keeps the invariant, the lock being dropped between probe and insert |
| `CacheThreads.RunKeepsInvariant` | crates/kod-ast/src/parse_cache.rs:102-231 | so does every sequence of steps |
| `CacheThreads.EveryRun` | crates/kod-ast/src/parse_cache.rs:102-231 | after any interleaving of probe, parse, insert and clear steps: the keys are the one longest suffix of the keys by last use that fits both caps, none twice, every tree and every answer is the uncached parse of its source even when hashes collide |
| `CacheThreads.EveryAnswer` | crates/kod-ast/src/parse_cache.rs:102-231 | when no parse gives up, every call of every thread answers what an uncached parse answers, failures included |
| `CacheThreads.CallIsAnswered` | crates/kod-ast/src/parse_cache.rs:171-231 | a call of an idle thread is answered with the uncached parse of its source after at most three steps of its own, whatever other threads do between them, clearing included |
| `CacheThreads.ByLastUseOrder` | crates/kod-ast/src/parse_cache.rs:102-164 | the order the previous row speaks of: each key of the log once, sorted by the position of its last use |
| `Fences.FindFenceCloser` | crates/kod-core-quality/src/shake.rs:594-631 | the cursor loops find the end of the first closing line of the line grammar, and its start |
| `Fences.FindFences` | crates/kod-core-quality/src/shake.rs:493-579 | the cursor loops produce exactly the blocks of the recursive line grammar |
| `Fences.FencesAreBlocks` | crates/kod-core-quality/src/shake.rs:493-579 | the regions are genuine opener and closer pairs, non-empty, starting at line starts, in order and disjoint |
| `Fences.CloserIsFirst` | crates/kod-core-quality/src/shake.rs:594-631 | the closer is the first line after the opener that closes it, and none is reported exactly when no line does |
| `Fences.NoOpenerMissed` | crates/kod-core-quality/src/shake.rs:496-576 | an opening line outside every region is at or behind an opening line that nothing closes, which all regions precede |
| `Fences.FenceLine` | crates/kod-core-quality/src/shake.rs:496-631 | a line of blanks, a run of one fence character and a rest, from its parts alone: it opens from a run of three on, and closes what is of its character and no longer than the run when the rest is blank |
| `Regions.ParseOpenTag` | crates/kod-core-quality/src/shake.rs:706-741 | exactly `<name>` with a name of the accepted characters |
| `Regions.OpenTagIs` | crates/kod-core-quality/src/shake.rs:706-741 | from its parts alone: a bracket, a letter or underscore, any letters, digits, underscores and hyphens, and the closing bracket make a tag of that name, and nothing else does |
| `Regions.FindCloseTag` | crates/kod-core-quality/src/shake.rs:746-760 | the search loop finds the end of the specified closing tag |
| `Regions.CloseTagIsFirst` | crates/kod-core-quality/src/shake.rs:746-760 | that is the first occurrence of the closing tag alone behind blanks on its line; the search skipping over rejected occurrences misses none |
| `Regions.ClosingTagIs` | crates/kod-core-quality/src/shake.rs:746-760 | a closing tag counts exactly when only spaces and tabs stand before it on its line |
| `Regions.BlockIs` | crates/kod-core-quality/src/shake.rs:649-699 | a tag behind blanks makes a block up to its first closing tag, with the line feed behind it, exactly when no fence covers the tag |
| `Regions.FindXmlBlocks` | crates/kod-core-quality/src/shake.rs:649-699 | the cursor loops produce exactly the specified blocks |
| `Regions.XmlAreBlocks` | crates/kod-core-quality/src/shake.rs:649-699 | the blocks are in order and disjoint, each from a tag no fence covers to its first closing tag, and each starts a line or starts where the block before it ended |
| `Regions.ScanRegions` | crates/kod-core-quality/src/shake.rs:480-485 | fences first, then XML blocks |
| `Regions.DisjointIff` | crates/kod-core-quality/src/shake.rs:480-485 | the regions of a text are pairwise disjoint if and only if no fence starts inside an XML block |
| `Regions.DisjointFromTags` | crates/kod-core-quality/src/shake.rs:480-485 | checked from fences and tags alone: no fence starting within a block that could be taken up makes the regions disjoint |
| `Regions.FenceInBlockOverlaps` | crates/kod-core-quality/src/shake.rs:661-687 | a text whose fence starts inside an XML block, with its two overlapping regions: the unconditional promise of lines 475-479 is false |
| `Regions.BlockStartsMidLine` | crates/kod-core-quality/src/shake.rs:675-688 | a text whose second block starts in the middle of a line, behind the closing tag of the first |
| `Regions.BlocksStartLinesIff` | crates/kod-core-quality/src/shake.rs:675-688 | the blocks of a text all start lines if and only if no block ends in mid-line where another opening tag is taken up |
| `Shake.ShakeMessage` | crates/kod-core-quality/src/shake.rs:347-442 | one message of the pass: the boundary, protected-path and suffix rules, then the heavy regions for its role |
| `Shake.PlanShake` | crates/kod-core-quality/src/shake.rs:335-464 | the plan is the stably sorted candidates, or empty when they free too little |
| `Shake.PlanIsComplete` | crates/kod-core-quality/src/shake.rs:347-464 | a plan that is not empty elides exactly the regions that are heavy enough in the messages no rule spares |
| `Shake.PlannedMeans` | crates/kod-core-quality/src/shake.rs:411-415 | the same in numbers: a region of a message that may be touched is elided exactly when its bytes are at least four times the threshold of its own kind, fence, tag or tool body |
| `Shake.GateIs` | crates/kod-core-quality/src/shake.rs:444-451 | the plan is empty exactly when there is no candidate or all together free less than four times the minimum |
| `Shake.FreedIsShrinkage` | crates/kod-core-quality/src/shake.rs:444-448 | what counts as freed is what the edits take off the text, exactly when no placeholder outgrows its region |
| `Shake.FreedIs` | crates/kod-core-quality/src/shake.rs:444-448 | an edit frees what it takes off the text, and nothing when its placeholder is longer |
| `Shake.SortOrders` | crates/kod-core-quality/src/shake.rs:458-459 | the order is ascending by message and descending by start, and a rearrangement of the candidates |
| `Shake.PlanHolds` | crates/kod-core-quality/src/shake.rs:444-463 | each message's part of a plan is in that order and holds all its candidates, or the plan is empty |
| `Shake.OffsetsGrow` | crates/kod-core-quality/src/shake.rs:65-73 | byte offsets lie on character boundaries, and byte ranges lie as the character ranges do |
| `Shake.BoundaryIs` | crates/kod-core/src/engine/compaction.rs:293-301 | the positions an edit is held to are exactly those between two characters |
| `Splicing.SplicedIsReplaced` | crates/kod-core-quality/src/shake.rs:161-172 | for any text and any ranges that do not overlap: splicing them one after the other from the last to the first gives what replacing all of them at once in the original text gives |
| `Splicing.SplicedLength` | crates/kod-core-quality/src/shake.rs:161-172 | the length changes by exactly the placeholder lengths less the region lengths |
| `Splicing.EditedIsSpliced` | crates/kod-core/src/engine/compaction.rs:289-303 | on character boundaries and from the last range to the first, no edit is cut off or skipped, so carrying them out is splicing them |
| `Chat.IndexIds` | crates/kod-core/src/engine/compaction.rs:274-280 | the map from id to index holds, for every id, the last message with it |
| `Splicing.ApplyShake` | crates/kod-core/src/engine/compaction.rs:282-306 | the loop edits every body in place by exactly the edits of the plan that reach it, in plan order, each cut off at the end of the body and skipped when empty or within a character |
| `Shake.PlanReaches` | crates/kod-core/src/engine/compaction.rs:274-288 | with unique message ids, the edits of a plan that reach a message are those planned for it |
| `Shake.PlanSplices` | crates/kod-core/src/engine/compaction.rs:282-306 | carrying out the plan of a message whose planned ranges do not overlap skips no edit, replaces all ranges at once, and changes the length by placeholders less regions |
| `Shake.PlanStaysDisjoint` | crates/kod-core-quality/src/shake.rs:335-464 | disjoint regions make disjoint planned ranges, whichever of them are planned |
| `Splicing.OverlapSplices` | crates/kod-core/src/engine/compaction.rs:289-303 | when two planned ranges overlap, the second edit is cut off at the end of what the first one left, skipped when it would cut a character there, and otherwise takes its bytes off the placeholder of the first and off what follows it |
| `Splicing.NestedIsCleanIff` | crates/kod-core/src/engine/compaction.rs:289-303 | a range planned inside another leaves the outer one cleanly replaced if and only if its placeholder has exactly its length, or is no longer and the outer range ends the text, or the outer edit is skipped and its placeholder is what stands there anyway |
| `Shake.NeverElided` | crates/kod-core-quality/src/shake.rs:347-441 | no action touches a boundary message, a system or agent message, the protected or the warm window, or the result of a read of a protected path |
| `Shake.StricterPlansLess` | crates/kod-core-quality/src/shake.rs:371-451 | raising any threshold, protecting more, or going from cold to warm gives a sub-plan |
| `Shake.ToolBodySplices` | crates/kod-core/src/engine/compaction.rs:289-303 | an elided tool result consists of the placeholder for its whole size; an empty one stays empty |
| `Prune.BuildIndex` | crates/kod-core-quality/src/prune.rs:243-274 | the index holds, for every path, the id and message of the last well-formed read of it |
| `Prune.FindCallByResult` | crates/kod-core-quality/src/prune.rs:439-455 | the first call of any assistant message with the id the result names |
| `Prune.Consider` | crates/kod-core-quality/src/prune.rs:329-398 | the tests on one message, each in its place, decide exactly the candidates |
| `Prune.CandidateIs` | crates/kod-core-quality/src/prune.rs:329-398 | the tests as one condition in numbers, at four bytes a token: a tool result with its text, of a read of an unprotected path last read under another id, heavy enough and in neither protected window |
| `Prune.FreedIs` | crates/kod-core-quality/src/prune.rs:403-404 | a blanked result frees its tokens less ten, never less than nothing |
| `Prune.CallsAreThose` | crates/kod-core-quality/src/prune.rs:243-274 | the calls that are looked at are exactly those of assistant messages |
| `Prune.PlanPrune` | crates/kod-core-quality/src/prune.rs:310-428 | the plan is the candidates in transcript order, or empty when together they free too little |
| `Prune.PlannedAre` | crates/kod-core-quality/src/prune.rs:323-427 | every action is a candidate, in transcript order, no message twice |
| `Prune.BlankedIsReadLater` | crates/kod-core-quality/src/prune.rs:362-373 | every blanked result answers a read whose path a later call reads again; no uniqueness of ids is needed |
| `Prune.NewestIsKept` | crates/kod-core-quality/src/prune.rs:362-373 | with unique call ids, the result of the newest read of a path is never blanked |
| `Prune.ReusedIdLosesNewest` | crates/kod-core-quality/src/prune.rs:443-452 | without them it can be: three calls, the first and the last under one id, and the only read of a file is blanked |
| `Prune.NeverBlankedIff` | crates/kod-core-quality/src/prune.rs:344-373 | whatever the ids: no settings ever blank a result if and only if the first call with its id is not a read whose path was last read under another id |
| `Prune.NewerIsLeftIff` | crates/kod-core-quality/src/prune.rs:362-427 | with unique ids: whatever the settings, blanking a stale result leaves a newer result of its path, if and only if the newest read of that path has been answered |
| `Prune.NewestFirstIff` | crates/kod-core-quality/src/prune.rs:292-323 | the plan runs from the newest message to the oldest, as documented, if and only if there is at most one candidate or the candidates free too little together |
| `Prune.OldestFirst` | crates/kod-core-quality/src/prune.rs:292-323 | three reads of one path, two of them answered: a plan of two actions, the older one first |
| `Prune.ApplyPrune` | crates/kod-core/src/engine/compaction.rs:307-317 | the loop replaces in place the body of the last message with each planned id, and changes nothing else |
| `Prune.AppliedIs` | crates/kod-core/src/engine/compaction.rs:307-317 | with unique ids: carrying out a plan puts the placeholder, letter by letter, into the planned messages and leaves everything else alone |
| `Prune.PruneTwice` | crates/kod-core-quality/src/prune.rs:335-337 | planning again after a plan has been carried out gives an empty plan, for every suffix estimator, when every planned message is the last with its id, as with unique ids; with no gate on the savings, only then |
| `Prune.StricterPlansLess` | crates/kod-core-quality/src/prune.rs:375-420 | raising any threshold, lowering the warm limit, protecting more paths, or going from cold to warm gives a sub-plan |
| `Prune.StricterFreesLess` | crates/kod-core-quality/src/prune.rs:417-420 | and frees no more tokens before the whole-plan gate |
| `Json.ReadQuoted` | crates/kod-core-quality/src/transcript_coherence.rs:174-179 | the string escapes are undone by a reader after RFC 8259, section 7, whatever follows the string |
| `Json.ParseCanon` | crates/kod-core-quality/src/transcript_coherence.rs:169-205 | a recursive-descent reader turns canonical text, whatever follows it, back into the value with its members sorted |
| `Json.NormalEqual` | crates/kod-core-quality/src/transcript_coherence.rs:190-203 | values that agree once sorted are equal up to member order |
| `Json.SameCanon` | crates/kod-core-quality/src/transcript_coherence.rs:190-203 | values equal up to member order have the same canonical text |
| `Json.CanonEqualIff` | crates/kod-core-quality/src/transcript_coherence.rs:163-205 | two values have the same canonical text if and only if they are equal up to the order of object members |
| `Json.EscapeIs` | crates/kod-core-quality/src/transcript_coherence.rs:174-179 | which characters are escaped and how: seven by a letter, the other controls by four hexadecimal digits, none besides |
| `Json.LessIs` | crates/kod-core-quality/src/transcript_coherence.rs:191-192 | the order of keys: at the first difference the smaller character, or the prefix, comes first |
| `Json.SortedKeysAre` | crates/kod-core-quality/src/transcript_coherence.rs:191-192 | the keys written are exactly those of the object, in strictly ascending order |
| `Json.SortedUnique` | crates/kod-core-quality/src/transcript_coherence.rs:191-192 | a set of keys has one such order |
| `Digest.Feed` | crates/kod-types/src/hash.rs:24-33 | mixes in the eight little-endian bytes of the length and then the field, for any mixing step |
| `Digest.Of` | crates/kod-core-quality/src/transcript_coherence.rs:113-126 | the digest is the mixing step applied to the byte stream of the framed fields and to nothing else |
| `Digest.MixLast` | crates/kod-types/src/hash.rs:24-33 | each byte is mixed into what the bytes before it left |
| `Digest.TagLetters` | crates/kod-core-quality/src/transcript_coherence.rs:140-148 | the five tags, letter by letter |
| `Digest.TagSeparatesRoles` | crates/kod-core-quality/src/transcript_coherence.rs:140-148 | two roles have one tag exactly when they are the same or are both agents |
| `Digest.FieldsAre` | crates/kod-core-quality/src/transcript_coherence.rs:113-126 | the list of fields by position: tag, content, three for each call, the link |
| `Digest.FrameBytes` | crates/kod-types/src/hash.rs:24-33 | byte k of a frame is the k-th byte of the length, the eight of them lowest first, and the field follows |
| `Digest.FramesInjective` | crates/kod-types/src/hash.rs:17-33 | no two lists of fields share a byte stream |
| `Digest.FieldsInjective` | crates/kod-core-quality/src/transcript_coherence.rs:113-126 | the field list determines role tag, content, the calls in order and the link; the count modulo three separates calls from an optional link |
| `Digest.StreamEqualIff` | crates/kod-core-quality/src/transcript_coherence.rs:113-126 | two messages feed the same stream if and only if they are equal on the wire: equal roles up to which agent, equal content, names and link, equal call ids up to an absent against an empty one, equal arguments up to the order of members |
| `Utf8.DecodeUndoesEncode` | crates/kod-core-quality/src/transcript_coherence.rs:115-123 | text as bytes is read back as that text (RFC 3629, section 3), so fields of bytes determine fields of text |
| `Utf8.Examples` | crates/kod-core-quality/src/transcript_coherence.rs:115-123 | four examples of RFC 3629, section 7, one for each length |
| `DeltaSync.DigestMemo.constructor` | crates/kod-core-quality/src/transcript_coherence.rs:219-223 | an empty memo |
| `DeltaSync.DigestMemo.Clear` | crates/kod-core-quality/src/transcript_coherence.rs:242-244 | forgets every entry |
| `DeltaSync.DigestMemo.Record` | crates/kod-core-quality/src/transcript_coherence.rs:258-264 | the memo holds id and digest of every message of the log, in order |
| `DeltaSync.SyncMessages` | crates/kod-core-quality/src/transcript_coherence.rs:294-345 | the outcome reports the digests truthfully: a shorter log, an extension, or the length of the longest common prefix; and the memo describes the new log |
| `DeltaSync.OneOutcome` | crates/kod-core-quality/src/transcript_coherence.rs:294-345 | no other outcome would be truthful, so the previous row fixes the answer |
| `DeltaSync.NextKeepsInvariant` | crates/kod-core-quality/src/transcript_coherence.rs:242-345 | a sync, a full re-emission or a cleared memo keeps the receiver's copy digest-equal to the sender's log |
| `DeltaSync.KeptIsHeld` | crates/kod-core-quality/src/transcript_coherence.rs:267-287 | no outcome asks a receiver to keep more than it holds, so every sync can be carried out |
| `DeltaSync.SyncKeeps` | crates/kod-core-quality/src/transcript_coherence.rs:294-345 | after a sync to a shorter log the receiver holds that log as sent, and after any other exactly the longest prefix the memo knew, kept, with the rest as sent |
| `DeltaSync.SyncIsPossible` | crates/kod-core-quality/src/transcript_coherence.rs:294-345 | in every state that keeps the invariant, every log can be synced to and leads to exactly one state |
| `DeltaSync.RunKeepsInvariant` | crates/kod-core-quality/src/transcript_coherence.rs:242-345 | the invariant holds at every point of every sequence of events |
| `DeltaSync.ReceiverInStep` | crates/kod-core-quality/src/transcript_coherence.rs:289-345 | with a digest that tells wire contents apart, the receiver always holds the sender's last log up to wire equality |
| `DeltaSync.StreamIsFaithful` | crates/kod-core-quality/src/transcript_coherence.rs:113-126 | the stream that is hashed does tell wire contents apart |
| `PageRank.CollectEdges` | crates/kod-core-quality/src/repomap.rs:363-374 | the two maps list every edge once at its target, and the out-degree of every file that imports |
| `PageRank.Iterate` | crates/kod-core-quality/src/repomap.rs:379-398 | one pass gives every file the base and what its listed sources contribute |
| `PageRank.ComputePagerank` | crates/kod-core-quality/src/repomap.rs:351-401 | the nested loops compute the ranks after twenty steps; of its own result, in numbers: every file has at least 0.15 / N and a file nobody imports exactly that, and the result is within 0.85 to the twentieth times the distance of 1/N everywhere from any fixed ranking |
| `PageRank.StepByEdges` | crates/kod-core-quality/src/repomap.rs:379-398 | one step edge by edge, in numbers: 0.15 / N without imports, and every import adds 0.85 of the rank of its file over the number of its imports |
| `PageRank.SourcesFlow` | crates/kod-core-quality/src/repomap.rs:385-392 | summing over the collected source lists is summing over the edges |
| `PageRank.FlowContracts` | crates/kod-core-quality/src/repomap.rs:381-396 | one round of flow keeps at most the damped share of the total rank, whatever the graph |
| `PageRank.RanksBounded` | crates/kod-core-quality/src/repomap.rs:351-401 | at every iteration each file has a rank of at least (1-d)/N and the ranks sum to at most 1 |
| `PageRank.UnimportedHasBase` | crates/kod-core-quality/src/repomap.rs:347-350 | a file nobody imports has exactly (1-d)/N from the first iteration on |
| `PageRank.StepContracts` | crates/kod-core-quality/src/repomap.rs:379-398 | one iteration brings any two rankings closer by the factor d in the L1 norm |
| `PageRank.RanksConverge` | crates/kod-core-quality/src/repomap.rs:379-398 | after k iterations the ranks are within d^k times the initial distance of any fixed point |
| `PageRank.FixedIsUnique` | crates/kod-core-quality/src/repomap.rs:379-398 | at most one ranking is left fixed |
| `PageRank.IterationsConverge` | crates/kod-core-quality/src/repomap.rs:379-398 | successive iterates are within d^k times the first difference |
| `Glob.GlobRec` | crates/kod-config/src/instructions.rs:462-494 | terminates, and accepts exactly the texts that are a string of parts, one for each token: any one character for `?`, any string for `*`, `**` and `**/` |
| `Glob.AcceptsCons` | crates/kod-config/src/instructions.rs:484-492 | such a text is a part for the first token followed by a text for the rest |
| `Glob.MatchesMeans` | crates/kod-config/src/instructions.rs:462-494 | the matcher as a recursive predicate, with its trailing-slash branch or without, accepts exactly the texts that decompose as the pattern |
| `Glob.OrdinaryPattern` | crates/kod-config/src/instructions.rs:489-492 | the empty pattern accepts the empty text alone, and a character that is no wildcard accepts itself alone |
| `Glob.StarPattern` | crates/kod-config/src/instructions.rs:463-488 | one star, two stars, and two stars with a slash each accept any text before what follows them |
| `Glob.PlainPattern` | crates/kod-config/src/instructions.rs:489-492 | a pattern without wildcards accepts exactly itself |
| `Glob.SlashBranchAddsNothing` | crates/kod-config/src/instructions.rs:475-480 | for every pattern and text, the matcher accepts the same with and without the extra branch for a trailing slash |
| `Glob.DocumentedIff` | crates/kod-config/src/instructions.rs:441-455 | the matcher agrees with its documentation on a text, a single star staying within a segment and a globstar with its slash standing for whole segments, for all patterns if and only if the text is empty |
| `Glob.StarlessIff` | crates/kod-config/src/instructions.rs:441-455 | for all patterns without a single star, if and only if the text consists of slashes |
| `Glob.SegmentlessIff` | crates/kod-config/src/instructions.rs:485-488 | for all patterns without a globstar with a slash, if and only if the text has no slash |
| `Glob.NeitherAgrees` | crates/kod-config/src/instructions.rs:441-455 | a pattern with neither a single star nor a globstar with a slash means what is documented, on every text |
| `Glob.HalfSegment` | crates/kod-config/src/instructions.rs:471-474 | for every character of a text that is no slash, a pattern without a single star that the code accepts by splitting there and the documentation rejects |
| `Glob.LongerNameAccepted` | crates/kod-config/src/instructions.rs:471-474 | the pattern of a globstar, a slash and `b` accepts the text `ab` |
| `Glob.StarAlone` | crates/kod-config/src/instructions.rs:485-488 | the pattern `*` accepts every text, slashes included |
| `Sections.ParseAgentsMd` | crates/kod-config/src/instructions.rs:74-157 | the loop with its flags and buffer renders exactly the segments of the line automaton |
| `Sections.ConditionIs` | crates/kod-config/src/instructions.rs:159-170 | behind `task=`, `path=` and `lang=` the guard is of that kind with the trimmed rest, and any other text gives the guard that always holds |
| `Sections.KindIs` | crates/kod-config/src/instructions.rs:102-152 | each kind of line from how it is written behind its indentation |
| `Sections.GuardLine` | crates/kod-config/src/instructions.rs:110-140 | three colons, `when` and a condition with any white space between them set the guard of that condition |
| `Sections.GuardInForce` | crates/kod-config/src/instructions.rs:102-152 | the guard at a line is what the last guard, end or heading before it set |
| `Sections.CodeFenceToggles` | crates/kod-config/src/instructions.rs:104-109 | every line of three backticks, and no other, goes in or out of a code fence |
| `Sections.SegmentsConserve` | crates/kod-config/src/instructions.rs:102-155 | the segments, one after the other, are exactly the lines that are neither directive nor heading, in order |
| `Sections.KeptAre` | crates/kod-config/src/instructions.rs:102-155 | kept are exactly the plain lines and the marks of code fences, in order |
| `Sections.OpenAre` | crates/kod-config/src/instructions.rs:102-155 | what a section collects is what is kept since the last guard, end or heading |
| `Sections.SegmentsAre` | crates/kod-config/src/instructions.rs:102-155 | there is one segment for each guard, end and heading, with what was collected there |
| `Sections.SegmentGuards` | crates/kod-config/src/instructions.rs:102-155 | every kept line stands under the guard and heading the automaton gives at that line, code fences included |
| `Sections.SectionsAreSegments` | crates/kod-config/src/instructions.rs:75-92 | the sections are the segments whose text is not blank, each once and in order |
| `Sections.GuardedLine` | crates/kod-config/src/instructions.rs:74-157 | a line between a guard and an end comes out as one section of that line under that guard |
| `Imports.ExpandImportsRec` | crates/kod-config/src/instructions.rs:219-274 | with one shared mutable set of files, the recursion ends with that set as it found it, and its text equals the pure recursion that passes the ancestors by value; the chains of calls it records are those of `Chains` |
| `Imports.TryExpandImport` | crates/kod-config/src/instructions.rs:276-306 | the same for one reference; it answers nothing for a file that is missing or is being expanded |
| `Imports.ReferenceTo` | crates/kod-config/src/instructions.rs:258-262 | an at sign and a token without white space, between any white space, refers to exactly that token |
| `Imports.ReferenceFrom` | crates/kod-config/src/instructions.rs:258-262 | no other line refers to anything |
| `Imports.FenceAfterIs` | crates/kod-config/src/instructions.rs:230-256 | three backticks or three tildes open a fence, and only the same three close it |
| `Imports.ImportedIff` | crates/kod-config/src/instructions.rs:258-298 | a line imports a file exactly when it refers to it, fewer than five files are open, and the file exists and is none of them |
| `Imports.ExpandImports` | crates/kod-config/src/instructions.rs:207-217 | the whole expansion, on every file graph; and the chains of calls it went through contain no file twice, not the top-level file, and at most five files |
| `Imports.ChainsAreGood` | crates/kod-config/src/instructions.rs:258-306 | every chain of files expanded one inside the other consists of existing files, none twice, none among the ancestors, and is no longer than the depth left |
| `Imports.ExpansionIsAcyclic` | crates/kod-config/src/instructions.rs:172-176 | from the top: no file inside its own expansion or the top-level file's, and at most five levels |
| `Imports.ExpandedIsPieces` | crates/kod-config/src/instructions.rs:228-272 | the output is one piece for each line, in order, with the fence state of that line |
| `Imports.LinesInPlace` | crates/kod-config/src/instructions.rs:228-272 | lines of fences, lines without a reference and lines at the depth limit come out unchanged in their own place |
| `Imports.NestedImport` | crates/kod-config/src/instructions.rs:276-306 | a reference inside a file is looked up from that file's own directory, and its text takes the place of the line |
| `ResolvePath.Resolve` | crates/kod-config/src/policy.rs:809-845 | the stack loop computes a walk through the tree: down for a name, up for `..` |
| `ResolvePath.ResolvedIsNormal` | crates/kod-config/src/policy.rs:817-844 | below an absolute directory the result is the root and plain names, without `.`, `..` or empty parts |
| `ResolvePath.ParentOfRoot` | crates/kod-config/src/policy.rs:829-834 | for every path, going up first at the root makes no difference |
| `ResolvePath.UpUndoesDown` | crates/kod-config/src/policy.rs:829-837 | going down by a name and up again changes nothing, whatever follows |
| `ResolvePath.DotStays` | crates/kod-config/src/policy.rs:828 | neither does a leading `.` |
| `ResolvePath.NameGoesDown` | crates/kod-config/src/policy.rs:835-842 | a name goes down by exactly that name |
| `ResolvePath.AbsoluteStands` | crates/kod-config/src/policy.rs:811-815 | an absolute path does not depend on the directory, and the root is the root |
| `ResolvePath.Idempotent` | crates/kod-config/src/policy.rs:809-845 | resolving a resolved path changes nothing, from any directory |
| `ResolvePath.Composes` | crates/kod-config/src/policy.rs:809-845 | for all a and b, empty and absolute ones included, resolving b from where a resolves to is resolving b joined to a |
| `Policy.Load` | crates/kod-config/src/policy.rs:360-482 | the layers end up in the engine as specified: preset, sources, tool entries, history flag and read protection |
| `Policy.MergeTools` | crates/kod-config/src/policy.rs:433-463 | each project entry is taken over, without its mode when that would widen |
| `Policy.LayeredIs` | crates/kod-config/src/policy.rs:360-482 | the preset that comes out of the layers: the command line if given, else the project where it is explicit and no wider, else the global name, standard when that is unknown |
| `Policy.EntryIs` | crates/kod-config/src/policy.rs:433-463 | an entry of the project is taken over field by field, its mode kept, or dropped exactly when the preset is stricter |
| `Policy.DecideMeans` | crates/kod-config/src/policy.rs:552-687 | in whatever order the causes are looked at: any one of a session deny, a network switch, a forbidden path or binary, an unlisted path or binary makes the answer deny, and with none of them it is what the mode or else the preset says |
| `Policy.CutOffIff` | crates/kod-config/src/policy.rs:586-678 | what cuts a call off, as one condition: the network switch, a forbidden path or none of the allowed ones, a forbidden binary or one that is not allowed |
| `Policy.DecideByPreset` | crates/kod-config/src/policy.rs:735-769 | without an entry and without a session deny that matches: allowed exactly under yolo or for the twelve reading tools, by name; asked exactly under standard for any other; denied exactly under read-only for any other |
| `Policy.DecideByEntry` | crates/kod-config/src/policy.rs:586-687 | with an entry whose restrictions do not bite: its mode, and without a mode that same table |
| `Policy.RuleMeans` | crates/kod-config/src/policy.rs:552-687 | the reported rule and source are those of the cause that decided |
| `Policy.PathArgIs` | crates/kod-config/src/policy.rs:772-797 | the path of a call is the first of the ten keys, in their order, that holds a string |
| `Policy.TighterEntryNarrows` | crates/kod-config/src/policy.rs:586-678 | adding to a deny list, taking from an allow list, switching the network off or raising the mode of a tool never softens an answer |
| `Policy.WithProject` | crates/kod-config/src/policy.rs:552-687 | what `decide` answers under a project layer: deny for a session deny, otherwise a hard deny or the accepted mode, falling back to the preset |
| `Policy.NarrowsIff` | crates/kod-config/src/policy.rs:398-482 | for every configuration, tool, argument, directory and set of session denies, the project layer only makes answers stricter if and only if there is no command-line preset or no accepted project mode is below what that preset decides |
| `Policy.PermissiveCliNarrows` | crates/kod-config/src/policy.rs:475-479 | a command-line preset no stricter than the layered one never breaks the narrowing |
| `Policy.StrictCliUndercut` | crates/kod-config/src/policy.rs:475-479 | a stricter one can be undercut: under a read-only preset a project mode turns a denied write into a question |
| `Policy.MoreDeniesNarrow` | crates/kod-config/src/policy.rs:559-584 | one more session deny never makes any answer less strict |
| `Policy.ReadDenyGrows` | crates/kod-config/src/policy.rs:464-472 | read protection only grows, while the history flag is the project's alone |
| `Policy.HistoryNarrowsIff` | crates/kod-config/src/policy.rs:464 | the project layer keeps history protection if and only if the project protects history itself or there was no protection to keep |
| `Policy.PresetOrder` | crates/kod-config/src/policy.rs:735-769 | a stricter preset decides every tool at least as strictly |

## Left out

- `Fences.FindFences`: positions count characters where the code counts bytes; `Shake` converts them to byte offsets.
- `Regions.FindXmlBlocks`: positions count characters, as above.
- `Shake.PlanShake`: the wording of placeholders is a parameter, any function of the kind and the size; whether two path strings name the same path is a parameter; sums are not bounded by 64 bits.
- `Splicing.ApplyShake`: bodies are byte sequences; the count of edits carried out is not returned, nor is it by `Prune.ApplyPrune`.
- `Prune.PlanPrune`: whether two path strings name the same path is a parameter, where the code compares paths by components; sums are not bounded by 64 bits.
- `Raster.RasterizeToPng`: the font is any table of 95 glyphs, not the one in the source.
- `ParseCache.Cache.Probe`: ticks do not overflow, and a poisoned lock does not occur.
- `ParseCache.Cache.Parse`: the parser is a function, and whether a parse passes its deadline is a parameter.
- `Json.ParseCanon`: numbers are their rendered text, of the characters a number may have; the reader does not accept surrogate pairs, which the writer never produces.
- `Digest.Of`: the mixing step is any function. That 64 bits of FNV-1a may collide is not modelled; `DeltaSync.ReceiverInStep` assumes a digest that tells wire contents apart.
- `PageRank.FixedIsUnique`: that a fixed ranking exists is not stated.
- `PageRank.ComputePagerank`: real numbers, so no rounding of 32-bit floats. The bounds hold for at most 65535 files and 65535 imports of one file, as the code clamps both counts.
- `Imports.ExpandImports`: the file system is a map from canonical paths to texts with an arbitrary resolution of references; it does not change during an expansion.
- `ResolvePath.Resolve`: POSIX paths only; Windows prefixes are not modelled. The theorems are for absolute working directories.
- `Policy.Load`: reading and parsing the files is left out, the parsed layers are parameters; warnings are not modelled.
- `Policy.WithProject`: the glob matcher and the splitting of a command line into binaries are arbitrary functions; the text of a rule is reduced to its kind.
- The cache of loaded instruction chains with its expiry time, and the rendering and shadowing of sections.
- Collecting symbols and resolving import tokens for the repository map: both rest on tree-sitter and the file system.
- The estimates `estimated_savings_tokens` of both plans: sums that nothing else depends on.
- Worktrees, providers, configuration defaults, the terminal interface: calls to the outside, or easy members.
