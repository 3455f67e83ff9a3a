# Verification of wisebot's algorithms and protocols

wisebot (SoftBot) is a search server in C. This project models, in Dafny, the parts of it that
compute or keep something: the two sorts, the ordering of hooks, the HTTP body pipeline in both
directions, MD5 streaming, the registry files and their memory layout, the configuration tree, the
two string searches, the shared record file, the document buffer, file transfer over a connection,
and integer formatting. Each module stands for one source file (or one group of functions) and keeps
its form: loops over arrays stay loops over arrays, objects whose fields are updated are classes.

`dafny verify dfyconfig.toml` checks everything.

How the models relate to the C code:

- Sorting (`ordering`, `insertion`, `msort`, `qsort`): positions are element indices, the comparator is
  any total preorder. Stability is stated by comparison classes: for every value, the elements that
  compare equal to it appear in the same order before and after. Together with sortedness this
  determines the result (`Ordering.StableSortUnique`), so any other outcome is excluded. The links that
  `msort.c` writes into the unused list are index arrays beside the lists.
- Hooks (`hook`): the constraint graph is defined from the names alone; what `prepare` records and what
  `tsort` does is related to it. The branch that reports a loop is taken exactly on cyclic graphs.
- HTTP (`chunk_size`, `chunk_filter`, `http_filter`, `byterange`, `content_length`, `output_loops`): a
  brigade is a sequence of buckets; the network below is a stream that gives and takes pieces of any
  size. `ChunkFilter.WellFramed` is the test on a brigade that tells exactly whether all of it goes
  out as well-formed chunks; for each single pass the test is that of `ChunkFilter.FramedIff`.
- MD5 (`md5`): UINT4 is a 32-bit word; the compression function is a parameter, so the streaming result
  holds for the real one. The loop guard `i + 63 < inputLen` is modelled with its 32-bit wrap-around;
  `MD5.GuardIff` says for which lengths it is right, and `Update` reports exactly for the others that
  it would read behind its input.
- Registry (`registry`, `registry_layout`), configuration (`config_tree`): files are strings read line
  by line; tree nodes are objects with `first_child`, `next` and `parent`, tied to a ghost tree.
- Searches (`strcasestr`, `http_buffering`), stores and framing (`frm`, `docapi`, `tcp_file`, `mprintf`).

A step that C leaves undefined (a store behind an array, a null tail, realloc of memory that malloc
did not return) is an outcome of its own beside success and failure: `Wrappers.Undefined`, or
`Overrun` where a call of the HTTP input filter comes out that way.

Where code and intention part, each with a failing input and the exact condition:

- `tsort` writes through a null tail if there are no hooks at all (common/hook.c:153):
  `HookOrder.SortHook` has an undefined outcome exactly then.
- A field name longer than 19 characters is stored truncated but compared in full, so a field added
  under such a name is not found under it: `DocApi.LongNameIsLost`; `DocApi.LookupIff` is the exact
  condition.
- A document taken from the spool has a buffer that malloc did not return, exactly as large as its
  contents. Adding to it hands that buffer to realloc: `DocApi.AddToReloaded`. It takes a field exactly
  if a slot is free and the field is empty (`DocApi.Document.AddField`). For a buffer of its own,
  `DocApi.GrowthIff` says when doubling makes it large enough.
- The guard in `allocate` lets one block more through than the array of blocks holds
  (modules/mod_frm/mod_frm.c:216): `RecordFile.OneBlockTooMany` is the first key it happens for in
  every layout, `RecordFile.AddTooFar` shows it, and `RecordFile.Handle.Add` goes right exactly for
  keys in the first MAX_BLOCK_NUM blocks.
- `emulate_sendfile` counts the bytes to go in 32 bits (modules/mod_httpd/filter.c:395, 426), so of
  2^32 bytes none is sent, and success reported: `OutputLoops.NothingOfFourGigabytes`. The whole slice
  is sent exactly if it is shorter than 2^32 (`OutputLoops.SliceIff`, `OutputLoops.EmulateSendfile`).
- Data behind the last FLUSH of a pass is not framed (modules/mod_httpd/http_core.c:107-122):
  `ChunkFilter.DataAfterFlush`; `ChunkFilter.FramedIff` for a pass and `ChunkFilter.Filter` for a whole
  brigade are the exact conditions.
- The guard of the MD5 block loop wraps: `MD5.GuardWrapsAt`; `MD5.GuardIff` is the exact condition.
- A registry file keeps names and sizes only, and an empty registry leaves the reader waiting for
  data. Of two registries with one name and different data the first is not restored
  (`Registry.SameNameIsLost`), nor is one the table knows in another size (`Registry.OtherSizeIsLost`),
  nor one that comes behind an empty one (`Registry.BehindEmptyIsLost`). `Registry.AllBackIff` says
  exactly when all are back, `Registry.NothingLostIff` when none is lost. The data lines of a lost one
  may be taken for headers (`Registry.TakenForHeader`); `Registry.Quiet` is the test that none is.
- A chunk size line is copied to thirty bytes without a NUL: `HttpInput.OverlongSize`; it is read on
  behind them exactly if `ChunkSize.RunsOn` holds of what was copied (`HttpInput.HttpFilter.Read`).
- A file is received into a buffer of 1025 bytes, whatever a frame announces:
  `FileTransfer.FrameTooLong`; `FileTransfer.TCPRecvFile` says exactly when the buffer is overrun.
- A block of negative length is framed and sent; `FileTransfer.FitsIff` says which lengths fit the
  size field, `FileTransfer.TooFarBelow` is one that does not.
- A precision of more than 256 overruns the digits' buffer: `Mprintf.PrecisionTooLarge`;
  `Mprintf.BodyFitsIff` is the exact condition.
- An unsigned int is fetched as an int: `Mprintf.UnsignedTooLarge`; it is printed right exactly if it
  is below 2^31 (`Mprintf.UnsignedIff`, `Mprintf.FormatUnsigned`).
- `curl_msnprintf` puts its final NUL behind a buffer that the output fills: `Mprintf.NulBehindBuffer`;
  `Mprintf.PrintToBuffer` says exactly when.

## Model

| member | source | states |
|---|---|---|
| MergeSort.Mergesort | common/msort.c:101-236 | for every array and total preorder: refuses elements too small for a pointer and failed allocation leaving the array as it was; otherwise the array ends up as the one sorted, stable permutation of its old contents, in whichever of the two lists the last pass left it |
| MergeSort.MergePass | common/msort.c:136-224 | one pass merges neighbouring runs in pairs: the runs of the other list are sorted, linked from 0 to n, half as many (rounded up), and stably hold the same elements |
| MergeSort.MergeRuns | common/msort.c:145-222 | merging two sorted runs writes exactly their stretch of the other list, sorted, with equal elements of the first run before those of the second, and nothing outside it |
| MergeSort.FindSplit | common/msort.c:157-194 | whatever the state of `big`, the galloping search returns the split a linear scan would: all elements before it pass the test, none from it on does |
| MergeSort.Gallop | common/msort.c:163-192 | steps of doubling length followed by halving find the boundary of a downward-closed test |
| MergeSort.MergeFirst | common/msort.c:145-210 | if the head of the first run is not above that of the second: what the search passes over and then the second head go out, the invariant of the merge (sorted output below both rests, stable) is kept |
| MergeSort.MergeSecond | common/msort.c:145-210 | the same for the other sense, with strict comparison, which is what makes the merge stable |
| MergeSort.TakeFirst | common/msort.c:146-149 | an element of the second run may overtake only elements strictly above it, so order among equals is kept |
| MergeSort.TakeSecond | common/msort.c:150-154 | a block of the second run may overtake the first run only if strictly below it |
| MergeSort.Setup | common/msort.c:264-331 | the first pass leaves list1 as a chain of contiguous sorted runs that covers it from 0 to n, and is stable |
| MergeSort.SetupRuns | common/msort.c:288-323 | the same for more than five elements, the last four or five being sorted beforehand |
| MergeSort.SameSense | common/msort.c:292-298 | the stretch found is the longest of pairs that all compare with the given sense |
| MergeSort.PairRuns | common/msort.c:299-304 | the pairs become runs of two, linked one behind the other, each turned round exactly when it descends |
| MergeSort.PairRun | common/msort.c:301-303 | one pair becomes a run, its elements exchanged exactly when they descend, nothing else moved |
| MergeSort.NaturalRuns | common/msort.c:305-317 | stretches whose neighbours all compare with one sense become sorted runs, stably; the last one, which had that sense throughout, is sorted too and left to be linked |
| MergeSort.NaturalMerge | common/msort.c:305-322 | the last natural run takes in the sorted tail exactly when it reaches it and the meeting elements are in order |
| MergeSort.Reverse | common/msort.c:246-255 | reversing exchanges from both ends and leaves the rest of the array alone |
| MergeSort.ReverseIsStable | common/msort.c:246-255 | turning round a strictly descending stretch does not disturb the order among equal elements |
| Insertion.InsertionSort | common/msort.c:337-353 | insertion sort of a stretch of an array is a sorted, stable rearrangement of it and touches nothing else |
| Ordering.StableSortUnique | common/msort.c:97-101 | two sorted sequences that are stable rearrangements of the same one are equal |
| Ordering.StableIsPermutation | common/msort.c:97-101 | a stable rearrangement is a permutation |
| QuickSort.Qsort | common/qsort2.c:103-183 | terminates for every total preorder with the range sorted, a permutation of what it held, everything outside it untouched; with and without the n < 100 guard (common/qsort.c:102-181 is the latter) |
| QuickSort.Split3 | common/qsort2.c:121-173 | after partitioning, unless it escapes to insertion sort, the range is three stretches below, equal to and above one value, the two outer ones smaller than the range |
| QuickSort.Partition | common/qsort2.c:134-160 | the five regions equal, below, unknown, above, equal are kept until the unknown one is gone |
| QuickSort.ScanUp | common/qsort2.c:138-145 | passing over elements not above the pivot keeps the regions, equal ones joining the left end |
| QuickSort.ScanDown | common/qsort2.c:146-153 | the same from the right end |
| QuickSort.Gather | common/qsort2.c:169-173 | the two block exchanges bring the equal elements from both ends to the middle |
| QuickSort.VecSwap | common/qsort2.c:70-89 | exchanging two disjoint blocks element by element is the simultaneous exchange |
| QuickSort.Med3IsMedian | common/qsort2.c:91-100 | the position chosen among three holds an element between the other two |
| QuickSort.PlacedMore | common/qsort2.c:174-181 | once the lower part is sorted, everything up to the upper part is in its final place |
| QuickSort.FinishByInsertion | common/qsort2.c:161-167 | the escape to insertion sort is correct wherever it is taken |
| HookOrder.SortHook | common/hook.c:157-184 | undefined exactly for no hooks, fails exactly when the constraint graph of the hooks has a cycle; otherwise the result is a permutation of the hooks in which every predecessor and successor named by a hook stands before or after it, and which is the greedy order of the nOrder-sorted array; the table it starts from goes up by nOrder, and hooks that name nobody come out in exactly that order |
| HookOrder.Prepare | common/hook.c:72-120 | the table goes up by nOrder afterwards, and the predecessor lists hold exactly the edges that the names demand, each once, first match by name |
| HookOrder.TSort | common/hook.c:122-155 | the null tail is used exactly for no nodes, the failure branch is reached exactly if the graph has a cycle; otherwise the linked list holds all nodes, each the least one ready after those before it |
| HookOrder.FindReady | common/hook.c:129-139 | finds the least unlisted node without unlisted predecessors, or tells that there is none |
| HookOrder.Release | common/hook.c:146-151 | the counts after linking a node are again the numbers of unlisted predecessors |
| HookOrder.StuckHasCycle | common/hook.c:131-136 | if no unlisted node is ready, a walk back through predecessors must close: there is a cycle (pigeonhole on the nodes) |
| HookOrder.CompleteIsAcyclic | common/hook.c:128-154 | if all nodes could be listed there is no cycle |
| HookOrder.DistinctBounded | common/hook.c:128-136 | distinct numbers below n are at most n, and n of them are all of them |
| HookOrder.ConstraintsHonoured | common/hook.c:157-184 | in a greedy listing every edge of the graph goes forward |
| HookOrder.NamesHonoured | common/hook.c:85-117 | in terms of the names: a hook stands behind the one its predecessor list names and before the one its successor list names |
| HookOrder.FreeOrder | common/hook.c:124-155 | hooks that name nobody are listed in the order of the table |
| HookOrder.ListedIsPermutation | common/hook.c:171-178 | copying each node once is a permutation |
| HookOrder.CopyLinked | common/hook.c:171-178 | following the links copies the hooks in the order of the list |
| HookOrder.HookArray.GetLastArrayPtr | common/hook.c:232-241 | a new last entry while there is room, otherwise the present last one again |
| ChunkSize.GetChunkSize | modules/mod_httpd/http_filter.c:424-457 | the value of the leading hex digits when below 2^63 and negative otherwise, in spite of 64-bit shifts (section 3.6.1 of RFC 2616); it reads on behind the characters given exactly if all are digits, at most sixteen of them significant |
| ChunkSize.DigitValues | modules/mod_httpd/http_filter.c:433-446 | the digits read are exactly 0-9, A-F and a-f, and each stands for its place in the row of its case |
| ChunkSize.ValueOfDigit | modules/mod_httpd/http_filter.c:437-445 | the value of each of the sixteen digits, in upper and in lower case |
| ChunkSize.EitherCaseRoundTrip | modules/mod_httpd/http_filter.c:424-457 | a size up to the largest long is read the same whatever the case of its digits, one by one |
| ChunkSize.RunsOnIff | modules/mod_httpd/http_filter.c:429-451 | the reader finds nothing to stop at if and only if all the characters are digits and at most sixteen come behind the leading zeros |
| ChunkSize.ShiftOne | modules/mod_httpd/http_filter.c:447-448 | shifting in a digit keeps the signed 64-bit image of the value as long as sixteen digits are not exceeded |
| ChunkSize.TooLong | modules/mod_httpd/http_filter.c:451-454 | more than sixteen digits without leading zeros exceed 64 bits |
| ChunkSize.LargestLong | modules/mod_httpd/http_filter.c:447-456 | the largest size that is read is 7fffffffffffffff, and 8000000000000000 is refused |
| ChunkSize.SizeRoundTrip | modules/mod_httpd/http_core.c:102-104 | the size the encoder prints is the size the decoder reads, up to the largest positive long |
| ChunkSize.HexIsShort | modules/mod_httpd/http_core.c:41-104 | sixteen hex digits suffice, so the header buffer of twenty characters does |
| ChunkSize.HexIsLower | modules/mod_httpd/http_core.c:102-104 | sizes are printed in lower case digits |
| ChunkFilter.Filter | modules/mod_httpd/http_core.c:25-151 | encoding a brigade loses and reorders nothing; it goes out as well-formed chunks, with the last chunk exactly if it ends the stream, if and only if every one of its passes meets the condition of FramedIff, and is equally long in any case; EOS is in the last brigade passed down only |
| ChunkFilter.SendOne | modules/mod_httpd/http_core.c:34-150 | each pass sends one chunk, well formed exactly under its condition, and leaves the rest of the brigade for the next, which reads strictly less |
| ChunkFilter.Scan | modules/mod_httpd/http_core.c:43-85 | the scan counts exactly the bytes of what is sent now, finds the EOS or the last FLUSH, and splits behind a read that brought data |
| ChunkFilter.Frame | modules/mod_httpd/http_core.c:93-143 | the bytes sent are header, data and CRLF placed before the EOS, else the last FLUSH, else the end, and the last chunk before the EOS |
| ChunkFilter.FramedIff | modules/mod_httpd/http_core.c:107-122 | a pass comes out as one well-formed chunk if and only if it ends the stream, or has no FLUSH, or what follows its last FLUSH is a repetition of CRLF |
| ChunkFilter.DataAfterFlush | modules/mod_httpd/http_core.c:113-122 | a concrete pass with data behind a FLUSH that does not come out as a chunk |
| ChunkFilter.CommutesWithCrlf | modules/mod_httpd/http_core.c:107-122 | a string commutes with CRLF exactly if it is a repetition of CRLF |
| HttpInput.Transfer | modules/mod_httpd/http_core.c:25-151 | encoding any series of well framed brigades up to EOS and reading the result back with any read sizes delivers exactly the original body, then the end, and leaves what follows in the stream untouched |
| HttpInput.RoundTrip | modules/mod_httpd/http_filter.c:258-370 | every sequence of chunks decodes to its data whatever follows |
| HttpInput.AnySenderRead | modules/mod_httpd/http_filter.c:258-370 | chunks of any sender, their sizes in digits of any case with any extension behind them, decode to their data; the trailer is skipped up to its empty line and what follows is left (section 3.6.1 of RFC 2616) |
| HttpInput.TrailerSkipped | modules/mod_httpd/http_filter.c:291-293 | header lines behind the last chunk are read and dropped up to and including the empty one |
| HttpInput.DeliverAny | modules/mod_httpd/http_filter.c:121-422 | read through the filter, such a stream hands out exactly its data and leaves what follows it |
| HttpInput.HttpFilter.Read | modules/mod_httpd/http_filter.c:121-422 | every successful call hands out the next bytes of the body, at most as many as asked for, whatever the limit; the end is reported exactly when nothing is left; the call fails for the size exactly when the length announced, or what has been read, exceeds the limit; it overruns the line buffer exactly at a size line without an end in it |
| HttpInput.HttpFilter.Start | modules/mod_httpd/http_filter.c:135-300 | the first call prepares for exactly the body that the headers delimit |
| HttpInput.HttpFilter.Continue | modules/mod_httpd/http_filter.c:308-370 | between two chunks the pending body is unchanged |
| HttpInput.HttpFilter.ReadSize | modules/mod_httpd/http_filter.c:274-298 | a size line is followed by data, or by the end of the body, or is an error, as the stream says; it is read behind its end exactly if the thirty bytes copied, or all there are, do not delimit it; at the end of the stream the read fails |
| HttpInput.OverlongSize | modules/mod_httpd/http_filter.c:258-274 | a size line of forty zeros is read behind the end of its buffer |
| HttpInput.OverlongZeros | modules/mod_httpd/http_filter.c:258-274 | a line of zeros is read behind the end of its buffer exactly from thirty zeros on |
| HttpInput.HttpFilter.Take | modules/mod_httpd/http_filter.c:372-419 | what is read moves from the pending body to the caller, whatever the limit; the call fails exactly when more has been read than the limit allows |
| HttpInput.ReadAll | modules/mod_httpd/http_filter.c:121-422 | calling the filter with any sizes until it reports the end collects exactly the body, and fails exactly when the body exceeds the limit |
| HttpInput.EncodeAll | modules/mod_httpd/http_core.c:25-151 | a series of well framed brigades up to EOS becomes a stream that decodes to exactly its body, whatever follows it |
| ByteRange.ParseByteRange | modules/mod_httpd/http_filter.c:870-909 | a satisfiable range lies within the body, and the list ends only at a word without a dash |
| ByteRange.FirstToLast | modules/mod_httpd/http_filter.c:884-904 | a-b asks for bytes a to b as far as there are any, and is unsatisfiable if there are none (section 14.35.1 of RFC 2616) |
| ByteRange.FromFirst | modules/mod_httpd/http_filter.c:884-904 | a- asks for all bytes from a on |
| ByteRange.LastBytes | modules/mod_httpd/http_filter.c:879-883 | -n asks for the last n bytes, or for all if there are fewer |
| ByteRange.SingleRange | modules/mod_httpd/http_filter.c:1012-1014 | a header without a comma has at most one satisfiable range |
| ByteRange.ListOfRanges | modules/mod_httpd/http_filter.c:1012-1018 | of a list of words with one or more commas between them exactly the satisfiable ranges are answered, in their order, up to the end or a word without a dash |
| ByteRange.FirstWord | modules/mod_httpd/http_filter.c:1012 | the first word ends at the first comma, and all commas behind it are skipped |
| ByteRange.Partition | modules/mod_httpd/http_filter.c:1025-1034 | a brigade cut at a position has the same text, the position falls between two buckets, and earlier cuts stay where they were |
| ByteRange.Filter.SendRange | modules/mod_httpd/http_filter.c:1022-1068 | the bytes copied for a range are exactly body[start..end], whatever the buckets and the cuts made for earlier ranges |
| ByteRange.Filter.SendRanges | modules/mod_httpd/http_filter.c:1012-1069 | ranges are sent in request order, each once, each with its part header in a multipart answer; which they are is told by ListOfRanges |
| ByteRange.Filter.Call | modules/mod_httpd/http_filter.c:942-1112 | nothing is sent before the end of the stream; then the answer is a function of the range header and the whole body |
| ByteRange.ListAnswered | modules/mod_httpd/http_filter.c:1012-1112 | the answer to a list of ranges: not satisfiable if none of its words is, else the parts of those that are, between boundaries if the header has a comma, alone with its Content-Range if not |
| ByteRange.TwoParts | modules/mod_httpd/http_filter.c:957-1106 | a-b,c-d within the body is answered by bytes a to b and then c to d, each behind the boundary, the content type and its own range, then the last boundary |
| ByteRange.RangeTextReads | modules/mod_httpd/http_filter.c:1041-1055 | the range of a part is its first byte, its last byte and the length of the body, in this order |
| ByteRange.Filter.constructor | modules/mod_httpd/http_filter.c:957-989 | the header of a part is the boundary and the content type, each on a line of its own, and the start of the range line |
| ByteRange.Serve | modules/mod_httpd/http_filter.c:992-1004 | how the body is cut into brigades and buckets does not matter |
| ContentLength.Filter.Call | modules/mod_httpd/http_filter.c:1206-1340 | passed and saved buckets are together all that came in, in order; bytes_sent is their length; Content-Length is set only if nothing was passed down before, and is then exact; no FLUSH, and no more than 8000 bytes once the length is given up, are held back from a client that takes parts, and little that comes without a FLUSH is kept |
| ContentLength.Filter.Scan | modules/mod_httpd/http_filter.c:1244-1297 | the scan stops at a place to split only for a client that takes partial data, at a FLUSH or when enough has accumulated |
| ContentLength.Filter.SplitAt | modules/mod_httpd/http_filter.c:1247-1269 | a split is made behind a FLUSH, or before a bucket when more than 32000 bytes have come, and nowhere else; the rest cannot all be held back then |
| ContentLength.Filter.Finish | modules/mod_httpd/http_filter.c:1320-1339 | what is left is kept or sent, and at the end the length is announced |
| ContentLength.BufferableMore | modules/mod_httpd/http_filter.c:1254-1270 | one bucket more can be held back exactly if it is no FLUSH and not too much came before it |
| ContentLength.TextLength | modules/mod_httpd/http_filter.c:1270-1297 | what is counted is the number of bytes the buckets hold |
| ContentLength.Respond | modules/mod_httpd/http_filter.c:1206-1340 | over a whole response: everything goes out, and the number of its bytes is announced if and only if the client needs it or all of it can be held back |
| OutputLoops.WritevItAll | modules/mod_httpd/filter.c:253-295 | under every schedule of short writes a prefix of the vectors' bytes is sent, and all of it exactly once on success |
| OutputLoops.Skip | modules/mod_httpd/filter.c:274-289 | after a short write the vectors hold exactly what is still to be sent |
| OutputLoops.SendfileItAll | modules/mod_httpd/filter.c:304-381 | what has been sent is always a prefix of headers, file slice and trailers; all of it on success |
| OutputLoops.Advance | modules/mod_httpd/filter.c:332-379 | after a partial write across any of the boundaries, what is left to be sent is exactly the rest |
| OutputLoops.EmulateSendfile | modules/mod_httpd/filter.c:390-459 | by reading and writing: what has been sent is always a prefix of headers, the first length modulo 2^32 bytes of the slice as far as the file has them, and trailers, all of it on success, when the file has them all; so on success the whole slice is sent exactly if it is shorter than 2^32 |
| OutputLoops.SendSlice | modules/mod_httpd/filter.c:425-441 | of the slice length modulo 2^32 bytes are sent, once and in order, in buffers of 8192 bytes, or the beginning of them; success means all, so not for a file that ends before |
| OutputLoops.SliceIff | modules/mod_httpd/filter.c:426 | what a count of 32 bits lets through is the whole slice if and only if its length is below 2^32 |
| OutputLoops.NothingOfFourGigabytes | modules/mod_httpd/filter.c:426-427 | of a slice of 2^32 bytes nothing is sent |
| MD5.Context.Update | common/md5c.c:117-154 | after digesting a message part by part the context is that of the concatenation: 64-bit count, state folded over the whole blocks, bytes carried over; it reads behind its input exactly when the loop guard wraps |
| MD5.Context.Blocks | common/md5c.c:137-146 | the carried bytes are completed to a block, then as many whole blocks are compressed as there are |
| MD5.Context.AddBits | common/md5c.c:127-131 | the two counter words with their carry are 8 times the bytes seen modulo 2^64 |
| MD5.Context.Final | common/md5c.c:158-184 | the digest is that of the padded message, and the context is cleared (sections 3.1, 3.2 and 3.4 of RFC 1321) |
| MD5.Context.constructor | common/md5c.c:101-111 | a fresh context holds the sixteen bytes 01 23 45 67 89 ab cd ef fe dc ba 98 76 54 32 10 and a count of zero (section 3.3 of RFC 1321) |
| MD5.IdleDigest | common/md5c.c:101-184 | with a compression that returns its state every message has these sixteen bytes, in this order, for its digest |
| MD5.BytesOf | common/md5c.c:281-294 | the bytes of a word are written from its low end on |
| MD5.DigestPieces | common/md5c.c:101-184 | however a message is cut into pieces, the digest of the pieces is the digest of the message, unless the loop guard wraps for one of them, which is reported exactly |
| MD5.Padded | common/md5c.c:163-175 | message, padding and length end on a 64-byte boundary |
| MD5.GuardSound | common/md5c.c:142 | unless i + 63 wraps, the guard says whether a whole block is left |
| MD5.GuardUnsound | common/md5c.c:142 | when it wraps, the loop would go on with less than a block left |
| MD5.GuardIff | common/md5c.c:142 | the guard is right at every place the loop reaches if and only if its sum does not wrap |
| MD5.GuardWrapsAt | common/md5c.c:142 | it wraps for the longest input behind one byte |
| MD5.CountIndex | common/md5c.c:125 | the place in the buffer can be had from the low counter word alone |
| MD5.CountCarry | common/md5c.c:128-131 | the carry computed by comparison after wrapping addition is the right one: the two words hold the bit count modulo 2^64 |
| MD5.CountBytes | common/md5c.c:281-294 | encoding the two counter words gives the 64-bit length, low byte first |
| MD5.WordRoundTrip | common/md5c.c:281-309 | Decode undoes Encode |
| Registry.SaveAndRestore | common/registry.c:288-506 | restoring a saved file gives every persistent registry back its bytes, for every size, exactly if those of one name hold the same bytes and those that do not reach the table were in it already; all others are left as they are |
| Registry.SaveAndRestoreKnown | common/registry.c:288-506 | for registries of any names that the table knows, the empty ones last, all are back exactly if those of one name hold the same bytes |
| Registry.RestoreSaved | common/registry.c:428-506 | reading all that was saved puts in the data of each registry that has some, is known in its size and does not come behind an empty one, however often its lines were wrapped |
| Registry.ReadDataText | common/registry.c:484-504 | the wrapped data lines of one registry are read back completely and to the byte |
| Registry.DataLineFits | common/registry.c:323-329 | no data line exceeds the reader's buffer |
| Registry.ReadHeaderLine | common/registry.c:444-476 | a saved header makes the reader ready for the data of that registry |
| Registry.ShortIsStorable | common/registry.c:307-318 | names of up to 53 characters in all without blanks, and sizes below 100000, give a header the reader can take |
| Registry.HexRoundTrip | common/registry.c:531-575 | hex2bin undoes bin2hex |
| Registry.HexInEitherCase | common/registry.c:552-576 | hex2bin reads digits of either case |
| Registry.HexDigits | common/registry.c:526-576 | the sixteen digits as they are written and read |
| Registry.SavedExample | common/registry.c:303-342 | five bytes of a registry as the file shows them |
| Registry.WordsOfLine | common/registry.c:440-462 | the words of a line are the same with any blanks and tabs between them |
| Registry.FgetsLong | common/registry.c:430 | a line too long for the buffer is read in pieces of 63 characters |
| Registry.SaveData | common/registry.c:319-339 | the printer with its running length wraps the line exactly before every seventh word |
| Registry.Save | common/registry.c:298-341 | only persistent registries are written, each with header and data |
| Registry.RegistryTable.ReadDataLine | common/registry.c:484-504 | the words of a line go to the registry from the present position on, as far as they fit |
| Registry.RegistryTable.Restore | common/registry.c:432-506 | the resumable reader processes a file line by line |
| Registry.PutAllGives | common/registry.c:428-506 | registries of one name that agree do not undo one another |
| Registry.AllBackIff | common/registry.c:428-506 | all saved registries are back if and only if those of one name hold the same bytes, and those none of whose name reaches the table are what it held before |
| Registry.SameNameIsLost | common/registry.c:451-464 | of two registries with one name and size and different data only the second is restored |
| Registry.OtherSizeIsLost | common/registry.c:464-472 | a registry the table knows in another size is not back, whatever else was saved |
| Registry.RefusedIsLost | common/registry.c:451-472 | a saved registry whose header is refused changes nothing |
| Registry.TakenForHeader | common/registry.c:444-476 | a data line of a lost registry that is taken for the header of another |
| Registry.QuietIf | common/registry.c:432-476 | no data line is taken for a header when no registry is lost, or none has a name that could stand in a data line |
| Registry.LikeDataChars | common/registry.c:484-504 | a name that could stand in a data line is made of upper case hex digits, backslashes and line ends |
| Registry.NothingLostIff | common/registry.c:432-442 | no registry is lost if and only if the table knows all that have data, and none comes behind an empty one it knows |
| Registry.EmptyHidesNext | common/registry.c:432-504 | an empty registry leaves the reader waiting for data, and the next registry with data, however long, is lost |
| Registry.BehindEmptyIsLost | common/registry.c:432-504 | a registry behind an empty one is back only if the table held its bytes before |
| Registry.ReadNext | common/registry.c:428-506 | a registry is put in exactly if it has data, is known and none is awaited, and the reader is ready again exactly unless an empty one awaits data |
| Registry.CommentsSkipped | common/registry.c:435-436 | comment lines do not matter |
| RegistryLayout.LoadEachRegistry | common/registry.c:77-125 | every registry is placed behind those before it, in the size that was counted |
| RegistryLayout.CountTotalRegistrySize | common/registry.c:49-75 | the size counted is what the layout takes, padding included |
| RegistryLayout.LayoutIsSound | common/registry.c:77-125 | registries start on multiples of eight, lie within the counted size and do not overlap |
| ConfigTree.Config.Build | modules/mod_httpd/http_config.c:611-658 | succeeds exactly on properly nested and closed sections, names compared without case; the tree then reads, in pre-order with closers put back, as what it held before followed by the lines |
| ConfigTree.Config.BuildSub | modules/mod_httpd/http_config.c:441-573 | each line is accepted exactly if it fits the sections open at that point |
| ConfigTree.Config.EndSection | modules/mod_httpd/http_config.c:536-566 | an end is accepted exactly if it closes the innermost open section, and leads back to its parent |
| ConfigTree.ClosesIff | modules/mod_httpd/http_config.c:553-558 | </a> closes <b if and only if the names have one length and differ at no place but in the case of an ASCII letter |
| ConfigTree.SectionNested | modules/mod_httpd/http_config.c:536-570 | well nested lines between <b> and </a> are well nested when the names agree but for case, and read as a section of that name |
| ConfigTree.SectionLine | modules/mod_httpd/http_config.c:474-487 | <name> and <name with arguments start a section of that name, the closing > not being kept |
| ConfigTree.EndLine | modules/mod_httpd/http_config.c:536-566 | </name> is the end of a section, not the start of one |
| ConfigTree.BareEnd | modules/mod_httpd/http_config.c:536-551 | </ alone is an error whatever sections are open |
| ConfigTree.PlainLine | modules/mod_httpd/http_config.c:568-570 | a line that does not start with < is a directive |
| ConfigTree.BuildOtherCase | modules/mod_httpd/http_config.c:611-658 | the lines <Limit> and </limit> are accepted and give one section |
| ConfigTree.Config.AddDirective | modules/mod_httpd/http_config.c:568-570 | a new node becomes the last child of the innermost open section, all other links being kept |
| ConfigTree.Config.LastSibling | modules/mod_httpd/http_config.c:615-624 | following next from the head leads to the last top-level node |
| ConfigTree.AddDirectiveNode | modules/mod_httpd/util_cfgtree.c:9-34 | the node is linked behind its sibling or as first child, and its parent is set |
| ConfigTree.NestedIff | modules/mod_httpd/http_config.c:441-573 | the stack of open sections ends empty exactly on the lines of a document of the nesting grammar |
| ConfigTree.ValidTree | modules/mod_httpd/http_config.c:611-658 | in a valid tree all first_child, next and parent pointers agree with one tree, whose reading is the contents |
| ConfigTree.FinishSection | modules/mod_httpd/http_config.c:563-566 | finishing a section adds its closer to the reading and nothing else |
| CaseSearch.StrCaseStrH | common/hangul.c:24-109 | terminates with the position of the first occurrence up to ASCII case, and with null exactly when there is none |
| CaseSearch.ScanFirst | common/hangul.c:57-70 | the scan two at a time passes over no place where the needle could start |
| CaseSearch.CompareRest | common/hangul.c:79-97 | the comparison two at a time decides whether the rest matches, never reading behind a final NUL |
| CaseSearch.EitherCase | common/hangul.c:12-22 | equality of lower forms, and the test against both forms of a character, are equality but for the case of an ASCII letter, whose two forms are 32 apart |
| HttpBuffering.Client.ReceiveUntil | modules/mod_http_client/http_buffering.c:27-95 | for a pattern of 1 to 511 bytes: where its first occurrence ends, or -1 exactly when it is absent, in data with NULs and across windows; other lengths are refused |
| HttpBuffering.SearchWindow | modules/mod_http_client/http_buffering.c:73-88 | the search that resumes behind every NUL finds the first occurrence in a window |
| HttpBuffering.WindowSays | modules/mod_http_client/http_buffering.c:42-91 | windows that overlap by the pattern's length less one miss no occurrence |
| HttpBuffering.Client.GetUntil | modules/mod_http_client/http_buffering.c:100-134 | what is returned is the stream from the parsed position through the first occurrence; nothing is consumed otherwise |
| HttpBuffering.Client.GetNByte | modules/mod_http_client/http_buffering.c:170-262 | what is returned is the next bytes of the stream, as many as asked for or received |
| HttpBuffering.Client.FlushBuffer | modules/mod_http_client/mod_http_client.c:358-371 | only what has been parsed leaves the buffer, which stays the received stream from the flushed size on |
| RecordFile.RunAll | modules/mod_frm/mod_frm.c:234-322 | over any interleaving of adds and reads through any handles every read gets what was added last, whoever added it; the run goes through exactly if no record is added behind the first MAX_BLOCK_NUM blocks, and stops at the first such one |
| RecordFile.Handle.Add | modules/mod_frm/mod_frm.c:265-289 | the record of the key and no other is changed, missing blocks being allocated; this goes right exactly for a key in the first MAX_BLOCK_NUM blocks, if none has been added behind them before |
| RecordFile.Handle.Read | modules/mod_frm/mod_frm.c:291-322 | fails exactly when the key's block is not allocated; otherwise gives the record last added; `block` is overrun only if an add has done so before |
| RecordFile.Handle.GetSaveDataPosition | modules/mod_frm/mod_frm.c:234-251 | the address is that of the record in the file, in an allocated and mapped block, if the key's block is below MAX_BLOCK_NUM; if not, and only then, `block` is overrun |
| RecordFile.Handle.Allocate | modules/mod_frm/mod_frm.c:210-232 | a block more, and this handle knows all blocks afterwards; no byte changes; it fails exactly at a count of MAX_BLOCK_NUM, one step after `block` is overrun |
| RecordFile.Handle.ExtendFile | modules/mod_frm/mod_frm.c:161-181 | extending the file overwrites no allocated byte and makes it reach beyond the last allocated block |
| RecordFile.Handle.Open | modules/mod_frm/mod_frm.c:118-121 | a newly opened handle has all allocated blocks mapped, and they lie within the file, exactly if there are not too many for `block` |
| RecordFile.Handle.ExtendMmap | modules/mod_frm/mod_frm.c:183-208 | all blocks allocated meanwhile through other handles get mapped at their place in the file, exactly if there are not too many for `block` |
| RecordFile.WithinBlock | modules/mod_frm/mod_frm.c:238-239 | no record straddles two blocks when the record size divides the block size |
| RecordFile.Apart | modules/mod_frm/mod_frm.c:238-239 | records of different keys do not overlap |
| RecordFile.AddRecord | modules/mod_frm/mod_frm.c:265-289 | writing one record leaves all others, and all behind the end, as they are |
| RecordFile.OneBlockTooMany | modules/mod_frm/mod_frm.c:215-223 | in every layout there is a first key behind the blocks that `block` has a place for, although the guard lets it pass |
| RecordFile.AddTooFar | modules/mod_frm/mod_frm.c:210-289 | on a new file adding under that key overruns `block` |
| DocApi.Document.AddField | modules/mod_docapi/mod_docapi_cdmi.c:131-160 | on success the field is added behind the others, whose bytes stay as they are through any number of doublings; exactly when it succeeds: there is a slot, and the buffer is the document's own and can be grown enough, or the document comes from the spool and the field is empty |
| DocApi.Document.MakeRoom | modules/mod_docapi/mod_docapi_cdmi.c:140-145 | doubling terminates, keeps every field's bytes, and succeeds exactly if what is needed is there or can be had; it reallocates a buffer inside the spool exactly for a document from there that needs more |
| DocApi.Document.DoublingBuffer | modules/mod_docapi/mod_docapi_cdmi.c:71-82 | twice the size with the same contents, a failure when there is nothing to double or no memory, undefined exactly for a buffer that malloc did not return |
| DocApi.Document.GetField | modules/mod_docapi/mod_docapi_cdmi.c:162-180 | the bytes of the first field stored under the name |
| DocApi.LookupIff | modules/mod_docapi/mod_docapi_cdmi.c:162-180 | the first field agreeing in 19 characters is found if and only if the name asked for has at most 19, or there is no such field |
| DocApi.AgreeIff | modules/mod_docapi/mod_docapi_cdmi.c:147-150 | names are kept alike if they are the same or share their first 19 characters |
| DocApi.LongNameIsLost | modules/mod_docapi/mod_docapi_cdmi.c:147-173 | a concrete field that is not found under the name it was added with |
| DocApi.GrowthIff | modules/mod_docapi/mod_docapi_cdmi.c:71-82 | the test the add makes good on: a size can be made to hold what is needed if and only if some size doubling gets to is large enough and can be had |
| DocApi.GrownIsDoubled | modules/mod_docapi/mod_docapi_cdmi.c:140-145 | the size the loop stops at is the first large enough one among the doubled ones |
| DocApi.AddToReloaded | modules/mod_docapi/mod_docapi_cdmi.c:122-145 | adding one byte to a document with contents that was reloaded reallocates memory inside the spool |
| DocApi.FillAndReload | modules/mod_docapi/mod_docapi_cdmi.c:84-180 | a document filled, packed into the spool and reloaded answers every query as before |
| FileTransfer.Transfer | client/lb_tcp.c:324-385 | unless the connection breaks, a nonempty file arrives as it was sent; the receiver's buffer is never overrun by it |
| FileTransfer.TCPSendFile | client/lb_tcp.c:324-361 | whatever the sizes of the single sends, the beginning of the file's frames is sent, and all of them unless a send fails; an empty file is refused |
| FileTransfer.TCPRecvFile | client/lb_tcp.c:364-385 | the file at the front of the stream is written, nothing behind it is taken; fails only if receiving does or there is no file; as long as the connection holds, the buffer is overrun exactly by a frame it reaches with more data than 1025 bytes |
| FileTransfer.FrameTooLong | client/lb_tcp.c:366-376 | a frame of 1000 to 9999 bytes is taken exactly up to 1025 of them, and is too much for the buffer otherwise |
| FileTransfer.FrameCutOff | client/lb_tcp.c:376-396 | a frame that is cut off is no file, and too much as soon as more has come than the buffer holds |
| FileTransfer.ReceiveTooLong | client/lb_tcp.c:364-385 | receiving such a frame overruns the buffer unless the connection breaks before |
| FileTransfer.FrameShapes | client/lb_tcp.c:324-361 | all frames but the last are full C frames of 1024 bytes, the last is an E frame of 1 to 1024, together they are the file |
| FileTransfer.SmallFileOnWire | client/lb_tcp.c:344-358 | a file of one digit's length is the tag E, its length over what the field held before, and its bytes |
| FileTransfer.FullPieceOnWire | client/lb_tcp.c:342-351 | a longer file starts with the tag C, the size 1024 and its first 1024 bytes, and goes on as the rest would |
| FileTransfer.FileRoundTrip | client/lb_tcp.c:324-385 | the frames of a file read as that file, whatever stood in the size field and whatever follows |
| FileTransfer.Exchange | client/lb_tcp.c:294-321 | one block that is sent arrives as it is, unless it is too long, the connection breaks or the receiver's buffer is shorter |
| FileTransfer.TCPSendData | client/lb_tcp.c:294-308 | a block goes out as one frame, or is refused for its length with nothing sent; a negative length is framed, too, as long as it fits the size field |
| FileTransfer.FitsIff | client/lb_tcp.c:294-308 | a length that is not refused fits the size field if and only if it is above -100000 |
| FileTransfer.TooFarBelow | client/lb_tcp.c:294-302 | -100000 does not fit the size field, -99999 does |
| FileTransfer.TCPRecvData | client/lb_tcp.c:311-321 | exactly one frame is taken, and its length reported; overruns the caller's buffer only by a frame longer than that |
| FileTransfer.TCPSend | client/lb_tcp.c:175-233 | under short sends head and data go out completely or the connection has failed |
| FileTransfer.TCPRecv | client/lb_tcp.c:236-291 | under short receives exactly one head and as many bytes as it says are taken; the caller's buffer is overrun exactly when more is announced and comes than it holds |
| Mprintf.Number | common/mprintf.c:767-835 | unless the digits overrun the work buffer, which is told exactly, the width arithmetic and the digits filled in backwards give blanks, sign, prefix, zeros, digits and blanks as Field lays them out; with a precision the flag for zeros still counts, and zero gets its 0x, other than in ISO C |
| Mprintf.FieldWidth | common/mprintf.c:781-835 | the field has the width asked for, or what it needs if that is more |
| Mprintf.FieldReads | common/mprintf.c:767-835 | whatever flags, width and precision, atoi reads the number back from a decimal field |
| Mprintf.FieldExamples | common/mprintf.c:767-835 | 42 to the right, to the left and behind zeros in a field of five |
| Mprintf.SignExamples | common/mprintf.c:798-835 | the minus sign before zeros, and the blank in its place |
| Mprintf.PlusExample | common/mprintf.c:798-835 | the plus sign goes before the blank, and a precision puts zeros in |
| Mprintf.HexExamples | common/mprintf.c:767-835 | 43 in the alternate hexadecimal form, in lower and upper case |
| Mprintf.OctalExample | common/mprintf.c:781-793 | 43 in the alternate octal form |
| Mprintf.ZeroExamples | common/mprintf.c:781-793 | zero under precisions |
| Mprintf.FormatInt | common/mprintf.c:746-765 | atoi reads back the value itself, negative ones included; the work buffer is overrun exactly by a precision above 256 |
| Mprintf.BodyFitsIff | common/mprintf.c:771-796 | the digits of an unsigned long fit the work buffer if and only if the precision is at most 256 |
| Mprintf.PrecisionTooLarge | common/mprintf.c:789-796 | a precision of 300 overruns the work buffer |
| Mprintf.FormatUnsigned | common/mprintf.c:714-762 | an unsigned field shows what an int widened to an unsigned long of 64 bits becomes; in decimal it reads back as the argument exactly if that is below 2^31 |
| Mprintf.UnsignedIff | common/mprintf.c:575-576 | the digits of an unsigned int denote it if and only if it is below 2^31 |
| Mprintf.UnsignedTooLarge | common/mprintf.c:714-718 | 2^31 is printed as 18446744071562067968 |
| Mprintf.Body | common/mprintf.c:771-796 | the digits written denote the number in the base, are at least as many as the precision, and start with 0 in the alternate octal form |
| Mprintf.DigitsValue | common/mprintf.c:776-780 | the digits produced by repeated division denote the number, without a leading zero |
| Mprintf.FillWork | common/mprintf.c:771-796 | the digits end up at the end of the work buffer, and the width is reduced by their number; the buffer is overrun exactly by more digits than it holds |
| Mprintf.Bounded.PutAll | common/mprintf.c:1002-1015 | the bounded sink keeps a prefix of the unbounded output and counts what it keeps |
| Mprintf.Msnprintf | common/mprintf.c:1016-1034 | as much of the output as maxlength allows, and a NUL behind it; this is written behind the buffer exactly if what is kept fills it |
| Mprintf.PrintToBuffer | common/mprintf.c:1016-1034 | with the size of the buffer as maxlength, the NUL goes behind it exactly if the output is not shorter than the buffer |
| Mprintf.NulBehindBuffer | common/mprintf.c:1016-1034 | three characters in a buffer of three put the NUL behind it |
| Mprintf.Growing.PutAll | common/mprintf.c:1052-1080 | the growing sink keeps a prefix, all of it while memory lasts, contents intact through reallocation, with room left for the final NUL |

## Left out

- MergeSort: the links are index arrays instead of pointers written over list elements, so their sharing of memory with the second list, and the element copying macros with their alignment cases, are not part of the model.
- MergeSort.FindSplit: element indices are unbounded, so overflow of the doubled step on gigantic arrays is not modelled.
- QuickSort: the element swapping macros and word alignment; the byte distances `d` and `r` are ints (common/qsort2.c:110), so ranges of 2^31 bytes and more are outside the theorem.
- QuickSort.ChoosePivot: says only that the pivot lies in the range; which one it is matters for speed alone.
- HookOrder.Prepare: sorting by nOrder is the same quicksort with subtraction as comparator; overflow of the subtraction is not modelled.
- ChunkFilter.Filter: errors returned by a bucket read or by the filter below are not modelled.
- HttpInput.HttpFilter: only READBYTES mode; parsing of the length headers is represented by its result, 100-Continue, proxied responses and read errors other than the end of the stream are left out.
- HttpInput.Upstream: trailers are read and dropped; what is stored from them is not modelled.
- ByteRange.ParseByteRange: atol saturates at the limits of a long, the model's numbers do not; the results agree except for the overflowing subtraction for a suffix length of about -2^63.
- ByteRange.Filter: choosing the boundary string, the If-Range and content type checks before the first call.
- ContentLength.Filter: buckets of unknown length, and failures of the filter below.
- OutputLoops: the buffering decisions of the core output filter.
- MD5: the compression function's rounds; it is a parameter. The theorem is for a UINT4 of 32 bits; include/md5_global.h makes it an unsigned long, which has 64 bits on many targets.
- Registry: hash table lookup, the module filter argument, and init and get callbacks.
- Registry: finding a registry by name gives one registry for a name.
- Registry.SaveAndRestore: names with blanks and headers beyond the line limit, which the format cannot represent, and tables where a data line that is passed over happens to be the header of a registry (Registry.TakenForHeader).
- ConfigTree: commands that are executed while reading, splitting a line into words, line numbers and messages.
- CaseSearch.StrCaseStrH: bytes above 127 are characters like any other.
- HttpBuffering: sockets, chunked decoding and the content buffer counters.
- RecordFile: failing mmap and file operations, integer overflow of file positions, and locking; each add and each read is one step.
- DocApi: integer overflow of the sizes, and the spool itself.
- FileTransfer: select and its timeout.
- Mprintf.FormatUnsigned: holds where a long has 64 bits; with one of 32 bits the argument is not widened.
- Mprintf: parsing of the format string, floating point, long long, the least long, `%n`, width and precision arguments.
- Modules that are only tables of hooks, sockets, status codes, logging and process control have no behaviour that would need a proof.
