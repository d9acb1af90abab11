# lib-common containers and bit structures, verified

This project models the data structures of lib-common whose correctness rests on more than one
function at a time, and proves what each of them is for. Everything is stated for all inputs, all
runs or all reachable states.

- **QPS bitmaps** (`QpsTrie`, `QpsBitmap`, `QpsEnumerator`, `QpsIteration`). A bitmap of 2^32 rows
  is a trie of 64 roots, pages of 2048 entries and leaves of words; a row takes one bit, or two when
  rows may be null. The mutators are proved to be map updates. The enumerator, with its five mutually
  recursive searches, wrapping bit-field keys, cached shifted word and generation counter, is proved
  to stand on the least stored key from its target on; iteration that is "safe" against mutation is
  proved to be so under any script of mutations.
- **Bit buffers and bit streams** (`Bits`, `BitMemory`, `BitBuffer`, `BitShifts`, `BitStreams`, `BitRoundTrip`).
  Memory is a sequence of 64-bit words that the code also addresses as bytes. Its contents in either
  bit order is one sequence of bits; every write appends exactly its bits, relying on the hidden
  invariant that memory past the length is zero; every read returns the bits; writing then reading
  any list of values gives the values back.
- **WAH bitmaps** (`WahFormat`, `WahBucket`, `WahWrite`, `WahEnum`, `WahBits`, `WahGet`, `WahSpan`,
  `WahTurn`, `WahAnd`, `WahOverfill`). A compressed bitmap stands for a sequence of bits. Adding zeros or ones appends them to that sequence,
  through the pending word, the merging and flattening of runs and the filling of buckets; the word
  and bit enumerators visit exactly the positions of the set (or unset) bits in order; so a bitmap
  built from any list of runs enumerates exactly the bits of the list. Random access computes the
  bucket of a bit and finds that bit. The intersection of two bitmaps, either of them complemented,
  stands for the pointwise conjunction of their bits; how its buckets are laid out is a function of
  the two operands, which says exactly when random access still works on the result.
- **4-ary heaps** (`QHeap`): order, contents and the positions written back into the nodes.
- **Doubly linked lists** (`DList`, `DListRuns`): pointer surgery on disjoint rings, and any run of it.
- **Circular buffers** (`Rings`): a wrap-around table that grows, as a plain sequence.
- **Red-black trees** (`RbTree`, `RbNodes`, `RbLookup`, `RbEntries`): the rebalancing of insertion and
  deletion as functions on trees that are proved to give balanced trees in the same order; the code
  that does it by rewriting child and parent pointers, proved to do what those functions say; entries
  with keys in such memory, which are found, inserted and removed by key and stay sorted; bounded
  lookups, slots, traversal, height.
- **IOP field iteration** (`IopFields`) and **day counting** (`Calendar`).

Source files that update memory in place are modelled by classes and methods with loops; each method
is tied to a sequence, a map or a tree of plain values, and the laws are proved of those. Machine
words are natural numbers with the C operators defined on their binary digits; 32-bit and 64-bit
widths are explicit wherever a value can reach them.

Properties that the code does not have are kept as they are: there is a concrete input on which the
property fails and the exact condition under which it holds.

- `qps_bitmap_enumerator_go_to` with a row behind the current key compares the key field by field, so
  it can skip stored rows (`GoToBackwardsSkips`); `GoToVersusNext` gives the exact condition.
- `RING_FILTER` on a full ring that rejects everything keeps everything (`FilterKeepsRejected`);
  `FilterRight` gives the exact condition.
- `bb_init_full` clears only part of the memory it takes over (`FullKeepsDirt`); `BitBuf.Full` says
  exactly when the buffer is then usable.
- `bb_shift_left` by other than whole bytes reads the word after the last whole one, which a full
  memory does not have (`ShiftFullBuffer`, a buffer that has just grown); `ShiftLeft` gives the exact
  condition.
- `wah_and_` with both operands complemented sets and counts the bits above the pending ones
  (`BothComplemented`); `AndInto` gives the exact condition.
- `wah_copy_run` writes all its literals into one bucket, whether they fit or not, so `wah_and_` can leave
  a bitmap on which random access is lost (`LiteralsOverfill`, two stored bitmaps). `AppendLiterals` gives
  the exact condition for one copy, and `AndInto` for the whole operation, in terms of the operands: the
  layout that `FinalLayout` computes from them. It is kept when both operands have their buckets at
  multiples of the bucket size and the result does not begin with more than a bucket of equal bits, and
  whenever the result fits into one bucket. The bits of the intersection are right in any case.
- Day counts below the year 1 follow the truncating division of C (`YearZero`); `NextDayCounts` gives
  the exact condition.

Where comments and code disagree the code is followed: `dlist_splice_tail` is commented as inserting
at the head and inserts at the tail (src/container-dlist.h:299-312).

## Model

| member | source | states |
|---|---|---|
| `QpsTrie.SplitVal` | src/qps-bitmap.h:40-77 | cutting a key into its bit fields undoes joining them |
| `QpsTrie.ValSplit` | src/qps-bitmap.h:40-77 | joining the fields of a row undoes cutting it, and the fields are in range |
| `QpsTrie.LtIsLess` | src/qps-bitmap.h:40-77 | comparing keys field by field is comparing rows as numbers |
| `QpsTrie.NextWordIsAdd` | src/qps-bitmap.h:305-308 | adding one word to a key as a 32-bit number carries through word, page and root and wraps to zero |
| `QpsTrie.NextLeafIsAdd` | src/qps-bitmap.h:278-282 | the same for adding one whole leaf |
| `QpsTrie.SetSlotWrites` | src/core/qps-bitmap.c:206-240 | setting a row in a word changes that row to one and no other, also in the two-bit form |
| `QpsTrie.ZeroSlotWrites` | src/core/qps-bitmap.c:242-288 | resetting a row of a nullable word makes it a present zero and changes no other |
| `QpsTrie.ClearSlotWrites` | src/core/qps-bitmap.c:290-333 | removing a row from a word makes it absent and changes no other |
| `QpsTrie.LeafCountWrite` | src/core/qps-bitmap.c:206-333 | the number of present rows of a leaf changes by what the written word gains or loses |
| `QpsBitmap.WriteWord` | src/core/qps-bitmap.c:206-333 | writing one word of a leaf, with its count of active rows, changes the state of one row |
| `QpsBitmap.DropLeaf` | src/core/qps-bitmap.c:72-96 | dropping a leaf without rows changes no row |
| `QpsBitmap.Bitmap.Get` | src/core/qps-bitmap.c:171-204 | the state of a row: absent, zero or one |
| `QpsBitmap.Bitmap.Set` | src/core/qps-bitmap.c:206-240 | updates the map at the row, returns its previous state, keeps counts exact and the trie without empty leaves or pages, and counts as one mutation |
| `QpsBitmap.Bitmap.Reset` | src/core/qps-bitmap.c:242-288 | the same, to zero: present in a nullable bitmap, absent in the other |
| `QpsBitmap.Bitmap.Remove` | src/core/qps-bitmap.c:290-333 | the same, to absent |
| `QpsBitmap.Bitmap.Clear` | src/core/qps-bitmap.c:163-169 | leaves the empty map |
| `QpsBitmap.Bitmap.DerefDispatch` | src/core/qps-bitmap.c:24-44 | finds a page, or creates an empty one, without changing any row |
| `QpsBitmap.Bitmap.Deref` | src/core/qps-bitmap.c:46-70 | finds a leaf, or creates an empty one, without changing any row |
| `QpsBitmap.Bitmap.DeleteLeaf` | src/core/qps-bitmap.c:72-96 | removes an empty leaf and then its page if it was the last, without changing any row |
| `QpsEnumerator.Enumerator.constructor` | src/qps-bitmap.h:591-615 | for any trie, also with empty leaves and pages: stands on the least stored key at or above the row with its value, or is at the end and there is none |
| `QpsEnumerator.Enumerator.IsSync` | src/qps-bitmap.h:314-318 | true exactly when the bitmap was not mutated, for fewer than 2^32 mutations in between |
| `QpsEnumerator.Enumerator.Next` | src/qps-bitmap.h:320-343 | stands on the least key of the present bitmap strictly above the previous one, whether or not the bitmap changed, or is at the end and there is none |
| `QpsEnumerator.Enumerator.GoTo` | src/qps-bitmap.h:345-382 | stands on the least key from the target that the field comparison arrives at; after a mutation, from the row itself |
| `QpsEnumerator.Enumerator.DispatchUp` | src/qps-bitmap.h:184-202 | a carried key goes on searching where it carried to, and a carry out of 32 bits is the end; every pass moves up, so the recursion ends |
| `QpsEnumerator.Enumerator.FindDispatch` | src/qps-bitmap.h:204-225 | a search that has passed everything below its target ends on the least stored key |
| `QpsEnumerator.Enumerator.FindLeaf` | src/qps-bitmap.h:227-256 | the same from an entry of a page |
| `QpsEnumerator.Enumerator.FindWord` | src/qps-bitmap.h:258-283 | the same from a word of a leaf |
| `QpsEnumerator.Enumerator.FindBit` | src/qps-bitmap.h:285-309 | the same from a bit, and on return the cached word is the leaf word shifted to the key |
| `QpsEnumerator.TracksStep` | src/qps-bitmap.h:291-304 | shifting the cached word by one row keeps it equal to the leaf word from the next row on |
| `QpsEnumerator.ScanWord` | src/qps-bitmap.h:499-521 | skipping to the target bit or beyond finds the first row present, or that there is none |
| `QpsIteration.ForEachSafe` | src/qps-bitmap.h:650-652 | iteration whose body runs any script of mutations: each step visits the least row present at that time above the last one, with its value at that time, until there is none |
| `QpsIteration.SafeIteration` | src/qps-bitmap.h:320-343 | rows strictly increase, each was present when visited, and every row present throughout is visited exactly once, whatever else changes |
| `QpsIteration.UnsafeIteration` | src/qps-bitmap.h:646-652 | a loop without mutation visits exactly the present rows |
| `QpsIteration.ForEachUnsafe` | src/qps-bitmap.h:646-648 | the loop that does not look for mutations visits exactly the present rows, in order, with their values |
| `QpsIteration.VisitedLater` | src/qps-bitmap.h:650-652 | a row that is present from some step on and not yet passed is visited later |
| `QpsIteration.NextUntil` | src/qps-bitmap.h:320-343 | repeating next comes to the least key at or above the row |
| `QpsIteration.GoToVersusNext` | src/qps-bitmap.h:345-382 | going to a row and repeating next reach the same state if and only if the row is not behind the key, or behind in no field |
| `QpsIteration.GoToTargetIff` | src/qps-bitmap.h:367-381 | where the field comparison starts its search, against where next would |
| `QpsIteration.GoToBackwardsSkips` | src/qps-bitmap.h:367-381 | on a bitmap of two rows, going from the first to a row behind it ends the enumeration |
| `BitMemory.SplicedAppends` | src/bit-buf.h:163-203 | memory that changed in a window at the length, and was zero past it, holds the old bits followed by those of the window |
| `BitMemory.ValueRoundTrip` | src/bit-buf.h:184-203 | the bits of a value, in either order, are the value modulo 2^width |
| `BitMemory.BitOfPutByte` | src/bit-buf.h:323-357 | storing a byte of a word changes the eight bits of that byte only |
| `BitBuffer.BitBuf.Full` | src/bit-buf.h:76-100 | taking over memory: the buffer satisfies its invariant exactly when the bits that are not cleared were zero already |
| `BitBuffer.FullKeepsDirt` | src/bit-buf.h:76-100 | four bits taken over with a bit set above them: the buffer does not satisfy its invariant |
| `BitBuffer.BitBuf.Grow` | src/core/bit-buf.c:86-101 | makes room, keeps the bits, and the new memory is zero |
| `BitBuffer.BitBuf.Reset` | src/core/bit-buf.c:44-57 | empties the buffer and restores the invariant whichever branch is taken |
| `BitBuffer.BitBuf.Align` | src/bit-buf.h:149-152 | appends the zero bits up to the next byte |
| `BitBuffer.BitBuf.Add0s` | src/bit-buf.h:276-279 | appends zeros without writing, in both bit orders |
| `BitBuffer.BitBuf.Add1s` | src/bit-buf.h:281-305 | appends exactly that many ones, through the partial first byte, the fill and the partial last byte |
| `BitBuffer.BitBuf.AddBit` | src/bit-buf.h:173-182 | appends one bit, keeps all others and the zero tail |
| `BitBuffer.BitBuf.AddBits` | src/bit-buf.h:184-203 | appends the low bits of the value, least significant first, within one word or across two |
| `BitBuffer.BitBuf.AddUnalignedBytes` | src/bit-buf.h:210-241 | appends the bytes, in 64-bit loads and a tail |
| `BitBuffer.BitBuf.AddBytes` | src/bit-buf.h:243-274 | appends the bytes for every bit offset, source alignment and length, as adding them one by one does |
| `BitBuffer.BitBuf.BeAddBit` | src/bit-buf.h:312-321 | appends one bit in the order of big-endian streams |
| `BitBuffer.BitBuf.BeAddBits` | src/bit-buf.h:323-357 | appends the low bits of the value, most significant first, byte by byte from any offset |
| `BitBuffer.BitBuf.BeAddBytes` | src/bit-buf.h:364-375 | appends the bytes in big-endian order |
| `BitShifts.MovedStream` | src/core/bit-buf.c:137-175 | memory moved by a number of bits is the rest of the stream, in big-endian order for whole bytes |
| `BitShifts.ShiftLoop` | src/core/bit-buf.c:151-171 | the loop over pairs of words stays inside the memory if and only if there is a word after the last whole one, and then moves all bits |
| `BitShifts.ShiftLeft` | src/core/bit-buf.c:137-175 | the first bits are gone and the invariant is kept, by bytes or by pairs of words; every access stays inside the memory if and only if it is not full or the shift is of whole bytes or of everything |
| `BitShifts.ShiftFullBuffer` | src/core/bit-buf.c:137-175 | shifting a buffer that has just grown to 25 full words by one bit reads outside its memory |
| `BitStreams.PtrAddExact` | src/bit-stream.h:53-60 | moves the position 64 p + offset by exactly the amount, offset below 64 |
| `BitStreams.PtrSubExact` | src/bit-stream.h:62-77 | moves it back by exactly the amount through the truncating remainder, offset below 64 |
| `BitStreams.PtrAddSub` | src/bit-stream.h:53-77 | adding and subtracting undo each other |
| `BitStreams.PtrNormalizeExact` | src/bit-stream.h:79-90 | an unaligned byte address becomes the word position of the same bit |
| `BitStreams.BitStream.Skip` | src/bit-stream.h:190-199 | drops that many bits from the front, or fails and changes nothing |
| `BitStreams.BitStream.Align` | src/bit-stream.h:201-207 | drops the bits up to the next byte |
| `BitStreams.BitStream.Shrink` | src/bit-stream.h:225-235 | drops that many bits from the end, or fails and changes nothing |
| `BitStreams.BitStream.Clip` | src/bit-stream.h:237-251 | keeps that many bits from the front, or fails and changes nothing |
| `BitStreams.BitStream.GetBs` | src/bit-stream.h:307-322 | splits the stream: the new one and the rest are its two parts |
| `BitStreams.BitStream.GetBytes` | src/bit-stream.h:324-331 | the bytes returned spell the bits dropped |
| `BitStreams.BitStream.PeekBits` | src/bit-stream.h:366-390 | the value of the next bits, from one word or two |
| `BitStreams.BitStream.GetBits` | src/bit-stream.h:392-405 | that value and the rest of the stream, or failure |
| `BitStreams.BitStream.BePeekBits` | src/bit-stream.h:472-500 | the big-endian value of the next bits, byte by byte |
| `BitStreams.BitStream.BeGetBits` | src/bit-stream.h:502-515 | that value and the rest of the stream, or failure |
| `BitStreams.BitStream.PeekLastBit` | src/bit-stream.h:407-419 | the last bit, in either order |
| `BitStreams.BitStream.GetLastBit` | src/bit-stream.h:421-430 | that bit and the stream without it, or failure |
| `BitStreams.BitStream.GetLastBits` | src/bit-stream.h:432-443 | the value of the last bits and the stream without them; a width above 64 fails after the stream was shrunk |
| `BitStreams.Equals` | src/bit-stream.h:649-663 | two streams are equal exactly when they have the same bits |
| `BitRoundTrip.DecodeEncode` | src/bit-buf.h:184-203 | decoding the widths of a list of values from its encoding gives each value modulo 2^width, in both orders |
| `BitRoundTrip.WriteBitByBit` | src/bit-buf.h:173-203 | writing a value bit by bit appends the same bits as writing it at once |
| `BitRoundTrip.RoundTrip` | src/bit-stream.h:502-515 | from any starting offset, writing a list of values to the buffer and reading the same widths from a stream over it returns each value modulo 2^width |
| `BitRoundTrip.AddBs` | src/core/bit-buf.c:103-118 | appends the bits of a stream, whatever its alignment and that of the buffer |
| `WahBucket.FlattenLastRun` | src/core/bit-wah.c:784-815 | a run of one word becomes a literal of the chunk before it, or of its own chunk, and the bucket stands for the same words |
| `WahBucket.PushPending` | src/core/bit-wah.c:817-862 | the bucket stands for its words followed by the pending word as often as asked, and stays a list of chunks without empty ones |
| `WahBucket.MergeRun` | src/core/bit-wah.c:833-843 | equal words join the last run up to its greatest length, and the rest is left |
| `WahBucket.NewRuns` | src/core/bit-wah.c:848-859 | equal words become runs of at most the greatest length, with the position of the chunk before the last kept right |
| `WahBucket.JoinChunks` | src/bit-wah.h:34-45 | the words of two lists of chunks one after the other are the words of one and of the other |
| `WahWrite.Map.CreateBucket` | src/core/bit-wah.c:470-486 | a full bucket is closed and the words stay the same |
| `WahWrite.Map.PushWords` | src/core/bit-wah.c:864-890 | equal words are spread over as many buckets as they take, each closed one exactly full |
| `WahWrite.Map.PushEqual` | src/core/bit-wah.c:892-939 | the same, or the first bucket is overfilled while all bits are equal, with the shift that accounts for it; a layout that is broken stays so, except by that shift while there is one bucket |
| `WahWrite.Map.Add` | src/core/bit-wah.c:941-1016 | appends exactly that many zeros or ones to the bits of the bitmap, and `active` stays the number of ones |
| `WahWrite.Map.Add1At` | src/core/bit-wah.c:1018-1033 | past the end: appends zeros up to the position and a one |
| `WahWrite.Map.WrittenIsRead` | src/core/bit-wah.c:761-782 | every bitmap that was written is well-formed for its readers and stands for the bits that were added |
| `WahWrite.Map.AppendLiterals` | src/core/bit-wah.c:1293-1320 | the literals are appended and counted; the layout is kept if and only if they fit into the last bucket, or a new one, and do not continue a closed bucket of equal bits, both told before the call; otherwise the last bucket is overfull |
| `WahGet.InBucket` | src/core/bit-wah.c:1786-1806 | the chunk found by its length holds the bit |
| `WahGet.GetBucket` | src/core/bit-wah.c:665-679 | the computed bucket and offset are those of the bit |
| `WahGet.Get` | src/core/bit-wah.c:1769-1808 | the bit at that position of the sequence, off past its end |
| `WahWrite.BuildAndVisit` | src/bit-wah.h:356-362 | building a bitmap from any list of runs of bits and enumerating it, or its complement, visits exactly the positions of the set, or unset, bits of the list, in order |
| `WahEnum.WordEnum.constructor` | src/core/bit-wah.c:79-95 | starts on the first word, on the pending bits, or at the end of an empty bitmap |
| `WahEnum.WordEnum.StartChunk` | src/core/bit-wah.c:53-77 | on a chunk, the words to come are those the bucket stands for from there on |
| `WahEnum.WordEnum.Next` | src/core/bit-wah.c:97-158 | the words to come lose their first; after the last, the pending bits if any, then the end, where it stays |
| `WahEnum.BucketEnd` | src/core/bit-wah.c:136-141 | the words after a bucket are those of the next bucket |
| `WahEnum.WordEnum.Skip` | src/core/bit-wah.c:160-188 | the words to come lose that many, the pending bits counting as one, and no more than there are |
| `WahBits.BitEnum.ScanWord` | src/core/bit-wah.c:222-254 | passes only bits that are off, in zero words and zero runs, up to a word with a bit that is on, or to the end |
| `WahBits.BitEnum.Scan` | src/bit-wah.h:327-341 | stops on the first bit that is on, without passing any |
| `WahBits.BitEnum.Shift` | src/bit-wah.h:343-348 | passes exactly one bit, the one at the key, in word mode and in run mode and from one to the other; key plus bits ahead stays the length |
| `WahBits.BitEnum.Next` | src/bit-wah.h:343-350 | the positions to come lose exactly the current key |
| `WahBits.BitEnum.constructor` | src/core/bit-wah.c:256-272 | the positions to come are those of all bits that are on |
| `WahBits.ForEach` | src/bit-wah.h:356-362 | the loop collects the positions of all set bits of the bitmap, or of its complement |
| `WahBits.VisitedExactly` | src/bit-wah.h:356-362 | these are exactly the positions below the length whose bit is set, or unset |
| `WahBits.PositionsIncrease` | src/bit-wah.h:356-362 | and they strictly increase |
| `WahSpan.RunSpan` | src/core/bit-wah.c:97-158 | the place of a word enumerator in a run, and the words left there, follow from the number of words it has passed |
| `WahSpan.LiteralSpan` | src/core/bit-wah.c:97-158 | the same among literals |
| `WahTurn.StepIn` | src/core/bit-wah.c:1345-1402 | a turn stays within the words of the result, and the words of the conjunction are those it fills in |
| `WahTurn.RoomIs` | src/core/bit-wah.c:655-663 | the room in the last bucket, and whether it is the only one, follow from the number of words and the shift |
| `WahTurn.EvenStays` | src/core/bit-wah.c:761-782 | with buckets at multiples of their size no stretch of literals crosses such a multiple |
| `WahTurn.StaysKept` | src/core/bit-wah.c:1337-1403 | for two such operands every turn keeps the layout, unless the conjunction begins with more than a bucket of equal bits |
| `WahAnd.StepIs` | src/core/bit-wah.c:1338-1404 | the case of the switch and its number of words are a function of the operands and of the number of words written |
| `WahAnd.CopyRun` | src/core/bit-wah.c:1276-1321 | the words of one operand over the shorter of the other's ones and its own literals are written, complemented if need be, both are read up to there, and the layout becomes what `AfterCopy` says |
| `WahAnd.PushRuns` | src/core/bit-wah.c:1374-1390 | zeros of either operand are written over the longest stretch of zeros, ones over the shortest of ones, one operand possibly at its end |
| `WahAnd.Turn` | src/core/bit-wah.c:1345-1402 | every turn writes the conjunction of the next words of both operands, stays below the length of the longer one, and changes the layout as `AfterStep` says |
| `WahAnd.AndLoop` | src/core/bit-wah.c:1337-1403 | the loop ends with the conjunction of all words and of the pending bits, in the layout that `FinalLayout` computes from the operands |
| `WahAnd.ResultCount` | src/core/bit-wah.c:1346-1354 | the count is right and nothing is set above the pending bits if and only if not both operands are complemented or none is pending |
| `WahAnd.ValidIs` | src/core/bit-wah.c:761-782 | the invariant of the result holds if and only if its layout is kept and bits that are all equal are not spread over several buckets |
| `WahAnd.AndInto` | src/core/bit-wah.c:1328-1436 | the bits are the conjunction of both operands, each complemented or not and padded to the longer one; the count is exact unless both are complemented; the layout is kept if and only if the operands say so, and in particular for operands with buckets at multiples of their size, and for results of one bucket |
| `WahOverfill.LiteralsOverfill` | src/core/bit-wah.c:1276-1321 | `wah_not_and` of two words of ones and a bitmap of five words of ones and two literals, in buckets of two words, gives the right bits in an overfull bucket; its last bit would be looked up in a bucket that does not exist |
| `WahAnd.BothComplemented` | src/core/bit-wah.c:1346-1354 | two bitmaps of one bit that is off, both complemented, give one bit that is on and a count of 32 |
| `QHeap.SinkStep` | src/container-qheap.h:93-113 | moving the least of four children up keeps the order everywhere but below the hole |
| `QHeap.RiseStep` | src/container-qheap.h:133-147 | moving the parent down keeps the order everywhere but above the hole |
| `QHeap.FirstIsLeast` | src/container-qheap.h:71-76 | in an ordered heap the first key is the least |
| `QHeap.Heap.Down` | src/container-qheap.h:93-130 | sinking restores the order, also with a partial last group of children; nodes, and positions in nodes, are kept |
| `QHeap.Heap.Up` | src/container-qheap.h:133-150 | rising restores the order; nodes, and positions in nodes, are kept |
| `QHeap.Heap.Insert` | src/container-qheap.h:153-159 | a valid heap with the node added |
| `QHeap.Heap.Fixup` | src/container-qheap.h:162-172 | after any change of one key, a valid heap of the same nodes |
| `QHeap.Heap.Update` | src/container-qheap.h:162-172 | changing the key of any node and fixing up gives a valid heap with that key changed |
| `QHeap.Heap.Remove` | src/container-qheap.h:175-197 | a valid heap without the node at that position, whose recorded position is -1; a negative position changes nothing |
| `QHeap.Drain` | src/container-qheap.h:249-249 | taking the first until the heap is empty yields all its nodes in order of keys, for min and max heaps |
| `DList.AddBetween` | src/container-dlist.h:145-151 | the ring with the link inserted between two neighbours |
| `DList.Unlink` | src/container-dlist.h:156-161 | the ring without the link |
| `DList.SpliceBetween` | src/container-dlist.h:269-282 | the ring with the other ring's elements inserted, and its head alone |
| `DList.CutAfter` | src/container-dlist.h:325-335 | two rings: the elements up to the link under the new head, the others under the old one |
| `DList.Surgery.Regroup` | src/container-dlist.h:145-336 | sharing out the links of some lists anew keeps all lists apart |
| `DList.Surgery.Done` | src/container-dlist.h:145-336 | when only links of some lists change and form rings again, all lists are rings apart from each other |
| `DListRuns.Lists.New` | src/container-dlist.h:107-110 | a new link is a list without elements, apart from all others |
| `DListRuns.Lists.NewRaw` | src/container-dlist.h:145-161 | a link that was never initialised is in no list and can be added |
| `DListRuns.Alone` | src/container-dlist.h:107-110 | so can a link that was initialised and is on its own |
| `DListRuns.Lists.Add` | src/container-dlist.h:163-179 | the element is after the given link, all other lists are the same, all lists stay disjoint rings |
| `DListRuns.Lists.AddTail` | src/container-dlist.h:181-200 | the element is before the given link, at the tail for a head |
| `DListRuns.Lists.Remove` | src/container-dlist.h:202-207 | the element is on its own |
| `DListRuns.Lists.Pop` | src/container-dlist.h:209-213 | the first element is on its own; an empty list is unchanged |
| `DListRuns.Lists.Move` | src/container-dlist.h:215-223 | the element goes from wherever it is to the front of the list |
| `DListRuns.Lists.MoveTail` | src/container-dlist.h:225-233 | the element goes from wherever it is to the end of the list |
| `DListRuns.Lists.Splice` | src/container-dlist.h:284-297 | the elements of one list go to the front of the other, and it becomes empty |
| `DListRuns.Lists.SpliceTail` | src/container-dlist.h:299-312 | the elements of one list go to the end of the other, and it becomes empty |
| `DListRuns.Lists.CutAt` | src/container-dlist.h:314-336 | the elements up to the given one go to the other list; nothing for the head itself or an empty list |
| `DListRuns.Lists.Run` | src/container-dlist.h:145-336 | any run of operations on any number of lists keeps them disjoint rings with inverse pointers and has the composed effects |
| `DListRuns.CutSplice` | src/container-dlist.h:284-336 | splicing back what was cut restores every list |
| `DListRuns.Lists.CutThenSplice` | src/container-dlist.h:284-336 | and every pointer of every link |
| `Rings.Ring.Ensure` | src/container/ring.c:21-51 | growing keeps the elements in order, whichever part of a split buffer moves, also when the caller counted one element too many |
| `Rings.MovedRight` | src/container/ring.c:43-46 | moving the right part to the end of the larger table keeps the elements |
| `Rings.CopiedLeft` | src/container/ring.c:47-49 | copying the left part after the right one keeps the elements |
| `Rings.Ring.Unshift` | src/container-ring.h:74-78 | the sequence with the element in front |
| `Rings.Ring.Push` | src/container-ring.h:80-83 | the sequence with the element at the end |
| `Rings.Ring.Shift` | src/container-ring.h:86-94 | takes the first element, or fails on an empty ring |
| `Rings.Ring.Pop` | src/container-ring.h:96-101 | takes the last element, or fails on an empty ring |
| `Rings.Ring.Skip` | src/container-ring.h:104-110 | drops that many elements, or fails and changes nothing |
| `Rings.Ring.Get` | src/container-ring.h:113-115 | the element at that index of the sequence |
| `Rings.Ring.Run` | src/container-ring.h:67-115 | any run of these operations gives what it gives on a plain sequence |
| `Rings.Ring.Filter` | src/container-ring.h:44-57 | the accepted elements in order, except that a full ring with none accepted keeps all |
| `Rings.FilterRight` | src/container-ring.h:44-57 | the filter leaves exactly the accepted elements if and only if it does not reject a whole full table |
| `Rings.FilterKeepsRejected` | src/container-ring.h:44-57 | any filter that rejects an element keeps all of a ring filled up with it by pushes |
| `RbLookup.SearchSorted` | src/container-rbtree.h:148-168 | a tree is a search tree exactly when its keys are sorted from left to right |
| `RbLookup.Find` | src/container-rbtree.h:149-168 | finds the key exactly when the tree has it |
| `RbLookup.FindUpper` | src/container-rbtree.h:170-191 | the least key at or above, or that there is none |
| `RbLookup.FindLower` | src/container-rbtree.h:193-214 | the greatest key at or below, or that there is none |
| `RbLookup.FindSlot` | src/container-rbtree.h:216-243 | the colliding node, or a free slot between the smaller and the greater keys |
| `RbLookup.SlotFits` | src/container-rbtree.h:216-243 | hanging a key on a free slot keeps the keys sorted if and only if it lies between those before and after the slot |
| `RbLookup.SlotUnique` | src/container-rbtree.h:216-243 | there is only one such slot |
| `RbTree.AddFixed` | src/container/rbtree.c:120-165 | rebalancing after an insertion gives a balanced red-black tree with the same keys in the same order |
| `RbTree.Recolor` | src/container/rbtree.c:128-134 | under a red uncle, recolouring moves the only possible defect up two levels |
| `RbTree.AddLeft` | src/container/rbtree.c:136-143 | under a black uncle, one or two rotations remove it |
| `RbTree.DelFixed` | src/container/rbtree.c:177-238 | rebalancing after a deletion gives a balanced red-black tree with the same keys in the same order |
| `RbTree.DelLeft` | src/container/rbtree.c:183-208 | one turn either ends the shortage of a black node or moves it up |
| `RbTree.Deleted` | src/container/rbtree.c:240-280 | deleting any node of a balanced tree, with two children or fewer, gives a balanced tree with all other keys in order |
| `RbTree.Added` | src/container/rbtree.c:167-174 | filling a free slot of a balanced tree gives a balanced tree with the key between those before and after the slot |
| `RbTree.Unzip` | src/container/rbtree.c:37-62 | at every node of a balanced tree the colours and black heights fit those above it |
| `RbNodes.Store.RotateLeftAt` | src/container/rbtree.c:94-105 | the pointers, parent pointers among them, hold the rotated tree, and no node outside the tree changes |
| `RbNodes.Store.RotateRightAt` | src/container/rbtree.c:107-118 | the mirror image |
| `RbNodes.Side` | src/container/rbtree.c:80-92 | comparing a child pointer tells on which side of its parent a node, or an empty place next to a node, is |
| `RbNodes.Store.AddFixColor` | src/container/rbtree.c:120-165 | the loop over the nodes leaves exactly the tree that `AddFixed` gives in memory, linked both ways, and no other node changed |
| `RbNodes.Store.InsertAt` | src/container-rbtree.h:270-275 | filling a free slot of a balanced tree leaves the tree `Added` in memory |
| `RbNodes.ShortSide` | src/container/rbtree.c:182-184 | where a black node is missing the sibling exists, so the side is right even when the place is empty |
| `RbNodes.Store.DelFixColor` | src/container/rbtree.c:177-238 | the loop over the nodes leaves exactly the tree that `DelFixed` gives in memory |
| `RbNodes.Store.TakeSuccessor` | src/container/rbtree.c:245-268 | the successor node takes the place, the colour and the children of the node, and its right child takes its own, also when it is the node's child |
| `RbNodes.Store.DelNode` | src/container/rbtree.c:240-280 | deleting any node of a balanced tree leaves the tree `Deleted` in memory, linked both ways, and no node outside the tree changed |
| `RbEntries.Entries.FindSlot` | src/container-rbtree.h:216-243 | walking the nodes in memory finds the node with the key, exactly when there is one, or the free slot and the node above it between the smaller and the greater keys |
| `RbEntries.Entries.Find` | src/container-rbtree.h:149-168 | walking the nodes in memory finds the node with the key, or that there is none |
| `RbEntries.Entries.Insert` | src/container-rbtree.h:270-289 | the node is linked in, or the node with its key is returned and nothing changes; the memory holds a balanced tree sorted by keys that has gained exactly this node |
| `RbEntries.Entries.RemoveKey` | src/container-rbtree.h:291-306 | the node with the key is unlinked and returned, or nothing changes; the memory holds a balanced tree sorted by keys that has lost exactly this node |
| `RbLookup.Insert` | src/container-rbtree.h:270-289 | on trees as values: adds the key to a valid tree and keeps it valid, or returns the entry there was |
| `RbLookup.RemoveKey` | src/container-rbtree.h:291-306 | on trees as values: removes the key from a valid tree and keeps it valid, or changes nothing |
| `RbLookup.First` | src/container-rbtree.h:111-118 | the first key in order, if any |
| `RbLookup.Last` | src/container-rbtree.h:120-127 | the last key in order, if any |
| `RbLookup.Next` | src/container/rbtree.c:283-297 | the node whose key comes next in order, in the same tree, or that there is none |
| `RbLookup.ForEach` | src/container-rbtree.h:330-331 | visits every key once in increasing order |
| `RbLookup.Logarithmic` | src/container-rbtree.h:24-32 | a balanced tree of n keys is at most 2 log2(n + 1) high |
| `IopFields.FirstNonEmptyParent` | src/iop/iop.blk:5715-5723 | skips exactly the parents without fields |
| `IopFields.NextField` | src/iop.h:2130-2152 | the field after the given one, in the class or in a parent, or null when none is left |
| `IopFields.ForEachField` | src/iop.h:2177-2183 | yields all fields of a class and its parents, or of a plain structure |
| `IopFields.OldForEachField` | bench/iop-struct-for-each-bench.c:24-45 | the replaced loop yields the same fields with the same classes in the same order |
| `IopFields.IndexedLoop` | bench/iop-struct-for-each-bench.c:77-82 | for a plain structure so does the indexed loop |
| `IopFields.ByClass` | src/iop.h:2097-2101 | the fields are the class's own, then those of each parent in turn, children first, also past classes without fields |
| `IopFields.PlainFields` | bench/iop-struct-for-each-bench.c:77-82 | the fields of a plain structure are its own, in order, whatever its parent pointer holds |
| `Calendar.ClosedForm` | src/datetime.h:49-59 | from 1900 on the closed form is the number of leap years from 1901 to the year |
| `Calendar.LeapStep` | src/datetime.h:54-67 | how the closed form grows from any year to the next, also below zero where C division truncates |
| `Calendar.NextDayCounts` | src/datetime.h:207-217 | the count grows by one from a day to the next, over ends of months, years and centuries, if and only if the year is at least 1 or the day is not a year's last next to a leap year |
| `Calendar.YearZero` | src/datetime.h:207-217 | the last day of the year 0 and the next day have the same count |
| `Calendar.DiffIsWalk` | src/datetime.h:219-224 | the difference of two dates is the number of days walked from one to the other |
| `Calendar.WalkReaches` | src/datetime.h:219-224 | walking as many days as the difference leads from one date to the other |

## Left out

- QPS pages: allocation, dereferencing and persistence of pages; an enumerator's cached page and leaf
  are the values they had, which is what equal generations guarantee.
- QPS generations: between two steps of an enumerator fewer than 2^32 mutations are assumed, since
  `bitmap_gen` is a 32-bit counter and equality after a whole turn cannot be told from no change.
- The two specialisations of the enumerator (nullable or not) are one model with a parameter.
- Statistics, debugging output, creation and destruction of bitmaps, buffers and trees.
- Bit buffers: marks, printing, parsing, conversion to string buffers; sizes are unbounded.
- BitShifts.ShiftLeft: does not say what a shift by other than whole bytes makes of a big-endian stream, since it
  moves the bits of words.
- Bit streams: scans for a bit, positions given as pointers from outside, printing; a big-endian peek
  of no bits outside the memory reads nothing.
- WahWrite.Map.Add1At: does not model positions before the end, which go through the union of two bitmaps.
- WahWrite.Map.AppendLiterals: results of at most 2^30 words, so that no vector of words can overflow.
- WahAnd.CopyRun: the same limit.
- WahAnd.PushRuns: the same limit.
- WahAnd.Turn: the same limit.
- WahAnd.AndLoop: the same limit.
- WahAnd.AndInto: the same limit, which is operands of at most 2^35 bits; the operands are different objects, since the
  source resets the first while it reads the second.
- RbLookup.Insert: on a tree of keys, without the nodes in memory; `RbEntries.Entries.Insert` has them.
- RbLookup.RemoveKey: on a tree of keys, without the nodes in memory; `RbEntries.Entries.RemoveKey` has them.
- WAH: adding bits from memory, union, complement and loading; whether a bucket is inlined or a vector; the
  assertions of debugging builds; bits are added while the vector of the last bucket is shorter than 2^32 - 16
  words, where the library's vectors stop at 2^31.
- Heaps: keys are integers, which any total preorder on the nodes of one heap embeds into.
- Lists: `__dlist_repair`, the lists inside structures, and the for-each macros.
- Rings: `RING_MAP`, wiping, integer overflow of sizes; the predicate of a filter does not change the
  elements.
- Red-black trees: addresses and keys are integers; the colour is a field of its own and not the low bit of the
  parent pointer; lookups and traversal are modelled on trees as values; `__rb_prev` mirrors `__rb_next`.
- Hash tables, vectors, timers, HTTP, IOP packing, logging, option parsing and everything that does
  input or output.
