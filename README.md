# zekvok, modelled in Dafny

zekvok is a Windows backup tool. It takes versioned, optionally encrypted
backups of directory trees. Each version is one archive. A file that has not
changed is recorded as a reference to an earlier version, and a changed file
can be stored as an rsync-style delta against its old copy. This project
models the sequential logic of its core and proves properties of that model:

- **Delta engine.** The weak rolling checksum and its rolling identities; the
  byte ring buffer; the three-way and unbounded binary searches; the
  signature table with its block-size scaler and 24-bit bitmap; the
  copy-flag packing of edit commands; and the comparer's state machine
  together with the table search that drives it.
- **Stream plumbing.** Pipeline segments and the buffer pool; the bounded
  ring queue between stages, taken one thread at a time; memory sources and
  sinks; the dumb pipe; the byte-counting, bounded and progress filters; and
  the filter that concatenates streams.
- **Archive layout.** The key block of per-part keys and IVs, where the
  reader finds the manifest, base objects and file data, and the order in
  which the writer lays them out. Encryption, compression and hashing are
  function parameters.
- **Backup decisions.** Which objects are backed up and how; change
  detection; dependency collection; the choice and order of a restore; the
  filling of a restored version's dependencies; object paths and path
  containment; case-insensitive comparison; and the command interpreter.
- **System layer.** Long-path prefixing, the mount-point list splitter, file
  sizes, junction buffer lengths and timestamps. Every operating-system call
  is a parameter that stands for what the call reports.
- **Test scripts.** The directory snapshot and comparator of the crypto
  round-trip test, and its version generator. Random choices are an explicit
  oracle, and MD5 is a function parameter.

The source has a number of defects. Each is modelled as written, and the
table below states what the code does:

- the snapshot comparator's count guard compares a list with itself;
- `version_exists` tests for "some version at least v" rather than
  membership;
- `File = 0` masks the name-ignore rule to nothing;
- the Hash criterion reports a change when the digests are equal;
- the GUID check in `fix_up_stream_reference` is inverted;
- the ring buffer's wrap-around copy starts from the wrong place;
- the dumb pipe copies from the start of the front chunk instead of from its offset, and never resets the offset;
- the bounded filter has an unreachable split path;
- the key lookup bounds are off by one.

One Dafny module models each source component. `Types` holds the shared
option, result and fixed-width integer types. `Arith` and `Sorting` are
generic helpers.

## Model

| member | source | states |
|---|---|---|
| CaseInsensitive.ToLower | src/Utility.h:15-16 | `tolower` in the "C" locale moves exactly 'A'..'Z' up by 32 and leaves every other character alone |
| CaseInsensitive.Lowered | src/Utility.h:15-16 | lowering keeps the length and lowers each character in place |
| CaseInsensitive.LessFromIsLex | src/Utility.h:13-22 | the comparison loop from index `i` on is the lexicographic order of the lowered suffixes |
| CaseInsensitive.Less | src/Utility.h:6-23 | `operator()` is lexicographic less-than on the lowered strings |
| CaseInsensitive.EqualBelow | src/Utility.h:33-39 | the backward loop over the indices below `i` succeeds iff the lowered prefixes of length `i` agree |
| CaseInsensitive.Equal | src/Utility.h:25-41 | `equal` holds iff the lengths match and `tolower` agrees at every index, that is iff the lowered strings are equal |
| CaseInsensitive.CStrLen | src/Utility.h:46-47 | the counting loop stops at the first NUL |
| CaseInsensitive.EqualCStr | src/Utility.h:43-60 | the C-string `equal` compares against the characters before the first NUL of `b` |
| CaseInsensitive.EqualCStrAgrees | src/Utility.h:25-60 | for a NUL-free `b`, the C-string overload and the string overload give the same answer |
| CaseInsensitive.LexLessIrreflexive | src/Utility.h:13-22 | the order underlying `operator()` never puts a string before itself |
| CaseInsensitive.LexLessTransitive | src/Utility.h:13-22 | that order is transitive |
| CaseInsensitive.LexLessTotal | src/Utility.h:13-22 | two different strings are ordered one way or the other |
| CaseInsensitive.EquivalentIsEqual | src/Utility.h:6-41 | neither `a < b` nor `b < a` under `operator()` holds iff `equal(a, b)` holds, both directions |
| CaseInsensitive.LessIrreflexive | src/Utility.h:6-23 | `operator()` is irreflexive |
| CaseInsensitive.LessTransitive | src/Utility.h:6-23 | `operator()` is transitive |
| CaseInsensitive.EqualNotLess | src/Utility.h:6-41 | strings that are `equal` are not ordered either way |
| CaseInsensitive.EqualReflexiveSymmetric | src/Utility.h:25-41 | `equal` is reflexive and symmetric |
| CaseInsensitive.LexLessFirstDifference | src/Utility.h:13-22 | the first differing lowered character decides; with none, the shorter string is less |
| BasicTypes.Memcmp | src/rdiff/BasicTypes.h:22 | `memcmp` of equal-length digests is -1, 0 or 1, and 0 exactly when the digests are equal |
| BasicTypes.MemcmpAntisymmetric | src/rdiff/BasicTypes.h:22 | swapping the digests negates `memcmp` |
| BasicTypes.MemcmpTransitive | src/rdiff/BasicTypes.h:22 | `memcmp` below zero is transitive |
| BasicTypes.Less | src/rdiff/BasicTypes.h:17-28 | the rolling checksum is the primary key: a smaller checksum is always less, a less item never has a larger checksum, and no item is less than itself |
| BasicTypes.LessIsLexicographic | src/rdiff/BasicTypes.h:17-28 | `operator<` orders by rolling checksum, then digest bytewise, then file offset, both directions |
| BasicTypes.LessIrreflexive | src/rdiff/BasicTypes.h:17-28 | no table item is less than itself |
| BasicTypes.LessTransitive | src/rdiff/BasicTypes.h:17-28 | `operator<` is transitive |
| BasicTypes.LessTotal | src/rdiff/BasicTypes.h:17-28 | distinct items are ordered one way or the other |
| BasicTypes.LessIsStrictOrder | src/rdiff/BasicTypes.h:17-28 | `operator<` is a strict total order, as `std::sort` needs |
| BasicTypes.SortedChecksums | src/rdiff/BasicTypes.h:18-21 | in a sorted table, checksums never decrease |
| BasicTypes.SortedDigests | src/rdiff/BasicTypes.h:22-26 | among equal checksums, digests never decrease |
| BasicTypes.SortedOffsets | src/rdiff/BasicTypes.h:27 | among equal checksums and digests, offsets never decrease |
| BasicTypes.GetLength | src/rdiff/BasicTypes.h:43-47 | `get_length` is below 2^63 and is the length word with bit 63 cleared |
| BasicTypes.CopyFromOld | src/rdiff/BasicTypes.h:34-36 | `copy_from_old()` holds exactly when bit 63 is set, i.e. the length word is at least 2^63 |
| BasicTypes.SetCopyFromOld | src/rdiff/BasicTypes.h:34-42 | afterwards `copy_from_old()` is `x`, while `get_length()` and the offset are unchanged |
| BasicTypes.SetCopyFromOldIdempotent | src/rdiff/BasicTypes.h:37-42 | setting the flag twice is setting it once; setting it to its current value changes nothing |
| BasicTypes.CommandFields | src/rdiff/BasicTypes.h:31-47 | a command is determined by its offset, its flag and its length |
| RollingChecksum.PackHalves | src/RollingChecksum.cpp:21-23 | `a \| (b << 16)` of two 16-bit halves gives them back under `& 0xFFFF` and `>> 16` |
| RollingChecksum.ChecksumHalves | src/RollingChecksum.cpp:12-24 | the checksum's low half is the byte sum and its high half the weighted sum, each modulo 2^16 |
| RollingChecksum.SumAConcat | src/RollingChecksum.cpp:16-18 | the byte sum of two blocks laid end to end is the sum of their byte sums |
| RollingChecksum.WeightedConcat | src/RollingChecksum.cpp:16-19 | the weighted sum of two blocks end to end is the first's plus the second's with weights lowered by the first's length |
| RollingChecksum.WeightedShift | src/RollingChecksum.cpp:19 | raising every weight by one adds the byte sum |
| RollingChecksum.AccumulateStep | src/RollingChecksum.cpp:18-19 | one step of the 32-bit wrapping sums, with the `size_t` weight cast to 32 bits, agrees with the unbounded sums modulo 2^32 |
| RollingChecksum.AccumulateInvariant | src/RollingChecksum.cpp:16-20 | the loop invariant of the accumulation survives one more byte |
| RollingChecksum.Accumulate | src/RollingChecksum.cpp:16-20 | the loop leaves `a` and `b` equal to their start values plus the byte sum and the weighted sum of the first `count` bytes, modulo 2^32 |
| RollingChecksum.PackResidues | src/RollingChecksum.cpp:21-23 | masking the 32-bit sums to 16 bits and packing them gives the packed 16-bit residues of the sums |
| RollingChecksum.ComputeChecksum | src/RollingChecksum.cpp:12-24 | the whole-block overload returns `a \| (b << 16)` with `a` the byte sum and `b` the sum weighted `size - i + 1`, both modulo 2^16 |
| RollingChecksum.PackAccumulated | src/RollingChecksum.cpp:28-37 | sums accumulated onto the halves of `previous` and masked pack into the piece checksum |
| RollingChecksum.ComputePieceChecksum | src/RollingChecksum.cpp:26-38 | the piece overload starts from the halves of `previous`, weighs byte `i` by `logical_size - (i + offset) + 1`, and returns the packed residues |
| RollingChecksum.Indexed | src/RollingChecksum.cpp:43 | reading a ring through `operator[]` for `0 .. size - 1` gives its logical contents |
| RollingChecksum.RingChecksum | src/RollingChecksum.cpp:40-44 | the CircularBuffer overload is the checksum of the ring's logical contents, single-piece or not |
| RollingChecksum.RingPieceChecksum | src/RollingChecksum.cpp:46-50 | the CircularBuffer piece overload is the piece checksum of the ring's logical contents, single-piece or not |
| RollingChecksum.Subtract | src/RollingChecksum.cpp:52-62 | removing a byte lowers the low half by the byte and the high half by the byte times `size + 1`, each modulo 2^16 |
| RollingChecksum.Add | src/RollingChecksum.cpp:64-73 | appending a byte raises the low half by the byte, and the high half by the new low half plus the byte, each modulo 2^16 |
| RollingChecksum.SubtractLowHalf | src/RollingChecksum.cpp:53-57 | adding 0x10000, subtracting the byte and masking gives the byte sum less that byte, modulo 2^16 |
| RollingChecksum.SubtractHighHalf | src/RollingChecksum.cpp:54-60 | adding 0xFFFF0000 and subtracting `byte * (size + 1)` in 32 bits gives the weighted sum less that term, modulo 2^16 |
| RollingChecksum.SubtractRolls | src/RollingChecksum.cpp:52-62 | subtracting the first byte of `w` from the checksum of `w` gives the checksum of the rest of `w` |
| RollingChecksum.AddRolls | src/RollingChecksum.cpp:64-73 | adding a byte `c` to the checksum of `w` gives the checksum of `w + [c]`, whatever size is passed |
| RollingChecksum.AddOnSums | src/RollingChecksum.cpp:65-72 | on the two sums, adding `x` turns the residues of `sumA` and `weighted` into those of `sumA + x` and `weighted + sumA + 2x` |
| RollingChecksum.PiecesChain | src/RollingChecksum.cpp:26-38 | feeding one piece's checksum as `previous` into the next piece at the next offset gives the checksum of the two pieces in one pass |
| RollingChecksum.AccumulateTwice | src/RollingChecksum.cpp:28-37 | accumulating two pairs of sums one after the other is accumulating their totals |
| RollingChecksum.WholeAsPiece | src/RollingChecksum.cpp:12-38 | the piece form with `previous = 0`, `offset = 0` and `logical_size = n` is the whole-block checksum |
| CircularBuffers.PushedBytes | src/rdiff/CircularBuffer.h:48-56 | `push_buffer` stores `k` bytes; without wrap-around they are the first `k` bytes of the input (with wrap-around the second copy starts again at the front of the input) |
| CircularBuffers.RingView | src/rdiff/CircularBuffer.h:12-16 | the logical contents of a ring hold exactly `size` bytes |
| CircularBuffers.Written | src/rdiff/CircularBuffer.h:51-56 | the memcpy calls of `push_buffer` keep the array's length |
| CircularBuffers.RingAfterPush | src/rdiff/CircularBuffer.h:48-58 | after `push_buffer` writes at slot `(start + size) % capacity`, the logical contents are the old ones followed by the bytes stored |
| CircularBuffers.SpansSpellRing | src/rdiff/CircularBuffer.h:35-42 | the one span, or the two spans, `process_whole` hands out spell the ring's logical contents |
| CircularBuffers.PushedTwiceNoWrap | src/rdiff/CircularBuffer.h:48-58 | two pushes that do not wrap store the prefix of the two inputs laid end to end |
| CircularBuffers.PushPieces | src/rdiff/CircularBuffer.h:59-62 | pushing both pieces of a source ring grows `dst` by `min(total, room)`, keeps its old contents as a prefix and, without wrap-around, appends the source bytes in order |
| CircularBuffers.PushBoth | src/rdiff/CircularBuffer.h:59-61 | the two `push_buffer` calls of `pop_buffer`'s callback, one after the other |
| CircularBuffers.TwoPushes | src/rdiff/CircularBuffer.h:48-58 | two successive pushes accept `min(\|first\| + \|second\|, room)` bytes, keep the old contents as a prefix, and append the bytes in order when nothing wraps |
| CircularBuffers.FinishPushPieces | src/rdiff/CircularBuffer.h:48-58 | the last step of `TwoPushes`: the old contents stay a prefix, and without wrap the pieces are the front of the joined input |
| CircularBuffers.CircularBuffer.Contents | src/rdiff/CircularBuffer.h:74-79 | the logical contents hold `size` bytes |
| CircularBuffers.CircularBuffer.constructor | src/rdiff/CircularBuffer.cpp:11-13 | a new ring has capacity, and size, `initial_size`, with start 0, so it counts as full |
| CircularBuffers.CircularBuffer.Realloc | src/rdiff/CircularBuffer.cpp:19-26 | `realloc(n)` leaves capacity `n`, size `n` and start 0, and replaces the array only when the capacity changes |
| CircularBuffers.CircularBuffer.Reset | src/rdiff/CircularBuffer.cpp:45-48 | `reset` makes the ring full from slot 0 |
| CircularBuffers.CircularBuffer.Pop | src/rdiff/CircularBuffer.cpp:28-36 | on an empty ring `pop` returns 0 and changes nothing; otherwise it returns the first byte, advances start modulo the capacity and drops that byte from the contents |
| CircularBuffers.CircularBuffer.Push | src/rdiff/CircularBuffer.cpp:38-43 | on a full ring `push` returns 0 and changes nothing; otherwise it returns the byte and appends it to the contents |
| CircularBuffers.CircularBuffer.ProcessWhole | src/rdiff/CircularBuffer.h:35-42 | one span from `start` iff `start + size <= capacity`, else two spans, the second from slot 0; both lie inside the array and cover `size` bytes while start is below the capacity |
| CircularBuffers.CircularBuffer.PiecesSpellContents | src/rdiff/CircularBuffer.h:35-42 | the spans, read in order, are the logical contents |
| CircularBuffers.CircularBuffer.PopBuffer | src/rdiff/CircularBuffer.h:59-65 | `pop_buffer` moves `min(total, room)` bytes: what `dst` gains this ring loses, `start` grows by the same count without any modulo, and without wrap `dst` receives this ring's first bytes in order |
| CircularBuffers.CircularBuffer.CopyPieces | src/rdiff/CircularBuffer.h:35-42 | the bytes of the spans, joined, are the logical contents |
| CircularBuffers.CircularBuffer.PushBuffer | src/rdiff/CircularBuffer.h:48-58 | `push_buffer` accepts `min(n, capacity - size)` bytes, grows size by exactly that, and appends the bytes it stored |
| CircularBuffers.CircularBuffer.Trim | src/rdiff/CircularBuffer.h:66-70 | `trim(n)` sets size to `n` only when `n <= size`, keeping the first bytes, and otherwise changes nothing |
| CircularBuffers.CircularBuffer.ResetSize | src/rdiff/CircularBuffer.h:71-73 | `reset_size` empties the ring and leaves start alone |
| CircularBuffers.CircularBuffer.At | src/rdiff/CircularBuffer.h:77-79 | `operator[](i)` reads logical byte `i % size`, so logical byte `i` when `i < size` |
| CircularBuffers.CircularBuffer.ContiguousWhenSingle | src/rdiff/CircularBuffer.h:43-45 | for a single-piece ring, the `size` bytes from `data()` are the logical contents |
| Queues.Wrap | src/System/Threads.h:46-47 | an index below twice the capacity is brought back below the capacity |
| Queues.WrapIsRemainder | src/System/Threads.h:46-47 | on those indices the wrap is `% capacity` |
| Queues.RingContents | src/System/Threads.h:21-25 | the queued elements are `size` slots read from the head around the ring |
| Queues.RingPush | src/System/Threads.h:46-48 | writing the slot after the last element and growing the size appends the element |
| Queues.RingPop | src/System/Threads.h:66-68 | moving the head one slot on and shrinking the size drops the first element |
| Queues.CircularQueue.Contents | src/System/Threads.h:21-25 | the queue holds exactly `size` elements |
| Queues.CircularQueue.constructor | src/System/Threads.h:33-39 | a new queue is empty, with `max_size` slots |
| Queues.CircularQueue.TryPush | src/System/Threads.h:40-59 | `try_push` succeeds iff the size is below the capacity; success appends the element, failure changes nothing |
| Queues.CircularQueue.TryPop | src/System/Threads.h:60-79 | `try_pop` succeeds iff the queue is not empty; success yields the oldest element and drops it, failure leaves `dst` and the queue as they were |
| Queues.FirstInFirstOut | src/System/Threads.h:40-79 | two elements pushed into an empty queue come out in the order they went in, leaving it empty |
| BinarySearch.FirstSignAtLeast | src/rdiff/BinarySearch.h:36-50 | the first index of the range whose sign of `f` reaches a given value, with every index before it below that sign |
| BinarySearch.PartitionOf | src/rdiff/BinarySearch.h:37-41 | when the signs of `f` never decrease over the range, the range splits into a negative, a zero and a positive part |
| BinarySearch.TripleSearch | src/rdiff/BinarySearch.h:51-128 | `triple_search` finds exactly the zero part `[p, q)` when it is not empty; returns `begin` when everything is positive and `end` when everything is negative; any bound it sets is the true one |
| BinarySearch.FindZero | src/rdiff/BinarySearch.h:77-97 | the first bisection keeps a negative (or initial) lower bound and a positive (or final) upper bound, and stops either at a zero strictly between them or with the bounds adjacent |
| BinarySearch.LowerEdge | src/rdiff/BinarySearch.h:102-113 | bisecting between a negative element and a zero returns the first zero |
| BinarySearch.UpperEdge | src/rdiff/BinarySearch.h:115-127 | bisecting between a zero and a positive element (or the end) returns the index after the last zero |
| BinarySearch.UnboundedBinarySearch | src/rdiff/BinarySearch.h:10-34 | `unbounded_binary_search` returns `initial` when `f(initial)` holds; otherwise it finds something exactly when one of the galloping probes `initial + 2^k` that stays below 2^64 satisfies `f`, and gives up with `initial` once a probe wraps first; any other result is above `initial`, satisfies `f` and follows a value that does not, and for a monotone `f` it is the first value that does |
| BinarySearch.MonotoneProbeHits | src/rdiff/BinarySearch.h:14-19 | for a monotone `f`, an in-range probe at or above a true index satisfies `f`, so the search finds any boundary no higher than the last probe below 2^64 |
| BoundedFilters.FirstEof | src/BoundedStreamFilter.cpp:13-18 | the position of the first Eof segment: none before it, and the segment there is an Eof unless the input ran out |
| BoundedFilters.ThroughEof | src/BoundedStreamFilter.cpp:13-21 | the segments up to and including the first Eof, or all of them when there is none |
| BoundedFilters.DataSizeAppend | src/BoundedStreamFilter.cpp:19 | the data size of joined segment runs is the sum of their sizes |
| BoundedFilters.ByteCounterOutputFilter.constructor | src/BoundedStreamFilter.h:46-48 | the counter starts at zero and nothing has been written |
| BoundedFilters.ByteCounterOutputFilter.Work | src/BoundedStreamFilter.cpp:12-22 | every segment through the first Eof is passed on unchanged, and the counter grows by the data size of the segments before the Eof |
| BoundedFilters.ClassicByteCounter.constructor | src/BoundedStreamFilter.h:16-18 | the counter is the caller's, and nothing has been forwarded |
| BoundedFilters.ClassicByteCounter.Write | src/BoundedStreamFilter.h:19-22 | `write` adds `n` to the counter, forwards the bytes unchanged and returns what the next stage returns |
| BoundedFilters.Bounded | src/BoundedStreamFilter.cpp:24-50 | the bounded stage never writes more segments than it reads |
| BoundedFilters.BoundedWithinBudget | src/BoundedStreamFilter.cpp:32-36 | Eof aside, the data passed on never exceeds the simulated length still available |
| BoundedFilters.BoundedShape | src/BoundedStreamFilter.cpp:24-50 | the output is a prefix of the input's data segments, unchanged and with no Eof among them, closed by an Eof (the one read or a fresh one), unless the whole input passed |
| BoundedFilters.PassedWholeIffFits | src/BoundedStreamFilter.cpp:32-37 | a data segment is passed on whole iff its size fits the budget left |
| BoundedFilters.BoundedUnfold | src/BoundedStreamFilter.cpp:26-42 | one turn of the loop: an Eof is passed and ends it, a segment that fits is passed and the budget shrinks by its size, a segment that does not fit is replaced by an Eof |
| BoundedFilters.BoundedAdvance | src/BoundedStreamFilter.cpp:26-42 | the same turn, stated for the whole output once `i` segments have been accounted for |
| BoundedFilters.BoundedInputFilter.constructor | src/BoundedStreamFilter.h:56-59 | nothing read yet, the simulated length as given |
| BoundedFilters.BoundedInputFilter.Work | src/BoundedStreamFilter.cpp:24-50 | `work` writes exactly `Bounded` of its input with the length left, and when it replaces a data segment by an Eof the bytes read reach the simulated length |
| BoundedFilters.BoundedWork | src/BoundedStreamFilter.cpp:25-49 | the loop writes `Bounded` of the input with the length left, consumes no more than it was given, and ends with the count at the simulated length when it cuts the stream |
| Composing.ComposingInputFilter.constructor | src/ComposingFilter.cpp:10 | no current stream; the coroutine's streams are all still to come |
| Composing.ComposingInputFilter.NextStream | src/ComposingFilter.cpp:17-24 | taking the next stream succeeds iff the coroutine has one left; the bytes still to be read do not change |
| Composing.ComposingInputFilter.ReadCurrent | src/ComposingFilter.cpp:25-31 | reading the current stream yields `min(n, what it holds)` bytes from its front, and the stream is dropped iff it could not deliver all `n` |
| Composing.ComposingInputFilter.Read | src/ComposingFilter.cpp:12-34 | `read(s, n)` delivers the next `min(n, remaining)` bytes of the streams laid end to end and consumes exactly those; it returns -1 iff `n > 0` and nothing remained, otherwise the count delivered |
| Composing.ReadSplit | src/ComposingFilter.cpp:12-34 | two reads of `a` and `b` bytes deliver what one read of `a + b` bytes would |
| Pipes.TakePadded | src/StreamAdaper.cpp:41-43 | `n` bytes copied from the start of the front chunk, never from the offset |
| Pipes.DumbPipe.constructor | src/StreamAdaper.cpp:23 | no chunks and offset 0 |
| Pipes.DumbPipe.Write | src/StreamAdaper.cpp:24-28 | `write` appends one chunk holding exactly the bytes and returns their count |
| Pipes.DumbPipe.StepSize | src/StreamAdaper.cpp:41 | one step takes `min(front size - offset, n)` bytes, and all `n` when the offset already exceeds the front chunk (the unsigned subtraction wraps) |
| Pipes.DumbPipe.Read | src/StreamAdaper.cpp:29-52 | `read` returns -1 only with nothing read and the pipe empty after the callback, otherwise the count read, which is `n` unless the pipe ran dry; a read that the front chunk can serve copies its first `n` bytes, advances the offset and drops the chunk once the offset reaches its size; an empty pipe whose callback writes nothing gives -1 |
| Pipes.EmptyReadFails | src/StreamAdaper.cpp:33-39 | an empty pipe whose callback adds nothing reads as -1 |
| Pipes.SameLengthChunkSkipped | src/StreamAdaper.cpp:44-46 | the offset is not reset when a chunk is dropped, so a second chunk of the same length is skipped and the read fails |
| Pipes.PartialReadsRepeat | src/StreamAdaper.cpp:43 | two partial reads of one chunk both return its first bytes, because the copy ignores the offset |
| FileComparers.SimpleBuffer.Bytes | src/rdiff/FileComparer.h:15-19 | a simple buffer holds `size` bytes |
| FileComparers.SimpleBuffer.constructor | src/rdiff/FileComparer.h:20-22 | a new buffer is empty with the capacity asked for |
| FileComparers.SimpleBuffer.Realloc | src/rdiff/FileComparer.cpp:17-26 | `realloc` leaves the capacity asked for and an empty buffer, and keeps the storage when the capacity is unchanged |
| FileComparers.SimpleBuffer.Append | src/rdiff/FileComparer.cpp:276-279 | `min(room, bytes left)` bytes are taken from `pos` and appended to those held |
| FileComparers.SimpleBuffer.IsAllocated | src/rdiff/FileComparer.h:26-28 | `operator bool` holds iff the capacity is not 0 |
| FileComparers.SimpleBuffer.Full | src/rdiff/FileComparer.h:32-34 | `full()` holds iff no room is left |
| FileComparers.SimpleBuffer.CopyPiece | src/rdiff/FileComparer.cpp:39-42 | one piece of a ring is appended to the bytes held |
| FileComparers.SimpleBuffer.AssignFrom | src/rdiff/FileComparer.cpp:36-43 | assigning a ring leaves exactly the ring's contents, oldest byte first, in a buffer of the ring's size |
| FileComparers.SimpleBuffer.CopyRing | src/rdiff/FileComparer.cpp:38-42 | copying the ring's pieces in turn into an empty buffer yields the ring's contents |
| FileComparers.UnsignedCmp | src/rdiff/FileComparer.cpp:45-52 | `unsignedcmp` is negative, zero or positive exactly as `a` is below, equal to or above `b` |
| FileComparers.IncreaseLast | src/rdiff/FileComparer.cpp:108-109 | growing the last command's length leaves the other commands and its offset alone and adds the increment to the total length, modulo 2^63 |
| FileComparers.Comparer.constructor | src/rdiff/FileComparer.cpp:54-56 | the comparer starts with an empty result list |
| FileComparers.Comparer.ReadMoreData | src/rdiff/FileComparer.h:69-70 | each call of `read_more_data` yields the next outcome given, and false once they run out |
| FileComparers.Comparer.Search | src/rdiff/FileComparer.h:73 | each call of `search` yields the next outcome given; a match sets `old_offset`, no match leaves it alone |
| FileComparers.Comparer.Process | src/rdiff/FileComparer.cpp:58-69 | `process` always reaches Final, and the command lengths then add up to the new offset, modulo 2^63 |
| FileComparers.Comparer.StateInitial | src/rdiff/FileComparer.cpp:86-95 | both offsets restart at 0; no data gives Final, a first search that matches gives Matching with `old_offset` set, anything else NonMatching |
| FileComparers.Comparer.StateMatching | src/rdiff/FileComparer.cpp:97-123 | `state_Matching` appends at least one command, the first at the old offset, keeps the earlier commands, and moves to Final or NonMatching; every appended command is a copy run (flag set, then 1 to reads+1 blocks added), so while that many blocks fit in 63 bits each has `copy_from_old()` and a length of at least one block |
| FileComparers.Comparer.ExtendCopy | src/rdiff/FileComparer.cpp:106-121 | after `m` steps the last command's length word has grown by exactly `m` blocks (mod 2^64); every step but the last read data and matched exactly where the command ends; it repeats (`again`) iff the last step matched and the match lies elsewhere; it ends Final iff the data ran out at step `m`, NonMatching only when search `m` found nothing |
| FileComparers.Comparer.StateNonMatching | src/rdiff/FileComparer.cpp:125-144 | `state_NonMatching` appends one command at the new offset and keeps the earlier ones; after `m` steps both the new offset and that command have grown by `m` bytes, so (for `m < 2^63`) its flag is clear and its length is exactly the bytes advanced; every step but the last read data and matched nothing; Final iff the data ran out at step `m`, Matching only when search `m` matched |
| FileComparers.Comparer.ExtendLiteral | src/rdiff/FileComparer.cpp:133-143 | the do-while loop grows the new offset and the last command by one byte per step, `m` steps, stopping exactly at the first step whose read fails (Final) or whose search matches (Matching) |
| FileComparers.Comparer.GrowLast | src/rdiff/FileComparer.cpp:107-109 | one matching step adds the increment to the new offset and grows the last command one more `Grown` step, leaving the earlier commands alone |
| FileComparers.GrowStep | src/rdiff/FileComparer.cpp:107-109 | one more increment of the 64-bit length word is one more step of `Grown` |
| FileComparers.CopyRunFlag | src/rdiff/FileComparer.cpp:99-109 | a command pushed with the copy flag and grown by at most `bound` blocks keeps the flag and holds at least one block, when `bound` blocks fit in 63 bits |
| FileComparers.LiteralRunFlag | src/rdiff/FileComparer.cpp:126-136 | a command pushed without the flag and grown by `m < 2^63` single bytes keeps the flag clear and has length `m` |
| FileComparers.Comparer.PushCommand | src/rdiff/FileComparer.cpp:99-103 | an empty command is appended to the result list |
| FileComparers.Comparer.Advance | src/rdiff/FileComparer.cpp:107-109 | the new offset and the last command's length both grow by the increment, modulo 2^64, and nothing else in the list changes |
| FileComparers.Comparer.GetResult | src/rdiff/FileComparer.h:83-87 | `get_result` returns the list and leaves none behind |
| FileComparers.ChecksumSignsSorted | src/rdiff/FileComparer.cpp:200-202 | over the sorted old table the checksum comparison never falls, so `triple_search` applies |
| FileComparers.MemcmpSignMonotone | src/rdiff/FileComparer.cpp:212-214 | comparing against one digest keeps the order of `memcmp` |
| FileComparers.DigestSignsSorted | src/rdiff/FileComparer.cpp:212-214 | inside the run of one checksum the digest comparison never falls |
| FileComparers.OffsetSignsSorted | src/rdiff/FileComparer.cpp:222-224 | inside the run of one checksum and digest the offset comparison never falls |
| FileComparers.MatchRun | src/rdiff/FileComparer.cpp:200-216 | the two nested zero runs are exactly the table entries matching both the checksum and the digest |
| FileComparers.FirstOffsetLeast | src/rdiff/FileComparer.cpp:217-221 | the first entry of that run has the least offset of all matching entries |
| FileComparers.PickOffset | src/rdiff/FileComparer.cpp:217-228 | the offset chosen belongs to a matching entry: the target when `offset_valid` and an entry lies there, else the least offset among matches |
| FileComparers.FileComparer.constructor | src/rdiff/FileComparer.cpp:146-155 | a one-byte window, nothing collected, and a collecting buffer whose capacity is the block size `scaler_function` picks for the file size |
| FileComparers.FileComparer.ProcessNewBuffer | src/rdiff/FileComparer.cpp:286-296 | a full or forced buffer joins the queue with its bytes and a fresh empty one of the same capacity replaces it; otherwise nothing changes; the bytes collected so far never change |
| FileComparers.FileComparer.AddByte | src/rdiff/FileComparer.cpp:265-268 | the byte is appended to the bytes collected |
| FileComparers.FileComparer.AddBytes | src/rdiff/FileComparer.cpp:274-284 | all the bytes are appended, in order, to the bytes collected |
| FileComparers.FileComparer.Fill | src/rdiff/FileComparer.cpp:276-280 | one round takes `min(room, bytes left)` bytes, at least one, and appends them to the bytes collected |
| FileComparers.FileComparer.AddWindow | src/rdiff/FileComparer.cpp:270-272 | the window's contents are appended to the bytes collected |
| FileComparers.FileComparer.ReadAnotherByte | src/rdiff/FileComparer.cpp:243-253 | succeeds iff input remains; then the byte read is the next input byte and is collected, else the byte is 0xFF and nothing is collected |
| FileComparers.FileComparer.NonMatchingReadMoreData | src/rdiff/FileComparer.cpp:178-190 | the window drops its oldest byte and takes the next input byte, which is collected; at the end of input it only shrinks and the result is false iff it is empty; in both cases the checksum is that of the new window |
| FileComparers.FileComparer.Search | src/rdiff/FileComparer.cpp:192-229 | `search` finds a match iff some old-table entry has the window's checksum and digest; the offset set belongs to such an entry: the target when `offset_valid` and an entry lies there, else the least matching offset; no match leaves it alone |
| Commands.Is | src/LineProcessor.cpp:42 | `strcmpci::equal` of a token and a keyword without NUL holds iff the two are equal ignoring case |
| Commands.FirstMatch | src/LineProcessor.cpp:49-51 | the index of the first keyword the token matches, with none before it, or none at all |
| Commands.IteratePairArray | src/LineProcessor.cpp:47-56 | `iterate_pair_array` runs the handler of the first matching key, and only when another token follows |
| Commands.Narrow | src/LineProcessor.cpp:129-135 | `to_string` keeps the length and each character's low 8 bits |
| Commands.SubDispatchArgs | src/LineProcessor.cpp:52-53 | a second-level handler receives the tokens after its keyword, and there is at least one |
| Commands.ArgumentsContain | src/LineProcessor.cpp:139 | a lookup in the argument set succeeds iff some argument equals the string, ignoring case |
| Commands.LineProcessor.InArgumentSet | src/LineProcessor.cpp:10-11 | the argument set contains a string iff some argument equals it ignoring case |
| Commands.LineProcessor.constructor | src/LineProcessor.cpp:5-14 | the arguments are those after the program name, in order; the mode is Pipe iff one of them is `--pipe` ignoring case; no version is selected |
| Commands.LineProcessor.Process | src/LineProcessor.cpp:31-45 | the loop reads lines until the input ends or a line's first token is `quit` ignoring case, and stops at the first such line |
| Commands.LineProcessor.ProcessGroup | src/LineProcessor.cpp:88-127 | `process_exclude`, `process_select`, `process_show` and `process_set` run the handler of the first matching key with the tokens after it |
| Commands.LineProcessor.ProcessLine | src/LineProcessor.cpp:58-75 | `process_line` runs exactly the handler the line's keywords select, as `Dispatch` defines it |
| Commands.LineProcessor.ProcessIf | src/LineProcessor.cpp:137-142 | `process_if` runs the rest of the line iff its narrowed first token is in the argument set |
| Commands.LineProcessor.UnknownWordRunsNothing | src/LineProcessor.cpp:49-51 | a line whose first word matches no command runs nothing |
| Commands.LineProcessor.HandlersReceiveTokens | src/LineProcessor.cpp:52-53 | every handler run receives at least one token, and fewer than the line had |
| Commands.LineProcessor.OpenDispatch | src/LineProcessor.cpp:64 | `OPEN path` selects the open handler with `path`, whatever the case of the keyword |
| MemoryStreams.ByteVector.constructor | src/MemoryStream.h:13 | the shared byte vector holds the bytes given |
| MemoryStreams.MemorySource.constructor | src/MemoryStream.h:16 | a source starts at offset 0 of its vector |
| MemoryStreams.MemorySource.Read | src/MemoryStream.cpp:11-18 | `read` returns -1 and changes nothing once the offset has reached the end; otherwise it returns the next `min(n, size - offset)` bytes and moves the offset past them, never beyond the end |
| MemoryStreams.MemorySink.constructor | src/MemoryStream.h:23 | a sink writes into the vector given |
| MemoryStreams.MemorySink.Write | src/MemoryStream.cpp:20-25 | `write` appends exactly the bytes given and returns their count |
| MemoryStreams.ReadToEnd | src/MemoryStream.cpp:11-18 | reading in chunks until -1 yields every byte from the offset on and leaves the offset at the end |
| MemoryStreams.WriteThenRead | src/MemoryStream.cpp:11-25 | whatever a sink writes into an empty vector, in whatever pieces, a source over it reads back in order |
| Timestamps.OpaqueTimestamp.constructor | src/serialization/OpaqueTimestamp.cpp:14 | a default timestamp is 0 |
| Timestamps.OpaqueTimestamp.UtcNow | src/serialization/OpaqueTimestamp.cpp:11-19 | `utc_now` holds the clock's high half in the upper 32 bits and its low half in the lower 32, and both come back unchanged |
| Timestamps.OpaqueTimestamp.Assign | src/serialization/OpaqueTimestamp.cpp:21-23 | assignment sets the count |
| Timestamps.OpaqueTimestamp.Equals | src/serialization/OpaqueTimestamp.cpp:24-26 | `operator==` holds for a timestamp and itself |
| Timestamps.OpaqueTimestamp.EqualsIsEquivalence | src/serialization/OpaqueTimestamp.cpp:24-26 | `operator==` is symmetric and transitive |
| Timestamps.OpaqueTimestamp.NotEquals | src/serialization/OpaqueTimestamp.cpp:24-30 | `operator!=` is the negation of `operator==` |
| Timestamps.NowEqualIffSameReading | src/serialization/OpaqueTimestamp.cpp:11-26 | two timestamps from `utc_now` are equal iff the clock readings were |
| Timestamps.AssignThenCompare | src/serialization/OpaqueTimestamp.cpp:21-30 | an assigned timestamp equals another iff that one holds the assigned count, and `!=` says the opposite |
| Progress.Gathered | src/ProgressFilter.h:62-71 | the bytes the reads delivered: at most `length`, and exactly `length` unless the source ended |
| Progress.ProgressFilter.constructor | src/ProgressFilter.h:29-31 | the step size is `size / steps`, no step has been reported, and the filter is usable iff `size >= steps` |
| Progress.ProgressFilter.Update | src/ProgressFilter.h:20-27 | `update` adds the length to the total; the callback is called with the new total exactly when it reaches a step past the last one reported, which then becomes the last |
| Progress.ProgressFilter.Write | src/ProgressFilter.h:38-48 | `write` hands every byte on, in order, returns their number and updates the progress by it |
| Progress.ProgressFilter.Read | src/ProgressFilter.h:59-74 | `read` delivers the bytes the reads gathered, returns -1 iff nothing arrived and the source ended, else the count, and updates the progress by it |
| Progress.ReadAll | src/ProgressFilter.h:60-71 | the read loop yields exactly the gathered bytes, and notes the end iff the source reported it |
| Progress.GatheredStep | src/ProgressFilter.h:63-70 | one read taken off the front: its bytes appended to those before, the rest still adds up to the total |
| Progress.ReportsBounded | src/ProgressFilter.h:20-31 | while the total stays within `size`, the callback has been called fewer than twice `steps` times |
| Progress.StepsBelowTwice | src/ProgressFilter.h:22-30 | a total within `size` lies in a step below twice `steps` when a step is `size / steps` bytes |
| RsyncableFiles.BlocksPerFile | src/rdiff/RsyncableFile.h:42-44 | `blocks_per_file` is the rounded-up quotient: that many blocks cover the file and one fewer do not, while the rounding addition does not wrap |
| RsyncableFiles.CeilingQuotient | src/rdiff/RsyncableFile.h:43 | `(s + b - 1) / b` is the ceiling of `s / b` |
| RsyncableFiles.FitsAt43 | src/rdiff/RsyncableFile.h:17-23 | blocks of 2^43 bytes always fit the 64 MiB table limit, so the scaler's loop stops |
| RsyncableFiles.ScalerFunction | src/rdiff/RsyncableFile.h:17-23 | `scaler_function` returns the least power of two from 512 whose table for the file fits in 64 MiB |
| RsyncableFiles.DoubleScale | src/rdiff/RsyncableFile.h:20-21 | a block size that does not fit yet is below 2^43, so the 64-bit shift doubles it without wrapping |
| RsyncableFiles.ScaleReached | src/rdiff/RsyncableFile.h:20-22 | the first size that fits is the scale, and it is at least 512 |
| RsyncableFiles.ScaleUnique | src/rdiff/RsyncableFile.h:17-23 | a file size has one scale |
| RsyncableFiles.FitsMonotone | src/rdiff/RsyncableFile.h:20 | a smaller file fits wherever a larger one does |
| RsyncableFiles.ScalerMonotone | src/rdiff/RsyncableFile.h:17-23 | `scaler_function` never decreases as the file size grows, for sizes where the rounding addition cannot wrap |
| RsyncableFiles.BuildTable | src/rdiff/RsyncableFile.cpp:28-41 | one table entry per block, with its checksum, its digest, and as offset the sum of the earlier block sizes modulo 2^64 |
| RsyncableFiles.RsyncableFile.FromFile | src/rdiff/RsyncableFile.cpp:17-45 | the block size is the scale of the file size, the digest is that of all the blocks, and the table is sorted and a permutation of the per-block entries, with the bitmap built |
| RsyncableFiles.RsyncableFile.FromComparer | src/rdiff/RsyncableFile.cpp:47-52 | the comparer's table, digest and block size are copied, with the bitmap built |
| RsyncableFiles.RsyncableFile.InitBitmap | src/rdiff/RsyncableFile.cpp:54-58 | the bitmap has 2^24 slots, set exactly at the low 24 bits of some table checksum, and the rest of the object is unchanged |
| RsyncableFiles.RsyncableFile.DoesNotContain | src/rdiff/RsyncableFile.cpp:69-71 | `does_not_contain(x)` holds iff no table checksum shares `x`'s low 24 bits |
| RsyncableFiles.RsyncableFile.NoFalseNegatives | src/rdiff/RsyncableFile.cpp:69-71 | a checksum in the table is never ruled out |
| RsyncableFiles.RsyncableFile.GetTable | src/rdiff/RsyncableFile.h:27-35 | `get_table` gives a null range iff the table is empty, and otherwise a range of exactly the table's entries |
| Streams.Buffer.constructor | src/StreamProcessor.cpp:226 | a new buffer holds the requested number of zero bytes |
| Streams.Pipeline.constructor | src/StreamProcessor.cpp:205-207 | a new pipeline has an empty buffer pool |
| Streams.Pipeline.AllocateBuffer | src/StreamProcessor.cpp:217-227 | `allocate_buffer` takes the most recently released buffer off the pool, or makes a fresh one of the default size when the pool is empty |
| Streams.Pipeline.ReleaseBuffer | src/StreamProcessor.cpp:229-232 | `release_buffer` puts the buffer on top of the pool |
| Streams.ReleaseThenAllocate | src/StreamProcessor.cpp:217-232 | a buffer released and then allocated is the same buffer, and the pool is as before |
| Streams.Segment.OfType | src/StreamProcessor.cpp:71 | a segment of a given type has no pool, no buffer and empty windows |
| Streams.Segment.FromPipeline | src/StreamProcessor.cpp:64-68 | a pipeline segment takes a buffer from the pool, and both windows cover the whole buffer |
| Streams.Segment.Flush | src/StreamProcessor.cpp:70-74 | `construct_flush` makes a Flush segment that carries the callback |
| Streams.Segment.Offset | src/StreamProcessor.cpp:53 | the offset is where the visible window starts within the default one |
| Streams.Segment.SkipBytes | src/StreamProcessor.cpp:31-35 | `skip_bytes(n)` moves the window's start by `min(n, size)` and shrinks it by as much, so the visible bytes lose that prefix |
| Streams.Segment.TrimToSize | src/StreamProcessor.cpp:37-40 | `trim_to_size(n)` keeps the start and cuts the window to at most `n` bytes, so the visible bytes keep that prefix |
| Streams.Segment.Release | src/StreamProcessor.cpp:59-62 | a segment with a buffer returns it to the top of its pool; one without leaves the pool alone |
| Streams.Segment.Clone | src/StreamProcessor.cpp:42-57 | cloning fails iff the segment is a flush signal; otherwise the copy has the same pool and type, and with a pool a distinct buffer holding the same bytes, with a window at the same offset and of the same size |
| Streams.Segment.MoveFrom | src/StreamProcessor.cpp:16-29 | move assignment releases this segment's buffer to its pool and takes every field of the other, which is left with no pool, type Undefined, no buffer, empty windows and no callback |
| Streams.ReceiveCopy | src/StreamProcessor.cpp:50-52 | the clone's buffer comes from the pool and holds a copy of the source's bytes |
| Streams.FlushRun | src/StreamProcessor.cpp:105-114 | the number of flush signals at the front of what the queue delivers |
| Streams.FullFlushes | src/StreamProcessor.cpp:109-112 | the FullFlush signals among the segments, in order |
| Streams.Read | src/StreamProcessor.cpp:95-117 | `read` skips every flush signal, forwarding each FullFlush when `pass_flush`, and returns the first other segment |
| SystemOps.PathFromString | src/System/SystemOperations.cpp:13-18 | `path_from_string` prepends `\\?\` iff the path has at least `MAX_PATH - 5` characters and does not already start with it; the result always ends with the input, and a result that long always carries the prefix |
| SystemOps.PathFromStringIdempotent | src/System/SystemOperations.cpp:13-18 | applying `path_from_string` twice is applying it once |
| SystemOps.FindNul | src/System/SystemOperations.cpp:104 | `find(0, pos)` gives the first NUL at or after `pos`, or `npos` when there is none |
| SystemOps.MountPointsWellFormed | src/System/SystemOperations.cpp:104-109 | every path the loop yields is non-empty and holds no NUL |
| SystemOps.FirstNul | src/System/SystemOperations.cpp:104 | a NUL with none before it from `pos` on is the one `find` reports |
| SystemOps.NoNul | src/System/SystemOperations.cpp:104-106 | with no NUL from `pos` on, `find` reports `npos` |
| SystemOps.MountPointsCons | src/System/SystemOperations.cpp:104-108 | a non-empty string without NUL followed by a NUL is the first path yielded |
| SystemOps.MountPointsEmpty | src/System/SystemOperations.cpp:104-106 | a list starting with a NUL, or holding none, yields nothing |
| SystemOps.MountPointsOfJoined | src/System/SystemOperations.cpp:101-109 | splitting undoes joining: NUL-terminated non-empty paths, followed by an empty string or a tail without NUL, yield exactly those paths |
| SystemOps.FindNulOfRest | src/System/SystemOperations.cpp:104 | searching from `pos` finds the same NUL as searching the rest of the string from its start |
| SystemOps.NextMountPoint | src/System/SystemOperations.cpp:104-108 | one turn of the loop either ends the list or yields the first path and moves `pos` past its NUL |
| SystemOps.EnumerateMountedPaths | src/System/SystemOperations.cpp:101-109 | the loop yields exactly the list's paths, in order |
| SystemOps.GetFileSize | src/System/SystemOperations.cpp:243-249 | `get_file_size` queries the prefixed path and returns the query's error code, or the size whose upper 32 bits are the high half and lower 32 bits the low half |
| SystemOps.MountPoint | src/System/SystemOperations.cpp:392-406 | the junction buffer targets `\??\` and the target, and each WORD length field is its value truncated to 16 bits; when nothing is truncated, the target length is its UTF-16 byte count, the maximum length adds the terminator, and the data length covers the target |
| SystemOps.CreateJunction | src/System/SystemOperations.cpp:386-411 | `create_junction` opens the prefixed link path and sends it the mount-point buffer, returning the first failure's error code, else `ERROR_SUCCESS` |
| TreeSnapshot.StrLessIrreflexive | test/002_test_crypto/compare_dirs.py:23 | no name sorts before itself |
| TreeSnapshot.StrLessTransitive | test/002_test_crypto/compare_dirs.py:23 | the order `sorted` uses on names is transitive |
| TreeSnapshot.NameLessIsStrictOrder | test/002_test_crypto/compare_dirs.py:23 | ordering entries by name is a strict order |
| TreeSnapshot.ConstructTree | test/002_test_crypto/compare_dirs.py:14-24 | a file becomes `(name, False, md5, [])`; a directory becomes `(name, True, None, children)` whose children are a permutation of the per-child snapshots the loop builds, sorted by name, with no `.svn` entry and the snapshot of every other listed child |
| TreeSnapshot.ChildEntries | test/002_test_crypto/compare_dirs.py:18-22 | the loop yields one snapshot per child that is not `.svn`, keeps no `.svn` entry and includes the snapshot of every other listed child |
| TreeSnapshot.Visible | test/002_test_crypto/compare_dirs.py:19-21 | the children the loop keeps are exactly the listed ones not named `.svn` |
| TreeSnapshot.ChildEntriesInOrder | test/002_test_crypto/compare_dirs.py:18-22 | the `i`-th snapshot the loop appends is the snapshot of the `i`-th kept child, so the list before sorting follows the listing order |
| TreeSnapshot.BoolToType | test/002_test_crypto/compare_dirs.py:34-37 | `bool_to_type` gives `dir` iff true and `file` iff false |
| TreeSnapshot.SiblingPass | test/002_test_crypto/compare_dirs.py:44-55 | the sibling pass passes iff every index of a has a partner in b with the same name, the same type and, for files, the same digest; it raises IndexError iff b is shorter and no earlier index fails; otherwise it fails at the first mismatching index, with name checked before type before digest |
| TreeSnapshot.CompareTreesHelper | test/002_test_crypto/compare_dirs.py:39-61 | `compare_trees_helper` never fails on the count guard, since it compares `children_a` with itself |
| TreeSnapshot.Descend | test/002_test_crypto/compare_dirs.py:56-60 | the recursive pass visits directory entries in index order and returns the first failing subtree's verdict |
| TreeSnapshot.CompareTrees | test/002_test_crypto/compare_dirs.py:63-64 | `compare_trees` holds iff the roots' child lists are equivalent; the root names are never compared |
| TreeSnapshot.HelperMeansEquivalent | test/002_test_crypto/compare_dirs.py:39-61 | `compare_trees_helper` returns True iff the two lists are equivalent: index-aligned names, types and file digests, and equivalent subdirectories |
| TreeSnapshot.DescendMeansEquivalent | test/002_test_crypto/compare_dirs.py:56-61 | the recursive pass succeeds iff every directory entry's children are equivalent |
| TreeSnapshot.EquivalentReflexive | test/002_test_crypto/compare_dirs.py:39-61 | every child list is equivalent to itself |
| TreeSnapshot.CompareTreesReflexive | test/002_test_crypto/compare_dirs.py:63-64 | `compare_trees(A, A)` is True for every snapshot |
| TreeSnapshot.ShorterListNeverPasses | test/002_test_crypto/compare_dirs.py:40-45 | when b is shorter than a, the comparison returns False or raises |
| TreeSnapshot.EquivalentIgnoresExtra | test/002_test_crypto/compare_dirs.py:43-45 | entries of b past the length of a do not affect equivalence |
| TreeSnapshot.ExtraEntriesIgnored | test/002_test_crypto/compare_dirs.py:40-45 | `compare_trees_helper` never looks at entries of b past the length of a |
| TreeSnapshot.SnapshotsOfSameTreeCompareEqual | test/002_test_crypto/compare_dirs.py:14-64 | two snapshots of the same directory always compare equal |
| VersionMutator.Random.constructor | test/002_test_crypto/test.py:30-33 | the random source holds the draws and the word list, none used yet |
| VersionMutator.Random.RandInt | test/002_test_crypto/test.py:37 | `random.randint(lo, hi)` lies in the closed range and consumes one draw |
| VersionMutator.Random.PickWord | test/002_test_crypto/test.py:32-33 | `pick_word` returns a word of the list and consumes one draw |
| VersionMutator.Sample | test/002_test_crypto/test.py:112 | `random.sample(s, 1)[0]` is a member of the set |
| VersionMutator.JoinWordsAppend | test/002_test_crypto/test.py:42-44 | appending a word adds a space (unless the line was empty) and the word |
| VersionMutator.SplitSpace | test/002_test_crypto/test.py:55 | `split(' ')` always yields at least one piece |
| VersionMutator.JoinSplitRoundTrip | test/002_test_crypto/test.py:55-66 | joining with spaces undoes splitting on spaces |
| VersionMutator.IndexOf | test/002_test_crypto/test.py:56-57 | the index found holds `x` and no earlier index does |
| VersionMutator.RemoveFirst | test/002_test_crypto/test.py:56-57 | `remove` drops exactly the first occurrence, keeping every other element in order, and changes nothing when there is none |
| VersionMutator.GenerateRandomLine | test/002_test_crypto/test.py:35-45 | words of the list joined by single spaces; with an override the line is at least that long; without one it is empty when the drawn length is below 12 and otherwise at least the drawn length; only the last word can overshoot |
| VersionMutator.EditLine | test/002_test_crypto/test.py:54-66 | after one empty token is dropped the word count is kept; a contiguous span of 1 to half the words (all of them when there is at most one) is replaced by words of the list, and every other word is unchanged |
| VersionMutator.EditExistingFile | test/002_test_crypto/test.py:68-82 | at most five passes, each editing an in-bounds block of 1 to 100 lines; lines outside the blocks are unchanged; the line count is kept or grows by 20 to 512; it fails only on a file with no lines |
| VersionMutator.ZeroPad | test/002_test_crypto/test.py:93 | `%08d` yields exactly the width's number of characters, all decimal digits, which read back as `i` modulo 10^width, hence as `i` itself whenever `i < 10^width` |
| VersionMutator.DecimalDigit | test/002_test_crypto/test.py:93 | a digit below ten prints as the decimal digit character of that value |
| VersionMutator.LastDigitSplit | test/002_test_crypto/test.py:93 | the last printed digit is `i % 10` and the others print `i / 10` |
| VersionMutator.BinaryPath | test/002_test_crypto/test.py:93 | a batch path lies under `binary.files/` and ends with `.bin` |
| VersionMutator.BinaryPathIsNotText | test/002_test_crypto/test.py:93-94 | a batch path never ends with `.txt` |
| VersionMutator.BatchPaths | test/002_test_crypto/test.py:92-94 | the `n` batch paths all lie under `binary.files/` and none ends with `.txt` |
| VersionMutator.GenerateNewBinariesBatch | test/002_test_crypto/test.py:91-97 | `generate_new_binaries_batch` appends 1 to 20 batch paths, numbered from 0, to addenda and nowhere else |
| VersionMutator.AppendBatch | test/002_test_crypto/test.py:92-94 | the loop appends the paths numbered 0 to `n - 1`, in order |
| VersionMutator.BatchUnderDirectory | test/002_test_crypto/test.py:93-94 | every path a batch appends lies under `binary.files/` |
| VersionMutator.BatchStep | test/002_test_crypto/test.py:92-94 | one more turn of the loop extends the batch by the next path |
| VersionMutator.BatchMembers | test/002_test_crypto/test.py:139-140 | after a batch, every path in addenda is a known file or directory, the binary directory, or lies under it |
| VersionMutator.KnownPaths.constructor | test/002_test_crypto/test.py:189-190 | both sets start empty |
| VersionMutator.KnownPaths.PickContainer | test/002_test_crypto/test.py:117-121 | the container is the root or a known directory followed by a slash |
| VersionMutator.KnownPaths.CreateDirectories | test/002_test_crypto/test.py:115-125 | `directories` only grows; each new directory is placed at the root or under a known directory, and is appended to addenda |
| VersionMutator.KnownPaths.CreateTextFiles | test/002_test_crypto/test.py:127-137 | `files` only grows; each new file is a `.txt` at the root or under a known directory, and is appended to addenda |
| VersionMutator.KnownPaths.Bootstrap | test/002_test_crypto/test.py:101-108 | 0 to 10 root `.txt` files enter both `files` and addenda, then `binary.files` enters addenda but not `directories` |
| VersionMutator.KnownPaths.GenerateNextVersion | test/002_test_crypto/test.py:99-142 | both sets only grow; every new file and directory is placed at the root or under a known directory and listed in addenda; every path in addenda is a known file or directory, the binary directory or a batch path; on bootstrap no directory is added and nothing is edited; otherwise `min(randint(1, 100), len(files))` known files are drawn for editing |
| VersionMutator.PrintPercent | test/002_test_crypto/test.py:182-185 | `n = 0` raises; otherwise the number of marks is `int(i * width / n)` and, for `i <= n`, marks and blanks fill the width |
| VersionMutator.PercentBounds | test/002_test_crypto/test.py:183-184 | the quotient brackets `i * width`, and is at most the width when `i <= n` |
| ArchiveIO.EncodeLE | src/ArchiveIO.cpp:295 | the manifest length is written as exactly `n` little-endian bytes |
| ArchiveIO.DecodeLE | src/ArchiveIO.cpp:136 | `n` little-endian bytes read back a value below 256^n |
| ArchiveIO.DecodeEncode | src/ArchiveIO.cpp:136 | reading back the fixed-width little-endian bytes of a value that fits gives the value |
| ArchiveIO.Resize | src/ArchiveIO.cpp:18-29 | `resize` keeps the bytes that fit and zero-fills the rest, to exactly the new length |
| ArchiveIO.InterleaveSlot | src/ArchiveIO.cpp:94-101 | in the packed buffer, slot `j` holds key `j` followed by IV `j`, at offset `j` times the slot width |
| ArchiveIO.KeysOf | src/ArchiveIO.cpp:68-76 | unpacking yields one key of the key size per slot |
| ArchiveIO.IvsOf | src/ArchiveIO.cpp:68-76 | unpacking yields one IV of the IV size per slot |
| ArchiveIO.UnpackedSlot | src/ArchiveIO.cpp:68-76 | key `i` and IV `i` are read from the `i`-th slot of the buffer, key first |
| ArchiveIO.UnpackPrefix | src/ArchiveIO.cpp:68-76 | bytes past the packed slots do not change what is unpacked |
| ArchiveIO.LastSlot | src/ArchiveIO.cpp:68-76 | unpacking one more slot appends its key and IV |
| ArchiveIO.UnpackPack | src/ArchiveIO.cpp:68-101 | unpacking the packed keys and IVs gives back the same keys and IVs |
| ArchiveIO.Refill | src/ArchiveIO.cpp:18-29 | each block is resized to the width (or replaced by random bytes when randomizing) and the size grows by the width per block |
| ArchiveIO.ArchiveKeys.constructor | src/ArchiveIO.cpp:12-14 | an empty key set with the given number of slots |
| ArchiveIO.ArchiveKeys.Init | src/ArchiveIO.cpp:16-31 | every key and IV is resized (or randomized), the size is the slot count times key plus IV size, and the size assertion holds exactly when it is at most 4096/8 - 42 |
| ArchiveIO.ArchiveKeys.GetKey | src/ArchiveIO.cpp:33-37 | an index above the slot count throws; an index equal to it passes the guard and reads past the end; a smaller one returns that key |
| ArchiveIO.ArchiveKeys.GetIv | src/ArchiveIO.cpp:39-43 | as GetKey, for the IVs |
| ArchiveIO.ArchiveKeys.Pack | src/ArchiveIO.cpp:92-101 | the buffer is the keys and IVs interleaved slot by slot and has the key-set size |
| ArchiveIO.ArchiveKeys.Unpack | src/ArchiveIO.cpp:68-76 | the keys and IVs become the slots of the buffer |
| ArchiveIO.NewKeys | src/ArchiveIO.cpp:12-31 | a randomized key set is made exactly when its size passes the size assertion, holding the random blocks |
| ArchiveIO.CreateAndSave | src/ArchiveIO.cpp:79-105 | without a key pair nothing is made or written; with one, fresh Twofish-sized keys are made and their packed bytes are written encrypted |
| ArchiveIO.LoadKeys | src/ArchiveIO.cpp:45-77 | a short RSA block throws; otherwise the keys and IVs are unpacked from the decrypted block resized to the key-set size |
| ArchiveIO.SaveThenLoad | src/ArchiveIO.cpp:45-105 | when decryption inverts encryption, loading the saved key block gives back the saved keys and IVs |
| ArchiveIO.LocateManifest | src/ArchiveIO.cpp:128-139 | the manifest size is read from the 8 bytes before the SHA-256 digest; a file shorter than the trailer is invalid data; while size and trailer fit in 2^63 the seek succeeds exactly when the manifest fits in the file and starts that many bytes before the trailer; a larger size wraps the int64 start, and the seek then always succeeds, landing within the trailer or past the end of the file |
| ArchiveIO.AsInt64 | src/ArchiveIO.cpp:137 | a uint64 stored in an int64 keeps its value modulo 2^64 and lies in the signed range; below 2^63 it is unchanged |
| ArchiveIO.ManifestStart | src/ArchiveIO.cpp:130-137 | `start = -40; start -= manifest_size` is `-(40 + size)` while that fits in 2^63, and otherwise wraps to a value above -40 |
| ArchiveIO.LargestSizeWraps | src/ArchiveIO.cpp:130-137 | a size field of 2^64 - 1 makes the start -39 |
| ArchiveIO.ArchiveReader.constructor | src/ArchiveIO.cpp:107-117 | no manifest offset yet (-1), no manifest and no streams |
| ArchiveIO.ArchiveReader.ReadManifest | src/ArchiveIO.cpp:126-168 | the manifest is located once (with `LocateManifest`, int64 wrap included) and its offset cached; on success the base objects start `entries_size_in_archive` bytes before it (64-bit unsigned) and the stream ids and sizes come from the manifest |
| ArchiveIO.ArchiveReader.ReadEverything | src/ArchiveIO.cpp:206-236 | file data starts after the RSA key block when there is a key pair; its length is `base_objects_offset - file_data_start` in uint64 read as a signed `streamsize`: the plain difference below 2^63, that minus 2^64 from 2^63 up; each stream is paired with its size, and mismatched id and size lists fail the assertion |
| ArchiveIO.ArchiveWriter.constructor | src/ArchiveIO.cpp:244-246 | a writer with nothing written yet |
| ArchiveIO.ArchiveWriter.Process | src/ArchiveIO.cpp:248-301 | anything but three helpers throws and writes nothing; otherwise the key block, files, base objects, manifest and manifest length are written in that order, followed by their SHA-256, and the counters hold the byte counts |
| ArchiveIO.ArchiveLayout | src/ArchiveIO.cpp:128-300 | in the written layout, the manifest is found with its length, right after the key block, files and base objects |
| ArchiveIO.LayoutOf | src/ArchiveIO.cpp:128-300 | the same for a file known to have that layout |
| ArchiveIO.LocateTrailer | src/ArchiveIO.cpp:128-139 | a prefix followed by an 8-byte size and a digest locates a manifest of that size at its offset |
| ArchiveIO.ReadBack | src/ArchiveIO.cpp:163-236 | a located manifest whose entries size matches gives a file-data region starting after the key block and, while the difference is below 2^63, ending where the base objects start; past that the signed length wraps |
| ArchiveIO.KeyBlockLength | src/ArchiveIO.cpp:92-102 | with a key pair, the packed keys are three 48-byte slots and the encrypted key block is one RSA block |
| ArchiveIO.WriteBytes | src/ArchiveIO.cpp:248-301 | the written file is the body followed by its SHA-256 digest |
| ArchiveIO.WriteArchive | src/ArchiveIO.cpp:248-301 | the key block is one RSA block or empty, and the manifest is found where it was written |
| ArchiveIO.WriteThenRead | src/ArchiveIO.cpp:126-301 | reading back a written archive finds the file data exactly where it was written: after the key block, `\|files\|` bytes long (read as int64, so exactly `\|files\|` below 2^63) |
| ArchiveIO.Sub64 | src/ArchiveIO.cpp:163 | the unsigned 64-bit subtraction of the entries size from the manifest offset, exact when the difference fits and 2^64 more when it is negative |
| Backup.IsBackupable | src/BackupSystem.cpp:123-137 | exactly removable, fixed and RAM drives are backed up |
| Backup.RegexEscape | src/BackupSystem.cpp:161-179 | one backslash is added per special character and nothing else; only the empty string escapes to the empty string |
| Backup.UnescapeChar | src/BackupSystem.cpp:164-177 | the escape of one character reads back as that character |
| Backup.EscapeRoundTrip | src/BackupSystem.cpp:161-179 | unescaping the escaped string gives the original string |
| Backup.Extension | src/BackupSystem.cpp:450 | the extension is a suffix starting at a dot with no other dot in it; "." and ".." have none; any other name with no extension has no dot |
| Backup.ExtensionFrom | src/BackupSystem.cpp:450 | the same, searching backwards from an index past which there is no dot |
| Backup.CompareHashes | src/BackupSystem.cpp:637-644 | without a valid old hash or a computed new one the file counts as changed; it counts as unchanged only when both digests exist and differ |
| Backup.CompareHashesInverted | src/BackupSystem.cpp:637-644 | with a valid old hash and a computed new one, the file counts as changed exactly when the digests are equal (the test is inverted) |
| Backup.CompareHashesWitness | src/BackupSystem.cpp:637-644 | an identical digest reports a change and a different one reports none |
| Backup.BackupStream.constructor | src/serialization/BackupStream.h:4 | a stream of the given kind and id with no objects |
| Backup.BackupStream.GetDependencies | src/serialization/BackupStream.cpp:10-14 | an unmodified stream adds exactly its containing version; a full stream adds nothing |
| Backup.BackupStream.GetDependenciesIdempotent | src/serialization/BackupStream.cpp:10-14 | collecting a stream's dependencies twice adds nothing new |
| Backup.BackupStream.AddFileSystemObject | src/serialization/BackupStream.h:5-7 | the object is appended to the stream's objects |
| Backup.Fso.constructor | src/serialization/FilishFso.h:10 | an object with the given name, parent and kind, no base paths and no stream |
| Backup.Fso.SetHash | src/serialization/FileSystemObject.cpp:90-93 | the digest is stored and marked valid |
| Backup.Fso.SetUniqueIds | src/serialization/FileSystemObject.cpp:86-88 | the object takes the backup system's next stream id, which moves on by one modulo 2^64 |
| Backup.PathOverrideBase | src/serialization/FileSystemObject.cpp:26-61 | the path is the chosen base (root's mapped or unmapped base, or the override), when there is one, followed by the names from the root down to the object |
| Backup.ComponentsEqual | src/serialization/FileSystemObject.cpp:63-79 | the first `n` components agree ignoring case |
| Backup.PathContainsPath | src/serialization/FileSystemObject.cpp:67-80 | the directory, with a trailing "." dropped, is no longer than the file's parent and its components agree with the parent's leading components ignoring case |
| Backup.ParentContains | src/serialization/FileSystemObject.cpp:67-80 | every leading part of a file's path, down to its parent, contains the file |
| Backup.Contains | src/serialization/FileSystemObject.cpp:82-84 | an object contains a path exactly when its mapped path does |
| Backup.RestoreLessIsStrictOrder | src/BackupSystem.cpp:761-767 | the restore comparison is a strict order |
| Backup.RestoreOrder | src/BackupSystem.cpp:755-768 | the sorted entries are a permutation of the input, ordered by version and then by stream id |
| Backup.BackupSystem.constructor | src/BackupSystem.cpp:32-69 | no cached version count, the default criterion, the first valid stream id, and the versions found, sorted |
| Backup.BackupSystem.GetVersionCount | src/BackupSystem.cpp:71-75 | a cached count is returned unchanged; otherwise the count is one past the last version, or 0 without versions, every version is below it, and it is cached |
| Backup.BackupSystem.LowerBound | src/BackupSystem.cpp:96 | the first index whose version is at least `v`: all before are smaller |
| Backup.BackupSystem.VersionExists | src/BackupSystem.cpp:93-98 | true exactly when some recorded version is at least `v` |
| Backup.BackupSystem.VersionExistsIsNotMembership | src/BackupSystem.cpp:93-98 | with only version 3 recorded, version 1 "exists" although it was never recorded |
| Backup.BackupSystem.GetStreamId | src/BackupSystem.cpp:713-715 | the current id is returned and the next one is one more, modulo 2^64 |
| Backup.BackupSystem.GetChangeCriterium | src/BackupSystem.cpp:700-711 | an explicit criterion is used as is; HashAuto becomes Hash below 1 MiB and Date otherwise; HashAuto is never returned |
| Backup.BackupSystem.GetBackupModeForObject | src/BackupSystem.cpp:439-455 | NoBackup exactly for an ignored directory name on a directory, an ignored extension on a non-directory, or an ignored base path; otherwise Directory or Full; links are never followed |
| Backup.BackupSystem.ShouldBeAdded | src/BackupSystem.cpp:423-437 | a file is added exactly when it is not directoryish, is backed up, is no hard link and has no known valid GUID; its latest version is -1 unless it passed the first three tests, then the new version |
| Backup.BackupSystem.FixUpStreamReference | src/BackupSystem.cpp:531-548 | may write only the file's stream id, stream and latest version and the known streams' object lists; hard links, directories, valid GUIDs and unknown GUIDs change none of them; otherwise the file joins the known stream, takes its id and the version of its first object, and every other known stream keeps its objects |
| Backup.BackupSystem.FileHasChanged | src/BackupSystem.cpp:646-694 | a file with no old counterpart has changed; otherwise the criterion decides; an unchanged file takes the old hash, version and stream id and reports the old version |
| Backup.BackupSystem.GetDependencies | src/BackupSystem.cpp:522-529 | an object without a version adds nothing; without a stream it adds its version; with one it adds what the stream needs |
| Backup.BackupSystem.GetDependenciesIdempotent | src/BackupSystem.cpp:522-529 | collecting an object's dependencies twice adds nothing new |
| Backup.BackupSystem.ResolveRestoreVersion | src/BackupSystem.cpp:739-745 | nothing happens without versions; a negative number counts back from the last version; a version `version_exists` rejects is an error |
| Backup.BackupSystem.RestoreResolvesRecorded | src/BackupSystem.cpp:739-745 | every recorded non-negative version restores that version, and -1 restores the last one |
| VersionRestore.VersionForRestore.constructor | src/VersionForRestore.cpp:13-20 | the version number and manifest dependencies are kept; no dependencies filled and no base objects read yet |
| VersionRestore.VersionForRestore.FillDependencies | src/VersionForRestore.cpp:22-28 | once filled, nothing changes; otherwise each manifest dependency is taken from the caller's map, which gains a null entry for each missing one, and the caller's other entries and the version's other dependencies stay as they were |
| VersionRestore.VersionForRestore.Restore | src/VersionForRestore.cpp:30-33 | an object that was not restored and has a version is queued at the end; otherwise the queue is unchanged |
| VersionRestore.VersionForRestore.GetBaseObjects | src/VersionForRestore.cpp:35-43 | the first call stores what the archive returns; later calls return the stored objects unchanged |
| VersionRestore.FillTwice | src/VersionForRestore.cpp:22-28 | filling a second time leaves the caller's map as the first fill left it |
| VersionRestore.ReadBaseObjectsTwice | src/VersionForRestore.cpp:35-39 | a second read returns the same objects whatever the archive would return |

## Left out

- Compression (liblzma), encryption (Twofish, RSA), SHA-1, SHA-256 and MD5: outputs are opaque bytes, so each is a function parameter or a value given to the model.
- Concurrency: `thread_func`, the waits and retries inside `CircularQueue`, the mutex and event of `process_new_buffer`, `restore_thread`/`perform_restore`, fibers, and `Processor::start`/`stop`/`join`/`write`. The queue is modelled one thread at a time.
- Operating-system calls (volume, reparse point, hard link, GUID and file-attribute queries, Win32 handles, VSS, transactions): each is a parameter standing for what the call reports, or is not modelled.
- File I/O: reading and writing archives and files, `RsyncableFile::save`, the existence checks in the `ArchiveReader` constructor, and file-content edits in the test scripts.
- `read_base_objects`, manifest deserialization and `VersionManifest`: serialization is not part of this model. The deserialized manifest is an input to `ReadManifest` and `ReadEverything`.
- The coroutines that feed the archive writer and `read_everything`: the streams are sequences given in order.
- `read_more_data`/`read_another_block` of the comparer: `ByteByByteReader` is not part of this model, so their outcomes are inputs.
- Regex matching in `set_versions`, `map_path` and `set_path_mapper`: the version numbers found are an input to the `BackupSystem` constructor.
- Path normalisation in `path_contains_path`: both paths come as component sequences.
- `normalize` in the snapshot script, `exponential_distribution` (floating point), `os.urandom` payloads, `os.system` calls, the pickle cache and the test orchestration.
- `command_line_to_args` and the `FourWayStreamAdapter` wiring: lines come already tokenised.
- Archive.h is not part of this model. The number of key slots (`KEY_COUNT = 3`: file data, base objects, manifest) is inferred from the three parts `process` writes.
- fso.generated.h is not part of this model. A default `OpaqueTimestamp` is taken to hold 0, and a default `Segment` is taken to be of type Data.
- ArchiveIO.LocateManifest: seeking past the end of the file is taken to succeed, as a file stream's seek does, so a wrapped start that lands there yields that offset.
- ArchiveIO.ArchiveLayout: the manifest is promised to be found only when it and the trailer are below 2^63 bytes; past that the reader's int64 start wraps (`ManifestStart`) and it looks elsewhere.
- ArchiveIO.LayoutOf: the manifest is promised to be found only when it and the trailer are below 2^63 bytes; past that the reader's int64 start wraps (`ManifestStart`) and it looks elsewhere.
- ArchiveIO.LocateTrailer: the manifest is promised to be found only when it and the trailer are below 2^63 bytes; past that the reader's int64 start wraps (`ManifestStart`) and it looks elsewhere.
- ArchiveIO.WriteArchive: the manifest is promised to be found only when it and the trailer are below 2^63 bytes; past that the reader's int64 start wraps (`ManifestStart`) and it looks elsewhere.
- ArchiveIO.WriteThenRead: the manifest is promised to be found only when it and the trailer are below 2^63 bytes; past that the reader's int64 start wraps (`ManifestStart`) and it looks elsewhere.
- ArchiveIO.ReadBack: the region's length is the signed reading of the 64-bit difference, so it equals the file data's size only below 2^63 bytes.
- ArchiveIO.WriteThenRead: the region's length is the signed reading of the 64-bit difference, so it equals the file data's size only below 2^63 bytes.
- ArchiveIO.Resize: `SecByteBlock::resize` is taken to zero-fill the bytes it adds.
- ArchiveIO.ArchiveKeys.Init: the size is the sum of the two loops' widths, and the 32-bit and 64-bit widths of `size_t` are not modelled.
- Timestamps.OpaqueTimestamp.UtcNow: the bitwise OR of the two clock halves is written as an addition, which equals it because the bit ranges are disjoint.
- RollingChecksum.Pack: `a | (b << 16)` is written as `a + b * 2^16`, which equals it for 16-bit halves.
- SystemOps.PathFromString: lengths are counted in Dafny characters (Unicode scalar values), while `std::wstring::size()` counts UTF-16 code units. A path with characters outside the Basic Multilingual Plane reaches the `MAX_PATH - 5` threshold later in the model than in the source.
- SystemOps.MountPoint: the byte lengths are twice the number of Dafny characters. For characters outside the Basic Multilingual Plane, which take two UTF-16 code units, the source's lengths are larger.
- SystemOps.MountPoint: the buffer size is an unbounded natural, so the `(DWORD)` cast of the size passed to `DeviceIoControl` is not modelled. The WORD length fields are truncated to 16 bits as in the source.
- Progress.ProgressFilter.constructor: the uninitialised `progress` field is the parameter `initial`, and `steps > 0` is required because the source divides by it.
- Bounded, progress, memory and pipe counters are unbounded naturals. The source's 64-bit counters cannot wrap on inputs of realistic size.
- FileComparers.Comparer.StateMatching: `last->length += matching_increment` adds to the whole 64-bit word, so once the blocks of one run reach 2^63 bytes the carry clears bit 63 and the command silently turns into a literal. The model keeps that wrap (`Grown` works modulo 2^64) and promises `copy_from_old()` only while `(reads + 1) * block size < 2^63`.
- FileComparers.Comparer.ExtendCopy: the length word is stated modulo 2^64 (`Grown`), as the source adds it, so the copy flag is not promised once a run overflows 63 bits.
- FileComparers.Comparer.StateNonMatching: a literal run of 2^63 bytes or more would carry into bit 63 and turn into a copy command; the flag and length are promised only for `m < 2^63`.
- FileComparers.Comparer.Process: command lengths are related to the offsets modulo 2^63 (`Accounted`), since the copy flag takes bit 63.
- Filter flushes: the classic `ByteCounterOutputFilter::flush` and the `flush_impl` of processors only delegate to code that is not part of this model.
- VersionMutator.Random.Valid: the word list must be non-empty and hold no empty word. `random.choice` raises on an empty list, and that exception is not modelled. `load_file` strips only the newline, so a blank line of the dictionary would give an empty word. Drawing that word forever while the line is still empty would keep `generate_random_line` looping, so the model excludes it to give the loop a bound.
- VersionMutator.KnownPaths.GenerateNextVersion: the edits of existing files are file I/O. Only the sampling loop and the set bookkeeping are kept.
- CircularBuffers.CircularBuffer.ProcessWhole: requires `start <= capacity`. `pop_buffer` advances `start` without reducing it modulo the capacity, so the source can reach a larger `start`. There `capacity - start` wraps round in `size_t` and the callback is handed a span outside the array, which has no defined behaviour to model.
- CircularBuffers.CircularBuffer.PiecesSpellContents: requires `start <= capacity`, for the same reason as `ProcessWhole`.
- CircularBuffers.CircularBuffer.Pop: requires `start < capacity` when the ring is not empty. `pop_buffer` leaves `start` unreduced, so the source can reach such a state, and `pop` then reads `buffer[start]` past the end of the array: undefined behaviour, with no defined result to model.
- CircularBuffers.CircularBuffer.PopBuffer: requires `start <= capacity`, for the same reason as `ProcessWhole`. Its own advance of `start` is modelled as written, without the modulo.
- CircularBuffers.CircularBuffer.CopyPieces: requires `start <= capacity`, for the same reason as `ProcessWhole`.
- CaseInsensitive.ToLower: lowers 'A' to 'Z' and leaves every other character unchanged. The source passes a possibly signed `char`, or a wide character, to `tolower`, which is defined only for `unsigned char` values and EOF. The model gives bytes 0x80 and up, and wide characters above 0xFF, the "C" locale identity rather than undefined behaviour.
- Streams.Segment.MoveFrom: requires `other != this`. A self-move assignment hands the segment's data back to the pool and then, through `old`, which is the segment itself, clears its allocator, type and subsegments and moves the callback onto itself. That state is not modelled.
