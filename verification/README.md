# fcom: a verified model

fcom is a command-line tool for file operations. This project models the parts of it in which one
call depends on what many earlier calls have left behind, and proves what they promise over whole
runs. Every file declares one module.

**Buffered files** (`Align`, `Bytes`, `Disk`, `Fbuf`, `WriteBack`, `CachedFile`, `ReadCache`). A
file opened for writing keeps the last bytes in a cache, sends larger pieces to the kernel in a loop
of two phases, resumes writes that the kernel took in part, and grows the file ahead of the data by
powers of two. The kernel is nondeterministic: a write takes any number of bytes, or answers EAGAIN,
or fails. The file that all this must amount to is the zero-extended file under plain `pwrite`.
`CachedFile.Session` states it for whole runs, in terms of the calls alone: `WriteBack.Overlaid`
lays the calls over each other, each where its offset says or where the one before it has ended.
`WriteBack` holds the reasoning on values; the class `CachedFile.File` is the code, with the
source's fields. The caller has one condition to meet, `Fbuf.GapFree`: a write that starts inside
the window of the cache starts no later than the bytes held there end. `Fbuf.GapFreeExactly` shows
that the code is right exactly under this condition, and `WriteBack.SequentialIsGapFree` that
sequential writers always meet it. Reading goes through a set of buffers used in turn, each of which
is always the slice of the file that it names; the kernel's answers are counted, so that a hit is
known not to ask and an error to be the kernel's.

**Streaming hashes** (`Words`, `Padding`, `Sha256Spec`, `Sha256Constants`, `Sha256Vectors`,
`Sha256`, `Md5Spec`, `Md5Vectors`, `Md5`). The one-shot functions of FIPS 180-2 and RFC 1321, and
the code that computes them block by block from pieces of any size: SHA-256 with a 128-byte buffer
that may hold a full block, and with two alignment paths; MD5 with its optimised functions and its
fixed text of 64 operations. The one-shot functions are tied to the standards by their digests of
"abc", which are proved step by step, and the constants of SHA-256 by a proof that they are the roots
of primes which they are meant to be.

**Directory comparison** (`SyncEntry`, `DiffSpec`, `DiffRows`, `Diff`, `SyncView`, `Dups`). The
comparison of two trees as a machine over events, with a hash table of unmatched files by which a
file that is only on the left and one that is only on the right become one moved file, statuses
rewritten in place, and counters. `DiffSpec.Run` is the state after a sequence of events; the class
`Diff.Diff` follows it. The main results are a closed form for every row and every counter in terms
of the events alone (`DiffRows`), conservation of the counters, and symmetry: exchanging the trees
and exchanging the sides of the view cancel out. `Dups` is the scan for duplicates in one tree.

**Task queue and wake-up** (`TaskQueue`, `WakeUp`). The queue with many writers and one reader, with
arbitrary posts between any two of the reader's steps, and the wake-up protocol around it as an
interleaving of atomic steps: each posted task is called or still queued, and then a wake-up is
pending or owed.

**Stream buffer and small algorithms** (`Stream`, `FileCmp`, `PathParent`, `Md5Sum`). A byte queue
with wrapping 32-bit indices and a mode that refers to the input instead of copying it; file
comparison in full and by three samples; the greatest shared parent of two paths; and the printer
and the reader of .md5 files.

`dafny verify dfyconfig.toml` checks all of it.

## Where the code and its promises differ

- **Writes into a gap of the cache.** `src/core/fbuf.h:95-110` puts stale memory into the file if a
  write of any length starts inside the window of the cache but behind its bytes. The condition is
  stated, proved to be exact, and required of callers.
- **Size and disk length.** `size <= disk length <= prealloc` is not kept in every state
  (`src/core/file.c:395-398`): `WriteBack.SizePassesDisk` is a run in which `size` passes the disk
  length. A kernel write keeps the bound, whatever the kernel takes of it, exactly if the disk file
  reaches to where the write starts (`WriteBack.SizeWithinDisk`). Over whole runs the bound holds after
  every call and every repetition in two cases (`CachedFile.Session`): the length is preallocated and
  the system never refuses to set it; or, with or without preallocation, no call starts behind the end
  of the file so far, as sequential callers never do (`WriteBack.SequentialHasNoHoles`). Without
  preallocation, and with an empty cache, a call keeps it under every answer exactly if it leaves no
  hole (`WriteBack.HolesBreakTheBound`).
  `file_flush` never preallocates and has its own condition (`WriteBack.FlushWithin`); a complete flush
  restores the bound. The invariant covers the states in which the bound fails, so it does no harm to
  the resulting file.
- **Flushing to a pipe.** A flush that stopped after the pipe had taken something cannot be retried:
  it starts from the beginning of the buffer and is refused. `CachedFile.File.Flush` proves this,
  and that the refused retry changes nothing.
- **Opening again.** `file_open` resets `size`, `prealloc` and `cur_off` only
  (`src/core/file.c:182-186`). The object then stands for a new file exactly if the cache was empty and
  no call pending (`CachedFile.File.Open`). Bytes that a failed flush left in the cache end up in the
  next file (`CachedFile.Reuse`), and a call that was pending at the close goes on there;
  `CachedFile.File.Close` says what stays behind.
- **Reading behind the end.** `file_read` at an offset behind the end of the file answers EOF if the
  offset is aligned, and otherwise a view whose length has wrapped below zero
  (`src/core/file.c:339-345`). `ReadCache.File.Read` gives the exact condition.
- **Reading after ASYNC.** `md5_process` does not look for ASYNC and takes the data of the last view
  once more (`src/ops/md5.c:165-175`); `ReadCache.File.ReadAll` ends there instead.
- **Large capacities.** `ffstream_realloc` keeps the capacity in 32 bits. It fits exactly up to 2^31
  (`Stream.CapacityFits`); `Stream.Stream.Realloc` requires that.
- **Line ends of .md5 files.** `md5sum_read` looks at the byte behind the data when the data ends in
  CR (`src/util/md5sum.h:43-46`). `Md5Sum.ReadAdvances` gives the exact condition under which it
  counts that byte too, which takes the remaining length below zero; `Md5Sum.Checker.Next` reports this
  as an overrun. A name may be empty; it round-trips like any other.
- **Shared parents.** The comments at `src/util/util.h:74-78` name "/a" as the parent for "/a" and
  "/ab", where the code goes on to the slash before it and answers the empty path, which stands for
  the root. The function comment promises the shared parent directory, and that is what the code
  finds; `PathParent.PrefixIsNoParent` shows the example.
- **Sampled comparison.** `FILE_CMP_FAST` may accept different files. `FileCmp.FastExactness` says
  for which sizes it never does.
- **Sorting by time.** `sort_f` takes the time of a file that is on the left only as it is, but that of
  one on the right only as at least 0 (`src/fs/sync-cmp.h:279-293`), so the order of a view can
  depend on the side for files from before the time 0. `SyncView.SortOrderMirror` says for which two
  rows and which flags it does.
- **One batch.** The comment on `fftaskqueue_run` says that it calls each task. It calls those queued
  at its start; tasks posted meanwhile wait for the next wake-up, which `WakeUp.NoLostWakeUp` shows
  to be on its way.

## Model

| member | source | states |
|---|---|---|
| `Bytes.PwriteBytes` | src/core/file.c:375 | which byte a `pwrite` leaves at each position of the file, and how long the file is afterwards, also behind a gap |
| `Bytes.PwriteAdjacent` | src/core/file.c:484-486 | two writes next to each other are one write: why resuming a partial write at `off + r` is right |
| `Bytes.ResizeBytes` | src/core/file.c:114 | `ftruncate` keeps the bytes in front of the new length and adds zeros |
| `Bytes.MemCopy` | src/core/fbuf.h:99 | the copy changes exactly the target range |
| `Align.AlignPower2` | src/core/file.c:467 | the smallest power of two that is enough |
| `Align.AlignPower2IsLeast` | src/util/stream.h:29 | no smaller power of two is enough |
| `Align.AlignFloor` | src/core/file.c:315 | an aligned offset at most 4095 bytes in front |
| `Disk.Disk.WriteAt` | src/core/file.c:375-386 | every answer a kernel can give: any number of bytes from the front of the request, EAGAIN, or an error that changes nothing |
| `Disk.Disk.Append` | src/core/file.c:368-369 | every answer of a pipe, which takes any part of the request at its end only |
| `Disk.Disk.Truncate` | src/core/file.c:114-118 | succeeds with exactly the new length, or fails and changes nothing |
| `Fbuf.PwriteOverlap` | src/core/fbuf.h:95-106 | copying data over a buffer and writing the buffer is writing the old buffer and then the data |
| `Fbuf.GapExposesStaleBytes` | src/core/fbuf.h:95-104 | a write that starts inside the window but behind the bytes held puts wrong bytes into the file, for some contents of the memory, whether it fits into the buffer or runs past its end |
| `Fbuf.NoGapAbsorbs` | src/core/fbuf.h:95-110 | without a gap the bytes shown and the rest behind them are the plain write, whatever the memory and the file hold |
| `Fbuf.GapFreeExactly` | src/core/fbuf.h:95-110 | for data of any length that starts inside the window: buffering is right whatever the memory and the file hold if and only if the write leaves no gap |
| `Fbuf.AbsorbIsPwrite` | src/core/fbuf.h:89-127 | what stays in the buffer, what comes out and what is left over are together one plain write over any file: nothing is lost, repeated or moved |
| `Fbuf.AbsorbWindow` | src/core/fbuf.h:89-127 | how far the buffer reaches afterwards depends on offsets and lengths only, and sequential input gives sequential output |
| `Fbuf.Fbuf.Write` | src/core/fbuf.h:89-127 | the in-place code delivers exactly the outcome of the value function, for the return value, the cursor, the output and the memory |
| `Fbuf.Fbuf.Overwrite` | src/core/fbuf.h:97-104 | the held bytes after the copy, and the new length |
| `WriteBack.NewFile` | src/core/file.c:183-185 | a new file with an empty cache is the empty wanted file |
| `WriteBack.LeftOver` | src/core/file.c:182-186 | bytes left over in the cache are for a new file what its first call would be |
| `WriteBack.EmptyFile` | src/core/file.c:182-186 | so the new file is not empty if and only if there are any |
| `WriteBack.Preset` | src/core/file.c:539-547 | setting the length changes nothing that counts, as long as it cuts nothing off that counts |
| `WriteBack.AcceptCall` | src/core/file.c:419-424 | a new call adds its bytes to what the disk lacks |
| `WriteBack.GoalLength` | src/core/file.c:395-396 | the wanted file ends where `size` or the cache ends |
| `WriteBack.Continue` | src/core/file.c:425-430 | after the write phase the user's remaining data is treated like a new call at the current position |
| `WriteBack.CachePhase` | src/core/file.c:419-451 | the cache phase ends with everything cached, or with a chunk and a rest that are together all that the disk lacks |
| `WriteBack.CachePhaseLevel` | src/core/file.c:419-451 | if no call has left a hole, neither chunk nor rest starts behind what `size` is when they are written |
| `WriteBack.PartialWrite` | src/core/file.c:484-490 | after a kernel write of any part, the rest at the next offset completes the file as if the write had been whole |
| `WriteBack.WritePhase` | src/core/file.c:474-493 | a kernel write of any part of the chunk keeps the account of what the disk lacks |
| `WriteBack.SizeWithinDisk` | src/core/file.c:395-398 | `size <= disk length <= prealloc` holds after a kernel write, whatever the kernel takes of it, if and only if the disk file reaches to `size` and to where the write starts |
| `WriteBack.SizeAfterWrite` | src/core/file.c:395-398 | for one answer of the kernel: the bound holds if and only if it took something or the disk file reaches that far |
| `WriteBack.SizePassesDisk` | src/core/file.c:395-396 | a concrete run in which the bound fails: 4096 bytes at offset 10 of a new file without preallocation, of which the kernel takes none |
| `WriteBack.TightWrite` | src/core/file.c:466-472 | with the length preallocated, no answer of the kernel changes the length of the disk file, so the bound holds |
| `WriteBack.HolesBreakTheBound` | src/core/file.c:395-398 | for a call without preallocation on an empty cache: its first kernel write, at once or at the flush, keeps the bound under every answer if and only if the call starts inside the file |
| `WriteBack.FlushWithin` | src/core/file.c:402-417 | a flush, which does not preallocate, keeps the bound throughout and under every answer if and only if the disk file reaches to `size` and to where the cached bytes start |
| `WriteBack.FlushSettles` | src/core/file.c:402-417 | a complete flush restores the bound, with the disk file as long as what is preallocated |
| `WriteBack.HolesOfCalls` | src/core/file.c:496-523 | the flag in the bound says exactly whether some call starts behind the end of the file that the plain writes before it make |
| `WriteBack.SequentialHasNoHoles` | src/core/file.c:423-424 | calls at the current position never do |
| `WriteBack.Grow` | src/core/file.c:466-472 | growing the disk file to a power of two, or failing to, changes nothing that counts |
| `WriteBack.InSequence` | src/core/file.c:357-361 | on a pipe the chunk always starts where the sent bytes end, so the seek check cannot fire |
| `WriteBack.FlushStart` | src/core/file.c:402-407 | a flush starts with the whole cache to be written |
| `WriteBack.FlushStep` | src/core/file.c:407-412 | one pass of the flush loop keeps the account |
| `WriteBack.FlushEnd` | src/core/file.c:414-416 | when all is out the emptied cache is right |
| `WriteBack.Flushed` | src/core/file.c:414-416 | after a flush the disk file in front of `size` is the wanted file, and `size` is its length |
| `WriteBack.ExactLength` | src/core/file.c:97 | with nothing preallocated beyond `size` the disk file is exactly the wanted file |
| `WriteBack.FlushAgain` | src/core/file.c:402-417 | a flush that stopped half-way on a file can be repeated from the start of the buffer |
| `WriteBack.Trim` | src/core/file.c:114-118 | cutting the file to `size` changes nothing that counts |
| `WriteBack.TrimOwes` | src/core/file.c:114-118 | nor does it while a call is pending |
| `WriteBack.SequentialIsGapFree` | src/core/file.c:423-424 | calls at the current position never leave a gap, whatever their sizes are: the caller's condition is met by sequential writers |
| `WriteBack.SequentialWindow` | src/core/file.c:423-439 | after sequential calls the cached bytes end at the current position |
| `WriteBack.RunIsOverlaid` | src/core/file.c:423-439 | the calls taken one after the other lead to the plain writes laid over each other, and the current position is the end of the last call: a call at -1 starts where the call before it has ended |
| `WriteBack.LastCallWins` | src/core/file.c:496-523 | each byte of the result is that of the last call that covers its position |
| `WriteBack.UncoveredIsZero` | src/core/file.c:496-523 | a byte that no call covers is zero |
| `WriteBack.LengthIsGreatestEnd` | src/core/file.c:395-396 | the length of the result is the greatest end of any non-empty call, where the ends follow from the offsets and lengths of the calls alone |
| `CachedFile.File.Create` | src/core/file.c:52-73 | a clean object whose cache has 65536 bytes if no size is given, and otherwise that size, but at least 4096 |
| `CachedFile.File.Open` | src/core/file.c:176-276 | on an empty or truncated file the object stands for a new file if and only if nothing is left over from the last one, since only `size`, `prealloc` and `cur_off` are reset; bytes left over in the cache count as its first call |
| `CachedFile.Reuse` | src/core/file.c:131-133 | bytes that a failed flush left behind end up in the next file that the object is used for |
| `CachedFile.File.Trunc` | src/core/file.c:539-553 | at any time between calls: `prealloc` and the length are set, and nothing that counts changes if the new length is at least `size` and cuts off nothing that could not be cut |
| `CachedFile.File.FWrite` | src/core/file.c:349-400 | what the kernel took is written at the offset, the two size fields follow; errors come from the kernel or from a seek on a pipe, and change nothing |
| `CachedFile.File.Account` | src/core/file.c:475-493 | what the kernel did not take is remembered with its offset, and ASYNC is the answer exactly then |
| `CachedFile.File.Place` | src/core/file.c:431-450 | all of the data is in the cache, or a non-empty chunk is due and the rest is remembered |
| `CachedFile.File.FwCache` | src/core/file.c:419-451 | the first cache phase of a call accepts the call once, at its offset or at the current position; a later one takes the remembered rest |
| `CachedFile.File.Preallocate` | src/core/file.c:466-472 | if the chunk ends behind what is preallocated, that becomes the least power of two behind its end, and the disk file with it unless the system refuses; nothing that is owed changes |
| `CachedFile.File.Push` | src/core/file.c:474-493 | the kernel's answer is accounted for, and the disk file stays as long as what is preallocated |
| `CachedFile.File.FwWrite` | src/core/file.c:453-494 | a repeated call resumes the remembered chunk and ignores its arguments; at most one kernel write |
| `CachedFile.File.Phase` | src/core/file.c:514-521 | one pass of the loop: the phase that is due, and the switch |
| `CachedFile.File.Write` | src/core/file.c:496-523 | each call is accepted exactly once however often it is repeated, ends after at most two kernel writes, and fails only with the kernel: the seek check on a pipe never fires; the disk file stays as long as what is preallocated |
| `CachedFile.File.SizeStaysWithin` | src/core/file.c:395-398 | `size <= disk length <= prealloc` in every state between calls and while a call is pending, if no call has left a hole, or if the length has been preallocated and not been refused |
| `CachedFile.File.FlushPass` | src/core/file.c:407-412 | one pass of the flush loop, also of a flush that cannot succeed |
| `CachedFile.File.Flush` | src/core/file.c:402-417 | success empties the cache into the file; ASYNC can be retried, except on a pipe that has taken a part: that retry is refused and changes nothing; while a call is pending there is nothing to flush; the disk file ends as long as what is preallocated |
| `CachedFile.File.PreallocTrunc` | src/core/file.c:95-118 | with an empty cache the disk file becomes exactly the wanted file |
| `CachedFile.File.Close` | src/core/file.c:125-135 | after a complete flush and a successful cut the disk file is exactly the wanted file, and `size` its length; otherwise the cached bytes, or the rest of a pending call, stay behind |
| `CachedFile.Submit` | src/pack/tar.c:267-275 | a call repeated until it is not ASYNC has the effect of one plain write at its offset or at the current position; when the tries are used up it is still pending; the bound on `size` holds after every repetition |
| `CachedFile.Session` | src/core/file.c:496-523 | whole runs: for every list of gap-free calls, every kernel schedule, any initial length preset, with and without preallocation, on a file or a pipe, a complete run leaves exactly the plain writes laid one over the other, where a call at -1 starts at the end of the call before it; any other end has its cause in the kernel; the bound on `size` holds after every call and repetition if no call leaves a hole, or if the length is preallocated and never refused |
| `ReadCache.FbufSet.Find` | src/core/fbuf.h:73-84 | a buffer with the offset in its range, and none only if there is none |
| `ReadCache.File.constructor` | src/core/file.c:52-73 | three buffers unless asked otherwise, of 65536 bytes if no size is given, and otherwise that size, but at least 4096 |
| `ReadCache.File.ReadAt` | src/core/file.c:316 | a read is complete up to the end of the file, or fails without touching the buffer; every request and every kind of failure is counted |
| `ReadCache.File.Load` | src/core/file.c:316-336 | the buffer names the slice it holds, and a failed read leaves its offset and length alone |
| `ReadCache.File.Fill` | src/core/file.c:300-336 | after a cache miss every buffer is still a slice of the file, and the new one reaches the wanted offset if that is in the file |
| `ReadCache.File.View` | src/core/file.c:339-345 | the view goes from the offset to the end of the buffer; its length falls below zero if and only if the offset lies behind the end of the file and is not aligned |
| `ReadCache.File.Read` | src/core/file.c:287-346 | at any offset in the file the result is a non-empty part of it from there on, at its end EOF; behind its end EOF at aligned offsets and a wrapped length at all others; the kernel is asked once if no buffer holds the wanted byte, and otherwise not at all, so that a hit cannot fail; ASYNC and ERR are exactly the answers of the kernel, and do not move the position; every buffer stays coherent |
| `ReadCache.File.ReadAll` | src/ops/md5.c:165-175 | reading at the current position ends, and the views put together are exactly the rest of the file, with at most one request more than there are views; ASYNC, which is an answer of the kernel, ends the loop here |
| `Stream.Advance` | src/util/stream.h:195 | adding to an index modulo 2^32 adds to the masked position, also across the wrap |
| `Stream.CapacityFits` | src/util/stream.h:29-50 | the capacity fits into its 32-bit field if and only if at most 2^31 is asked for, and then divides 2^32 |
| `Stream.Rewind` | src/util/stream.h:97-98 | subtracting the masked position puts an index at the start of the buffer |
| `Stream.UsedAfter` | src/util/stream.h:65-69 | `w - r` is the number of bytes in use across wraps of either index |
| `Stream.ConsumeRegion` | src/util/stream.h:190-196 | a consumed region stays contiguous and in the buffer |
| `Stream.AppendRegion` | src/util/stream.h:101-111 | the write position is the end of the region, and there is room for what is copied |
| `Stream.MoveRegion` | src/util/stream.h:93-98 | moved to the front, the indices still name the same number of bytes |
| `Stream.FrontRegion` | src/util/stream.h:37-49 | a region at the front of a new buffer |
| `Stream.Stream.Realloc` | src/util/stream.h:27-51 | the capacity is the larger of the old one and the requested power of two; the unread bytes are kept, referenced or not |
| `Stream.Stream.Reset` | src/util/stream.h:59-62 | everything is dropped |
| `Stream.Stream.Consume` | src/util/stream.h:190-196 | the view loses exactly its first bytes |
| `Stream.Stream.MakeRoom` | src/util/stream.h:93-99 | room for the wanted number of contiguous bytes, and the unread bytes unchanged |
| `Stream.Stream.Append` | src/util/stream.h:101-111 | the accepted prefix of the input goes behind the unread bytes |
| `Stream.Stream.Gather` | src/util/stream.h:85-117 | the output is exactly the bytes accepted and not consumed, at least as many as wanted unless the input is used up |
| `Stream.Stream.Refer` | src/util/stream.h:135-141 | an empty stream takes the whole input by reference |
| `Stream.Stream.Unrefer` | src/util/stream.h:145-150 | going over from reference to buffer keeps the unread bytes |
| `Stream.Stream.GatherRef` | src/util/stream.h:129-187 | the output is exactly the bytes accepted and not consumed, at least as many as wanted unless the input is used up, through every change of mode |
| `Stream.Pass` | src/util/stream.h:85-196 | one pass of a consumer in either mode makes progress |
| `Stream.PumpedMore` | src/util/stream.h:85-196 | one pass more keeps what has come out equal to what went in |
| `Stream.Pump` | src/util/stream.h:85-196 | whole runs in either mode deliver exactly the input, and end |
| `FileCmp.ChunkCompared` | src/util/util.h:134-139 | comparing what two reads deliver is comparing the bytes of the window |
| `FileCmp.EqualChunks` | src/util/util.h:125-145 | a pass with equal chunks leads to the next one, or ends with files that agree |
| `FileCmp.NoSample` | src/util/util.h:130-131 | an offset that is negative as a signed number is met only when the first sample was the whole file |
| `FileCmp.DifferenceShows` | src/util/util.h:139-142 | a difference in a chunk is one in the sampled ranges |
| `FileCmp.CompareContents` | src/util/util.h:118-147 | the loop ends, with the right answer in either mode |
| `FileCmp.Compare` | src/util/util.h:100-154 | 0, 1 and -1 each mean what they should, for all sizes below 2^63 |
| `FileCmp.AgreeExactly` | src/util/util.h:91-120 | which bytes files must have in common to count as equal: all, or in fast mode those of the three samples |
| `FileCmp.FullIsExact` | src/util/util.h:94-99 | in full mode 0 means equal and nothing else |
| `FileCmp.EqualAgree` | src/util/util.h:91-92 | equal files are never rejected |
| `FileCmp.FastExactness` | src/util/util.h:118-120 | fast mode is exact for files of a size if and only if half the size is at most the window |
| `PathParent.CmpN` | src/util/util.h:43-54 | 0 if and only if the prefixes are equal, otherwise the first difference and its sign |
| `PathParent.FindLastSlash` | src/util/util.h:39-40 | the last slash, or -1 if there is none |
| `PathParent.Parent` | src/util/util.h:56-88 | the longest shared parent directory; failure if and only if a path is empty or there is none |
| `PathParent.SharedIsAtSlash` | src/util/util.h:65-83 | every shared parent ends at a slash within the common prefix |
| `PathParent.WholePrefix` | src/util/util.h:66-72 | the common prefix is the answer if both paths end there or go on with a slash |
| `PathParent.LastSlash` | src/util/util.h:81-86 | otherwise what is in front of its last slash, and nothing if there is none |
| `PathParent.ParentIsSymmetric` | src/util/util.h:56-60 | the answer is the same with the paths exchanged |
| `PathParent.PrefixIsNoParent` | src/util/util.h:74-83 | for "/a" and "/ab" the answer is the root, not "/a" |
| `Md5Sum.FindAny` | src/util/md5sum.h:33-36 | the first position of one of the bytes, or -1 |
| `Md5Sum.SkipLineEnd` | src/util/md5sum.h:43-46 | a line end of CR, LF or CR LF is passed over |
| `Md5Sum.Read` | src/util/md5sum.h:11-53 | the in-place reader computes the parse of the data: error, bytes consumed, sum and name |
| `Md5Sum.ReadAdvances` | src/util/md5sum.h:11-53 | every call on non-empty data consumes at least one byte; it counts one byte too many if and only if the data ends in CR and a stray LF lies behind it |
| `Md5Sum.ReadStaysInside` | src/util/md5sum.h:11-53 | a call that stays inside the data consumes the byte behind the name too, unless the data has ended there |
| `Md5Sum.AcceptedExactly` | src/util/md5sum.h:17-41 | from the bytes alone: a line is accepted if and only if it has 32 hexadecimal digits of either case, a space, a space or a star, and no NUL in front of its end |
| `Md5Sum.AcceptedParts` | src/util/md5sum.h:27-49 | of an accepted line: the sum is the value of its digits, the name goes up to the first CR or LF, and CR, LF or CR LF is consumed behind it |
| `Md5Sum.RejectedParts` | src/util/md5sum.h:15-49 | any other line is passed over up to its end, and a text too short for a line as a whole |
| `Md5Sum.FromHexExactly` | src/util/md5sum.h:23 | two digits of either case make a byte, the higher half first, and nothing else does |
| `Md5Sum.DigitsInOrder` | src/ops/md5.c:181 | the digits printed are 0 to 9 and a to f in this order |
| `Md5Sum.ValueExactly` | src/util/md5sum.h:23 | a digit of either case has the value that is printed as it in small letters |
| `Md5Sum.HexDigits` | src/ops/md5.c:181 | each byte of a sum is printed as its two halves |
| `Md5Sum.LinesExactly` | src/ops/md5.c:379-387 | a text says what its first line says if that is well-formed, and then what the rest says; each other line is one error |
| `Md5Sum.HexRoundTrip` | src/ops/md5.c:181 | the printed digits of any sum read back as the sum |
| `Md5Sum.LineLayout` | src/ops/md5.c:181 | where the parts of a printed line are |
| `Md5Sum.RoundTripExactly` | src/util/md5sum.h:3-4 | a printed line with a 16-byte sum reads back, whatever follows, if and only if its name has no NUL, CR or LF |
| `Md5Sum.ListRoundTrip` | src/ops/md5.c:181 | reading a printed list gives the list, without errors, whatever lies behind it |
| `Md5Sum.PrintedStep` | src/ops/md5.c:250-260 | reading the first printed line gives its entry and leaves the other lines |
| `Md5Sum.Checker.Next` | src/ops/md5.c:250-260 | on any text: done exactly at the end; otherwise one line is consumed, its name is terminated in place, and the unread text is untouched; or the line reaches beyond the text, exactly where the parse says so |
| `Md5Sum.Checker.ReadLine` | src/ops/md5.c:254-257 | reading a line touches nothing and moves the cursor by what the parse says |
| `Md5Sum.Checker.Terminate` | src/ops/md5.c:258 | the NUL falls outside the name and outside the unread text; nothing else changes |
| `Md5Sum.ReadList` | src/ops/md5.c:379-387 | for any text the loop ends with exactly the entries of its well-formed lines and the number of the others |
| `TaskQueue.TaskQueue.Post` | src/util/taskqueue.h:68-83 | a task already queued is left in its place; the result says whether the queue was empty |
| `TaskQueue.TaskQueue.Post4` | src/util/taskqueue.h:85-90 | handler and parameter are stored also for a queued task |
| `TaskQueue.TaskQueue.Others` | src/util/taskqueue.h:68-90 | whatever other threads and handlers post, the queue only grows at its end |
| `TaskQueue.TaskQueue.Unlink` | src/util/taskqueue.h:117-119 | the head leaves the queue |
| `TaskQueue.TaskQueue.Call` | src/util/taskqueue.h:121-123 | the call is made with the handler and parameter stored last for the task, even after it has left the queue |
| `TaskQueue.FaithfulSnoc` | src/util/taskqueue.h:85-123 | every call so far has been made with what had been stored last |
| `TaskQueue.TaskQueue.Run` | src/util/taskqueue.h:104-129 | exactly the tasks queued at the start are called, each once and in order, whatever is posted meanwhile; so it ends; every call uses what was stored last |
| `WakeUp.StepKeepsInv` | src/core/core.c:73-78 | every atomic step of a writer or the reader keeps the invariant |
| `WakeUp.RunKeepsInv` | src/core/core.c:73-119 | every interleaving of steps keeps the invariant |
| `WakeUp.PostArrives` | src/util/taskqueue.h:68-83 | a task posted in any reachable state is in the queue afterwards: the queue is the old one, with the task behind it if it was not there |
| `WakeUp.RunQueues` | src/util/taskqueue.h:68-126 | over whole runs the queue and the calls are what the posts and removals among the steps make them, by a function of the steps alone |
| `WakeUp.CalledAtMostPosted` | src/util/taskqueue.h:68-126 | no task is called or queued more often than it has been posted |
| `WakeUp.PostedIsServed` | src/core/core.c:73-119 | whatever happens before and after, a posted task is called later or is still queued, and then a waiting reader has been woken or a writer is about to wake it |
| `WakeUp.PostIsPossible` | src/core/core.c:73-78 | a writer that is not in the middle of a post can always post and wake, and then the task is queued and the wake event pending |
| `WakeUp.HandlerPostIsPossible` | src/core/core.c:73-78 | so can a handler |
| `WakeUp.NoLostWakeUp` | src/core/core.c:73-78 | in every reachable state, if the reader waits and the queue is not empty, a wake event is pending or a writer is between its post and its wake |
| `WakeUp.CallsAreFifo` | src/util/taskqueue.h:106-126 | calls happen in the order in which tasks entered the queue, and no task is queued twice |
| `WakeUp.PeekedIsHead` | src/util/taskqueue.h:113-119 | the task peeked at without the lock is still the head when it is removed |
| `WakeUp.BatchIsBounded` | src/util/taskqueue.h:109-126 | between two looks at the length there are at most as many calls as the batch has left |
| `WakeUp.BatchRuns` | src/core/core.c:113-119 | the reader can carry a batch through |
| `WakeUp.QueueDrains` | src/core/core.c:113-119 | with no writer in the middle of a post, a waiting reader can call every queued task, in order, by its own steps |
| `Words.U64Add` | 3pt/md5/md5.c:45 | counts modulo 2^64 add up |
| `Words.U64Times8` | 3pt/md5/md5.c:90 | the shift by three turns a count of bytes into one of bits, modulo 2^64 |
| `Words.Low6IsModulo` | 3pt/md5/md5.c:44 | the lower six bits of the 64-bit count are the number of bytes in the block begun |
| `Words.SwapStores` | 3pt/sha/sha256.c:226-227 | a swapped word stored on a little-endian machine has its bytes in big-endian order |
| `Words.SwapLoads` | 3pt/sha/sha256.c:355-359 | a word loaded and swapped is the big-endian word |
| `Words.WordsRoundTrip` | 3pt/sha/sha256.c:355-359 | words are read back as they have been stored, in either byte order |
| `Words.HalvesInMemory` | 3pt/md5/md5.c:90-92 | the two halves of a 64-bit number make it up, and its bytes |
| `Words.TimesEightOnHalves` | 3pt/sha/sha256.c:217-219 | the two 32-bit expressions are the halves of the bit count |
| `Padding.CountToBoundary` | 3pt/sha/sha256.c:210 | padding and length end at a block boundary |
| `Sha256Spec.PadLength` | 3pt/sha/sha256.c:210-223 | a padded message is a whole number of blocks |
| `Sha256Spec.PadShape` | 3pt/sha/sha256.c:204-223 | the padded message is the message, a one bit, zeros, and in its last eight bytes the length in bits, in the fewest blocks |
| `Sha256Spec.BlocksConcat` | 3pt/sha/sha256.c:309-402 | blocks can be digested in several calls |
| `Sha256Constants.ConstantsAreCubeRoots` | 3pt/sha/sha256.c:154-172 | every constant is the first 32 bits of the fractional part of the cube root of the prime of the same rank, as section 4.2.2 of FIPS 180-2 defines it |
| `Sha256Constants.InitialIsSquareRoots` | 3pt/sha/sha256.c:181-188 | the initial hash value is the first 32 bits of the fractional parts of the square roots of the first eight primes (section 5.3.2) |
| `Sha256Vectors.DigestOfAbc` | 3pt/sha/sha256.c:200-402 | SHA-256 of "abc" is ba7816bf...f20015ad, as in appendix B.1 of FIPS 180-2 |
| `Sha256.Floor64` | 3pt/sha/sha256.c:248-252 | clearing six bits gives the complete blocks |
| `Sha256.MacrosAreTheStandards` | 3pt/sha/sha256.c:345-352 | the shift macros are the rotations of section 4.1.2 of FIPS 180-2 |
| `Sha256.PadCountIsTheStandards` | 3pt/sha/sha256.c:210 | the number of padding bytes is that of section 5.1.1 of FIPS 180-2, for a buffer of 0 to 64 bytes |
| `Sha256.FillPrefix` | 3pt/sha/sha256.c:148-150 | the front of the fill buffer is the padding |
| `Sha256.PaddingIsTheStandards` | 3pt/sha/sha256.c:204-219 | digested part, buffer, padding and length are together the padded message |
| `Sha256.Ctx.Schedule` | 3pt/sha/sha256.c:354-361 | the message schedule of the block |
| `Sha256.Ctx.Rounds` | 3pt/sha/sha256.c:363-376 | the loop with its eight moving variables computes the 64 rounds of the standard, whose constants are the cube roots |
| `Sha256.Ctx.OneBlock` | 3pt/sha/sha256.c:378-387 | one block compressed |
| `Sha256.Ctx.AllBlocks` | 3pt/sha/sha256.c:328-391 | all blocks in order |
| `Sha256.Ctx.ProcessBlock` | 3pt/sha/sha256.c:309-402 | hash value and count after the blocks |
| `Sha256.Ctx.Advance` | 3pt/sha/sha256.c:309-402 | digesting the next bytes of the message keeps hash value and count in step with it |
| `Sha256.Ctx.TopUp` | 3pt/sha/sha256.c:236-258 | after the first part at most 64 bytes are in the buffer, and none if input is left |
| `Sha256.Ctx.Fill` | 3pt/sha/sha256.c:240-244 | as much input as fits into 128 bytes goes behind the buffered bytes |
| `Sha256.Ctx.Drain` | 3pt/sha/sha256.c:246-254 | complete blocks are digested, and the rest moves to the front |
| `Sha256.Ctx.Bulk` | 3pt/sha/sha256.c:260-285 | on either alignment path the complete blocks are digested, with at most 64 bytes left |
| `Sha256.Ctx.CopiedBlock` | 3pt/sha/sha256.c:274-276 | one block through the buffer |
| `Sha256.Ctx.BlocksInPlace` | 3pt/sha/sha256.c:281-283 | all complete blocks in place |
| `Sha256.Ctx.Keep` | 3pt/sha/sha256.c:287-301 | the last bytes are kept, and a complete block among them is digested |
| `Sha256.Ctx.ProcessBytes` | 3pt/sha/sha256.c:233-302 | for any buffered length up to 64 and any input and alignment, the object then stands for the longer message |
| `Sha256.Ctx.PutLength` | 3pt/sha/sha256.c:213-220 | the bit count stands behind the padding, most significant byte first |
| `Sha256.Ctx.PutPadding` | 3pt/sha/sha256.c:210-220 | buffer, padding and length, all within the 128 bytes |
| `Sha256.Ctx.Result` | 3pt/sha/sha256.c:225-227 | the bytes of the digest |
| `Sha256.Ctx.Finish` | 3pt/sha/sha256.c:200-230 | the result is SHA-256 of the message, as in sections 5.1.1 and 6.2.2 of FIPS 180-2 |
| `Sha256.HashPieces` | 3pt/sha/sha256.c:200-302 | for every message, every split of it into calls and every alignment, the result is SHA-256 of the whole |
| `Md5Spec.BlocksConcat` | 3pt/md5/md5.c:178-292 | blocks can be digested in several calls |
| `Md5Spec.PadLength` | 3pt/md5/md5.c:79-93 | a padded message is a whole number of blocks |
| `Md5Spec.PadShape` | 3pt/md5/md5.c:70-93 | the padded message is the message, a one bit, zeros, and in its last eight bytes the length in bits, in the fewest blocks |
| `Md5Vectors.DigestOfAbc` | 3pt/md5/md5.c:70-292 | MD5 of "abc" is 900150983cd24fb0d6963f7d28e17f72, as in section A.5 of RFC 1321 |
| `Md5.F` | 3pt/md5/md5.c:131 | the optimised form is the one of section 3.4 of RFC 1321, on all words |
| `Md5.G` | 3pt/md5/md5.c:132 | the optimised form is the one of section 3.4 of RFC 1321, on all words |
| `Md5.CycleIsRotation` | 3pt/md5/md5.c:142 | the two shifts are a rotation, for the sixteen amounts in use |
| `Md5.Step` | 3pt/md5/md5.c:140-143 | the three statements compute b + ((a + f + x + t) rotated by s) |
| `Md5.Round1A` | 3pt/md5/md5.c:203-206 | operations 1 to 4 of section 3.4 of RFC 1321, with the registers back in their places |
| `Md5.Round1B` | 3pt/md5/md5.c:207-210 | operations 5 to 8 of section 3.4 of RFC 1321, with the registers back in their places |
| `Md5.Round1C` | 3pt/md5/md5.c:211-214 | operations 9 to 12 of section 3.4 of RFC 1321, with the registers back in their places |
| `Md5.Round1D` | 3pt/md5/md5.c:215-218 | operations 13 to 16 of section 3.4 of RFC 1321, with the registers back in their places |
| `Md5.Round2A` | 3pt/md5/md5.c:222-225 | operations 17 to 20 of section 3.4 of RFC 1321, with the registers back in their places |
| `Md5.Round2B` | 3pt/md5/md5.c:226-229 | operations 21 to 24 of section 3.4 of RFC 1321, with the registers back in their places |
| `Md5.Round2C` | 3pt/md5/md5.c:230-233 | operations 25 to 28 of section 3.4 of RFC 1321, with the registers back in their places |
| `Md5.Round2D` | 3pt/md5/md5.c:234-237 | operations 29 to 32 of section 3.4 of RFC 1321, with the registers back in their places |
| `Md5.Round3A` | 3pt/md5/md5.c:241-244 | operations 33 to 36 of section 3.4 of RFC 1321, with the registers back in their places |
| `Md5.Round3B` | 3pt/md5/md5.c:245-248 | operations 37 to 40 of section 3.4 of RFC 1321, with the registers back in their places |
| `Md5.Round3C` | 3pt/md5/md5.c:249-252 | operations 41 to 44 of section 3.4 of RFC 1321, with the registers back in their places |
| `Md5.Round3D` | 3pt/md5/md5.c:253-256 | operations 45 to 48 of section 3.4 of RFC 1321, with the registers back in their places |
| `Md5.Round4A` | 3pt/md5/md5.c:260-263 | operations 49 to 52 of section 3.4 of RFC 1321, with the registers back in their places |
| `Md5.Round4B` | 3pt/md5/md5.c:264-267 | operations 53 to 56 of section 3.4 of RFC 1321, with the registers back in their places |
| `Md5.Round4C` | 3pt/md5/md5.c:268-271 | operations 57 to 60 of section 3.4 of RFC 1321, with the registers back in their places |
| `Md5.Round4D` | 3pt/md5/md5.c:272-275 | operations 61 to 64 of section 3.4 of RFC 1321, with the registers back in their places |
| `Md5.AllRounds` | 3pt/md5/md5.c:201-275 | the 64 operations on a block |
| `Md5.Body` | 3pt/md5/md5.c:178-292 | the do-while loop compresses every block in order |
| `Md5.Advance` | 3pt/md5/md5.c:178-292 | digesting the next bytes of the message |
| `Md5.TailIsTheStandards` | 3pt/md5/md5.c:75-93 | the padding laid out in one block or in two is that of sections 3.1 and 3.2 of RFC 1321 |
| `Md5.PaddingIsTheStandards` | 3pt/md5/md5.c:75-98 | digested part and tail are together the padded message |
| `Md5.Ctx.LeftOver` | 3pt/md5/md5.c:44 | the number of bytes in the buffer is the length of the message modulo 64 |
| `Md5.Ctx.Digest` | 3pt/md5/md5.c:58-62 | blocks of the message behind the digested ones are digested |
| `Md5.Ctx.Keep` | 3pt/md5/md5.c:50-53 | an incomplete block is kept |
| `Md5.Ctx.TopUp` | 3pt/md5/md5.c:55-58 | a completed block is digested |
| `Md5.Ctx.Complete` | 3pt/md5/md5.c:61-64 | complete blocks are digested in place, with less than a block left |
| `Md5.Ctx.Bulk` | 3pt/md5/md5.c:61-66 | complete blocks are digested in place, the rest is kept |
| `Md5.Ctx.Absorb` | 3pt/md5/md5.c:47-66 | with an incomplete block or complete ones, the message is digested up to its last complete block |
| `Md5.Ctx.Update` | 3pt/md5/md5.c:39-67 | for any input the object then stands for the longer message, with the count modulo 2^64 |
| `Md5.Ctx.PutPadding` | 3pt/md5/md5.c:73-88 | the padding, with a block digested if the length does not fit |
| `Md5.Ctx.PutLength` | 3pt/md5/md5.c:90-100 | the bit count, least significant byte first, and the last block |
| `Md5.Ctx.Final` | 3pt/md5/md5.c:70-120 | the result is MD5 of the message, as in sections 3.1 to 3.5 of RFC 1321, and the object is wiped |
| `Md5.HashPieces` | 3pt/md5/md5.c:39-120 | for every message and every split of it into calls the result is MD5 of the whole |
| `SyncEntry.NameOrderMirror` | src/fs/sync-cmp.h:41-46 | exchanging the names negates the order |
| `SyncEntry.NameOrderExactly` | src/fs/sync-cmp.h:41-46 | names are ordered by the first letter that differs, capital or small; a name that goes on comes behind one that ends |
| `SyncEntry.LowerIsSameLetter` | src/fs/sync-cmp.h:42 | letters count as equal if they are the same letter of the alphabet |
| `SyncEntry.TimeOrderExactly` | src/fs/sync-cmp.h:69 | times are ordered by their nanoseconds |
| `SyncEntry.HalfTruncates` | src/fs/sync-cmp.h:67 | seconds are halved towards zero |
| `SyncEntry.TimeDifferenceExactly` | src/fs/sync-cmp.h:64-73 | which options make two times count as equal |
| `SyncEntry.DataCmpBits` | src/fs/sync-cmp.h:39-76 | what each bit of the result says about the fields of the two files and the options, both ways, and which results there are |
| `SyncEntry.DataCmpMirror` | src/fs/sync-cmp.h:39-76 | exchanging the files mirrors the result, under every option |
| `SyncEntry.SwapKeepsTheRest` | src/fs/sync-cmp.h:457-463 | bits outside the three pairs stay |
| `SyncEntry.SwapExchanges` | src/fs/sync-cmp.h:457-463 | each bit of a pair becomes the other |
| `SyncEntry.SwapTwice` | src/fs/sync-cmp.h:448-463 | swapping twice gives a status back if no bit stands beside its opposite |
| `SyncEntry.SwapTwiceForgets` | src/fs/sync-cmp.h:448-463 | swapping twice never gives a status back in which some bit stands beside its opposite |
| `SyncEntry.SwapIsInvolutionExactly` | src/fs/sync-cmp.h:448-463 | swapping is an involution exactly on statuses without opposites |
| `DiffSpec.KeysStep` | src/fs/sync-cmp.h:211-254 | a file on one side adds its key to those of its side and leaves the other side's alone |
| `DiffSpec.MovesIsTheTest` | src/fs/sync-cmp.h:215-216 | the status test of the first row holds exactly if the key has been seen on the other side and not on this one |
| `DiffSpec.MatchKeepsRows` | src/fs/sync-cmp.h:219-223 | a match keeps every row true to its event: the row found shows the new file beside its own |
| `DiffSpec.PlainKeepsRows` | src/fs/sync-cmp.h:229 | an unmatched file keeps every row true to its event |
| `DiffSpec.PairKeepsRows` | src/fs/sync-cmp.h:256-264 | a file on both sides keeps every row true to its event |
| `DiffSpec.MatchKeepsTallies` | src/fs/sync-cmp.h:224-227 | a match keeps the counters equal to the numbers of rows |
| `DiffSpec.PlainKeepsTallies` | src/fs/sync-cmp.h:213-271 | an unmatched file keeps the counters equal to the numbers of rows |
| `DiffSpec.PairKeepsTallies` | src/fs/sync-cmp.h:257-271 | a file on both sides keeps the counters equal to the numbers of rows |
| `DiffSpec.MatchKeepsFirst` | src/fs/sync-cmp.h:215-223 | after a match the first row of each key still says where the key has been seen |
| `DiffSpec.PlainKeepsFirst` | src/fs/sync-cmp.h:146-158 | after an unmatched file the first row of each key still says where the key has been seen |
| `DiffSpec.PairKeepsFirst` | src/fs/sync-cmp.h:256-264 | after a file on both sides the first row of each key still says where the key has been seen |
| `DiffSpec.OnlyKeepsFiles` | src/fs/sync-cmp.h:212-254 | files and shared keys are counted right after a file on one side |
| `DiffSpec.PairKeepsFiles` | src/fs/sync-cmp.h:256-264 | files and shared keys are counted right after a file on both sides |
| `DiffSpec.StepKeepsInv` | src/fs/sync-cmp.h:181-273 | every event keeps the whole invariant |
| `DiffSpec.RunKeepsInv` | src/fs/sync-cmp.h:405-408 | it holds after every sequence of events |
| `DiffSpec.MovedClosedForm` | src/fs/sync-cmp.h:211-254 | the number of moved files is the number of keys that both sides have among their unmatched files |
| `DiffSpec.MovedIgnoresOrder` | src/fs/sync-cmp.h:211-254 | it does not depend on the order of the events |
| `DiffSpec.CountersConserve` | src/fs/sync-cmp.h:211-271 | the counters add up to the entries and to the rows not skipped, count every file of either side once, and are never negative |
| `DiffSpec.ReachableStatus` | src/fs/sync-cmp.h:200-264 | every row shows the file of its event and has a known status, on which swapping is an involution |
| `DiffSpec.MatchMirror` | src/fs/sync-cmp.h:212-254 | the branches for left and right mirror each other on a match |
| `DiffSpec.PlainMirror` | src/fs/sync-cmp.h:212-254 | the branches for left and right mirror each other without a match |
| `DiffSpec.PairMirror` | src/fs/sync-cmp.h:256-264 | a pair mirrors to the mirrored pair |
| `DiffSpec.StepMirror` | src/fs/sync-cmp.h:181-273 | every event, in every reachable state, mirrors to the mirrored step |
| `DiffSpec.RunMirror` | src/fs/sync-cmp.h:181-273 | comparing the trees exchanged gives the mirrored table and counters |
| `DiffRows.RowsOfRun` | src/fs/sync-cmp.h:181-273 | every row of every comparison, from the events alone: of the first left-only and the first right-only file with a key the earlier row shows both, as moved from the left one to the right one, and the later row is to be skipped; all other rows show the files of their own event |
| `DiffRows.StepRows` | src/fs/sync-cmp.h:181-273 | every event keeps the rows as the events have them |
| `DiffRows.OldRow` | src/fs/sync-cmp.h:219-223 | what a new event changes in the rows of the old ones: the first row of its key gets the second file, and no other row changes |
| `DiffRows.CountersOfRun` | src/fs/sync-cmp.h:211-271 | every counter, from the events alone |
| `DiffRows.PairsCounted` | src/fs/sync-cmp.h:256-264 | the counters of equal and different files are the numbers of pairs of either kind |
| `DiffRows.SameKey` | src/fs/sync-cmp.h:98-110 | when two files may be one, moved: same size, both directories or neither, same name and same time, as far as the options say |
| `DiffRows.WholeMsec` | src/fs/sync-cmp.h:110 | times are compared in whole milliseconds |
| `Diff.FoundMirror` | src/fs/sync-cmp.h:39-76 | comparing the files in the other order gives the mirrored event |
| `Diff.KeyEqIsSameKey` | src/fs/sync-cmp.h:90-143 | two files match if and only if their keys are equal, and then the hash function gets the same input, under every option |
| `Diff.TableAfterAdd` | src/fs/sync-cmp.h:153-156 | adding a file leaves the hash table holding exactly the first rows of all keys |
| `Diff.TableAfterUpdate` | src/fs/sync-cmp.h:219-223 | rewriting a row with a matching file leaves the hash table right |
| `Diff.TableAfterMatch` | src/fs/sync-cmp.h:219-223 | the two rewrites of a match leave the hash table right |
| `Diff.Diff.FindHash` | src/fs/sync-cmp.h:150 | lookup by hash and comparison finds the first row of the file's key, whatever the hash function is |
| `Diff.Diff.FindAdd` | src/fs/sync-cmp.h:146-158 | the row found, or the file added as the first one of its key |
| `Diff.Diff.OnLeft` | src/fs/sync-cmp.h:212-232 | table, counters and hash table follow the step for a file on the left only; `DiffRows.RowsOfRun` says which files the rows then show |
| `Diff.Diff.OnRight` | src/fs/sync-cmp.h:234-254 | table, counters and hash table follow the step for a file on the right only; `DiffRows.RowsOfRun` says which files the rows then show |
| `Diff.Diff.OnPair` | src/fs/sync-cmp.h:256-264 | table, counters and hash table follow the step for a file on both sides |
| `Diff.Diff.Next` | src/fs/sync-cmp.h:181-273 | the in-place code follows the step function on every event, and ends with the events |
| `Diff.SyncDiff` | src/fs/sync-cmp.h:400-411 | a whole comparison ends in the state that the events determine, and every row is the one that they alone call for |
| `Diff.ShowsFound` | src/fs/sync-cmp.h:188-209 | each row shows the files that the comparison has found, and leaves out the unused one |
| `Diff.Diff.View` | src/fs/sync-cmp.h:465-566 | the list of selected rows, in order |
| `Diff.Shows` | src/fs/sync-cmp.h:471-557 | the chain of tests selects exactly the rows that it should |
| `Diff.KindShown` | src/fs/sync-cmp.h:481-509 | the switch over the status |
| `Diff.Filtered` | src/fs/sync-cmp.h:528-557 | the loops over the patterns: none of the one list, and some of the other if there are any |
| `SyncView.ViewShowsTheSelected` | src/fs/sync-cmp.h:465-566 | a row is in the view if and only if it is selected, and the view is in the order of the table |
| `SyncView.SelectedExactly` | src/fs/sync-cmp.h:471-557 | what each filter lets through: the flags by status from the side asked for, rows done with and directories on demand, a date the files that are not older, and the patterns by name or path |
| `SyncView.FlagsOfKinds` | src/fs/sync-cmp.h:481-509 | which statuses a set of flags lets through, in numbers |
| `SyncView.IncludedExactly` | src/fs/sync-cmp.h:535-552 | an inclusion must be found in one of the files, or in both if asked for |
| `SyncView.MoreFlagsShowMore` | src/fs/sync-cmp.h:471-520 | more flags never hide a row |
| `SyncView.NarrowerShowsLess` | src/fs/sync-cmp.h:522-557 | more exclusions, fewer inclusions or a later date never show one more |
| `SyncView.ViewOfEverything` | src/fs/sync-cmp.h:465-566 | with all kinds and no filter the view has as many rows as the counter of entries says |
| `SyncView.PassesMirror` | src/fs/sync-cmp.h:522-557 | the filters by date and name treat both sides alike |
| `SyncView.SelectedMirror` | src/fs/sync-cmp.h:471-557 | a row is selected with the sides exchanged if and only if the mirrored row is selected |
| `SyncView.ViewMirror` | src/fs/sync-cmp.h:465-566 | the view of a table with the sides exchanged is the view of the mirrored table |
| `SyncView.SwapAndViewCommute` | src/fs/sync-cmp.h:181-566 | exchanging the trees before comparing equals exchanging the sides when looking, for every comparison, filter and flags |
| `SyncView.SortOrderIsTotal` | src/fs/sync-cmp.h:275-320 | the comparison function is antisymmetric and transitive, for every choice of flags |
| `SyncView.SortOrderDescends` | src/fs/sync-cmp.h:305-319 | the greatest size, or else the latest time, comes first |
| `SyncView.SortKeysExactly` | src/fs/sync-cmp.h:283-303 | a row sorts by the greatest size and the latest time of its files |
| `SyncView.SortTimeMirror` | src/fs/sync-cmp.h:283-293 | the time by which a row sorts, from either side |
| `SyncView.SortOrderMirror` | src/fs/sync-cmp.h:275-320 | two rows sort alike from either side if and only if the order is by size, or there is none, or their times agree in a stated sense: a row that shows one file alone from before the time 0 lies at that time from one side and at 0 from the other, and the other row must not lie between |
| `Dups.Scan.constructor` | src/fs/sync-cmp.h:323-348 | one row for each file, and nothing compared yet |
| `Dups.Input.RowsAlone` | src/fs/sync-cmp.h:371-387 | a file whose next neighbour differs is closed as unique |
| `Dups.Input.RowsFirst` | src/fs/sync-cmp.h:369-376 | a file after a pair, or the first one, waits for its neighbour |
| `Dups.Input.RowsPaired` | src/fs/sync-cmp.h:389-393 | two equal neighbours become a pair |
| `Dups.Input.RowsEnd` | src/fs/sync-cmp.h:354-361 | at the end a waiting file is closed as unique |
| `Dups.Input.FinalRowsPair` | src/fs/sync-cmp.h:350-397 | every file has exactly one of three statuses; EQ and DONE rows pair one to one, neighbours of equal size that compared equal, and the EQ row shows both; two neighbours left alone differ in size or content |
| `Dups.RowsOfPairs` | src/fs/sync-cmp.h:353-397 | how many rows of each status a prefix of the list has |
| `Dups.CountersCountRows` | src/fs/sync-cmp.h:353-397 | at the end `eq` is the number of rows with EQ and of rows with DONE, `neq` that of rows with NEQ |
| `Dups.Scan.End` | src/fs/sync-cmp.h:354-361 | the final rows and counters |
| `Dups.Scan.Next` | src/fs/sync-cmp.h:363-396 | one file further, the rows and counters are those of the longer prefix |
| `Dups.Scan.ScanNext` | src/fs/sync-cmp.h:353-397 | 1 exactly behind the last file |
| `Dups.FindDups` | src/fs/sync-cmp.h:420-429 | a whole scan, for any comparison results: `2*eq + neq == entries`, every file counted, all rows final |

## Left out

Operations:

- Archives, pictures, encryption, copying, deleting, moving, listing and the graphical interface: they are loops around libraries and system calls whose behaviour is not part of the repository.
- Reading and writing snapshots, the tree cursor and `fntree_cmp_next`: the comparison takes any sequence of results that `data_cmp` can give.
- `FCOM_SYNC_DIFF_MOVE_CHK_CONTENT`, `sync_status`, `sync_info` and the text of paths.
- `ffsort`: the scan for duplicates takes any order of the files, and the view is proved before sorting; of `sort_f` it is proved that sorting may rely on it.
- `fftaskqueue_del`, which nothing calls; timers and other events of the loop in `core_run`.
- The update mode of the md5 operation (`src/ops/md5.c:84-120`).
- STDIN, NOCACHE, DIRECTIO, FAKEWRITE, Windows branches, file times, statistics and logging of the file layer, and `FCOM_FBEH_TRUNC_PREALLOC`.

Simplifications:

- Byte strings and containers from ffbase (`ffstr_shift`, `ffs_tohex`, `ffstr_findany`, `ffstr_icmp2`, `fflist`, `ffmap`, `ffint_align_power2`, `fftime_cmp`, `fftime_to_msec`) are modelled by what their callers rely on; ffbase is not part of this model. `ffstr_icmp2` is taken as the lexicographic order of the lower-cased ASCII bytes, the substring test and the hash function are arbitrary.
- `FNTREE_CMP_EQ` is taken as 0 and the other three results as the status bits of the same name; `FFFILE_UNIX_DIR` is taken as 0x4000. What matters is that they are distinct, but several laws are written with the numbers.
- File offsets and lengths are unbounded numbers; in fcom they are below 2^63. Counters of the comparison are unbounded too; in fcom they have 32 bits, and what is proved about underflow holds there as well.
- Memory allocation does not fail. After an error from the kernel nothing is promised except that it is reported.
- The structures `wcache` and `w` of `struct file`, the registers of MD5 and the counters of the comparison are record values in one field each.
- `file_write` repeated after ASYNC: any arguments are accepted, as in the code.
- CachedFile.File.Write: requires that the call leaves no gap in the cache, and on a pipe that it is at the current position, as its callers do.
- CachedFile.Session: bounds the repetitions of a call by a number of tries, since a kernel may answer EAGAIN for ever; a run that needs more says so, with the call still pending. A file that is not empty and cannot be cut ends the run at its start, where the code would write over it. Likewise the kernel's answers of zero bytes are finitely many, without which `file_flush` need not end.
- Disk.Disk.WriteAt: a write of zero bytes counts as one the kernel took nothing of; a negative result is EAGAIN or an error.
- ReadCache.File.Read: nobody writes to the file meanwhile. A wrapped length is an answer of its own, and what a caller then reads is not part of this model.
- ReadCache.File.ReadAll: stops at ASYNC, where the loop at `src/ops/md5.c:165-175` takes the data of the last view once more.
- Sha256: the machine is little-endian and `_STRING_ARCH_unaligned` is off; on a big-endian machine `SWAP` is the identity. The outcome of the alignment test is arbitrary for each call.
- Md5Spec.T: its constants are those of RFC 1321 as listed; that they are the values of the sine function is not proved, since reals in Dafny have no sine. `Md5Vectors.DigestOfAbc` passes through all of them.
- Md5: the input of `ngx_md5_body` is a value, not a pointer that moves through memory.
- Stream.Stream.Realloc: capacities above 2^31 do not fit into the 32-bit field and are not modelled; Stream.CapacityFits says that these are exactly the ones.
- Stream.Stream.Gather: requires that the object is not in reference mode; the two functions are not to be mixed on one object. Inputs are shorter than 2^32 bytes, and the memory of a referenced input does not change.
- TaskQueue.TaskQueue.Post4: one step; in the code the two fields are stored outside the lock, so a call could see one of them old and one new.
- WakeUp: the wake event is a flag that stays set until it is consumed.
- FileCmp.Compare: the files do not change meanwhile.
- Md5Sum.Checker: there is room for one byte behind the text; how the text was read is not part of this model. After an overrun nothing more is read, where the code would go on with a wrapped length. The files named are not opened and verified. What a failed conversion leaves in the sum is not modelled.
- Dups: files are shorter than 2^64 - 1 bytes, which the code uses as a mark, and `dups_scan_next` is not called again after it has returned 1. The comparison result of two files is arbitrary but fixed.
