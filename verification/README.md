# A verified model of the Composite OS layer for SQLite

The Composite port of SQLite replaces the operating system below SQLite by three pieces of C:
an in-memory file system kept as a linked list of buffered nodes (`os_composite_inmemfs.c`), the
VFS calls on top of it (`os_composite_vfs.c`), and an allocator that puts a size header before
every block (`os_composite_mem.c`). This project models them in Dafny and proves what whole
runs of calls keep. Everything is checked by `dafny verify dfyconfig.toml`.

## How the model is built

There are four levels, each proved against the next.

1. **The heap** (`Memory.dfy`, `FileSystem.dfy`, `Vfs.dfy`): classes for the allocator, the list
   node `FsFile`, the file system `Files`, the handle `CFile` and the VFS, with the loops and the
   field updates of the C code. The ghost value `shape` describes the list: which node sits at
   which position, which blocks it owns, and the file that it stores.
2. **The list as a value** (`FileModel.dfy`, `VfsModel.dfy`): one pure function for each C
   operation, with its branches, result codes and memory requests in order. Every method of level
   1 ends in exactly the state and the result that the function of level 2 gives. `Simulation.dfy`
   carries that over to whole sessions.
3. **Runs** (`VfsRuns.dfy` and the modules that import it): what any sequence of calls keeps, from
   any consistent state.
4. **The simple form** (`NameMap.dfy`): a map from names to the bytes last written there, a length,
   a count and a flag. The list refines it, call by call and over runs.

`Accounting.dfy` treats the usage counters over any run of grants and frees; the allocator of
level 1 keeps the log of its own run, so its theorems hold at every moment of every session.
`Footprint.dfy` says what the files are charged in `outstanding_memory` over runs of calls.
`Prng.dfy` and `Randomness.dfy` treat the random number generator and the function that fills a
buffer from it; `Arena.dfy` treats the other branch of the allocator.

**The environment.** Whether the n-th memory request is granted, and what a fresh block
contains, is decided by a value `env` of which nothing is assumed. Every theorem holds for every
`env`: for every pattern of allocation failures and for every junk in fresh memory.

**Which calls are covered.** `VfsModel.Enabled` says which calls C defines: the handle is open (or,
for an open, is not), names are NUL-terminated, arguments fit their C types, counts fit the
caller's buffer, and 32-bit and 64-bit arithmetic does not overflow. The last point is checked: the
methods compute in the types `int32` and `int64`, whose arithmetic the verifier does not let leave
the range. Negative offsets, counts and sizes, allocation failures, names of any length,
exclusive-create refusals, unknown control codes and reads so far past the end that the count wraps
around are all inside.

**Behaviour kept as the code has it**, where its documentation or the SQLite interface suggests
something else. Each has its exact condition proved, and `Witnesses.dfy` gives inputs, most of them
runs from the empty list:

- A write sets the length to its own end, so a write in the middle of a file shortens it
  (`History.WriteShortensExactly`). The bytes behind stay in the buffer.
- A read past the end makes `cRead` fill zeros in front of the caller's buffer, or copy from
  outside the file's, unless it is at most one byte past the end or the distance is a multiple of
  2^32, or one more (`History.ReadInBufferExactly`); the other reads are outside `Enabled`. One byte
  past the end, `cRead` reports an error instead of a short read (`History.ReadRepliesExactly`).
- `cWrite` of a count of -1 reports success, although `fs_write` reports an error
  (`Isolation.WriteSucceedsExactly`).
- A name of MAX_PATHNAME or more characters is stored cut and never found again
  (`Isolation.AccessIsExact`); opened with DELETEONCLOSE, its file stays behind
  (`TempFile.TempRoundTrip`, an if-and-only-if).
- Growing narrows a request above 2^31 - 1 to an `int`, and then reports success without the room
  (`FileModel.RoomReachedExactly`).
- `max` takes its second argument as an `int`. Over any run, the recorded maximum is the true one
  exactly when that fits an `int` or the last grant reached it (`Accounting.RecordExactly`).
- `cMemFree` leaves the counters alone: `outstanding_memory` is the memory in use exactly when no
  block went through it (`Accounting.OutstandingIsUseExactly`). No close, delete or deinit lowers it
  (`Footprint.StepTotal`, `Simulation.Session`), and an open that is refused memory can raise it
  (`Footprint.RefusedTotal`).
- Arena regions include the header in their size, so the last four bytes of a block's nominal
  payload are the next region's header (`Arena.PayloadRoomExactly`), and a region smaller than a
  header loses its recorded size with the next grant, except for certain sizes
  (`Arena.SmallRecordExactly`). A grant of at most two bytes in the last three bytes of the arena
  writes its header past the end (`Arena.HeaderFitsExactly`).
- `cRandomness` adds eight to its `int` index before comparing it, which overflows for requests above
  2^31 - 8 and for no others (`Randomness.IndexFitsExactly`); they are outside its precondition.

Bytes between the old end and a far write are not cleared: they are whatever the buffer held, which
for bytes never written is left open.

## Model

| member | source | states |
|---|---|---|
| CStrings.StrEquals | os_composite_inmemfs.c:6-19 | the result is 1 exactly when both NUL-terminated strings are equal and shorter than n; neither terminator is passed, whatever follows it in memory |
| FileSystem.CopyData | os_composite_inmemfs.c:21-26 | exactly the n bytes at the target are replaced by the n source bytes; a count of zero or less changes nothing |
| FileSystem.Files.CopyString | os_composite_inmemfs.c:57-76 | a granted copy is a fresh block with the name, cut at MAX_PATHNAME, and a NUL; a refusal leaves the live blocks as they were |
| FileSystem.FileLink | os_composite_inmemfs.c:79-82 | the chain from the sentinel becomes the new node followed by the old chain, still ending in null |
| FileSystem.FileUnlink | os_composite_inmemfs.c:85-99 | the chain loses exactly the given node and keeps the order of all others |
| FileSystem.FindFile | os_composite_inmemfs.c:102-111 | the result is the node at the first position whose name equals the argument and is shorter than MAX_PATHNAME, or null if there is none |
| FileSystem.Files.AllocBlocks | os_composite_inmemfs.c:113-130 | all three blocks are granted, distinct from each other and from every live block, or the live blocks are as before and outstanding memory is higher by exactly what was granted before the refusal; the number of requests made tells which one was refused |
| FileSystem.Files.FileAlloc | os_composite_inmemfs.c:113-143 | the file system stays sound and takes the step of the model; a failure leaves the list, its nodes and its blocks as they were |
| FileModel.AllocWellFormed | os_composite_inmemfs.c:113-143 | a new file is linked in front exactly when all three requests are granted, under an id never used and a name that no linked file answers to; a refusal leaves the files alone and loses 0, 52 or 8248 bytes, by the request it hits |
| FileSystem.FileFree | os_composite_inmemfs.c:146-158 | the three blocks of the node, and no others, leave the live set; no counter and no charge moves, and exactly the sizes of the blocks with a header each are lost |
| FileSystem.Files.EnsureCapacity | os_composite_inmemfs.c:163-180 | for requests up to 2^31 - 1, heap growth agrees with the model, including a refusal and the bytes copied; all other files, their nodes and their buffers stay; no step of the arithmetic leaves an int |
| FileModel.GrowthDefinedExactly | os_composite_inmemfs.c:164-169 | the condition under which growing is modelled holds exactly when the doubling and the request, where they are reached, fit an int |
| FileModel.RoomReachedExactly | os_composite_inmemfs.c:166-169 | after the narrowing to an int, the room that is asked for reaches the request exactly for requests up to 2^31 - 1 |
| VfsRuns.GrowEffect | os_composite_inmemfs.c:163-180 | growing succeeds exactly when the room suffices or its one request is granted; the new capacity is the larger of twice the old one and the request; the old bytes stay in front, fresh memory is behind, and exactly the old block is copied |
| FileSystem.Files.FsInit | os_composite_inmemfs.c:183-188 | an empty sound list; all blocks that were live before belong to others |
| FileSystem.FreeAll | os_composite_inmemfs.c:190-197 | the loop ends, and of the file system's blocks exactly the sentinel's is left; each free is of a block that is live, so none happens twice; no counter moves |
| FileSystem.Files.FsDeinit | os_composite_inmemfs.c:190-202 | exactly the blocks that belong to others are live afterwards, and no usage counter moves |
| FileSystem.Files.LiveCount | os_composite_inmemfs.c:113-158 | between calls the live blocks are those of others, one for the sentinel and three for each linked file |
| FileSystem.Files.Charged | os_composite_mem.c:79-84 | between calls outstanding memory is the charge of others' live blocks, of the sentinel, of the linked files' blocks, and of all that plain frees lost |
| FileSystem.Files.Unmoved | os_composite_inmemfs.c:79-99 | when the files are again those of an earlier moment, whatever happened in between, so are the nodes, in their order, their name and buffer blocks, and the live blocks |
| FileSystem.Files.FsOpen | os_composite_inmemfs.c:204-218 | takes the step of the model, returns the node of the id the model names, and moves no node of any other file |
| FileSystem.Files.FsClose | os_composite_inmemfs.c:220-227 | takes the step of the model; the last close of a file that waits for deletion unlinks its node and frees its three blocks; no usage counter moves |
| FileSystem.Files.FsRead | os_composite_inmemfs.c:230-249 | the count is the model's, narrowing included, the file's bytes from the offset on come to the front of the caller's buffer, and the rest of that buffer and the file system are unchanged |
| FileSystem.Files.FsWrite | os_composite_inmemfs.c:252-273 | takes the step of the model through growth, copy and length update, for any caller's buffer outside the file system |
| VfsRuns.WriteEffect | os_composite_inmemfs.c:252-273 | a write succeeds exactly for arguments that are not negative with room or a grant; it puts all its bytes in place, keeps every other old byte, ends the file where it ends, and grows to the larger of twice the old room and its end; else it returns -1 and changes no file |
| FileSystem.Files.FsTruncate | os_composite_inmemfs.c:276-281 | takes the step of the model and touches nothing but the one length |
| FileSystem.Files.FsSizeHint | os_composite_inmemfs.c:283-285 | takes the step of the model; a refused hint changes no file |
| FileSystem.Files.FsExists | os_composite_inmemfs.c:288-291 | 1 exactly when the list has a file that the name finds |
| FileSystem.Files.FsDelete | os_composite_inmemfs.c:294-308 | takes the step of the model, in all three cases (absent, closed, open), always returns 1, and moves no usage counter |
| FileModel.DeleteExactly | os_composite_inmemfs.c:294-308 | a name that no linked file has, or of MAX_PATHNAME or more characters, deletes nothing; else exactly that file goes, the others in order, or it is marked if it is in use |
| FileModel.LocAt | os_composite_inmemfs.c:102-111 | ids identify positions: no two linked files share one |
| Memory.Mem.MallocRegion | os_composite_mem.c:31-37 | a refusal changes no counter; a grant adds the region to the log and to the live blocks and charges its size plus header; the counters stay those of the log |
| Memory.Mem.FreeRegion | os_composite_mem.c:39-43 | the region is given up and its charge taken back; the counters stay those of the log |
| Memory.Mem.Malloc | os_composite_mem.c:71-76 | null, with nothing changed, or a fresh block of exactly the requested size that was not live before |
| Memory.Mem.Free | os_composite_mem.c:79-84 | the block is no longer live, no counter moves, and its charge is lost for good |
| Memory.Mem.Realloc | os_composite_mem.c:87-101 | a refusal changes no block, no counter and no log; otherwise the new block starts with all bytes of the old one and replaces it among the live and the charged blocks, and the peak becomes the larger of the old peak and the total with both blocks charged |
| Memory.Mem.Charged | os_composite_mem.c:28-101 | at any time, outstanding memory is the total charge of the regions not passed to _free_region, which is that of the live ones plus what plain frees lost |
| Memory.Mem.Recorded | os_composite_mem.c:9-12 | at any time, the recorded maximum is the greatest value the counter ever had, exactly when that fits an int or the last grant reached it |
| Accounting.OutstandingIsLedger | os_composite_mem.c:31-43 | after any legal run of grants, plain frees and returns, outstanding memory is the sum of size plus header over the regions granted and not returned |
| Accounting.OutstandingIsUseExactly | os_composite_mem.c:79-84 | after any legal run, outstanding memory is the charge of the regions in use exactly when no region was plainly freed |
| Accounting.PeakIsGreatest | os_composite_mem.c:34-35 | the peak is reached at some moment of the run, the middle of a realloc included, and is exceeded at none |
| Accounting.RecordExactly | os_composite_mem.c:9-35 | over any run, the recorded maximum is the peak exactly when the peak fits an int or the last grant reached it |
| Accounting.ReallocPeak | os_composite_mem.c:91-98 | a realloc moves the total by the difference in size, and counts both blocks towards the peak |
| VfsModel.StepConsistent | os_composite_vfs.c:7-220 | every call keeps: reference counts are numbers of open handles, every handle's file is linked, found names are unique, a file that waits for deletion is open, and lengths lie inside buffers |
| VfsRuns.RunConsistent | os_composite_inmemfs.c:204-308 | the same holds in every state of every run, under every pattern of allocation failures |
| VfsModel.OpenConsistent | os_composite_inmemfs.c:204-218 | a successful open adds one reference for the one new handle, on a file that existed or is new |
| VfsModel.CloseConsistent | os_composite_inmemfs.c:220-227 | a close takes one reference with its one handle, and unlinks no file that another handle still uses |
| VfsModel.DeleteConsistent | os_composite_inmemfs.c:294-308 | a delete unlinks no file that a handle uses |
| Vfs.CompositeVfs.CClose | os_composite_vfs.c:7-14 | the heap takes the model's step, the handle is cleared and every other handle keeps its node |
| Vfs.CompositeVfs.CRead | os_composite_vfs.c:16-40 | the first iAmt bytes of the buffer are the model's reply and the rest is untouched; an error touches none; the code tells which |
| Vfs.CompositeVfs.CWrite | os_composite_vfs.c:42-52 | the heap takes the model's step with the model's code, whatever fails |
| Vfs.CompositeVfs.CTruncate | os_composite_vfs.c:54-62 | the heap takes the model's step with the model's code, and nothing happens in the allocator |
| Vfs.CompositeVfs.CFileSize | os_composite_vfs.c:70-76 | the size stored is that of the file the handle is open on |
| Vfs.CompositeVfs.CFileControl | os_composite_vfs.c:104-123 | the heap takes the model's step; codes other than the size hint change nothing and are not found |
| Vfs.CompositeVfs.COpen | os_composite_vfs.c:180-212 | the heap takes the model's step in all four outcomes, and the handle gets its methods exactly on success |
| Vfs.CompositeVfs.CDelete | os_composite_vfs.c:214-220 | the heap takes the model's step with the model's code |
| Vfs.CompositeVfs.CAccess | os_composite_vfs.c:228-232 | the answer is the model's, in an unchanged heap |
| Simulation.Perform | os_composite_vfs.c:7-232 | one call of any kind on the heap gives the model's next world and reply |
| Simulation.PerformAll | os_composite_vfs.c:7-232 | a whole run on the heap gives the world and the replies of the model's run |
| Simulation.PerformCounted | os_composite_inmemfs.c:113-308 | over any run the number of live blocks changes by exactly three for each file added or removed, and outstanding memory by exactly the change of what the files, linked and freed, are charged |
| Simulation.Session | os_composite_inmemfs.c:183-202 | init, any run, deinit: the replies are the model's, before deinit the live blocks are one plus three per linked file more than at the start, after it they are those at the start, and outstanding memory is above its start by exactly the charges of the sentinel, of the files still linked and of all that was freed |
| Simulation.PerformTemp | os_composite_vfs.c:180-212 | opening an absent name with DELETEONCLOSE, using it and closing it restores the handles and the list, and restores the node sequence with all its blocks and the set of live blocks exactly when the name is shorter than MAX_PATHNAME |
| VfsRuns.StepContent | os_composite_inmemfs.c:204-308 | a call links at most one file, under a new id, and changes the bytes and length of no file but the one behind its handle |
| VfsRuns.GoneForGood | os_composite_inmemfs.c:220-227 | a file that was unlinked is never linked again in any run |
| VfsRuns.Created | os_composite_vfs.c:199-211 | opening an absent name, when it succeeds, links one empty file in front: initial capacity, content of fresh memory, the first MAX_PATHNAME characters of the name, one reference, and marked exactly when bit 0x08 is set and the name is short enough |
| History.RunFollows | os_composite_inmemfs.c:163-285 | over any run, a file's length is what its history of writes and truncates says, every byte some write covered is that of the last one that covered it, and every other old byte is as it was |
| History.FollowsSinceCreation | os_composite_inmemfs.c:113-285 | the same from a file's creation, with an initial length of zero |
| History.LengthIsLeast | os_composite_inmemfs.c:252-281 | after a last write, the length is the least of that write's end and all later truncate sizes |
| History.ReadIsSlice | os_composite_vfs.c:16-40 | for an offset inside the file every byte of the reply is the file's byte or, past its end, zero; OK exactly when the whole range lies inside, SHORT_READ otherwise |
| History.ReadInBufferExactly | os_composite_inmemfs.c:239-246 | a read stays inside the caller's and the file's buffer exactly for a negative count or offset, an offset inside the file, or one past it by a multiple of 2^32 or one more (or, in a file truncated to a negative length, one whose narrowed count both buffers have room for) |
| History.ReadRepliesExactly | os_composite_vfs.c:16-40 | such a read returns bytes exactly for arguments that are not negative and an offset not one past the end modulo 2^32; all others report an error |
| History.ReplyExactly | os_composite_vfs.c:21-39 | a reply with bytes has the narrowed count of bytes from the offset on, then zeros, and is a short read exactly when that count is below the amount |
| History.ReadReturnsLastWrite | os_composite_inmemfs.c:230-273 | a read after any run returns, at each covered position, the byte of the most recent successful write that covered it |
| History.WriteThenRead | os_composite_vfs.c:16-52 | a successful write is read back in full with OK through any handle on the same file |
| History.WriteShortensExactly | os_composite_inmemfs.c:269-270 | a successful write leaves the file at least as long as it was exactly when it ends at or after the old end |
| NameMap.RunRefines | os_composite_inmemfs.c:79-308 | every run with names shorter than MAX_PATHNAME is a run of the map from names to last-written bytes, length, count and flag, with one reply for each call and the same replies; what memory grants is the only other input |
| NameMap.FromStart | os_composite_inmemfs.c:183-308 | the same from the empty list and the empty map |
| NameMap.StepRefines | os_composite_vfs.c:7-232 | each call is enabled in the map, gives the same reply and keeps list and map related |
| NameMap.OpenRefines | os_composite_vfs.c:180-212 | an open succeeds on both sides alike, the map testing the bits of the flags itself, and binds the handle to the name on one and to its file on the other |
| NameMap.CloseRefines | os_composite_inmemfs.c:220-227 | a close removes the name from the map exactly when it unlinks the file |
| NameMap.DeleteRefines | os_composite_inmemfs.c:294-308 | a delete removes or marks the name as it unlinks or marks the file |
| NameMap.WriteRefines | os_composite_vfs.c:42-52 | a write puts its bytes over the map's and sets the length, with the same code, also when the buffer cannot grow |
| NameMap.ReadSame | os_composite_vfs.c:16-40 | a read agrees with the map in its code, its length and every byte the map knows |
| NameMap.HintRefines | os_composite_inmemfs.c:283-285 | a size hint is invisible in the map, granted or not |
| DeferredDelete.DeleteDooms | os_composite_inmemfs.c:303-305 | deleting an open file keeps it linked and marks it |
| DeferredDelete.DoomedStep | os_composite_inmemfs.c:220-227 | no call clears the mark, and the only call that unlinks the file is the close of its last handle |
| DeferredDelete.DoomedRun | os_composite_inmemfs.c:204-308 | in every later state of every run the marked file is linked exactly as long as some handle on it is open |
| DeferredDelete.DoomedEnds | os_composite_inmemfs.c:220-227 | the last close removes exactly that file, keeps the order of the others, and the name is then absent |
| DeferredDelete.DoomedShared | os_composite_inmemfs.c:204-218 | opening the name of a marked file reaches the same file with its bytes, and the mark stays |
| TempFile.TempRoundTrip | os_composite_vfs.c:180-212 | after open with DELETEONCLOSE, any calls through that handle and close, handles and the whole list are as before exactly when the name is shorter than MAX_PATHNAME; otherwise one file more is linked |
| TempFile.TempOpen | os_composite_vfs.c:207-209 | with bit 0x08 set, the new file is in front with one reference, and is marked exactly when its name is short enough to be found again |
| Isolation.StepElsewhere | os_composite_vfs.c:42-62 | a call that neither works through a handle on a file nor opens or deletes its name changes nothing of it and none of its handles |
| Isolation.RunElsewhere | os_composite_vfs.c:7-220 | the same for a run of such calls |
| Isolation.FailureIsAtomic | os_composite_vfs.c:186-202 | a call that reports an error changes no file, no order, no flag, no reference and no handle |
| Isolation.OpenSucceedsExactly | os_composite_vfs.c:186-211 | an open succeeds exactly when the name exists and bits 0x04 and 0x10 of the flags are not both set, or it is absent and gets its three blocks |
| Isolation.WriteSucceedsExactly | os_composite_vfs.c:42-52 | a write reports success exactly when its data fit or the buffer can grow, or when its count is -1 |
| Isolation.AccessIsExact | os_composite_vfs.c:228-232 | the answer is 1 exactly when a file of that name is linked and the name is shorter than MAX_PATHNAME |
| Growth.StepGrowth | os_composite_inmemfs.c:163-180 | a call that changes the capacity pays for the bytes the allocator copies in it by new capacity, and ends at no more than twice its request |
| Growth.CopiesForOne | os_composite_mem.c:94-96 | the allocator copies nothing but in a write or a hint, and then the whole buffer of the file behind its handle |
| Growth.HintExactly | os_composite_vfs.c:111-119 | a size hint leaves the capacity if it suffices or the one request is refused, and else makes it the larger of twice the old one and the hint; bytes, length and handles stay |
| Growth.HintThenWrite | os_composite_inmemfs.c:252-285 | after a granted hint, a write inside the hinted size succeeds whatever memory is refused then |
| Growth.WriteRoomExactly | os_composite_inmemfs.c:252-273 | a write leaves the capacity if it suffices, the arguments are negative or the request is refused, and else makes it the larger of twice the old one and its end |
| Growth.RunGrowth | os_composite_inmemfs.c:163-285 | over any run, the old capacity plus all bytes ever copied is at most the new capacity, which is at most the larger of the old one and twice the largest request |
| Growth.GrowthSinceCreation | os_composite_inmemfs.c:30-285 | from creation on, the initial size plus all bytes ever copied is at most the capacity, the capacity is at most the larger of the initial size and twice the largest request, and the length lies inside it |
| Footprint.StepTotal | os_composite_inmemfs.c:204-308 | what the files, linked and freed, are charged in outstanding memory is changed by no close, delete, read, truncate, query or open of an existing file, and lowered by no call |
| Footprint.RunTotal | os_composite_inmemfs.c:204-308 | over any run that charge never falls |
| Footprint.InputTotal | os_composite_inmemfs.c:163-180 | a call through a handle adds exactly the room that its file gains |
| Footprint.NewTotal | os_composite_inmemfs.c:113-143 | a new file adds 8253 and the stored length of its name |
| Footprint.RefusedTotal | os_composite_inmemfs.c:115-130 | an open that is refused its first, second or third request adds 0, 52 or 8248, for blocks granted and freed again |
| Prng.GetRandom | os_composite_vfs.c:251-257 | the three shift-xors and the product give a state and a word from which the old state and the new one are recovered, neither zero unless the old state is |
| Prng.PreviousNext | os_composite_vfs.c:253-255 | the step can be undone: no two states have the same successor |
| Prng.NextPrevious | os_composite_vfs.c:253-255 | every word is the successor of a state, so with the undoing the step is a bijection on 64-bit words |
| Prng.OutputInvertible | os_composite_vfs.c:256 | multiplication by the constant is undone by multiplication modulo 2^64, so distinct states give distinct words |
| Prng.StateInvertible | os_composite_vfs.c:256 | every word is the output of a state |
| Prng.NonzeroStays | os_composite_vfs.c:251-257 | a nonzero state never leads to zero and never outputs zero |
| Prng.NeverZero | os_composite_vfs.c:251-257 | the same for the whole orbit of a nonzero state |
| Prng.Periodic | os_composite_vfs.c:251-257 | every state comes back to itself after at least one and at most 2^64 calls |
| Prng.SeedOrbit | os_composite.c:943-944 | from the seed 4 the generator never reaches or outputs zero and comes back to 4 |
| Prng.FirstWords | os_composite_vfs.c:251-257 | the first two states from the seed and their words, as numbers |
| Randomness.VfsData.CRandomness | os_composite_vfs.c:262-285 | the first nByte bytes are those the recursive description gives, the rest of the buffer is untouched, the generator is left in the state it gives, and the int index never overflows |
| Randomness.IndexFitsExactly | os_composite_vfs.c:267-268 | every sum that the first loop compares fits an int exactly for requests up to 2^31 - 8 |
| Randomness.AfterWords | os_composite_vfs.c:268-271 | behind its full words a request holds what a request for the rest gives from the state they leave |
| Randomness.WordByte | os_composite_vfs.c:268-271 | byte k of the i-th full word is byte k of the whole word of call i + 1 |
| Randomness.HalfByte | os_composite_vfs.c:273-276 | with more than four bytes left, byte k of the first four is that of the next word masked to its low 32 bits |
| Randomness.LastByte | os_composite_vfs.c:278-281 | every byte of the rest is the low eight bits of a word of its own |
| Randomness.VfsData.OrbitWord | os_composite_vfs.c:269-279 | the words met are the outputs along the generator's orbit |
| Randomness.VfsData.SixteenBytes | os_composite_vfs.c:262-285 | sixteen bytes from the seed: the first word whole, the low half of the second |
| Randomness.FillAdvances | os_composite_vfs.c:267-281 | a request of n bytes calls the generator exactly (n-1)/8 + ((n-1)%8)/4 + (n-1)%4 + 1 times |
| Randomness.StepsAreOrbit | os_composite_vfs.c:262-285 | with the xorshift step, the states met are the generator's orbit |
| Arena.ArenaMem.MallocRegion | os_composite_mem.c:50-63 | a region is refused exactly when it would reach the end of the arena; a granted one starts where the last ended; all sizes recorded before stay recorded; both counters are the sum of sizes and headers granted |
| Arena.HeaderFitsExactly | os_composite_mem.c:54-59 | a granted region has its header outside the arena exactly when it has at most two bytes and starts in the last three |
| Arena.RecordReached | os_composite_mem.c:60-61 | where nothing is taken back, the narrowing of the old maximum never changes the record |
| Arena.StartsAscend | os_composite_mem.c:50-63 | regions follow each other without overlap: an earlier one ends at or before the start of a later one |
| Arena.GrantRecorded | os_composite_mem.c:56-59 | writing the header of a new region keeps the recorded size of every region that has room for one |
| Arena.PokeRecorded | os_composite_mem.c:18-26 | a client's write to the first size - 4 bytes of any payload keeps all recorded sizes |
| Arena.PayloadRoomExactly | os_composite_mem.c:54-59 | of a payload as large as the region exactly the first size - 4 bytes lie in it; the other four are the next header |
| Arena.SmallRecordExactly | os_composite_mem.c:56-59 | a region smaller than its header still has its size recorded after the next grant exactly when the low 4 - size bytes of that grant's size are zero |
| Arena.ArenaMem.CMemSize | os_composite_mem.c:104-106 | the size read from the header of any region with room for one is the size it was granted with, after any grants and payload writes |
| Arena.DecodeEncode | os_composite_mem.c:22-26 | an int stored as four bytes is read back |
| Witnesses.ShorteningWrite | os_composite_inmemfs.c:269-270 | after open and a write of two bytes, a write of one byte at the start leaves a file of one byte |
| Witnesses.ReadsPastEnd | os_composite_vfs.c:21-36 | after open, a read at offset 2 would start the fill two bytes in front of the buffer, one at offset 1 is an error, and one at 2^32 is a short read |
| Witnesses.WriteOfMinusOne | os_composite_vfs.c:46-48 | after open, a write of -1 bytes reports success and changes nothing |
| Witnesses.TemporaryFlags | os_composite_vfs.c:190-209 | with flags 0x1E a new file is marked for deletion, and a second open of its name is refused |
| Witnesses.LeftBehind | os_composite_vfs.c:207-209 | a temporary file with a name of MAX_PATHNAME characters is still linked after its close |
| Witnesses.LostRecord | os_composite_mem.c:9-12 | a realloc whose middle is above 2^31 and a small grant after it leave a recorded maximum below the peak |
| Witnesses.StaleCounter | os_composite_mem.c:79-84 | a block granted and freed leaves no live region and a counter above zero |
| Witnesses.HeaderOutside | os_composite_mem.c:54-59 | with all but two bytes of the arena granted, one more byte is granted and its header does not fit |

## Left out

- Memory.Mem.MallocRegion: in the malloc branch the source stores the header without testing for a null result; the model treats a null result as a refusal.
- FileSystem.Files.FsInit: its one request is not tested in the source, so the model requires that it is granted.
- FileSystem.Files.FsWrite: the caller's data must not be a buffer of the file system; SQLite never passes one.
- Randomness.VfsData.CRandomness: how an object of eight or of four bytes lies in memory (byte order, alignment) is a parameter, a fixed function from its value and a position to a byte; which bits the casts keep is not.
- FileSystem.Files.EnsureCapacity: a request above 2^31 - 1 is left out, because the source then asks for less room than it needs; `FileModel.RoomReachedExactly` states when.
- FileSystem.Files.FsRead: a read whose count makes the copy leave the file's or the caller's buffer is left out; `History.ReadInBufferExactly` states when.
- Arena.ArenaMem.MallocRegion: a grant whose header would lie outside the arena is left out (`Arena.HeaderFitsExactly` states when), and so are freeing and resizing in this branch; the file system is built on the malloc branch.
- Arena.SmallRecordExactly: an int is taken to be stored least significant byte first.
- VfsModel.StepConsistent: reference counts are unbounded integers; 2^31 open handles on one file are not modelled.
- The file's pointer to the VFS data (`cVfs`), the `syncDir` argument, the null test of the out-flags pointer and null names: no behaviour depends on them, or C leaves them undefined.
- Closing a handle twice and calls after `fs_deinit`: undefined in C.
- Locks, shared memory, fetch, sync, sector size, device characteristics, sleep, time and last-error calls: constant results or empty bodies.
- `cFullPathname`: a bounded copy.
- The tracing wrappers and method tables of `os_composite.c`, and the mutex stubs of `os_composite_mutex.c`: forwarding only; the model is of a single thread.
- SQLite itself and the shell: not part of this model.
