# Swift Foundation file reading and subprocess launch, modelled in Dafny

This project models two sequential pipelines of the experimental Swift Foundation.

**File acquisition** (`Data+Reading.swift`):
- `readBytesFromFile` validates a path and opens the file. After `fstat` it either rejects the file or picks one of three outcomes: an empty result, a private read-only mapping released by `.unmap`, or a heap buffer released by `.free` that the chunked read loop `readBytesFromFileDescriptor` fills.
- On request it also reads extended attributes (`readExtendedAttributesFromFileDescriptor`).
- `shouldMapFileDescriptor` makes the mapping decision.
- `readDataFromFile` wraps the result in a `Data`.

**Process launch marshalling** (`Subprocess.swift`, `Subprocess+Linux.swift`):
- `run()` refuses an empty path and the three denied executables.
- It overlays the caller's environment overrides on the inherited environment and serialises each binding as `key=value`.
- It builds argv as the path followed by the arguments.
- It then plans the standard-stream redirection. macOS uses `posix_spawn` file actions and spawn attributes. Linux uses a three-slot descriptor array handed to the fork/exec shim.

The operating system is an oracle. Every system call is answered from a value the caller passes in:
- `FileOracle` for `open`, `fstat`, `fstatfs`, `fcntl`, `mmap`, `malloc`, the scripted `read` answers, `fgetxattr` and the progress checks;
- the `inherited` environment map;
- `LaunchOutcome`, the status and stored pid of the external spawn call.

Resources are tracked in a ghost trace of `Event`s, so that the contracts can state:
- close once, and last;
- free on failure;
- map only for a mapped result.

Modules:
- `Posix` (`posix.dfy`): machine integer ranges, errno values, `Option` and `Result`.
- `DataReading` (`data_reading.dfy`).
- `Subprocesses` (`subprocess.dfy`): the `Subprocess` value, the parts of `run()` shared by both platforms, and the macOS launch.
- `SubprocessLinux` (`subprocess_linux.dfy`).

Five places where the code evidently does not do what it means are listed under "## Findings". Throughout, the operations (`ReadBytesFromFile`, `ReadDataFromFile`, `Subprocesses.Run`, `SubprocessLinux.Run`) follow the code **as written**, so that each is a faithful model of its source. Next to each as-written definition stands the corrected definition, with the intended property proved about it.

## Model

| member | source | states |
|---|---|---|
| Posix.ClampToInt32 | Sources/FoundationEssentials/Data/Data+Reading.swift:306-312 | `Int32(clamping:)`: values in range are unchanged, larger ones become Int32.max and smaller ones Int32.min |
| DataReading.Read | Sources/FoundationEssentials/Data/Data+Reading.swift:321 | one `read` call transfers at most the requested count, taken from the file at the current offset, and advances the offset by exactly what it transferred; a failure leaves the offset alone |
| DataReading.PollsAppend | Sources/FoundationEssentials/Data/Data+Reading.swift:302-318 | the cancellation checks accounted for by two runs of calls, one after the other, add up |
| DataReading.RetryFromCounts | Sources/FoundationEssentials/Data/Data+Reading.swift:314-322 | the retry loop checks for cancellation once before every call and stops at the first check that says yes, failing then with `userCancelled` and only then; it makes as many calls as checks when it reads and one call fewer when cancelled |
| DataReading.RetryFromCalls | Sources/FoundationEssentials/Data/Data+Reading.swift:314-322 | every call of the retry loop asks for the same count at the same offset; every answer but the last is EINTR (all of them when cancelled); the answer returned is the last, never EINTR; bytes read are the file's next ones, no more than asked; a failure leaves the offset alone; an errno returned is one the kernel answered |
| DataReading.ReadRetryingOnInterrupt | Sources/FoundationEssentials/Data/Data+Reading.swift:314-322 | it checks for cancellation before every attempt and reissues the same request while it fails with EINTR; it returns the first answer that is not EINTR, or `userCancelled` at the first check that reports cancellation |
| DataReading.ReadChunk | Sources/FoundationEssentials/Data/Data+Reading.swift:301-322 | one turn makes one cancellation check, then asks for min(clamped chunk size, remaining) bytes through the retry loop; it is the turn `ChunkFrom` defines: a turn that reads makes 1 + (its calls) checks, a cancelled one exactly 1 (no call) or 2 + (its calls); it fails exactly when its last check says cancelled; the bytes it gets are the file's next bytes, and the offset does not move unless bytes arrive |
| DataReading.ChunkFromCalls | Sources/FoundationEssentials/Data/Data+Reading.swift:301-322 | the calls of the turn the definition gives are contiguous, sized min(chunk, Int32.max, remaining), each but the last continuing; they deliver the file's next bytes and move the offset only by what arrives |
| DataReading.ChunkFromChecks | Sources/FoundationEssentials/Data/Data+Reading.swift:301-322 | the turn the definition gives makes 1 + (its calls) checks when it reads, and 1 or 2 + (its calls) when cancelled; no earlier check says cancelled, and it fails with `userCancelled` exactly when its last check does |
| DataReading.ReadChunkIntoBuffer | Sources/FoundationEssentials/Data/Data+Reading.swift:301-340 | the turn `ChunkFrom` defines, with the bytes it reads stored right after those already in the buffer and the rest of the buffer untouched |
| DataReading.ReadLoopTurn | Sources/FoundationEssentials/Data/Data+Reading.swift:301-341 | a turn ends the loop on cancellation, on a failed read (with that errno), at end of file or on a short read; otherwise it reduces the remaining count by the bytes read; it stores the bytes right after those already in the buffer |
| DataReading.LoopFromKeeps | Sources/FoundationEssentials/Data/Data+Reading.swift:300-342 | from the start to the state where the loop stops, the loop definition keeps its invariant: calls contiguous and sized, the offset the bytes consumed, a stopped success ends in a short read or end of file, a failure carries the last call's errno or the last check's cancellation, every errno comes from the kernel, and a file that answers in full is read to `length` or its end |
| DataReading.LoopFromCountsChecks | Sources/FoundationEssentials/Data/Data+Reading.swift:300-342 | a loop run that starts with exactly one check per turn and per call keeps that count to the end, except that a cancelled run has made one or two checks more |
| DataReading.ReadLoopStep | Sources/FoundationEssentials/Data/Data+Reading.swift:301-341 | one turn of the `while` loop leads to the state from which the loop definition ends where it ended before the turn; the offset only advances, the remaining count falls unless the loop stops, the new bytes follow the old in the buffer, and the rest of the buffer is untouched |
| DataReading.ReadLoopRun | Sources/FoundationEssentials/Data/Data+Reading.swift:300-342 | the `while numBytesRemaining > 0` loop stops in the state the loop definition reaches from the start; the buffer's prefix holds the bytes read and the rest is untouched |
| DataReading.LoopEndsAsDefined | Sources/FoundationEssentials/Data/Data+Reading.swift:300-344 | where the loop stops, the loop invariant and the exact check count hold, and what the method returns (`length - numBytesRemaining` or the error), the descriptor, the calls and the checks are the definition's |
| DataReading.ReadLoopFinished | Sources/FoundationEssentials/Data/Data+Reading.swift:300-344 | a stopped loop that keeps the invariant gives every promise of `readBytesFromFileDescriptor`: the count is the bytes consumed, a short count means a short read or end of file, errors carry the kernel's errno, and `userCancelled` comes exactly from the last check |
| DataReading.ReadBytesFromFileDescriptor | Sources/FoundationEssentials/Data/Data+Reading.swift:288-345 | all of the following hold: (1) requests are contiguous and never exceed min(chunk, Int32.max, remaining); (2) only EINTR and full reads are followed by another read; (3) the count returned lies in [0, length] and equals the bytes consumed; (4) the buffer prefix holds those bytes in order and the rest is untouched; (5) a short count means end of file or a short read; (6) errors carry the failing errno, one that the kernel answered and not EINTR; (7) `userCancelled` comes exactly when the last check reported cancellation; (8) one check is made before every turn and every call, and a cancelled read has made one or two more; (9) an uninterrupted read of a regular file returns min(length, bytes left); (10) the outcome, the calls and the checks are exactly those of the loop definition run from the start |
| DataReading.ShouldMap | Sources/FoundationEssentials/Data/Data+Reading.swift:60-93 | `.alwaysMapped` always maps; without `.alwaysMapped` and `.mappedIfSafe` nothing is mapped; outside the framework build only `.alwaysMapped` maps; a `.mappedIfSafe` mapping implies that the protection class passed, the volume is local and not removable, and compression is safe (or the path has no representation) |
| DataReading.MappedIfSafeMapsSafeFiles | Sources/FoundationEssentials/Data/Data+Reading.swift:65-83 | conversely, in the framework build `.mappedIfSafe` maps every file that passes all the checks |
| DataReading.ClassAFilesAreMappedAsWritten | Sources/FoundationEssentials/Data/Data+Reading.swift:70 | as written, the protection-class test accepts exactly the non-negative answers, so a Class A file on a safe volume is mapped |
| DataReading.ClassAFilesAreNeverMappedIfSafe | Sources/FoundationEssentials/Data/Data+Reading.swift:68-70 | with Class A as the excluded class, `.mappedIfSafe` never maps a Class A file |
| DataReading.RecoveredAttributes | Sources/FoundationEssentials/Data/Data+Reading.swift:25-58 | the attribute map is empty on builds without Darwin or with NO_FILESYSTEM; its keys are requested names whose value can be recovered, and on Darwin every such name is present with its stored value |
| DataReading.ReadExtendedAttributesFromFileDescriptor | Sources/FoundationEssentials/Data/Data+Reading.swift:25-58 | the loop over the requested names builds exactly the recovered-attribute map: unreadable names and values whose sized re-read disagrees are silently omitted |
| DataReading.FileSizeToRead | Sources/FoundationEssentials/Data/Data+Reading.swift:196-226 | an `fstat` failure passes its errno on; a size above Int.max gives EFBIG; a directory gives EISDIR and any other non-regular file EACCES; a negative maxLength gives ENOMEM; otherwise the size is min(st_size, maxLength ?? Int.max), and this holds in both directions |
| DataReading.LocalProgress | Sources/FoundationEssentials/Data/Data+Reading.swift:236 | a progress object (and so cancellation) exists exactly when progress is reported and a current progress exists |
| DataReading.ReadOpenedFile | Sources/FoundationEssentials/Data/Data+Reading.swift:196-284 | branch by branch, once the descriptor is open: (1) a failed size guard is rethrown before anything is acquired; (2) size 0 gives (nil, 0, nil); (3) a mapping that `mmap` refuses throws its errno; (4) otherwise the mapping gives the first fileSize bytes, length fileSize and `.unmap`; (5) a failed `malloc` throws ENOMEM; (6) a heap read has the read loop's outcome: it throws exactly when the loop throws, with the loop's error, freeing the buffer (trace Allocated, Freed), and otherwise gives a `.free` buffer of fileSize bytes whose length is the loop's count and whose valid prefix is the file's bytes; (7) attributes are replaced only after a successful read that asked for some |
| DataReading.ReadIntoHeapBuffer | Sources/FoundationEssentials/Data/Data+Reading.swift:261-278 | a failing `malloc` throws ENOMEM with nothing acquired; otherwise the result is the read loop's on the new buffer: its error, after the buffer is freed, or a `.free` buffer of fileSize bytes whose length is the loop's count and whose valid prefix is the file's bytes; reads answered in full, with a positive block size and no cancellation, give the whole size, and a block size of 0 gives length 0 |
| DataReading.OpenedFileReadSucceeds | Sources/FoundationEssentials/Data/Data+Reading.swift:238-275 | conversely, an opened regular file is read successfully whenever `mmap` and `malloc` succeed, no cancellation check says yes and every failing `read` is EINTR |
| DataReading.OpenedFileReadsItsBytes | Sources/FoundationEssentials/Data/Data+Reading.swift:238-275 | when moreover every `read` delivers all it is asked for and `st_blksize` is positive, the result has length fileSize and holds exactly the file's first fileSize bytes, mapped or on the heap |
| DataReading.ReadBytesFromFile | Sources/FoundationEssentials/Data/Data+Reading.swift:168-285 | an empty path or a path with no file system representation throws `fileReadInvalidFileName` with nothing opened, and that error arises on no other path; an open failure throws its errno; an opened descriptor is closed exactly once, last; between the open and the close, each branch's outcome (guards, `mmap`, `malloc`, and the heap read's, which is the read loop's) and the ownership of the buffer or mapping are exactly as in ReadOpenedFile |
| DataReading.DataFromReadBytesResult | Sources/FoundationEssentials/Data/Data+Reading.swift:149-153 | as written: a result of length 0 becomes `Data()` and any other adopts the first `length` bytes with the result's deallocator |
| DataReading.EmptyHeapResultLeaks | Sources/FoundationEssentials/Data/Data+Reading.swift:149-150 | a well-formed heap result of length 0 is neither adopted nor released by the as-written packaging |
| DataReading.PackageReadBytesResult | Sources/FoundationEssentials/Data/Data+Reading.swift:149-153 | corrected packaging: the same `Data`, and the region of every result is either adopted or released |
| DataReading.ReadResultsAreWellFormed | Sources/FoundationEssentials/Data/Data+Reading.swift:156-166 | every result `readBytesFromFile` produces has bytes and a deallocator whenever its length is non-zero, so the force unwraps in `readDataFromFile` cannot fail |
| DataReading.ZeroBlockSizeGivesEmptyHeapResult | Sources/FoundationEssentials/Data/Data+Reading.swift:329-331 | an unmapped non-empty file whose `st_blksize` is 0 reads nothing (the first request is for 0 bytes), giving a `.free` result of length 0 that the as-written packaging drops |
| DataReading.ReadDataFromFile | Sources/FoundationEssentials/Data/Data+Reading.swift:141-154 | the error of `readBytesFromFile` is rethrown unchanged and its success is packaged by DataFromReadBytesResult, so the branch outcomes of ReadBytesFromFile (open errno, guards, `mmap`, `malloc`, and the heap read, which is the read loop's) carry over; the `Data` holds a prefix of the file no longer than the effective size and owns a deallocator exactly when it is non-empty; a failure has released whatever it allocated; an empty heap result leaves its buffer unreleased; an invalid path opens nothing; after a successful read that asked for names, the attribute map is the recovered attributes, and otherwise it is unchanged |
| Subprocesses.Validate | Sources/FoundationEssentials/Subprocess.swift:42-48 | an empty path gives `invalidExecutablePath`, a denied path `processNotSupported`, and every other path passes (each an if-and-only-if) |
| Subprocesses.Overlay | Sources/FoundationEssentials/Subprocess.swift:51-54 | the merged environment has the keys of both maps; an override wins on a collision and every other inherited key keeps its value |
| Subprocesses.MergeEnvironment | Sources/FoundationEssentials/Subprocess.swift:51-54 | the loop that assigns each override into the inherited environment produces exactly the overlay, in any iteration order |
| Subprocesses.ParseEnvironmentEntry | Sources/FoundationEssentials/Subprocess.swift:55-57 | reading an entry back splits it at the first '='; the key contains no '=' and joining the two halves with '=' gives the entry back |
| Subprocesses.ParseEnvironmentEntryInverts | Sources/FoundationEssentials/Subprocess.swift:55-57 | serialising `key=value` and parsing it back gives (key, value) whenever the key contains no '=' |
| Subprocesses.SerializeEnvironment | Sources/FoundationEssentials/Subprocess.swift:55-57 | the environment block has one `key=value` entry per merged binding: as many entries as bindings, every key once, in some order |
| Subprocesses.SerializedEnvironmentParsesBack | Sources/FoundationEssentials/Subprocess.swift:55-57 | when no key contains '=', every entry of the block parses to a binding of the environment and every binding is recovered from some entry |
| Subprocesses.BuildArguments | Sources/FoundationEssentials/Subprocess.swift:59-64 | argv has 1 + arguments.count elements: the executable path, then the arguments in order |
| Subprocesses.CStringArrayAsWritten | Sources/FoundationEssentials/Subprocess.swift:55-64 | the `[UnsafeMutablePointer<CChar>?]` arrays as built: one non-nil slot per string, in order, and no slot after the last |
| Subprocesses.NullTerminated | Sources/FoundationEssentials/Subprocess.swift:59-64 | corrected: the strings followed by one NULL slot |
| Subprocesses.ReadUntilNull | Sources/FoundationEssentials/Subprocess.swift:102-105 | what a C callee reads from a `char *const[]`: the slots before the first NULL, and nothing well defined when there is no NULL |
| Subprocesses.UnterminatedArrayHasNoEnd | Sources/FoundationEssentials/Subprocess.swift:55-64 | as written, argv and envp hold no NULL slot, so the callee reads past their end whatever the strings are |
| Subprocesses.NullTerminatedArrayReadsBack | Sources/FoundationEssentials/Subprocess.swift:59-64 | a NULL-terminated array is read back as exactly its strings |
| Subprocesses.PlannedDup2s | Sources/FoundationEssentials/Subprocess.swift:73-84 | the redirection plan has one dup2 per stream that is set, each from that stream's descriptor onto 0, 1 or 2, in increasing order of target, and none for a nil stream |
| Subprocesses.SpawnFileActions.Init | Sources/FoundationEssentials/Subprocess.swift:66-68 | a new file-action list is empty and live |
| Subprocesses.SpawnFileActions.AddDup2 | Sources/FoundationEssentials/Subprocess.swift:75 | adding a dup2 appends it to the list |
| Subprocesses.SpawnFileActions.Destroy | Sources/FoundationEssentials/Subprocess.swift:69-72 | destroying the list leaves it dead |
| Subprocesses.AddStdioFileActions | Sources/FoundationEssentials/Subprocess.swift:73-84 | the three conditional dup2 calls append exactly the redirection plan |
| Subprocesses.SpawnFlagsAreTheThreeRequestedBits | Sources/FoundationEssentials/Subprocess.swift:96-98 | CLOEXEC_DEFAULT, SETSIGMASK and SETSIGDEF combine to 0x400C, which fits the `Int16` conversion |
| Subprocesses.SpawnAttributes.Nil | Sources/FoundationEssentials/Subprocess.swift:86 | the attribute handle starts nil |
| Subprocesses.SpawnAttributes.SetSigmask | Sources/FoundationEssentials/Subprocess.swift:94 | on a nil handle the setter fails with EINVAL and changes nothing; otherwise it replaces the mask |
| Subprocesses.SpawnAttributes.SetSigdefault | Sources/FoundationEssentials/Subprocess.swift:95 | on a nil handle the setter fails with EINVAL and changes nothing; otherwise it replaces the default-signal set |
| Subprocesses.SpawnAttributes.SetFlags | Sources/FoundationEssentials/Subprocess.swift:98 | on a nil handle the setter fails with EINVAL and changes nothing; otherwise it replaces the flags |
| Subprocesses.SpawnAttributes.Destroy | Sources/FoundationEssentials/Subprocess.swift:87-89 | destroying leaves the handle nil and reports EINVAL for a handle that was already nil |
| Subprocesses.ConfigureSpawnAttributesAsWritten | Sources/FoundationEssentials/Subprocess.swift:86-98 | as written, all three setters fail with EINVAL and the handle reaches the spawn still nil, not holding the intended attributes |
| Subprocesses.ConfigureSpawnAttributes | Sources/FoundationEssentials/Subprocess.swift:86-98 | corrected: after initialisation every call succeeds and the child gets an empty signal mask, every signal at its default action and exactly the flags 0x400C |
| Subprocesses.Run | Sources/FoundationEssentials/Subprocess.swift:41-109 | a refused path throws its validation error and makes no spawn request; otherwise the request has the path, argv = [path] + arguments and the serialised overlaid environment as arrays without a NULL slot, the redirection plan, the (nil) attribute handle, and the pid returned is the one the call stored (0 if none), whatever status it returned |
| SubprocessLinux.FileDescriptorSlots | Sources/FoundationEssentials/Subprocess+Linux.swift:39-43 | as written: three slots, slot 0 = standardInput ?? 0, slot 2 = standardError ?? 0, and slot 1 equal to slot 0 |
| SubprocessLinux.IntendedFileDescriptorSlots | Sources/FoundationEssentials/Subprocess+Linux.swift:39-43 | corrected: slot t holds the raw value of stream t, or 0 when it is nil |
| SubprocessLinux.ShimRedirections | Sources/_CShims/ProcessShims.c:76-85 | the fork/exec shim dup2s each non-zero slot onto its own number, in order, and leaves a 0 slot alone |
| SubprocessLinux.StandardOutputIsNeverRead | Sources/FoundationEssentials/Subprocess+Linux.swift:41 | changing `standardOutput` never changes the slot array |
| SubprocessLinux.SlotOneCopiesStandardInput | Sources/FoundationEssentials/Subprocess+Linux.swift:39-43 | redirecting only output to descriptor 4 performs no dup2 (macOS performs dup2(4, 1)); redirecting only input to descriptor 3 also sends the child's output to 3 |
| SubprocessLinux.IntendedSlotsFollowTheFileActionPlan | Sources/FoundationEssentials/Subprocess+Linux.swift:39-43 | with the corrected slots, the shim performs exactly the macOS redirection plan whenever no stream is descriptor 0 |
| SubprocessLinux.Run | Sources/FoundationEssentials/Subprocess+Linux.swift:15-51 | a refused path throws its validation error and makes no fork/exec request; otherwise the request carries the path, argv = [path] + arguments and the serialised overlaid environment as arrays without a NULL slot, and the as-written slot array; the pid returned is the value the shim stored, 0 if it stored nothing |

## Left out

- Progress bookkeeping (`totalUnitCount`, `completedUnitCount`, `becomeCurrent`, `resignCurrent`) is left out. Only the answers of `isCancelled` are kept, as a sequence. The model has no current progress when progress is not reported or no current `Progress` exists.
- The `.uncached` hint (`F_NOCACHE`) and the 32-bit `SSIZE_MAX` guard are left out: the first changes no result and the second applies only on 32-bit platforms. `Int` is the 64-bit range throughout.
- `st_blksize` is taken to be non-negative: the oracle's block size is a natural number, so the `size_t(preferredChunkSize)` conversion (Data+Reading.swift:269), which would trap on a negative value, is not modelled.
- The Objective-C bridging entry points of `Data+Reading.swift` and `logFileIOErrno` are left out. They are bridging and logging only.
- `PathOrURL` is a string. Whether it has a file system representation is an oracle answer, and so are the `open` flags and mode and its result.
- A nil `mmap` result and `MAP_FAILED` are merged into one failure with an errno.
- `_NSFileCompressionTypeIsSafeForMapping` is an uninterpreted boolean of the mapping probe. A failing `fstatfs` is an absent flag word.
- `fgetxattr`'s three-call protocol is collapsed into one answer per name: unreadable (with an errno), or a stored value plus whether the sized re-read agrees. The `malloc(neededSize)!` crash on allocation failure is not modelled.
- The buffers are Dafny arrays and sequences, not raw memory. `Data` holds its bytes by value, and adoption is recorded by its deallocator. A file's contents do not change between `fstat` and `read`; short and empty reads are scripted instead.
- DataReading.ReadRetryingOnInterrupt: the scripted `read` answers are finite, so a descriptor that answers EINTR forever cannot be expressed. The source retries such a read without end (Data+Reading.swift:315-322), and nothing stops it when there is no progress object. The retry loop's termination measure, the length of the remaining script, rests on this.
- DataReading.ShouldMapFileDescriptor: it carries no contract of its own. Its properties are proved about `ShouldMap`, which it instantiates with the as-written excluded class.
- `ProcessInfo.processInfo.environment` is the `inherited` parameter. Swift dictionary iteration order is unspecified, so the environment block is specified up to order, through a ghost key order.
- Subprocesses.Overlay and Subprocesses.MergeEnvironment compare keys by code point. Swift `String` and `Dictionary` compare keys by Unicode canonical equivalence, so two keys that differ only in normalisation form (NFC against NFD) are one key in the source's merge (Subprocess.swift:51-54). In the model they are two keys, and both reach the environment block.
- The `strdup` copies behind argv and envp are left out: they are never freed in the source, and C strings would cut a value at an embedded NUL. The model keeps Dafny strings.
- The spawn and fork/exec calls are external. Their effect is the `LaunchOutcome` parameter, and `run()` ignores the returned status, as the source does.
- ProcessShims.c is not part of this model beyond the slot convention in `ShimRedirections`. Its fork/exec shim (ProcessShims.c:66-91) never tests the result of `fork()`, so parent and child both perform the dup2 calls and `execve`. When `execve` succeeds the calling process is replaced and the Linux `run()` never returns. When it fails, `run()` returns 0, because the shim never stores the child's pid. The model records only the request and takes the stored pid from `LaunchOutcome`. The shim's definition also takes a working-directory parameter that its header does not declare.

## Findings

| source | as written | input that shows it | evidently intended | confidence | as-written member | corrected member |
|---|---|---|---|---|---|---|
| Sources/FoundationEssentials/Subprocess+Linux.swift:41 | slot 1 of the descriptor array is `standardInput?.rawValue ?? 0` | standardOutput = descriptor 4, other streams nil: no dup2 is made, so the child writes to the parent's stdout; standardInput = descriptor 3 alone: the child's stdout is also redirected to 3 | slot 1 is `standardOutput?.rawValue ?? 0` | not executed | SubprocessLinux.SlotOneCopiesStandardInput | SubprocessLinux.IntendedSlotsFollowTheFileActionPlan |
| Sources/FoundationEssentials/Subprocess.swift:86-98 | the attribute handle is declared nil and never passed to `posix_spawnattr_init`, so every setter fails with EINVAL and `posix_spawn` gets a nil handle | any launch that gets past validation | call `posix_spawnattr_init` first, so the child gets an empty mask, default dispositions and flags 0x400C | not executed | Subprocesses.ConfigureSpawnAttributesAsWritten | Subprocesses.ConfigureSpawnAttributes |
| Sources/FoundationEssentials/Data/Data+Reading.swift:149-150 | a result of length 0 becomes `Data()`, whatever its deallocator | an unmapped regular non-empty file whose `st_blksize` is 0, or one whose first read returns 0 bytes: `readBytesFromFile` returns a malloc'd `.free` buffer of length 0, which is then neither adopted nor freed | release the region of an empty result | not executed | DataReading.EmptyHeapResultLeaks | DataReading.PackageReadBytesResult |
| Sources/FoundationEssentials/Data/Data+Reading.swift:70 | `protectionClass >= 0 && protectionClass != -1`, where the second test is implied by the first | a Class A file (protection class 1) on a local fixed volume, read with `.mappedIfSafe` in the framework build, is mapped | refuse Class A, whose value is 1 | not executed | DataReading.ClassAFilesAreMappedAsWritten | DataReading.ClassAFilesAreNeverMappedIfSafe |
| Sources/FoundationEssentials/Subprocess.swift:55-64 | argv and envp are Swift arrays of the `strdup`'d strings with no trailing nil (the same at Subprocess+Linux.swift:29-38), passed to the spawn and fork/exec calls where C expects a `char *const[]` ended by NULL | any launch that gets past validation, e.g. `/bin/ls` with no arguments: the callee reads past the one-slot argv array | append `nil` to both arrays | not executed | Subprocesses.UnterminatedArrayHasNoEnd | Subprocesses.NullTerminatedArrayReadsBack |
