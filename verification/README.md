# A Dafny model of a teaching kernel's process resources, ELF loader and system calls

This project models the part of a small x86 teaching kernel that user programs reach through system calls. That part covers the following:

- **Handles and resource tables** (`Handles`, `Tables`, `Processes`).
  - A handle is a 32-bit word. Its top nibble is a kind tag: file 0x0, child 0x1 or semaphore 0x2. Its low 28 bits index one of three fixed ten-slot tables.
  - Allocation is first fit. `close` tries semaphore, then child, then file. `wait` consumes a child slot, and `exit` sets the process's output future.
  - `fork` shares the file and semaphore objects with the child. It registers the child's future in the first free child slot. It copies every present private page, meaning page-directory entries 512 to 1023, into a fresh frame.
  - Shared kernel objects live in an `Objects` store keyed by references: open files with their cursors, semaphore counters and futures. "Shared by fork" therefore means "the same reference".
  - Physical frames are a map from frame numbers to bytes, with a bump allocator.
- **The ELF32 loader** (`Elf`).
  - It checks the header: magic, class, encoding, ABI, versions, `ET_EXEC` and a non-zero program-header offset.
  - It walks the program headers at `phoff + i * phentsize`. Each `PT_LOAD` segment gets the address test of the loader, then the copy of `filesz` bytes and the zero fill up to `memsz`.
  - A refused segment is a kernel panic.
  - The header layout follows the ELF header and program header of the System V ABI (`elf.h` is not part of this model).
- **The open-file cursor** (`OpenFile`). `seek` is bounds-checked, `read` advances by what it transferred, and `write` always fails.
- **The system-call layer** (`CString`, `ExecStack`, `ExecCall`, `Symlinks`, `Syscalls`, `SyscallFacts`).
  - `strlen`.
  - The user-pointer test: at least 0x8000_0000 and neither interrupt-controller page.
  - `exec`: the checks it makes before tearing anything down, then the argument frame it builds below 0xefff_e000, then loading and starting the program.
  - The `execl` argument scan.
  - The handler for calls 0, 1, 3–6 and 8–13 as one pure function `Syscalls.Dispatch` from a `Kernel` record (configuration, filesystem, calling process, object store, user memory) and the two registers to an `Outcome`.

A few representation choices:

- **Integers.** Machine words are integers in `0 .. 2^32`. Every 32-bit wrap-around is written with `Wrap`, and every `(int)` reinterpretation of a user word with `ToSigned`. File sizes and read counts are not narrowed to `int`; see "## Left out". Bit masks on handles are division and remainder by 2^28.
- **Memory.** User memory is a flat map from addresses to bytes. An unmapped byte reads as zero. Words are little-endian.
- **`clear_private`.** `exec` sees it through that flat view as `ExecCall.ClearUser`. `fork` sees it through the frame view. `ExecCall.PrivateIffUser` shows that both views drop the same addresses.
- **Blocking.** A `down` on a zero counter and a `wait` on an unset future are the outcome `Sleeps`. The state does not change.
- **`wait` returns the status word.** System call 8 returns the word at `status` whatever `Process::wait` did. The comment above it promises a negative value on failure. The model follows the code: a failed `wait` returns whatever the caller's status word held (`SyscallFacts.FailedWaitReturnsStatusWord`).
- **Underflow in the loader.** `memsz - filesz` is unchecked. When `memsz < filesz` the zero fill wraps around the whole address space and erases the bytes just copied. The model keeps this behaviour (`Elf.UnderflowErasesCopiedBytes`), and the layout lemmas assume `filesz <= memsz`.

## Model

| member | source | states |
|---|---|---|
| Machine.ToSigned | kernel/sys.cc:372 | the `(int)` view of a word lies in `-2^31 .. 2^31` and reinterprets the same 32 bits |
| Machine.WriteBytes | kernel/sys.cc:102 | a copy to `a` changes exactly the bytes at `a .. a+n` (addresses wrapping) to the copied bytes, and no other byte |
| Machine.ReadWriteWord | kernel/sys.cc:105-106 | a word stored with `*(uint32_t*)sp = w` reads back as `w` |
| Handles.Encode | kernel/process.cc:111 | `TAG \| i` has the kind bits of its tag and the index bits `i` |
| Handles.DecodeIndex | kernel/process.cc:199-221 | a decoder yields -1 or an index below the table capacity whose encoding is exactly the handle |
| Handles.DecodeEncode | kernel/process.cc:199-221 | decoding the handle of slot `i` of a kind gives `i` back |
| Handles.DecodeExactly | kernel/process.cc:199-221 | a handle decodes as a kind exactly when it is the encoding of some slot of that kind |
| Handles.FailureNeverDecodes | kernel/process.cc:11-14 | -1, with tag 0xF, decodes as no kind |
| Handles.KindsAreExclusive | kernel/process.cc:11-14 | no handle decodes as two different kinds |
| Tables.Empty | kernel/process.h:41-43 | a new table has every slot empty |
| Tables.FirstFree | kernel/process.h:85-94 | the first-fit search finds the lowest empty slot, or reports -1 exactly when the table is full |
| Tables.Install | kernel/process.h:83-95 | installing fills the lowest empty slot and nothing else; a full table is returned unchanged with -1 |
| Tables.InstallUsesOnlyFreeSlot | kernel/process.h:83-95 | when exactly one slot is empty, installing uses that slot |
| Tables.InstallAfterClear | kernel/process.h:83-95 | after clearing slot `j`, the next install takes `j` or an earlier free slot, whichever is lower |
| OpenFile.Open | kernel/openfilestruct.h:15-18 | a freshly opened file is on its node with the cursor at 0 |
| OpenFile.Size | kernel/openfilestruct.h:39 | the size of an open file is the size of its node |
| OpenFile.Seek | kernel/openfilestruct.h:25-37 | an offset outside `0 .. size` gives -1 with the cursor kept; otherwise the cursor moves there and the offset is returned |
| OpenFile.Read | kernel/openfilestruct.h:40-48 | a read of 0 returns 0 and keeps the cursor; a read returns the bytes at the cursor, up to `n` or the end of the node, and advances the cursor by their count |
| OpenFile.Write | kernel/openfilestruct.h:49-53 | writing to a file returns -1 and changes nothing |
| OpenFile.SeekIdempotent | kernel/openfilestruct.h:25-37 | seeking twice to the same offset is seeking once |
| OpenFile.ReadAfterSeek | kernel/openfilestruct.h:25-48 | after a successful seek to `o`, a read delivers the node's bytes starting at `o` |
| OpenFile.ReadsAreConsecutive | kernel/openfilestruct.h:40-48 | two reads in a row deliver consecutive bytes of the node |
| AddressSpace.PageAt | kernel/process.cc:156-169 | the page visited at each step of the two nested loops is private, and steps and pages correspond |
| AddressSpace.PositionIdentifies | kernel/process.cc:156-169 | every private page is visited exactly once, at its own step |
| AddressSpace.CopyPrivate | kernel/process.cc:156-181 | every present private parent page missing from the child gets a fresh frame with byte-identical contents; the child's existing pages, all old frames and all non-private pages are untouched; fresh frames are distinct |
| AddressSpace.ClearPrivate | kernel/process.cc:127-133 | dropping the private half keeps exactly the non-private pages, with their frames |
| CString.CStr | kernel/sys.cc:18-28 | the C string at `p` is the bytes before the first NUL, and exists exactly when a NUL is reachable |
| CString.Strlen | kernel/sys.cc:18-28 | `strlen` returns the distance to the first NUL byte |
| CString.CStrOf | kernel/sys.cc:18-28 | bytes without NUL followed by a NUL are read back as that C string |
| Processes.NewProcess | kernel/process.cc:24-31 | the init process has one console object in slots 0–2 and nothing else; any other process starts with empty tables; both get a fresh, unset output future and exactly the kernel's shared pages, each on the kernel's frame |
| Processes.GetSemaphore | kernel/process.cc:117-125 | a handle that is not a semaphore handle below NSEM yields nothing; otherwise the slot it names |
| Processes.GetFile | kernel/process.h:73-81 | a handle that is not a file handle below NFILE yields nothing; otherwise `files[fd]` |
| Processes.NewSemaphore | kernel/process.cc:104-115 | a new semaphore goes into the lowest empty slot `i` and `SEM \| i` is returned, which `getSemaphore` maps back to it; a full table gives -1 and no change |
| Processes.SetFile | kernel/process.h:83-95 | a file goes into the lowest empty slot, whose index is returned and which `getFile` yields; a full table gives -1 and no change |
| Processes.Close | kernel/process.cc:223-258 | close returns 0 exactly when the handle names an occupied slot of some kind, tried semaphore, child, file, and then clears exactly that slot; otherwise -1 and no change |
| Processes.DoubleCloseFails | kernel/process.cc:223-258 | closing the same handle a second time returns -1 |
| Processes.CloseFailureFails | kernel/process.cc:223-258 | closing -1 returns -1 and changes nothing |
| Processes.ReopenReusesClosedSlot | kernel/process.h:83-95 | with every file slot full, closing slot `j` and installing a file reuses `j` |
| Processes.Wait | kernel/process.cc:260-268 | a handle naming no occupied child slot fails with a negative value; an unset future blocks; a set one yields its value and clears exactly that slot |
| Processes.SecondWaitFails | kernel/process.cc:260-268 | after a collected wait, a second wait on the same handle fails |
| Processes.Exit | kernel/process.h:98-102 | exit sets the process's own future to the status and leaves every other object alone |
| Processes.Fork | kernel/process.cc:135-197 | a full child table gives failure; otherwise the child's future goes into the lowest free child slot `k` with handle `PROC \| k`, the child has the very same file and semaphore objects, its private pages are fresh copies of exactly the parent's present private pages in distinct frames never allocated before, its shared pages are exactly the kernel's, the frame store stays well formed, waiting on the new handle blocks, and no existing file, semaphore or future changes |
| Processes.ExitThenWait | kernel/process.cc:260-268 | once the child has exited with `v`, waiting on its handle yields `v` and clears the slot |
| Processes.ChildWriteInvisibleToParent | kernel/process.cc:176-179 | a write to a frame fork allocated changes no page of the parent |
| Processes.ParentWriteInvisibleToChild | kernel/process.cc:176-179 | a write to a parent frame changes no page fork gave the child |
| Elf.ReadStruct | kernel/elf.cc:17 | a header read yields the node's bytes at the offset, and zero past the end of the node |
| Elf.SegmentBadIffBadPointer | kernel/elf.cc:43-46 | the 32-bit overflow disjunct never fires: a segment is refused exactly when its address fails the user-pointer test |
| Elf.SegmentLayout | kernel/elf.cc:48-54 | after a segment with `filesz <= memsz`, the bytes at `vaddr + k` are the file bytes at `offset + k` for `k < filesz`, zero up to `memsz`, and unchanged beyond |
| Elf.UnderflowErasesCopiedBytes | kernel/elf.cc:54 | when `memsz < filesz`, the wrapped zero fill leaves zero at every address from `vaddr` up to `vaddr + memsz` |
| Elf.LoadOne | kernel/elf.cc:41-55 | a header that is not `PT_LOAD` leaves memory alone; a loadable one halts the kernel exactly when its address fails the user-pointer test, and otherwise performs the segment copy and zero fill |
| Elf.RunningOffsetIsDirect | kernel/elf.cc:32-41 | the running offset `hoff` reads program header `i` at `phoff + i * phentsize` |
| Elf.Load | kernel/elf.cc:6-60 | no file, or a header failing any check, gives -1; with a good header the load halts exactly when the loop over the program headers does, and otherwise returns the header's entry point with the memory that loop leaves |
| Elf.HaltsIffRefusedSegment | kernel/elf.cc:36-47 | the loop over the program headers halts exactly when one of the first `phnum` headers is loadable with a refused address |
| Elf.BadMagicRejected | kernel/elf.cc:19-21 | changing any of the four magic bytes makes the load fail |
| Elf.SingleSegmentLoad | kernel/elf.cc:36-58 | a file with one acceptable loadable segment is loaded by exactly one segment copy and returns its entry point |
| Elf.SingleSegmentRoundTrip | kernel/elf.cc:48-58 | after loading one segment, memory at `vaddr + k` holds file byte `offset + k` below `filesz` and zero up to `memsz` |
| ExecStack.PaddingBounds | kernel/sys.cc:93-96 | the padding `alignedLen - totalLen` is between 1 and 4, and `alignedLen` is a multiple of 4 |
| ExecStack.StringPlaces | kernel/sys.cc:97-103 | the strings are pushed so that `argv[i]` starts at the lowest address plus the lengths of the strings before it |
| ExecStack.StringsFrame | kernel/sys.cc:97-103 | pushing the strings changes no byte outside the string area |
| ExecStack.StringsContent | kernel/sys.cc:97-103 | at each `addresses[i]` lies a NUL-terminated copy of `argv[i]` |
| ExecStack.WordsPlace | kernel/sys.cc:110-115 | pushing `n` words lowers the stack pointer by `4n` |
| ExecStack.WordsFrame | kernel/sys.cc:110-115 | pushing the words changes no byte outside the word area |
| ExecStack.WordsContent | kernel/sys.cc:110-115 | the pushed words read back in array order from the new stack pointer |
| ExecStack.StackPointer | kernel/sys.cc:70-119 | the final stack pointer is `0xefffe000 - alignedLen - 4 * (argc + 3)` and is 4-aligned |
| ExecStack.StackWords | kernel/sys.cc:105-119 | the word at `sp` is `argc`, at `sp + 4` is `sp + 8`, at `sp + 8 + 4i` is `addresses[i]`, and at `sp + 8 + 4 * argc` is 0 |
| ExecStack.StackStrings | kernel/sys.cc:97-103 | after the whole frame is built, each `addresses[i]` still holds `argv[i]` as a C string |
| ExecStack.StackOrder | kernel/sys.cc:93-103 | `argv[0]` lies lowest, at the bottom of the aligned area; each string ends before the next begins; the last ends just below the padding |
| ExecStack.StackUntouched | kernel/sys.cc:93-119 | building the frame changes no byte below the final stack pointer or in and above the padding |
| ExecCall.ClearUser | kernel/sys.cc:88 | dropping the user half leaves every kernel byte and makes every user address read zero |
| ExecCall.PrivateIffUser | kernel/process.cc:156 | a page is private exactly when its addresses are user addresses |
| ExecCall.ClearUserIdempotent | kernel/sys.cc:88 | dropping the user half twice is dropping it once |
| ExecCall.Exec | kernel/sys.cc:30-149 | exec refuses, with nothing changed, exactly when the path is missing, is not a regular file or fails a header check; otherwise it starts at the header's entry with the built stack pointer exactly when every segment loads, and panics otherwise |
| ExecCall.ExecWithoutSegments | kernel/sys.cc:127-146 | a program without program headers starts at its entry with the memory the stack construction left |
| ExecCall.ExecPassesArguments | kernel/sys.cc:70-146 | the started program finds `argc` at its stack pointer, the argument array after it, each entry pointing at a copy of its argument, and a null word at the end |
| Symlinks.LinkTarget | kernel/sys.cc:316-318 | the path a link names is its bytes up to the first NUL |
| Symlinks.ResolveAsWritten | kernel/sys.cc:315-322 | the loop as written never reports a missing target; it ends on a node that is not a link, or dereferences null |
| Symlinks.Resolve | kernel/sys.cc:315-326 | the intended loop never dereferences null; a node that is not a link resolves to itself, and a resolved node is never a link |
| Symlinks.AsWrittenDiffersOnlyOnDangling | kernel/sys.cc:315-326 | the two loops agree everywhere except where a link dangles, which is exactly where the code as written dereferences null |
| Symlinks.MoreFuelSameEnd | kernel/sys.cc:315-322 | a walk that ends within some number of lookups ends the same way given more |
| Symlinks.DanglingLinkDereferences | kernel/sys.cc:315-322 | a single link to a missing name makes the loop as written test a null node, where the intended loop reports the name missing |
| Syscalls.SysWrite | kernel/sys.cc:170-187 | write goes to the device exactly when the buffer passes the pointer test and the descriptor names the console; a regular file, a bad buffer or a bad descriptor gives -1 with nothing changed |
| Syscalls.SysSem | kernel/sys.cc:198-205 | sem returns -1 with nothing changed exactly when the semaphore table is full; otherwise the handle `SEM \| i` of the lowest free slot `i`, which now names a fresh semaphore with the initial count; no other slot, file, future, memory or filesystem state changes |
| Syscalls.SysUp | kernel/sys.cc:207-219 | up on an unresolvable handle gives -1; otherwise it adds one to exactly that semaphore and returns 0 |
| Syscalls.SysDown | kernel/sys.cc:220-232 | down on an unresolvable handle gives -1; on a zero count the caller sleeps; otherwise it takes one from exactly that semaphore and returns 0 |
| Syscalls.SysClose | kernel/sys.cc:233-237 | close returns 0 exactly when the handle names an occupied slot and empties exactly that slot, as `Processes.Close` does; -1 with nothing changed otherwise; objects, memory and filesystem never change |
| Syscalls.SysWait | kernel/sys.cc:243-258 | a bad status pointer gives -1; an unset future sleeps; otherwise the call returns the status word as it then stands, which after a collected wait is the child's exit value; a collected wait changes only the child slot and the word at `status` |
| Syscalls.ScanArgs | kernel/sys.cc:276-292 | the scan collects the words from `userEsp[2]` up to the first null word; the first refused pointer stops it with -1, and 99 accepted words make it panic |
| Syscalls.ReadArgs | kernel/sys.cc:79-85 | the argument strings are read exactly when every one ends, each as the C string its pointer names |
| Syscalls.Replaced | kernel/sys.cc:88 | once exec has replaced the program, the page map keeps exactly the non-private pages, user memory is the new image, and nothing else about the caller changes |
| Syscalls.SysExecl | kernel/sys.cc:259-298 | a bad path pointer or argument pointer gives -1; too many arguments panic; a path that exec refuses gives -1 with nothing changed; otherwise the program runs with its private pages dropped and the memory, entry and stack pointer exec produced |
| Syscalls.InstallFile | kernel/sys.cc:327-332 | opening installs a fresh file with cursor 0 in the lowest free slot and returns its index; a full table gives -1 and no change; no other slot, existing file, semaphore, future, memory or filesystem state changes |
| Syscalls.SysOpen | kernel/sys.cc:299-333 | a bad pointer or a missing path gives -1; links are followed, a dangling one giving -1; the final node is installed as a freshly opened file |
| Syscalls.SysLen | kernel/sys.cc:334-343 | len of an unresolvable descriptor gives -1, and of a regular file its node's size |
| Syscalls.SysRead | kernel/sys.cc:345-367 | a bad buffer, an unresolvable descriptor or the console gives -1; otherwise the bytes at the cursor, up to `n` or the end, are copied to the buffer and the cursor advances by their count, which is returned; nothing but that cursor and the buffer changes |
| Syscalls.SysSeek | kernel/sys.cc:369-381 | seek on an unresolvable descriptor or the console gives -1; otherwise the signed offset is checked against `0 .. size`, and an offset inside moves the cursor and is returned |
| Syscalls.SysExit | kernel/sys.cc:162-169 | exit sets the caller's future to the status word |
| Syscalls.Dispatch | kernel/sys.cc:151-388 | every call that returns leaves a well-formed kernel, and an unknown call number returns -1 with nothing changed |
| SyscallFacts.BadPointerFails | kernel/sys.cc:170-355 | for write, wait, execl, open and read, a pointer argument failing the pointer test gives -1 with nothing changed |
| SyscallFacts.UnresolvableHandleFails | kernel/sys.cc:181-379 | write, up, down, len, read and seek on an unresolvable handle give -1 with nothing changed |
| SyscallFacts.ConsoleRefusesReadAndSeek | kernel/sys.cc:359-379 | read and seek on the console give -1 |
| SyscallFacts.UpThenDown | kernel/sys.cc:207-232 | an up followed by a down on a live semaphore returns the kernel to where it was |
| SyscallFacts.DownThenUp | kernel/sys.cc:207-232 | a down that does not sleep followed by an up returns the kernel to where it was |
| SyscallFacts.NewSemaphoreStartsClosed | kernel/sys.cc:198-232 | a semaphore made with count 0 puts the first down to sleep, and lets it through after one up |
| SyscallFacts.CloseThenUpFails | kernel/sys.cc:207-237 | after a semaphore's handle is closed, up on it gives -1 |
| SyscallFacts.OpenThenLen | kernel/sys.cc:327-343 | len of a just-opened file is its node's size |
| SyscallFacts.OpenThenClose | kernel/sys.cc:327-332 | closing a just-opened descriptor succeeds and restores the process's tables |
| SyscallFacts.OpenThenReadAll | kernel/sys.cc:345-367 | a first read of a just-opened file with room for it all copies the whole node into the buffer |
| SyscallFacts.SeekUndoesRead | kernel/sys.cc:345-381 | seeking back to where a read started restores the file, and only the copied bytes remain changed |
| SyscallFacts.FailedWaitReturnsStatusWord | kernel/sys.cc:243-258 | wait on a handle naming no child returns whatever the status word held, so 0 when it held 0 |
| SyscallFacts.ExitThenWaitReturnsStatus | kernel/sys.cc:255-257 | after the child exits with `v`, wait returns `v` and leaves it in the status word |
| SyscallFacts.OpenDanglingLinkFails | kernel/sys.cc:315-326 | opening a path whose link chain dangles gives -1, where the loop as written dereferences null |
| SyscallFacts.ExeclRunsExec | kernel/sys.cc:293-297 | for any runnable program, execl ends as exec of its path and arguments does: exec never refuses it, a panic in exec is a panic of execl, and a started program runs with the memory, entry and stack pointer exec produced |
| SyscallFacts.ExeclStartsProgram | kernel/sys.cc:294-296 | for a runnable program with no program headers, exec always starts it and execl runs exactly what it started |
| SyscallFacts.ExeclArgc | kernel/sys.cc:116-119 | for a program with no program headers whose argument frame fits, the program execl starts finds the number of scanned arguments at its stack pointer |
| SyscallFacts.ExeclArgument | kernel/sys.cc:276-296 | for a program with no program headers whose argument frame fits, entry `i` of the started program's argument array names the same C string as the caller's `userEsp[i + 2]` |
| SyscallFacts.ExeclDeliversArguments | kernel/sys.cc:259-298 | the started program sees `argc` and every argument the caller passed to execl |

## Left out

- PCI configuration and device scanning, AC97 DMA buffers, WAV handling and `swapEndian`: hardware port I/O with nothing to state about tables or memory.
- Scheduling and control transfer (`thread`, `stop`, `switchToUser`): a started program is the outcome `Running`, and fork's second thread is the outcome `Forking` of `Syscalls.Dispatch`, with `Processes.Fork` modelling the tables and pages.
- Shutdown (call 7): the outcome `PowerOff`.
- Locks and interrupt masking: every table operation is atomic.
- Blocking `down` and `get`: the outcome `Sleeps` with no change. A woken sleeper is not modelled.
- The console device: writes to it and `len` of it are the outcome `Device`. The serial driver's behaviour is not modelled.
- The x86 page-directory and page-table bit layout, `make_pd`, `delete_pd`, `delete_private` and `alloc_frame`. These are a page map, a frame store and a bump allocator, so fresh frames are distinct by construction.
- The ext2 driver (`find`, `read_all`, `get_symbol`, `is_file`): a map from paths to nodes with their kind and bytes.
- Heap scratch buffers in `exec`, and all debug output.
- Faults from reading unmapped user memory: a user string that never ends within 2^32 bytes is the outcome `Fault`, and every other read of user memory succeeds.
- Elf.ReadStruct: a header read past the end of the file yields zero bytes where the code leaves the stack buffer's previous contents.
- Symlinks.Resolve: a walk is allowed one lookup more than there are names and reports `Endless` (the outcome `Loops`) past that. The model does not prove that a longer walk must be a cycle.
- ExecStack.StackPointer: `totalLen` and the pointer arithmetic are taken without 32-bit overflow, under the precondition that the frame fits below the stack top.
- ExecCall.ExecPassesArguments: stated for programs without program headers, because a loaded segment may overwrite the frame, and for arguments whose frame fits below the stack top (`Fits`), because a frame that wraps around address 0 is not modelled.
- SyscallFacts.ExeclDeliversArguments: stated for programs without program headers whose argument frame fits below the stack top, for the same reasons.
- SyscallFacts.ExeclArgc: stated for programs without program headers whose argument frame fits below the stack top, for the same reasons.
- SyscallFacts.ExeclArgument: stated for programs without program headers whose argument frame fits below the stack top, for the same reasons.
- SyscallFacts.SeekUndoesRead: stated for files whose cursor is below 2^31, because `seek` takes its offset as a signed 32-bit value.
- Syscalls.ScanArgs: when 99 arguments are accepted the code still reads `userEsp[101]` before testing the count. The model does not read it, since the outcome is a panic either way.
- Syscalls.Dispatch: its own contract states well-formedness and the unknown-call case. The per-call behaviour is stated on the `Sys*` functions and by the `SyscallFacts` lemmas about `Dispatch`.
- Semaphore counters are unbounded integers.
- Syscalls.SysLen: returns the node's size as an unbounded integer. The kernel returns it through the `int` result of the handler (kernel/sys.cc:342), so a file of 2^31 bytes or more would report a negative length. Files are taken to be shorter than 2^31 bytes.
- Syscalls.SysRead: returns the count as an unbounded integer, where the handler's `int` result would be negative for a read of 2^31 bytes or more. Files are taken to be shorter than 2^31 bytes.
- OpenFile.Read: the count is an unbounded integer, where `int result` at kernel/openfilestruct.h:45-46 would go negative, and move the cursor backwards, for a read of 2^31 bytes or more. Files are taken to be shorter than 2^31 bytes.
- SyscallFacts.ExeclStartsProgram: the guarantee that exec starts the program is stated only for programs without program headers, because a refused segment panics. `SyscallFacts.ExeclRunsExec` states the outcome for every runnable program.
- Syscalls.Replaced: the flat user memory of a `Kernel` and the page map of its `Process` are two views kept side by side. Exec drops the private pages from the page map, but the frames the page-fault handler later maps for the new stack and segments are not added to it. A fork after exec therefore copies no private pages in the model.
- Syscalls.Dispatch: when the child table is full, call 2 still starts a thread for the null process that `fork` returned before returning -1 (kernel/sys.cc:191-196). `Forking` stands for every fork, and that thread is not modelled.

## Findings

| source | as written | input that shows it | evidently intended | confidence | as-written member | corrected member |
|---|---|---|---|---|---|---|
| kernel/sys.cc:315-322 | the link loop assigns the result of `find` to `node` and then calls `node->is_symlink()` on it, so a link whose target does not exist dereferences a null node before the null check after the loop | a filesystem whose only name `l` is a link to any other name, opened as `l` | the walk stops at the missing target and `open` returns -1, as the check after the loop intends | not executed | Symlinks.ResolveAsWritten (shown by Symlinks.DanglingLinkDereferences) | Symlinks.Resolve (used by Syscalls.SysOpen; SyscallFacts.OpenDanglingLinkFails) |
