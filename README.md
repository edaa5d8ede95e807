# Nachos: the alarm's sleep registry and a user process's memory and descriptors

This project models two pieces of bookkeeping in a Nachos teaching kernel and
proves properties of them.

- **The alarm** (`threads/Alarm.java`). Sleeping threads are recorded in two
  parallel lists: deadlines in `wakeTime` and semaphores in `a`.
  `waitUntil(x)` appends the deadline `now + x`, computed in `long` and cast to
  `int`, and appends a fresh semaphore. `timerInterrupt()` walks the lists by
  index. It signals and removes every entry whose deadline is strictly before
  the current time. The index advances even after a removal, so the entry that
  slides into the freed slot is not examined on that tick. The list `a` is
  `static`, so every `Alarm` shares it, while each instance has its own
  `wakeTime`. The model keeps all of this as written:
  - `Alarm.Alarm` is a class with a `wakeTime` sequence and a reference to one
    shared `SleepSemaphores` object that stands for the static `a`.
  - A semaphore is an id, and `V()` is the id appearing in `fired`.
  - `Scan` restates the loop over the lists' original positions. The loop
    method `ScanAndRemove` is proved equal to it.
- **The user process** (`userprog/UserProcess.java`). The model covers:
  - the page table and translation of a virtual address into physical memory;
  - the copy routines `readVirtualMemory` and `writeVirtualMemory`, with
    `System.arraycopy`, and `readVirtualMemoryString`;
  - `load`: the contiguity check on the COFF sections, the argument-size
    check, 8 stack pages and 1 argument page, and the argument page with its
    argv pointer table and packed NUL-terminated strings;
  - `loadSections` and `unloadSections` against the kernel's free-page list;
  - the 16-slot descriptor table with its `openCount` bump pointer, in the
    constructor, `handleOpen`, `handleCreate`, `handleClose`, `handleRead` and
    `handleWrite`.

  The machine state every process shares (physical memory, the free-page list
  and the next process id) lives in a `Kernel` object. `UserKernel` and
  `Processor` themselves are not part of this model.

Files:
- `java_int.dfy`: Java `int`/`long` and their casts.
- `wrappers.dfy`: `Option`.
- `processor.dfy`: page size, address split, translation entries, block copies, C strings, `Lib.bytesFromInt`.
- `process_layout.dfy`: section layout, page tables built by `loadSections`, the argument page.
- `alarm.dfy`: the alarm.
- `user_process.dfy`: the process.

Modelling decisions:
- The page size is 0x400, the value of Nachos's `Processor.pageSize`.
- `pageFromAddress` and `offsetFromAddress` take the address as an unsigned
  32-bit number and divide it by the page size, as the MMU does. For
  non-negative addresses this is `vaddr / pageSize` and `vaddr % pageSize`.
- `Lib.bytesFromInt` is four bytes, least significant first. A decoder is
  given so the argv table can be read back.
- Calls into code that is not shown become parameters:
  - the clock reading;
  - the COFF sections (`None` when opening or parsing the executable failed) and the entry point;
  - the argument bytes;
  - what the file system's `open`, `read` and `write` return;
  - the console files.
- A system call that throws returns `IndexOutOfBounds`. A `timerInterrupt`
  that throws reports `crashed`.
- The handlers' and copy routines' results are stated over the state on
  entry (`old(...)`): the bytes moved, where they land, and the new memory.

## Model

| member | source | states |
|---|---|---|
| Alarm.SleepSemaphores.constructor | threads/Alarm.java:97 | the static list `a` of sleep semaphores, shared by every alarm, starts empty; ids are handed out by a counter so each new semaphore is distinct |
| Alarm.Alarm.constructor | threads/Alarm.java:19-28 | the new alarm has an empty `wakeTime`, and the shared static list is replaced by an empty one |
| Alarm.Alarm.WaitUntil | threads/Alarm.java:76-93 | x <= 0 changes nothing; otherwise both lists grow by exactly one entry, the deadline `(int)(long)(now + x)` and a semaphore id not yet in the list; lists that were aligned stay aligned |
| Alarm.Alarm.TimerInterrupt | threads/Alarm.java:36-62 | the new lists and the signalled semaphores are those of `Scan` on the old lists at time `(int)time`; the shared ids stay below the id counter; aligned lists stay aligned and never make the scan throw |
| Alarm.Scan | threads/Alarm.java:49-60 | the definition the timer interrupt is proved against: over the original positions, an examined entry whose deadline is strictly before now is removed and its semaphore signalled, the entry after a removal is not examined, and a due entry with no semaphore at its index throws |
| Alarm.ScanAndRemove | threads/Alarm.java:49-60 | the index loop with its remove-then-advance step computes exactly `Scan`: same surviving lists, the removed entries' semaphores in order, and whether `a.get(i)` threw |
| Alarm.ExamineEntry | threads/Alarm.java:52-59 | one loop turn: a due entry whose semaphore exists is removed from both lists at the same index and signalled; a due entry past the end of `a` throws with nothing changed; otherwise nothing changes; the rest of the scan is unaffected |
| Alarm.ScanCounts | threads/Alarm.java:51-60 | with `a` at least as long as `wakeTime` the scan cannot throw; every entry either survives or is removed, in both lists, so the count of `V()` calls equals the count of removals |
| Alarm.ScanRemovesOnlyExpired | threads/Alarm.java:53-57 | every signalled entry's deadline is strictly before the current time |
| Alarm.ScanKeepsAlignment | threads/Alarm.java:51-58 | with equal-length lists the scan does not throw, the lists stay equal in length, every surviving deadline stays with its own semaphore, and survivors and removed entries are both subsequences of the original entries, in order |
| Alarm.ScanKeepsPending | threads/Alarm.java:51-60 | no entry whose deadline has not passed is signalled or removed: the not-yet-due entries after the scan are exactly those before it, in order |
| Alarm.ScanSkipsSuccessor | threads/Alarm.java:51-60 | after a removal the entry that slides into the freed slot is not examined on that tick and survives, even when overdue |
| Alarm.TwoOverdueOneWoken | threads/Alarm.java:51-60 | two overdue sleepers (deadlines 3 and 4 at time 10): only the first is woken and the second stays |
| Alarm.ScanExactWhenIsolated | threads/Alarm.java:51-60 | when no two neighbouring entries are both overdue, the surviving deadlines are exactly the pending ones under the code's strict comparison `curTime > wake` |
| Alarm.DeadlineEqualToNowSurvives | threads/Alarm.java:53 | a tick at exactly an entry's deadline examines it and keeps it asleep, in the same place with the same semaphore: the wakeup comes only when the time is strictly past the deadline |
| Alarm.ScanAlignedLengths | threads/Alarm.java:51-58 | on equal-length lists the scan cannot throw and leaves equal-length lists |
| Alarm.ScanKeptSemsFromList | threads/Alarm.java:54-57 | every semaphore left in `a` was in `a` before the tick |
| Alarm.ScanKeepsIdsBelow | threads/Alarm.java:54-57 | ids below a bound before the tick stay below it, so ids handed out later are fresh |
| Alarm.CrossInstanceWakeup | threads/Alarm.java:19-28 | because `a` is static, ticking the alarm built last (the one holding the timer's handler) wakes exactly the sleeper registered through the other alarm; the ticking alarm's own sleeper is never signalled, its semaphore stays in `a` although its deadline is gone, and the other alarm keeps its deadline |
| Alarm.Pending | threads/Alarm.java:53 | an entry is pending exactly when it was listed and its deadline is not strictly before the current time |
| Alarm.PendingTimes | threads/Alarm.java:53 | a deadline is pending exactly when it was listed and is not strictly before the current time |
| JavaInt.ToInt32 | threads/Alarm.java:86-87 | the `(int)` cast agrees with its argument modulo 2^32 and is the identity on `int` values |
| JavaInt.Wrap64 | threads/Alarm.java:86 | `long` addition agrees with the exact sum modulo 2^64 and is exact when the sum fits |
| JavaInt.ToInt32OfWrap64 | threads/Alarm.java:86-87 | casting the `long` sum to `int` gives the same as casting the exact sum |
| Processor.Unsigned | userprog/UserProcess.java:159 | the address as the MMU reads it: below 2^32, equal to the address modulo 2^32, and the address itself when non-negative |
| Processor.PageFromAddress | userprog/UserProcess.java:159 | the page number brackets the address: vpn*pageSize <= address < (vpn+1)*pageSize |
| Processor.OffsetFromAddress | userprog/UserProcess.java:167 | the offset is below pageSize, and page*pageSize + offset rebuilds the address |
| Processor.AddressSplit | userprog/UserProcess.java:159-168 | a non-negative address built from a page and an offset splits back into exactly that page and offset |
| Processor.Overwrite | userprog/UserProcess.java:174 | a block copy keeps the length of memory and puts the copied bytes at the destination |
| Processor.OverwriteOutside | userprog/UserProcess.java:174 | a block copy leaves every byte outside the destination block as it was |
| Processor.OverwriteAdjacent | userprog/UserProcess.java:317-325 | two copies side by side equal one copy of the concatenated bytes |
| Processor.OverwriteDisjoint | userprog/UserProcess.java:317-325 | copies to disjoint blocks commute |
| Processor.CStringOf | userprog/UserProcess.java:104-109 | the result is None exactly when the bytes hold no NUL; otherwise it is the prefix before the first NUL, which holds no NUL |
| Processor.CStringAtFirstNul | userprog/UserProcess.java:104-106 | a NUL with none before it ends the string |
| Processor.CStringOfTerminated | userprog/UserProcess.java:321-323 | a string without NUL followed by a NUL reads back as that string, whatever follows |
| Processor.ToByte | userprog/UserProcess.java:318 | the `(byte)` cast agrees with its argument modulo 256 |
| Processor.BytesFromInt | userprog/UserProcess.java:318 | `Lib.bytesFromInt`: four bytes, least significant first |
| Processor.BytesRoundTrip | userprog/UserProcess.java:318 | decoding the four bytes of `bytesFromInt(v)` gives back `(int)v` |
| Layout.ContiguousPrefix | userprog/UserProcess.java:267-278 | every prefix of a contiguous section list is contiguous |
| Layout.PagesOf | userprog/UserProcess.java:362-369 | the pages visited number the sum of the section lengths |
| Layout.ContiguousPagesAreIdentity | userprog/UserProcess.java:267-278 | in a contiguous executable the i-th page visited is virtual page i |
| Layout.LoadedTable | userprog/UserProcess.java:337-389 | the table loadSections builds: numPages entries, the first ones the section pages in order, each valid with its vpn and read-only flag and the frame taken from the end of the free list; the rest placeholders whose frame number is their slot |
| Layout.LoadedFrames | userprog/UserProcess.java:352-386 | a loaded table's frames are the frames taken from the free list, last first, then the placeholder numbers of the other slots |
| Layout.ReleasedFrames | userprog/UserProcess.java:394-403 | after load and unload the free list holds the old free frames plus the placeholder numbers of the stack and argument slots, as a multiset |
| Layout.UnloadDuplicatesFrame | userprog/UserProcess.java:396-400 | unloading returns a placeholder frame that is still free, so the free list holds frame 1 twice |
| Layout.ReverseSameElements | userprog/UserProcess.java:378 | frames taken from the end of the free list, in reverse, are the same multiset |
| Layout.ArgsSize | userprog/UserProcess.java:280-287 | the size load computes: 4 bytes per argument plus the argument and its NUL |
| Layout.Packed | userprog/UserProcess.java:321-324 | the strings as load writes them, back to back, each followed by a NUL |
| Layout.Pointers | userprog/UserProcess.java:317-320 | the argv table, 4 bytes per argument: entry i is `bytesFromInt` of where string i starts |
| Layout.ArgPage | userprog/UserProcess.java:310-325 | the whole argument area: the argv table at the page start, then the packed strings |
| Layout.ArgsSizeIsArea | userprog/UserProcess.java:280-293 | the size load checks equals the size of the argument area it writes: 4 bytes per pointer plus the packed strings |
| Layout.PointerEntry | userprog/UserProcess.java:317-320 | pointer i of the table encodes where string i starts |
| Layout.PackedEntry | userprog/UserProcess.java:321-324 | string i and its NUL sit right after the earlier strings and their NULs |
| Layout.ArgvRoundTrip | userprog/UserProcess.java:311-325 | reading the argument page back, pointer i encodes the start of string i and the C string found there is argument i, when the argument holds no NUL |
| Layout.ArgStep | userprog/UserProcess.java:317-325 | one turn of the argument loop (pointer, string, NUL) turns the area of the first i arguments into that of the first i+1, inside the checked size |
| Layout.StagedAll | userprog/UserProcess.java:311-325 | after all turns memory holds the whole argument area at the page start |
| UserProg.CountOpenUpdate | userprog/UserProcess.java:691-692 | storing into a slot changes the count of occupied slots by what leaves and what arrives |
| UserProg.ConsoleTableCount | userprog/UserProcess.java:34-35 | a table holding only the two console files has two occupied slots |
| UserProg.Kernel.constructor | userprog/UserProcess.java:337-352 | the shared machine state loadSections reads: memory of numPhysPages frames and a free list assumed to hold every frame 0..numPhysPages-1 once, as UserKernel is taken to initialise it; the process id counter starts at 0 |
| UserProg.UserProcess.constructor | userprog/UserProcess.java:26-36 | the process id is the kernel's next id, which advances by one as an `int`; slots 0 and 1 hold the console files, the rest are empty, and openCount is 2 |
| UserProg.UserProcess.Translate | userprog/UserProcess.java:159-171 | a translated address always lies inside physical memory |
| UserProg.UserProcess.Amount | userprog/UserProcess.java:173 | a copy moves at most `length` bytes and stays inside physical memory |
| UserProg.UserProcess.AmountZero | userprog/UserProcess.java:159-176 | a copy moves nothing exactly when the page is past numPages, the entry is invalid (or read-only, for a write), the frame address is outside memory, or nothing was asked for |
| UserProg.UserProcess.CopyCrossesIntoNextFrame | userprog/UserProcess.java:173-174 | a copy past the end of the page continues into the next physical frame, without consulting the page table |
| UserProg.UserProcess.ReadVirtualMemory | userprog/UserProcess.java:138-177 | returns the amount moved; `data` gets those physical bytes at `offset` and is otherwise unchanged |
| UserProg.UserProcess.WriteVirtualMemory | userprog/UserProcess.java:205-235 | returns the amount moved; memory gets those bytes of `data` at the translated address and is otherwise unchanged; a result of 0 leaves memory as it was |
| UserProg.UserProcess.WriteVirtualMemoryAll | userprog/UserProcess.java:187-189 | the whole-array form moves the same bytes as the general one |
| UserProg.UserProcess.ReadVirtualMemoryString | userprog/UserProcess.java:97-110 | the result is the C string among the bytes actually read, or None when they hold no NUL; it has at most maxLength bytes and no NUL |
| UserProg.StringBeforeNul | userprog/UserProcess.java:104-109 | the search loop returns the bytes before the first NUL among those read, or None |
| UserProg.ArrayCopy | userprog/UserProcess.java:174 | `System.arraycopy` puts the source block at the destination and leaves the rest of the destination alone |
| UserProg.CheckContiguous | userprog/UserProcess.java:267-278 | the check passes exactly when every section starts where the earlier ones end, from page 0, and then the page count is the sum of the section lengths |
| UserProg.ArgumentsSize | userprog/UserProcess.java:280-287 | the loop's total is the size of the argument area |
| UserProg.UserProcess.Load | userprog/UserProcess.java:247-328 | load succeeds exactly when the executable was parsed, its sections are contiguous, the arguments fit in a page, and there are enough physical and free pages; on failure no page is taken, and memory, argc and argv are unchanged; on success numPages = sections + 8 + 1, initialSP is the top of the stack, the page table is the loaded table, the section pages' frames leave the free list, argc and argv are set, and the argument page holds the argument area |
| UserProg.UserProcess.LoadChecked | userprog/UserProcess.java:295-328 | the same, once the section and argument checks have passed: it fails exactly when loadSections finds too few physical or free pages, and then the page table, the free list, memory, argc and argv are unchanged |
| UserProg.UserProcess.StoreArguments | userprog/UserProcess.java:311-325 | the argument loop writes exactly the argument area at the page start, and every write moves all of its bytes, so load's assertions hold |
| UserProg.UserProcess.StoreArgument | userprog/UserProcess.java:318-324 | one turn: pointer, string and NUL written in place, in that order |
| UserProg.UserProcess.WriteSeq | userprog/UserProcess.java:319-323 | a write inside the argument page moves all of its bytes to the same physical address |
| UserProg.UserProcess.ArgPageMapsToItself | userprog/UserProcess.java:311-325 | addresses in the argument page translate to themselves, because that entry is still a placeholder |
| UserProg.UserProcess.LoadSections | userprog/UserProcess.java:337-389 | fails, with no page taken, exactly when numPages exceeds the physical pages or the free list; otherwise the table is numPages placeholders whose first slots took the section pages in order, each with the next frame from the end of the free list |
| UserProg.UserProcess.LoadSection | userprog/UserProcess.java:362-386 | the pages of one section each take the next unused entry and free frame |
| UserProg.UserProcess.AllocatePage | userprog/UserProcess.java:368-384 | the first unused entry gets the page's vpn, read-only flag, the used bit and the last free frame, which leaves the free list; with no unused entry nothing changes |
| UserProg.UserProcess.UnloadSections | userprog/UserProcess.java:394-403 | every entry's frame, in slot order, is appended to the free list, and each entry becomes its placeholder |
| UserProg.UserProcess.HandleOpen | userprog/UserProcess.java:760-771 | the name is the C string read from user memory; -1 when open found nothing; otherwise the old openCount, with the file stored there only when openCount is below 16 |
| UserProg.UserProcess.Install | userprog/UserProcess.java:766-770 | the file goes into slot openCount and openCount advances, unless all 16 slots are handed out; the old openCount is returned either way |
| UserProg.UserProcess.HandleCreate | userprog/UserProcess.java:778-790 | the existing file, else the created one, is stored as handleOpen stores it; the result is the old openCount, never -1 |
| UserProg.UserProcess.HandleClose | userprog/UserProcess.java:685-695 | -1 for a negative fd, an fd above 16 or an empty slot; fd 16 indexes past the table; otherwise the slot is emptied, openCount drops by one and the result is 0 |
| UserProg.UserProcess.Usable | userprog/UserProcess.java:699-707 | the descriptor test handleRead and handleWrite share: fd in 0..15, count not negative, and the slot holds a file |
| UserProg.UserProcess.HandleRead | userprog/UserProcess.java:698-720 | -1 with memory unchanged for a bad fd, a negative count, an empty slot or a failed read; otherwise the count-byte buffer, the bytes read followed by zeros, is written at bva, and the result is -1 when that write moved nothing, else the number of bytes read |
| UserProg.UserProcess.CopyOut | userprog/UserProcess.java:710-715 | the zero-padded buffer is written to user memory as writeVirtualMemory writes it |
| UserProg.ReadBuffer | userprog/UserProcess.java:710-711 | the buffer holds the bytes read followed by zeros, count bytes in all |
| UserProg.UserProcess.HandleWrite | userprog/UserProcess.java:722-752 | -1 for a bad fd, a negative count or an empty slot, or when fewer than count bytes can be read from bva; otherwise exactly those count bytes go to the file, and the result is count, or -1 when the file's write failed |
| UserProg.ReopenAfterClose | userprog/UserProcess.java:760-771 | opening at openCount rather than at a free slot: after opening two files and closing the first, the next open overwrites the second, still-open slot |

## Left out

- Locking: `UserKernel.lock` and the `Alarm` lock are synchronization. This includes writeVirtualMemory's early returns that keep the lock held.
- Blocking and scheduling: `P()`, `V()` as a thread wakeup, and `KThread.yield()`. `V()` is the id appearing in `fired`.
- Thread and process lifecycle: execute, exec, join, exit, halt. Also `handleSyscall`/`handleException` dispatch, register setup, debug printing and self tests.
- `Condition2`, `Communicator` and the user-level test programs: they are about thread interleavings or are user code.
- External code: COFF parsing, the file system, `OpenFile` and the console. Their results are parameters. Closing files (`coff.close()`, `closedFile.close()`) is not modelled.
- Argument strings: `String.getBytes()` is not modelled. Arguments are given as bytes.
- `readVirtualMemoryString` returns the bytes of the string; the `String` decoding is not modelled.
- UserProg.UserProcess.Load: the `int` sums of section lengths and argument sizes are unbounded here. Java would overflow them only with more than 2^31 pages or bytes.
- UserProg.UserProcess.Load: `section.loadPage` writes the section's contents into each frame just taken; that write is not modelled, so on success the memory postcondition covers only the argument page, and the section frames are shown unchanged where Java fills them.
- UserProg.UserProcess.Load: on failure the contract does not state the values of numPages, initialPC and initialSP, which load leaves partly updated.
- UserProg.UserProcess.UnloadSections: table entries are never null here, so the null check is not modelled.
- UserProg.UserProcess.HandleRead: the file's read may return any count in Java. The model takes the bytes read, at most count of them.
- UserKernel, Processor and Lib are not part of this model. `Kernel` stands in for the shared state the code uses. Its constructor's free list of every frame 0..numPhysPages-1, in order, is an assumption about how UserKernel initialises it. The page size 0x400 and the little-endian `bytesFromInt` follow Nachos's machine package.
- Alarm.Alarm.TimerInterrupt: the clock reading is a parameter.
- Alarm.Alarm.constructor: `Machine.timer().setInterruptHandler` is not modelled; callers tick an alarm explicitly, and CrossInstanceWakeup ticks the one built last, as the handler would.
- Alarm.Alarm.TimerInterrupt: waitUntil's comment promises a wakeup once the time is at least the deadline, but the code compares strictly; the model follows the code (DeadlineEqualToNowSurvives).
