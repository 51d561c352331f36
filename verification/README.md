# A verified model of the QuickJS portability layer's core

The QuickJS portability layer ("PAL") adapts the interpreter and its debugger
to POSIX and Windows hosts. This project models two parts of it in Dafny and
proves what their code promises.

- **The readiness-multiplexer backends** of the event engine:
  - kqueue, with its pending-change list threaded through the backend word of each descriptor;
  - epoll, with its deferred-delete and immediate-delete policies;
  - the `select` fallback.

  Each backend is a pure transition over the descriptor table, a `seq<FdEntry>`.
  Its side effects come back as a trace of kernel calls and callback invocations.
  What the kernel reports is an input to the model.
  A callback's effect on the table is a `Handler` input, so a callback that releases a descriptor later in the same pass is covered.
  One generic pass, `EvDispatch.Dispatch`, serves all three backends.
- **The sequential helpers of the portability layer**, all integer and string logic:
  - from the Windows `dirent` shim: `strverscmp`, the search pattern, the name copy, the entry fallback and the conversion buffer contract;
  - the fopen mode parser and the "."/".." filter;
  - process-information setup and the argv/envp packing of `pal_process_info_create_wchar`;
  - FILETIME and timespec arithmetic;
  - the S_IFMT / d_type maps, the create mode and the `fstat` fields;
  - the TZ string;
  - the `execvp` replacement's PATH search;
  - the debugger transport's "host:port" parser.

C strings are `seq<char>` without the terminator. `CString.Valid` means no NUL, with every character below 256.
C's truncating `/` and `%` are `CArith.CDiv` and `CArith.CRem`.
32- and 64-bit conversions are written out in `CArith`.
Kernel, libc and Win32 calls are oracle inputs: `kevent`, `epoll_ctl`, `epoll_wait`, `select`, `execve`, `gethostbyname`, `inet_pton`, `malloc`, the UTF-8 converters, `GetFileInformationByHandle` and `FindFirstFileExW`.

The event-mask constants (`PAL_EV_READ` = 1, `PAL_EV_WRITE` = 2, `PAL_EV_ADD`, `PAL_EV_DEL`) come from a header that is not part of this model. They follow the picoev convention the layer is built on.
The kqueue filter numbers are the BSD ones, with `EVFILT_READ` = -1 and `EVFILT_WRITE` = -2.
The Windows file-type and open-flag constants are the Microsoft CRT's.

## Model

| member | source | states |
|---|---|---|
| EvCore.RW | pal-port-ev-win-inc.c:34 | `events & PAL_EV_READWRITE` keeps exactly the read and write bits of the request |
| EvDispatch.Dispatch | pal-port-ev-win-inc.c:73-81 | a dispatch pass over the reported items never changes the table's size and emits at most one action per item |
| EvDispatch.DispatchUnfold | pal-port-ev-epoll-inc.c:119-134 | a pass is the first item's actions, then the pass over the rest, started from the table the first callback left |
| EvDispatch.DispatchCallsSatisfy | pal-port-ev-epoll-inc.c:122-127 | every callback in a pass comes from an item the backend decided to invoke, so any property of those decisions holds for every invocation |
| EvDispatch.DispatchNativesSatisfy | pal-port-ev-epoll-inc.c:128-133 | every kernel call in a pass comes from an item the backend decided to hand to the kernel |
| EvDispatch.DispatchSkipsUnowned | pal-port-ev-kqueue-inc.c:159-175 | a descriptor the loop does not own when the pass starts is never called back, provided no callback hands a descriptor to the loop |
| EvDispatch.DispatchAscending | pal-port-ev-win-inc.c:73-81 | when the items' descriptors increase, the invoked descriptors strictly increase |
| EvDispatch.DispatchSplit | pal-port-ev-win-inc.c:73-81 | a pass over `a + b` is the pass over `a`, then the pass over `b` from the table `a`'s callbacks left |
| EvDispatch.DispatchSkipsReleased | pal-port-ev-win-inc.c:73-81 | a descriptor that callbacks earlier in the pass released from the loop is not called back later in it |
| EvDispatch.DispatchInert | pal-port-ev-win-inc.c:73-81 | with callbacks that leave the table alone, the pass equals a pass over the table as it was at setup |
| EvDispatch.StaticPassCallsEvery | pal-port-ev-win-inc.c:73-81 | every item the backend decides to invoke has its callback in the pass, with the decided revents and the entry's callback and argument |
| KqueueBackend.PackRoundTrip | pal-port-ev-kqueue-inc.c:11-14 | with the backend word wide enough for every descriptor, the packed word gives back both the next descriptor (arithmetic shift) and the old events, for every next >= -1 and events < 256 |
| KqueueBackend.PackRoundTripAsWritten | pal-port-ev-kqueue-inc.c:11-14 | as written, with `next_fd << 8` stored in a 32-bit int, the next descriptor reads back exactly when it is below 2^23, and then the word equals the wide one; the old events always read back |
| KqueueBackend.LargeHeadCorruptsList | pal-port-ev-kqueue-inc.c:11-13 | as written, a list head of 2^23 reads back as -2^23 and a head of 2^24 - 1 reads back as -1, ending the pending list early; the wide word gives both back |
| KqueueBackend.BuildIsNotNil | pal-port-ev-kqueue-inc.c:11-12 | a linked word is never the -1 "not linked" marker, so "already linked" is decidable from the word |
| KqueueBackend.ReadWriteFilterCollapses | pal-port-ev-kqueue-inc.c:28-32 | as written, a READWRITE change names `EVFILT_READ` only, because OR-ing the two negative filter numbers gives -1 |
| KqueueBackend.FiltersCorrected | pal-port-ev-kqueue-inc.c:28-32 | the corrected encoding names `EVFILT_READ` exactly when READ is set and `EVFILT_WRITE` exactly when WRITE is set |
| KqueueBackend.FilterTestAcceptsNonZero | pal-port-ev-kqueue-inc.c:159-160 | the test `filter & (EVFILT_READ \| EVFILT_WRITE)` masks with all ones, so it accepts every non-zero filter |
| KqueueBackend.UnlinkSpec | pal-port-ev-kqueue-inc.c:53-54 | after unlinking, exactly the listed descriptors have backend word -1 and every other entry is unchanged |
| KqueueBackend.Stage | pal-port-ev-kqueue-inc.c:41-51 | staging keeps flushed batches plus the buffer equal to everything staged, each batch within 256 records, and the offset below 255, so no write goes past the changelist |
| KqueueBackend.ApplyPendingChanges | pal-port-ev-kqueue-inc.c:26-66 | on return the list is empty and every visited descriptor has backend -1 while all others are unchanged; the submitted records, in list order, are the pending changes; batches hold at most 256 records; the leftover is under 255 and empty with apply_all |
| KqueueBackend.EntryChangesSync | pal-port-ev-kqueue-inc.c:37-45 | under the corrected one-record-per-filter encoding, one descriptor's DISABLE(old) and ADD\|ENABLE(new) records take the kernel's enabled filters from the saved events to the recorded events and touch no other descriptor |
| KqueueBackend.FlushSynchronisesKernel | pal-port-ev-kqueue-inc.c:36-55 | under the corrected encoding, submitting a pending list leaves the kernel with each listed descriptor's recorded events and every other descriptor as it was |
| KqueueBackend.NamedAsWrittenValues | pal-port-ev-kqueue-inc.c:28-32 | as written, a READ record reaches the read filter, a WRITE record the write filter, and a READWRITE record only the read filter |
| KqueueBackend.FlushSynchronisesKernelAsWritten | pal-port-ev-kqueue-inc.c:28-55 | with the filter encoding as written, the flush still synchronises the kernel as long as no listed descriptor had or now records both READ and WRITE |
| KqueueBackend.ReadWriteAddLeavesWriteOff | pal-port-ev-kqueue-inc.c:28-45 | as written, enabling a descriptor for READWRITE from nothing leaves only its read filter on, where the corrected encoding enables both |
| KqueueBackend.ReadWriteDisableLeavesWriteOn | pal-port-ev-kqueue-inc.c:28-45 | as written, disabling a descriptor that had READWRITE leaves its write filter on, where the corrected encoding turns both off |
| KqueueBackend.LinkSpec | pal-port-ev-kqueue-inc.c:112-128 | ADD resets the word; a changing update links an unlinked descriptor at the head, saving the events it had, keeps the word of a linked one, and records `events & READWRITE` |
| KqueueBackend.LinkChangesExactly | pal-port-ev-kqueue-inc.c:116-121 | the update returns early with nothing changed exactly when it is a bare DEL of an unlinked descriptor, or its read/write mask equals the recorded events |
| KqueueBackend.LinkPreservesChain | pal-port-ev-kqueue-inc.c:122-126 | linking keeps the pending list well formed and puts a descriptor on it only when it is absent, so each descriptor appears at most once |
| KqueueBackend.Update | pal-port-ev-kqueue-inc.c:105-135 | for a table of any size, without a DEL the update only links and records; a changing DEL update flushes the whole list, including this descriptor, so the list ends empty and every listed word is -1 |
| KqueueBackend.DecideInvokesReadOrWrite | pal-port-ev-kqueue-inc.c:162-173 | an invoked callback gets exactly one of READ and WRITE |
| KqueueBackend.PollDispatchSkipsUnowned | pal-port-ev-kqueue-inc.c:155-176 | the poll's dispatch never calls back a descriptor the loop does not own |
| KqueueBackend.Poll | pal-port-ev-kqueue-inc.c:137-179 | poll empties the pending list and submits all its records; it returns -1 with no callbacks when `kevent` fails, otherwise 0; after the wait the trace ends with exactly the dispatch pass over the reported events, run on the table with the listed words reset, and the table it leaves is the result; every callback gets exactly READ or WRITE and only descriptors the loop owns |
| KqueueBackend.PollCallsEveryOwned | pal-port-ev-kqueue-inc.c:155-176 | with callbacks that leave the table alone, every reported read or write event of an owned descriptor is called back, with READ for `EVFILT_READ` and WRITE for `EVFILT_WRITE` |
| EpollBackend.NativeMask | pal-port-ev-epoll-inc.c:68 | the native mask has EPOLLIN iff READ is requested, EPOLLOUT iff WRITE is requested, and nothing else |
| EpollBackend.Update | pal-port-ev-epoll-inc.c:54-106 | an unchanged read/write mask makes no call; otherwise the argument is recorded as passed, flags included. Deferred policy: DEL makes no call, an empty mask one checked DEL, any other mask MOD then ADD only if MOD failed. Immediate policy: DEL for an empty mask, ADD from idle, else MOD. No other descriptor changes |
| EpollBackend.CtlApply | pal-port-ev-epoll-inc.c:71-75 | the kernel's interest list: ADD succeeds only for an unregistered descriptor, MOD and DEL only for a registered one |
| EpollBackend.ImmediateUpdateKeepsSync | pal-port-ev-epoll-inc.c:91-97 | under the immediate policy every checked `epoll_ctl` succeeds, and the kernel keeps registering exactly the watched descriptors with their masks |
| EpollBackend.DeferredUpdateCoversWatched | pal-port-ev-epoll-inc.c:77-89 | under the deferred policy every checked `epoll_ctl` succeeds (ENOENT is MOD's only failure), and every watched descriptor stays registered with its mask |
| EpollBackend.Revents | pal-port-ev-epoll-inc.c:123 | the callback mask has READ iff EPOLLIN was reported and WRITE iff EPOLLOUT was |
| EpollBackend.Poll | pal-port-ev-epoll-inc.c:108-118 | poll first waits for up to 1024 events with `max_wait * 1000` ms; on failure it returns -1 with nothing else done |
| EpollBackend.PollTraceFacts | pal-port-ev-epoll-inc.c:116-134 | callbacks get a non-zero subset of READ\|WRITE; the only other calls are unchecked DELs under the deferred policy; foreign descriptors are never called back |
| EpollBackend.PollHandlesOneEvent | pal-port-ev-epoll-inc.c:119-134 | one event for a foreign or unwatched descriptor gives one unchecked DEL (deferred) or nothing (immediate); for an owned, watched one it gives the callback with the reported readiness, or nothing if that is empty |
| SelectBackend.Update | pal-port-ev-win-inc.c:32-36 | update stores `events & READWRITE` in that descriptor's entry only, changes no other field and returns 0 |
| SelectBackend.UpdateThenWatch | pal-port-ev-win-inc.c:32-64 | after an update, the next poll's read set gains or loses exactly that descriptor by its READ bit; likewise the write set by its WRITE bit |
| SelectBackend.BuildSets | pal-port-ev-win-inc.c:42-64 | the read set is exactly the loop's descriptors watching READ, the write set those watching WRITE, and `maxfd` the largest index in either, or 0 |
| SelectBackend.PassRevents | pal-port-ev-win-inc.c:73-80 | every callback gets a non-zero mask: READ iff the descriptor stayed in the read set, WRITE iff it stayed in the write set |
| SelectBackend.PassAscending | pal-port-ev-win-inc.c:73-81 | the pass calls back in strictly ascending descriptor order and makes no kernel call |
| SelectBackend.PassSkipsReleased | pal-port-ev-win-inc.c:73-80 | a descriptor released by the callbacks for lower descriptors is not called back later in the pass |
| SelectBackend.Poll | pal-port-ev-win-inc.c:38-85 | `select` gets the built sets with nfds = maxfd + 1; failure returns -1 and zero returns 0, both with no callbacks; otherwise the rest of the trace is exactly the dispatch pass over all descriptors in ascending order and the table it leaves is the result; callbacks run in ascending order, on owned descriptors, each with a non-zero mask that is a subset of what was watched |
| SelectBackend.PassCallsEveryReady | pal-port-ev-win-inc.c:73-81 | with callbacks that leave the table alone, every owned descriptor `select` left in the read or write set is called back with exactly the readiness it reported |
| Dirent.StrVersCmp | win/dirent.h:693-705 | the comparison is 0 exactly for identical strings |
| Dirent.StrVersCmpAntisymmetric | win/dirent.h:686-750 | swapping the arguments negates the result exactly, as a `qsort` comparator requires |
| Dirent.MoreDigitsIsGreater | win/dirent.h:728-745 | between digit runs without leading zeros at the first difference, the run with more digits is greater ("999" < "1000") |
| Dirent.LeadingZerosThenDigitIsSmaller | win/dirent.h:713-727 | after common leading zeros, the side that continues with a digit where the other does not compares smaller ("01" < "0a", "001" < "00") |
| Dirent.NonDigitMismatchIsByteOrder | win/dirent.h:713-749 | when neither side has a digit at the first difference, the result is the unsigned byte difference there, whatever precedes it, including right after a shared digit run ("file1a" < "file1b"), where the zero scan and the digit counts come out even |
| Dirent.SearchPattern | win/dirent.h:218-233 | the pattern is the directory plus "*" if it ends in '\\', '/' or ':', and plus "\\*" otherwise; the pattern minus its '*' is the directory, or the directory plus '\\' |
| Dirent.OpenDir | pal-port-win.c:585-644 | `pal_opendir` fails with ENOENT on an empty path; it opens exactly when path resolution and the first find succeed, with the search pattern of the absolute path |
| Dirent.CopyNameAsWritten | win/dirent.h:289-294 | as written (d_name declared at win/dirent.h line 82), the copy stops at the NUL or after PAL_PATH_MAX characters; the terminator store falls outside `d_name` exactly when the name has at least PAL_PATH_MAX characters, and otherwise `d_name` reads back as the whole name, in particular for every name shorter than MAX_PATH |
| Dirent.CopiesAgree | win/dirent.h:289-297 | the as-written and the corrected copy leave the same `d_name` exactly when the name is shorter than PAL_PATH_MAX, so for every name FindNextFileW can report (fewer than MAX_PATH characters) they agree and read back as the whole name |
| Dirent.CopyName | win/dirent.h:289-297 | the corrected copy keeps at most PAL_PATH_MAX - 1 characters, terminates inside the buffer, and reads back as the name's prefix, the whole name when it fits |
| Dirent.Convert | win/dirent.h:753-821 | count or size above INT_MAX gives -1/ERANGE; otherwise the reported length is n + 1; with a buffer the output ends at n with 0, or at size - 1 with -1/ERANGE when n >= size |
| Dirent.EntryType | win/dirent.h:520-525 | d_type is CHR for a device, else DIR for a directory, else REG |
| Dirent.ReadEntry | win/dirent.h:482-550 | the long name is used if it converts, else the 8.3 name; if neither does, the entry is "?" with length 1, DT_UNKNOWN, offset -1 and record length 0 |
| Dirent.ReadEntryFallbackIffUnknown | win/dirent.h:508-545 | an entry has DT_UNKNOWN exactly when it is the "?" fallback, and only the fallback has offset -1 |
| CString.StrcmpZeroIffEqual | pal-port-shared.c:222 | `strcmp` gives 0 exactly on equal strings |
| PortShared.FlagsFor | pal-port-shared.c:322-342 | without a letter the result is -1; '+' selects O_RDWR, else 'a' or 'w' select O_WRONLY, else O_RDONLY; O_CREAT iff 'a' or 'w'; O_APPEND iff 'a'; O_TRUNC iff 'w' without 'a' |
| PortShared.OpenFlags | pal-port-shared.c:301-344 | any character outside "rwa+b" gives -1; otherwise the result depends only on which of r, w, a and + occur |
| PortShared.OpenFlagsTable | pal-port-shared.c:322-342 | the six fopen modes of section 7.21.5.3 of ISO C11 map to their open(2) flags |
| PortShared.ScandirFilter | pal-port-shared.c:219-223 | the listing keeps every name except "." and ".." |
| PortShared.CountEntries | pal-port-shared.c:38-41 | the count is the index of the first NULL entry |
| PortShared.InitializeProcessInfo | pal-port-shared.c:33-45 | argc, argv and envp are stored unchanged; envc too, unless it is (uint32_t)-1, when it becomes the number of envp entries before the first NULL |
| PortShared.Mallocz | pal-port-shared.c:7-14 | a non-NULL block has the requested size and is all zeros; NULL stays NULL |
| PortShared.Strdup | pal-port-shared.c:16-24 | a non-NULL copy has strlen + 1 characters, ends in NUL and reads back as the source |
| PortWin.SetenvRoundTrip | pal-port-win.c:232-245 | the built string is name, '=', value and a terminator, and splitting it at its first '=' gives back name and value |
| PortWin.Setenv | pal-port-win.c:232-245 | `pal_setenv` returns 0 and hands `_putenv` the assignment of value to name |
| PortWin.Unsetenv | pal-port-win.c:248-251 | `pal_unsetenv` hands over the assignment of the empty value |
| PortWin.FileTimeToTimespec | pal-port-win.c:253-262 | nanoseconds are a multiple of 100 in [0, 999999900]; from 1970 on, seconds·10^7 + nanoseconds/100 + EPOCH gives back the tick count; before 1970 the seconds come from the unsigned wrapped difference |
| PortWin.EpochWholeSeconds | pal-port-win.c:255-261 | the epoch is whole seconds, so the sub-second ticks survive the subtraction |
| PortWin.TimedWaitMs | pal-port-win.c:485-488 | for a non-negative nanosecond field the wait is the ceiling of the timeout in milliseconds |
| PortWin.IfToDt | pal-port-win.c:752-767 | d_type depends only on `ft & S_IFMT`: REG, DIR, CHR and FIFO map to their PAL_DT_*, everything else to UNKNOWN |
| PortWin.DtToIf | pal-port-win.c:769-782 | the four mapped d_types give their S_IF* value, every other d_type 0 |
| PortWin.IfToDtRoundTrip | pal-port-win.c:752-782 | mode to d_type and back gives `m & S_IFMT` for the four mapped types, and 0 otherwise |
| PortWin.DtToIfRoundTrip | pal-port-win.c:752-782 | d_type to mode and back is the identity on the four mapped types |
| PortWin.CreatePmode | pal-port-win.c:931-942 | without O_CREAT the result is -1; otherwise readable unless write-only, writable if O_RDWR or O_WRONLY |
| PortWin.FstatWin32 | pal-port-win.c:806-840 | an invalid handle or failed query gives EIO; S_IFLNK only for a reparse point under lstat, else CHR for a device, DIR for a directory, REG otherwise; inode and size are high·2^32 + low; ctim, mtim and atim are the converted creation, last-write and last-access times |
| PortUnix.SetTimezoneOffsetAsWritten | pal-port-unix.c:121-142 | truncated minutes at or beyond +15 h or -13 h give -1 without TZ; otherwise TZ is set and the function falls off its end with no return value |
| PortUnix.NegativeHalfHourOffsetMisformatted | pal-port-unix.c:138-139 | UTC-03:30 as written yields "UTC+03:-30", which ParseTz, the model's reader of POSIX TZ offsets, rejects |
| PortUnix.TzString | pal-port-unix.c:132-140 | the corrected string is "GTM" for zero, and otherwise reads back under POSIX.1-2017 section 8.3 as exactly the offset |
| PortUnix.TzStringRoundTrip | pal-port-unix.c:134-140 | hours and the magnitude of the minutes, printed as "%02d", parse back to the offset |
| PortUnix.SetTimezoneOffset | pal-port-unix.c:121-142 | the corrected function rejects the same range with -1, returns what setting TZ returned, and sets a TZ that reads back as the offset |
| PortUnix.SetTimezoneOffsetAgreesOnWholeHoursAndEast | pal-port-unix.c:132-140 | both versions set the same TZ for every offset that is east of UTC or a whole number of hours |
| PortUnix.AddTimeout | pal-port-unix.c:274-279 | the carry loop keeps seconds·10^9 + nanoseconds and ends with nanoseconds below 10^9, in [0, 10^9) for non-negative input |
| PortUnix.MsToTimeval | pal-port-unix.c:529-533 | microseconds are a multiple of 1000 below 10^6, and seconds·1000 + microseconds/1000 gives back the milliseconds |
| PortUnix.UtimesTimesAsWritten | pal-port-unix.c:535-540 | as written, the signed times go through `uint64_t`: non-negative access and modification times survive, and a negative time t arrives as t + 2^64 milliseconds |
| PortUnix.UtimesNegativeTimeWraps | pal-port-unix.c:529-539 | a time of -1 ms becomes 18446744073709551 s plus 615000 µs |
| PortUnix.UtimesTimes | pal-port-unix.c:535-540 | the corrected split gives back every signed time, including those before 1970 |
| PortUnix.Execvpe | pal-port-unix.c:621-674 | `my_execvpe` follows the policy: an empty name fails with ENOENT before any exec; a name with '/' is tried once as given; others go through PATH (default "/bin:/usr/bin") |
| PortUnix.SearchPath | pal-port-unix.c:636-673 | the cursor-and-`strchr` loop computes the same result as the search over the ':'-separated PATH entries |
| PortUnix.TryEntry | pal-port-unix.c:642-669 | one iteration either ends the search with its result, or leaves state from which the rest gives the same result |
| PortUnix.SearchTriesCandidatePrefix | pal-port-unix.c:641-657 | the paths handed to `execve` are a prefix of dir + "/" + name over the entries, in PATH order, skipping those longer than PAL_PATH_MAX |
| PortUnix.SearchExhausted | pal-port-unix.c:658-673 | when every candidate fails with EACCES, ENOENT or ENOTDIR, all are tried and -1 is returned, with errno EACCES if any gave EACCES |
| PortUnix.SearchStopsAt | pal-port-unix.c:658-669 | the first candidate that succeeds or fails with another errno ends the search there, with that outcome |
| PortHosted.RoundUp | pal-port-hosted.c:59 | the total is rounded up to a multiple of the pointer size, never below the raw sum and less than one pointer above it |
| PortHosted.PackStrings | pal-port-hosted.c:67-84 | each string goes in after the previous one with its terminator; the table points at each and ends in NULL |
| PortHosted.CreateWide | pal-port-hosted.c:34-87 | envc counts envp before its first NULL; argc + 1 + envc + 1 pointer slots follow the header; argv's strings then envp's are packed after the tables; the block is the rounded string length past them; both tables end in NULL |
| PortHosted.CreateWideReadsBack | pal-port-hosted.c:63-84 | every `argv_narrow[i]` and `envp_narrow[i]` points inside the block at a C string that reads back as the original argument |
| PortHosted.Close | pal-port-hosted.c:261-269 | a negative descriptor gives -1 with EINVAL and no `close`; otherwise `close`'s result |
| PortHosted.Free | pal-port-hosted.c:200-205 | NULL is ignored; any other pointer is freed once |
| PortHosted.FileGetStandardDescriptors | pal-port-hosted.c:227-230 | the stream enum maps to descriptors 0, 1 and 2, one-to-one |
| DebuggerTransport.SockaddrLength | quickjs-debugger-transport.c:14-23 | the length is 16 for AF_INET, 28 for AF_INET6, and -1 for any other family |
| DebuggerTransport.AtoiDecimal | quickjs-debugger-transport.c:32 | `atoi` reads back a decimal number followed by non-digits |
| DebuggerTransport.AtoiWithoutDigits | quickjs-debugger-transport.c:32-35 | text without digits gives port 0, so it is rejected |
| DebuggerTransport.Resolve | quickjs-debugger-transport.c:47-70 | the host is tried as a name, then an IPv4 literal, then an IPv6 literal; any result carries the port and a family with a sockaddr length |
| DebuggerTransport.ParseSockaddrAsWritten | quickjs-debugger-transport.c:25-71 | as written: no ':' or port 0 gives -1; otherwise the host is the text before the first ':' and the port is `atoi` of the rest, truncated to 16 bits |
| DebuggerTransport.LongAddressOverrunsHostBuffer | quickjs-debugger-transport.c:38-39 | a 302-character address passes the checks and `strcpy` writes 303 bytes into the 256-byte host buffer |
| DebuggerTransport.PortAbove65535Wraps | quickjs-debugger-transport.c:32-36 | "h:65536" is accepted with port 0 |
| DebuggerTransport.NegativePortWraps | quickjs-debugger-transport.c:32-36 | "h:-1" is accepted with port 65535 |
| DebuggerTransport.ParseSockaddr | quickjs-debugger-transport.c:25-71 | the corrected parser accepts a host only if it and its terminator fit 256 bytes and the port is in 1..65535; the host is the text before the first ':' |
| DebuggerTransport.ParseSockaddrAgreesInRange | quickjs-debugger-transport.c:25-71 | for a host shorter than 256 bytes and a port in 1..65535, the corrected parser returns the same outcome as the code as written; the code's `strcpy` of the whole address stays inside the 256-byte buffer only when the whole address is shorter than 256, so on longer addresses the outcomes agree while the copy overruns |

## Left out

- Threads, mutexes and condition variables: concurrency wrappers. Only the integer time arithmetic inside the timed waits is modelled.
- Loop creation and destruction (`kqueue()`, `epoll_create`, `malloc`, `close`): plumbing with no logic of its own.
- The generic registry, timeout wheel and loop driver, and `PAL_EV_FD_BELONGS_TO_LOOP`: not part of this model. The backends' ownership asserts are preconditions.
- Real kernel behaviour of `kevent`, `epoll_wait` and `select`: oracle inputs. The epoll interest list has a small model (`EpollBackend.CtlApply`) so the `epoll_ctl` sequences can be checked.
- The kqueue changelist records are abstract (descriptor, operation, mask). The filter encoding is modelled apart, in `KqueueBackend.FilterAsWritten` and `KqueueBackend.FiltersCorrected`.
- KqueueBackend.Update: links with the wide backend word, so it holds for a table of any size. With the 32-bit word as written, linking is faithful only below 2^23 descriptors; `KqueueBackend.PackRoundTripAsWritten` and `KqueueBackend.LargeHeadCorruptsList` state what happens above.
- KqueueBackend.EntryChangesSync and KqueueBackend.FlushSynchronisesKernel: stated for the corrected one-record-per-filter encoding. As written, a READWRITE record reaches only the read filter, so the kernel is not kept in sync for such masks (`KqueueBackend.ReadWriteAddLeavesWriteOff`, `KqueueBackend.ReadWriteDisableLeavesWriteOn`); `KqueueBackend.FlushSynchronisesKernelAsWritten` states what survives.
- FD_SETSIZE: the `select` sets are unbounded `set<nat>`.
- `max_wait * 1000` in the epoll wait and `tv_sec * 1000` in the Windows timed wait: computed without 32- or 64-bit overflow.
- PortWin.TimedWaitMs: states the ceiling only for a non-negative nanosecond field; the truncation to DWORD for Sleep is not modelled.
- Process creation (fork, dup2, waitpid), `pal_popen`, `pal_read`/`pal_write`, `pal_dup` and the ENOTSUP stubs: OS calls with no logic to verify. Of this area only `my_execvpe`'s search policy is kept, with `execve` as an oracle.
- PortUnix.Execvpe: the empty PATH entry is modelled as the empty directory, giving "/" + name, as the code builds it. `argv` and `envp` are passed through to `execve` and are not modelled.
- File-system and OS wrappers (open, stat, readlink, symlink, rename, mkdir, utime, dlopen), reparse-point parsing, clock ids and tty handling: thin wrappers over OS calls.
- The path code built on cwalk (`pal_joinpath`, `pal_realpath`, `pal_dirname`, `pal_mkdir_recursive`, `pal_listdir`, the session functions): cwalk is not part of this model. `Dirent.OpenDir` takes the resolved absolute path as an input.
- UTF-8 / UTF-16 conversion itself: only its returned length and the buffer contract around it are modelled. `PortHosted.CreateWide` takes the converted narrow strings as input.
- PortWin.Setenv: the `pal_malloc` result is not checked in the source, so a failed allocation is passed to `memcpy`; the model assumes the allocation succeeds.
- PortHosted.CreateWide: the `pal_mallocz` result is not checked in the source, and `size_t` overflow of the total is not modelled; the layout is stated for a successful allocation.
- Time-zone lookup and `UnixTimeMsToFileTime`: OS time-zone data and floating point.
- The socket transports and the real `gethostbyname` / `inet_pton`: network I/O; the resolvers are oracle functions.
- DebuggerTransport.Atoi: overflow of `atoi` on more than INT_MAX is undefined in C and is not modelled. `htons` byte order is not modelled: ports are host-order numbers truncated to 16 bits.
- Directory handle management (FindFirstFileExW, FindNextFileW, rewinddir, closedir) and `qsort` itself: OS handles and a library sort.
- `pal_pclose` is `pal_close` and is not modelled separately. `pal_file_get` is the identity on the enum of pal-port.h:308-313.

## Findings

| source | as written | input that shows it | evidently intended | confidence | as-written member | corrected member |
|---|---|---|---|---|---|---|
| pal-port-ev-kqueue-inc.c:28-32 | the filter of a change record is the bitwise OR of `EVFILT_READ` (-1) and `EVFILT_WRITE` (-2) | mask READWRITE gives filter -1, so the record registers only the read filter | one record per filter named by the mask | medium, not executed | KqueueBackend.ReadWriteFilterCollapses | KqueueBackend.FiltersCorrected |
| win/dirent.h:289-297 | `_wreaddir_r` copies up to PAL_PATH_MAX characters, then stores the terminator at `d_name[n]` of a PAL_PATH_MAX-element array (declared at line 82) | a source name of 65536 wide characters would give n = 65536, one past the array; the defect is latent, since `cFileName` holds at most MAX_PATH - 1 = 259 characters and such a name cannot come from FindNextFileW (`Dirent.CopiesAgree`) | copy at most PAL_PATH_MAX - 1 characters, so the terminator stays inside | low (latent), not executed | Dirent.CopyNameAsWritten | Dirent.CopyName |
| pal-port-ev-kqueue-inc.c:11-13 | BACKEND_BUILD shifts the `int` next descriptor left by 8 into a 32-bit word, and BACKEND_GET_NEXT_FD shifts it back arithmetically | a descriptor linked behind list head 16777215 (2^24 - 1) stores next -1, so the walk stops there and the changes of that head are never submitted; head 8388608 (2^23) reads back as -8388608 | a word that holds every descriptor of the table | low (needs a descriptor table above 2^23 entries), not executed | KqueueBackend.LargeHeadCorruptsList | KqueueBackend.PackRoundTrip |
| pal-port-unix.c:142 | `pal_settimezoneoffset` has no return statement on its success path | any accepted offset, e.g. 3600 s | return the result of setting TZ | high, not executed | PortUnix.SetTimezoneOffsetAsWritten | PortUnix.SetTimezoneOffset |
| pal-port-unix.c:138-139 | for negative offsets the minutes field is printed as C's `%` of the negative minutes | -12600 s (UTC-03:30) gives "UTC+03:-30" | print the magnitude, "UTC+03:30" | high, not executed | PortUnix.NegativeHalfHourOffsetMisformatted | PortUnix.TzString |
| pal-port-unix.c:529-540 | `pal_utimes` passes its signed `int64_t` times to `ms_to_timeval`, which takes `uint64_t` | atime = -1 gives 18446744073709551 s | split the signed value so that times before 1970 are kept | medium, not executed | PortUnix.UtimesNegativeTimeWraps | PortUnix.UtimesTimes |
| quickjs-debugger-transport.c:38-39 | `strcpy` copies the whole address into `char host_string[256]` | "aaa…a:1" with 300 'a' writes 303 bytes | bound the host before copying, and reject one that does not fit | high, not executed | DebuggerTransport.LongAddressOverrunsHostBuffer | DebuggerTransport.ParseSockaddr |
| quickjs-debugger-transport.c:32-36 | only port 0 is rejected; `htons` keeps the low 16 bits of any other value | "h:65536" gives port 0, "h:-1" gives port 65535 | reject ports outside 1..65535 | medium, not executed | DebuggerTransport.PortAbove65535Wraps | DebuggerTransport.ParseSockaddr |
