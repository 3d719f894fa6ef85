# dumpProcess: the driver's process bookkeeping and the client's command loop, in Dafny

dumpProcess is a Windows kernel driver with a console client. The driver
watches process creation and exit. It keeps a directory of live processes
(`ProcessList`) and a list of lifecycle events for the client
(`ProcessQueue`). On a DUMP request it pins the client's buffer with an MDL
(memory descriptor list) and attaches it to the directory record of the
process the buffer names. The client reads commands from the console and
turns `exit` and `dump <pid>` into control requests.

This project models:

- `list_op.dfy` (module `ListOp`): the sentinel-headed circular doubly
  linked list of ListOp.h/ListOp.c, at the level of its Flink and Blink
  pointers. `Represents(l, order)` ties the pointer maps to the sequence of
  record addresses read along Flink. Init, the emptiness test, begin, end,
  next, insert-at-head and RemoveEntryList are each proved to act on that
  sequence as expected. The traversal loop is proved to visit every element
  once, in order.
- `process.dfy` (module `Process`): PROCESS_T records and the Prc*
  operations on lists modelled as `seq<Record>` in Flink order. Allocation
  failure is an input. Releasing an MDL appends its handle to a release log.
- `driver.dfy` (module `Driver`): the driver state (both lists, the release
  log, counters for fresh record addresses and fresh MDL handles) and pure
  transitions for CreateProcessNotifyRoutine, ProcessIoctlDumpRoutine and
  IocDispatchDeviceControl (EXIT, DUMP, default), plus DriverUnload's list
  teardown. Kernel-call outcomes are parameters. The invariant `Inv` says:
  - record addresses are distinct across both lists;
  - event-queue records hold no MDL;
  - every MDL handed out so far is either held by exactly one directory
    record or released exactly once (a multiset equation).
- `driver_runs.dfy` (module `DriverRuns`): whole sequences of lifecycle
  events. The directory tracks the live processes, and the event queue
  delivers newest first.
- `pid_parse.dfy` (module `PidParse`): the driver's `wcstoul(..., 10)` as a
  decimal-prefix parse that saturates at ULONG_MAX, and its round trip
  with the decimal text a user types.
- `client.dfy` (module `Client`): the client's `wcstok_s` tokenizer,
  ParseCmd with its five-argument cap, the ProcessInput loop over a list
  of input lines (including the termination SendDumpToDrv's swprintf_s
  causes on an argument too long for its buffer), and InitComm's
  thread-count bound.
- `common.dfy` (module `Common`): `Option` and two sequence lemmas.

The model follows the code as written:

- The event "queue" is a stack. Records are inserted at the head and
  PrcRemoveHeadProcess also takes the head, so the newest event is
  delivered first.
- A DUMP for a process id that is not in the directory releases its MDL but
  still returns success. The jump to the cleanup label at WdmDriver.c:652
  is commented out.
- The default branch of IocDispatchDeviceControl never writes
  `Irp->IoStatus.Status`. It is modelled as completing with no status
  (`Completed(None, 0)`), while the routine itself returns
  STATUS_INVALID_DEVICE_REQUEST.

## Model

| member | source | states |
|---|---|---|
| ListOp.Init | ListOp.h:17-29 | LopInit's sentinel pointing at itself represents the empty sequence and no other |
| ListOp.IsEmpty | ListOp.h:77-86 | the list is empty exactly when the represented sequence has length 0 |
| ListOp.Begin | ListOp.h:44-53 | LopListBegin yields the first element, or the sentinel on an empty list |
| ListOp.End | ListOp.h:55-64 | LopListEnd yields the last element, or the sentinel on an empty list |
| ListOp.EntryNext | ListOp.h:66-75 | the Flink of position i is position i+1, and the Flink of the last element closes back on the sentinel |
| ListOp.InsertHead | ListOp.c:4-28 | inserting an unlinked entry always succeeds and yields a well-formed ring representing `[addr] + order` |
| ListOp.InsertHeadRepresents | ListOp.c:21-23 | InsertHeadList's four pointer writes turn a ring for `order` into a ring for `[addr] + order` |
| ListOp.RemoveEntry | Process.c:93 | RemoveEntryList of position i yields a ring representing the sequence without position i, and the entry is unlinked |
| ListOp.RemoveEntryRepresents | Process.c:93 | joining the two neighbours of position i leaves a well-formed ring for the rest, in the same order |
| ListOp.Traverse | Process.c:121 | walking Flink from LopListBegin until the sentinel visits exactly the represented sequence, in order, each element once |
| Process.PinnedMembers | Process.h:11 | an MDL handle is pinned by a list exactly when some record of the list holds it |
| Process.Alloc | Process.c:5-28 | PrcAlloc yields NULL exactly on pool failure; otherwise a record at the given address with the given ids and flag and no MDL |
| Process.Free | Process.c:32-50 | PrcFree releases the record's MDL when it has one and releases nothing otherwise |
| Process.InsertProcess | Process.c:54-65 | the record becomes the first element, and the old list follows unchanged |
| Process.InsertProcessLinks | Process.c:54-65 | at pointer level, PrcInsertProcess performs exactly the sequence-level insertion |
| Process.FindProcessId | Process.c:103-136 | None exactly when no record has the id; otherwise the first position from the head whose id matches |
| Process.InsertThenFind | Process.c:121-129 | a lookup finds the most recently inserted record with the id |
| Process.RemoveProcessId | Process.c:69-99 | an absent id leaves the list unchanged and returns NULL; otherwise it unlinks exactly the record FindProcessId finds, keeps the others in order and hands the record to the caller; the parent-id check holds exactly when the ids agree |
| Process.RemoveProcessIdPids | Process.c:69-99 | with unique ids, removal leaves unique ids and exactly the other ids |
| Process.RemoveProcessIdLinks | Process.c:82-93 | at pointer level, RemoveEntryList on the found record performs exactly the sequence-level removal |
| Process.InsertThenRemove | Process.c:69-99 | inserting a record with a new id and removing that id gives back the record and the original list |
| Process.RemoveHead | Process.c:219-243 | PrcRemoveHeadProcess splits a non-empty list into its first record and the rest |
| Process.RemoveHeadAfterInsert | Process.c:235-238 | removing the head returns the record inserted last: the list is a stack |
| Process.FreeList | Process.c:182-215 | PrcFreeList empties the list and releases the MDL of every record, in list order |
| Process.UnlockMdlList | Process.c:247-278 | PrcUnlockMdlList keeps the records, their count, order, addresses and Info, clears every MDL and releases exactly the ones that were held |
| Process.UnlockMdlListIdempotent | Process.c:264-273 | unpinning a second time releases nothing more and changes nothing |
| Driver.InitialInv | WdmDriver.c:100-119 | DriverEntry's zeroed state, with both lists initialised empty and nothing allocated, satisfies the invariant |
| Driver.NoRecordInBothLists | WdmDriver.c:383-402 | under the invariant no record is linked into both the directory and the event queue |
| Driver.ProcessNotify | WdmDriver.c:367-418 | each callback pushes a fresh event record on the queue when allocation succeeds; a create adds a second, distinct record to the directory; an exit removes the record with that id and releases its MDL; an absent id leaves the directory alone |
| Driver.ProcessNotifyPreservesInv | WdmDriver.c:383-411 | the callback keeps the invariant under every allocation outcome |
| Driver.DumpRoutine | WdmDriver.c:560-684 | for each kernel-call outcome: the failures before the lookup release exactly what they acquired and leave the lists alone; a found id gets the fresh MDL; a missing id releases it; the status is success unless ProbeForWrite raises; every path completes the IRP with Information 0 |
| Driver.DumpAsWritten | WdmDriver.c:654-658 | from a state satisfying the invariant, the routine as written keeps it exactly when it does not find a record that already holds an MDL |
| Driver.DumpAsWrittenBreaksInv | WdmDriver.c:656 | for every state satisfying the invariant and every request that finds a record already holding an MDL, the routine as written breaks the invariant |
| Driver.DumpAsWrittenLeaks | WdmDriver.c:656 | two DUMPs of the same process from a clean state lose the first MDL: it is neither held nor released, and neither DriverUnload's PrcFreeList nor the exit of the process releases it, since both free only the second |
| Driver.Dump | WdmDriver.c:560-684 | the corrected routine keeps the invariant on every path and leaves the directory alone whenever the lookup is not reached |
| Driver.DumpPreservesInv | WdmDriver.c:590-658 | the invariant is kept on every path of the routine, except for the overwrite of a held MDL in the as-written variant |
| Driver.Dispatch | WdmDriver.c:296-364 | EXIT unpins every directory MDL, keeps the records and succeeds; DUMP runs ProcessIoctlDumpRoutine (as written with the flag false, corrected with it true); an unknown code changes nothing and returns STATUS_INVALID_DEVICE_REQUEST without writing Status; as written, the invariant is kept except by, and always broken by, a DUMP that finds a record already holding an MDL; corrected, it is always kept |
| Driver.Unload | WdmDriver.c:253-268 | from a state satisfying the invariant, PrcFreeList on both lists leaves every MDL ever handed out released exactly once (the as-written DUMP can leave the invariant, and then a lost MDL stays unreleased) |
| Driver.PinnedBufferReleasedAtUnload | WdmDriver.c:654-658 | a buffer pinned by a DUMP that finds its record, as written or corrected, is held by the directory and released at unload |
| DriverRuns.RunPreservesInv | WdmDriver.c:367-418 | the invariant holds along any sequence of lifecycle events, whatever each PrcAlloc call returns |
| DriverRuns.DirectoryTracksLiveProcesses | WdmDriver.c:383-411 | whatever the allocation outcomes, when every id is created at most once and exits at most once after its create, the directory's ids are exactly those whose create got a directory record minus the exited ones, each once |
| DriverRuns.QueueDeliversNewestFirst | Process.c:235-238 | repeated PrcRemoveHeadProcess on the event queue delivers, in reverse order, the run's events whose queue allocation succeeded |
| DriverRuns.CreateCreateExitScenario | WdmDriver.c:383-411 | with every allocation succeeding, create 100, create 200, exit 100 leaves directory {200} and delivers exit 100, create 200, create 100 |
| PidParse.Wcstoul | WdmDriver.c:642 | the parsed id never exceeds ULONG_MAX |
| PidParse.DigitRun | WdmDriver.c:642 | wcstoul stops at the first non-digit: the run is all digits and is maximal |
| PidParse.DecimalRoundTrip | WdmDriver.c:642 | the value of the decimal text of n is n |
| PidParse.WcstoulOfDecimal | WdmDriver.c:642 | the decimal text of an id in range, followed by a non-digit or the end, parses back to the id |
| Client.RunLengthMaximal | wdm_client/main.c:75-86 | a token is a run of non-delimiters that ends at a delimiter or at the end of the line |
| Client.NextTokenNone | wdm_client/main.c:75-85 | wcstok_s finds no token exactly when only delimiters remain |
| Client.TokensAreWords | wdm_client/main.c:75-86 | every token is non-empty and free of space and newline |
| Client.TokenizeSplit | wdm_client/cmd_opts.h:4 | a delimiter splits a line into two independently tokenized halves |
| Client.TokenizeJoin | wdm_client/main.c:75-86 | tokenizing words joined by single spaces gives back the words |
| Client.CString | wdm_client/main.c:73-75 | the text fgetws stores and wcstok_s reads is the line up to, not including, its first NUL |
| Client.CStringStops | wdm_client/main.c:73-75 | a line without NUL is read whole, and nothing after a NUL is ever read |
| Client.ParseCmd | wdm_client/main.c:58-99 | it succeeds exactly when the line, read up to its first NUL, has at most 5 tokens; on success the arguments are all tokens in order and ArgumentsNr is their count; on failure the first 5 tokens are copied and ArgumentsNr is not written |
| Client.Classify | wdm_client/main.c:124-151 | a first argument equal to "exit" quits, "help" shows help, "dump" with exactly one argument sends it, "dump" with another count warns, anything else (including a blank line) is unrecognised |
| Client.NulCutsLine | wdm_client/main.c:73-85 | a line with a NUL acts exactly as the text before the NUL: same command, same requests, and it ends the loop exactly when that text does |
| Client.ExitBeforeNul | wdm_client/main.c:73-122 | "exit", a NUL and more text quits the client |
| Client.ProcessInput | wdm_client/main.c:102-161 | lines are read up to their first NUL; the loop ends right after the first line that parses to "exit", right after a dump whose argument does not fit the 64-character control buffer (the client is terminated, and `aborted` says so), or at the end of input; no earlier line ends it; the requests sent are those of the lines consumed |
| Client.HandleLine | wdm_client/main.c:116-151 | one pass sends the request the line asks for; it exits exactly when the line is an exit command and aborts exactly when it is a dump whose argument overflows SendDumpToDrv's buffer, never both |
| Client.LongDumpAborts | wdm_client/comm.c:33-36 | a dump argument of 64 or more characters cannot be copied by swprintf_s into the 64-character buffer with its NUL: the client ends without sending a request |
| PidParse.DecimalOfUlong | wdm_client/comm.c:33-36 | the decimal text of any ULONG id has at most ten digits, so it fits the control buffer |
| Client.DumpLineReachesDriver | wdm_client/comm.c:26-52 | typing "dump" and the decimal id sends that text as the one request of the line, and the driver's wcstoul reads the same id from the NUL-terminated buffer |
| Client.InitCommGuard | wdm_client/main.c:172-176 | InitComm refuses exactly the thread counts above WDM_MAX_THREAD_NO (64) |

## Left out

- Spin locks and the window between the separately locked find and unlink in PrcRemoveProcessId: each list operation is one atomic step.
- The pending-IRP slot, the worker thread (ProcessIoctlNotifyRoutine) and the cancel routine: these are concurrency. The NOTIFY_CALLBACK branch of the dispatch is modelled only as "pends the IRP, lists unchanged". DriverRuns.Drain models repeated deliveries one PrcRemoveHeadProcess at a time, which ignores event coalescing.
- Process.RemoveHead: requires a non-empty list, because PrcRemoveHeadProcess has no empty check and on an empty list would return the sentinel as a record.
- PrcUnlockMdlsFromList (Process.c:139-178): it is unused and not declared in Process.h. It frees records without unlinking them, so on a non-empty list IsListEmpty never becomes true and its loop never terminates, walking records it has already freed.
- Kernel registration and teardown (DriverEntry, device and symbolic link, PsSetCreateProcessNotifyRoutine, the system thread): only the list set-up of DriverEntry (Driver.Initial) and the list teardown of DriverUnload (Driver.Unload) are modelled. The failure of the spin-lock allocations in DriverEntry, which leaves the driver unloaded, is not.
- The CTL_CODE numeric values of the control codes: the macro is not part of this model, so the codes form an enumeration.
- Kernel memory routines (ProbeForRead, ProbeForWrite, IoAllocateMdl, MmProbeAndLockPages, MmGetSystemAddressForMdlSafe): only their success or failure outcomes are modelled, as inputs. Pool allocation is a boolean input.
- The distinction between MmUnlockPages plus IoFreeMdl and IoFreeMdl alone: both are one release of the handle. After a failed MmProbeAndLockPages the source frees the MDL without unlocking it, which is correct because nothing was locked.
- The SystemVA field of PROCESS_T: it is never assigned.
- PidParse.Wcstoul: does not model the leading white space and the sign that wcstoul accepts before the digits. A buffer that starts with a space or a sign parses as 0 here.
- Client console I/O (fgetws, wprintf, the logging macros), the MAX_PATH limit on line and token length, and repeated reads at end of input: the input is a finite list of lines, and ProcessInput stops when it runs out.
- The DeviceIoControl calls of wdm_client/comm.c: a request to the driver is a value in the returned list. A failed DeviceIoControl in SendDumpToDrv only makes the loop continue, which is what it does anyway. The overflow of its swprintf_s is modelled, as Client.Aborts.
- InitComm beyond its bound check (CreateFile, the thread handles) and UninitComm.
- WDM_MAX_THREAD_NO is MAXIMUM_WAIT_OBJECTS, which comes from the Windows headers. The model uses its documented value, 64.

## Findings

| source | as written | input that shows it | evidently intended | confidence | as-written member | corrected member |
|---|---|---|---|---|---|---|
| WdmDriver.c:656 | `p->Mdl = mdl` overwrites a record's MDL without unlocking and freeing the one it already holds | directory holding process 100 only, then two DUMP requests for "100" with every kernel call succeeding: the first MDL is never released, and PrcFree at exit or unload frees only the second | release the held MDL (MmUnlockPages, IoFreeMdl) before attaching the new one, so that every MDL is held by one record or released | medium, not executed | Driver.DumpAsWrittenLeaks | Driver.Dump |
