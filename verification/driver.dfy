/** The bookkeeping of WdmDriver.c as pure transitions on the driver state:
    the process-lifecycle callback, the DUMP request that pins a client
    buffer to a directory record, and the control-code dispatch.

    Kernel services appear only through their outcomes, passed in as
    parameters: whether a pool allocation succeeded, whether a probe or
    page lock raised an exception (and its code), whether an MDL could be
    allocated or mapped. The pool is modelled by two counters: the next
    record address and the next MDL handle, so every allocation is fresh. */
module Driver {
  import opened Common
  import opened Process
  import PidParse

  /** The NTSTATUS values the modelled paths produce. `Raised` carries the
      exception code GetExceptionCode returns inside an __except block. */
  datatype NtStatus = Success | Pending | InsufficientResources | InvalidDeviceRequest | Raised(code: nat)

  /** The outcome of a kernel routine called inside __try. */
  datatype Guarded = Returns | Raises(code: nat)

  /** How a dispatch routine leaves its IRP: completed with the IoStatus
      block's Status (None when the routine never wrote it) and
      Information fields, or pended. */
  datatype IrpFate = Completed(status: Option<NtStatus>, information: nat) | Pended

  /** IOC_DRIVER's two lists plus the release log and the pool counters. */
  datatype State = State(
    processList: seq<Record>,
    processQueue: seq<Record>,
    released: seq<MdlId>,
    nextAddr: nat,
    nextMdl: nat)

  /** A dispatch routine's effect: the new state, the NTSTATUS it returns
      and what became of the IRP. */
  datatype Reply = Reply(state: State, returned: NtStatus, irp: IrpFate)

  /** The kernel outcomes one DUMP request meets, in the order it meets them:
      ProbeForRead of the input buffer, IoAllocateMdl, MmProbeAndLockPages,
      MmGetSystemAddressForMdlSafe and ProbeForWrite of the output buffer. */
  datatype DumpEnv = DumpEnv(
    probeRead: Guarded,
    mdlAllocated: bool,
    lockPages: Guarded,
    mapped: bool,
    probeWrite: Guarded)

  /** The control codes of Public.h; their numeric values come from the
      CTL_CODE macro and are not modelled. */
  datatype ControlCode = NotifyCallback | DumpProcess | ExitRequest | Unknown(code: nat)

  /** DriverEntry after LopInit on both lists. */
  function Initial(): State
  {
    State([], [], [], 0, 0)
  }

  /** The handles 0 .. n-1: every MDL the pool has handed out so far. */
  function Upto(n: nat): (s: seq<MdlId>)
    ensures |s| == n
  {
    if n == 0 then [] else Upto(n - 1) + [n - 1]
  }

  ghost predicate DistinctAddrs(rs: seq<Record>)
  {
    forall i, j :: 0 <= i < j < |rs| ==> rs[i].addr != rs[j].addr
  }

  ghost predicate AddrsBelow(rs: seq<Record>, n: nat)
  {
    forall i :: 0 <= i < |rs| ==> rs[i].addr < n
  }

  /** The state invariant:
      - every record was allocated, and no record is linked twice, in
        particular none is in both lists;
      - event records never hold an MDL;
      - every MDL ever acquired is either held by exactly one directory
        record or has been released exactly once. */
  ghost predicate Inv(s: State)
  {
    && AddrsBelow(s.processList + s.processQueue, s.nextAddr)
    && DistinctAddrs(s.processList + s.processQueue)
    && Pinned(s.processQueue) == []
    && Accounted(s)
  }

  /** Every MDL acquired so far is held by exactly one directory record or
      released exactly once. */
  ghost predicate Accounted(s: State)
  {
    multiset(Pinned(s.processList)) + multiset(s.released) == multiset(Upto(s.nextMdl))
  }

  lemma InitialInv()
    ensures Inv(Initial())
  {
  }

  /** The invariant rules out sharing a record between the directory and
      the event queue. */
  lemma NoRecordInBothLists(s: State)
    requires Inv(s)
    ensures forall i, j :: 0 <= i < |s.processList| && 0 <= j < |s.processQueue| ==>
              s.processList[i].addr != s.processQueue[j].addr
  {
    DistinctParts(s.processList, s.processQueue);
  }

  lemma DistinctParts(a: seq<Record>, b: seq<Record>)
    requires DistinctAddrs(a + b)
    ensures forall i, j :: 0 <= i < |a| && 0 <= j < |b| ==> a[i].addr != b[j].addr
  {
    forall i, j | 0 <= i < |a| && 0 <= j < |b| ensures a[i].addr != b[j].addr {
      assert (a + b)[i] == a[i] && (a + b)[|a| + j] == b[j];
    }
  }

  /** CreateProcessNotifyRoutine. Every event first allocates a record for
      the event queue and inserts it at the queue's head. A create then
      allocates a second, separate record and inserts it at the head of the
      directory; an exit instead removes the directory record with that id
      and frees it, releasing any MDL it holds. `queueAllocOk` and
      `listAllocOk` are the outcomes of the two PrcAlloc calls (an exit
      makes only the first). A failed allocation drops that half of the
      event. */
  function ProcessNotify(s: State, parentId: nat, processId: nat, create: bool,
                         queueAllocOk: bool, listAllocOk: bool): (s': State)
    ensures queueAllocOk ==> && |s'.processQueue| == |s.processQueue| + 1
                             && s'.processQueue[0].info == ProcInfo(parentId, processId, create)
                             && s'.processQueue[0].mdl.None?
                             && s'.processQueue[1..] == s.processQueue
    ensures !queueAllocOk ==> s'.processQueue == s.processQueue
    ensures create && listAllocOk ==> && |s'.processList| == |s.processList| + 1
                                      && s'.processList[0].info == ProcInfo(parentId, processId, create)
                                      && s'.processList[0].mdl.None?
                                      && s'.processList[1..] == s.processList
    ensures create && listAllocOk && queueAllocOk ==> s'.processList[0].addr != s'.processQueue[0].addr
    ensures create && !listAllocOk ==> s'.processList == s.processList
    ensures create ==> s'.released == s.released
    ensures !create && processId !in Pids(s.processList) ==>
              s'.processList == s.processList && s'.released == s.released
    ensures !create && processId in Pids(s.processList) ==>
              var i := FindProcessId(s.processList, processId).value;
              && s'.processList == s.processList[..i] + s.processList[i + 1..]
              && s'.released == s.released + Held(s.processList[i])
    ensures s'.nextMdl == s.nextMdl
  {
    var info := ProcInfo(parentId, processId, create);
    DirectoryHalf(QueueHalf(s, info, queueAllocOk), info, listAllocOk)
  }

  /** The first half of the callback: a pool record for the event, pushed
      on the event queue when the allocation succeeds. */
  function QueueHalf(s: State, info: ProcInfo, queueAllocOk: bool): State
  {
    var event := Alloc(s.nextAddr, info.parentId, info.processId, info.create, queueAllocOk);
    if event.Some?
    then s.(processQueue := InsertProcess(s.processQueue, event.value), nextAddr := s.nextAddr + 1)
    else s
  }

  /** The second half: a create records a copy in the directory, an exit
      removes and frees the directory record with that id. */
  function DirectoryHalf(s: State, info: ProcInfo, listAllocOk: bool): State
  {
    if info.create then
      var entry := Alloc(s.nextAddr, info.parentId, info.processId, info.create, listAllocOk);
      if entry.Some?
      then s.(processList := InsertProcess(s.processList, entry.value), nextAddr := s.nextAddr + 1)
      else s
    else
      var removal := RemoveProcessId(s.processList, Some(info.parentId), info.processId);
      if removal.removed.Some?
      then s.(processList := removal.rest, released := Free(removal.removed.value, s.released))
      else s
  }

  /** True when a DUMP request gets as far as the directory lookup: the
      input buffer is readable and an MDL for it was allocated, locked and
      mapped. */
  predicate ReachesLookup(env: DumpEnv)
  {
    env.probeRead.Returns? && env.mdlAllocated && env.lockPages.Returns? && env.mapped
  }

  /** ProcessIoctlDumpRoutine. The request pins the client's input buffer
      with a fresh MDL, parses the process id from it and attaches the MDL
      to the directory record with that id; an id not in the directory gets
      its MDL released. Every failure before the lookup releases exactly what
      it had acquired and leaves the lists alone. Since the jump after a
      failed lookup is commented out, the status is success unless
      ProbeForWrite raises. Every path completes the IRP with Information 0.
      `releaseReplaced` selects between the source as written (false: an
      MDL already attached to the record is overwritten) and the corrected
      routine (true: it is released first). */
  function DumpRoutine(s: State, input: string, env: DumpEnv, releaseReplaced: bool): (r: Reply)
    ensures r.irp == Completed(Some(r.returned), 0)
    ensures r.state.processQueue == s.processQueue && r.state.nextAddr == s.nextAddr
    ensures env.probeRead.Raises? ==> r.state == s && r.returned == Raised(env.probeRead.code)
    ensures env.probeRead.Returns? && !env.mdlAllocated ==>
              r.state == s && r.returned == InsufficientResources
    ensures env.probeRead.Returns? && env.mdlAllocated && env.lockPages.Raises? ==>
              && r.state == s.(released := s.released + [s.nextMdl], nextMdl := s.nextMdl + 1)
              && r.returned == Raised(env.lockPages.code)
    ensures env.probeRead.Returns? && env.mdlAllocated && env.lockPages.Returns? && !env.mapped ==>
              && r.state == s.(released := s.released + [s.nextMdl], nextMdl := s.nextMdl + 1)
              && r.returned == InsufficientResources
    ensures ReachesLookup(env) && PidParse.Wcstoul(input) !in Pids(s.processList) ==>
              r.state == s.(released := s.released + [s.nextMdl], nextMdl := s.nextMdl + 1)
    ensures ReachesLookup(env) && PidParse.Wcstoul(input) in Pids(s.processList) ==>
              var i := FindProcessId(s.processList, PidParse.Wcstoul(input)).value;
              && r.state.processList == s.processList[i := s.processList[i].(mdl := Some(s.nextMdl))]
              && r.state.released == s.released + (if releaseReplaced then Held(s.processList[i]) else [])
              && r.state.nextMdl == s.nextMdl + 1
    ensures ReachesLookup(env) ==>
              r.returned == (if env.probeWrite.Raises? then Raised(env.probeWrite.code) else Success)
  {
    if env.probeRead.Raises? then Complete(s, Raised(env.probeRead.code))
    else if !env.mdlAllocated then Complete(s, InsufficientResources)
    else
      var mdl := s.nextMdl;
      var acquired := s.(nextMdl := s.nextMdl + 1);
      if env.lockPages.Raises? then
        Complete(acquired.(released := acquired.released + [mdl]), Raised(env.lockPages.code))
      else if !env.mapped then
        Complete(acquired.(released := acquired.released + [mdl]), InsufficientResources)
      else
        var pinned := match FindProcessId(acquired.processList, PidParse.Wcstoul(input))
          case None => acquired.(released := acquired.released + [mdl])
          case Some(i) =>
            var found := acquired.processList[i];
            acquired.(processList := acquired.processList[i := found.(mdl := Some(mdl))],
                      released := acquired.released + (if releaseReplaced then Held(found) else []));
        if env.probeWrite.Raises? then Complete(pinned, Raised(env.probeWrite.code))
        else Complete(pinned, Success)
  }

  /** The clean_up label: IoStatus gets `info` (always 0) and the status. */
  function Complete(s: State, status: NtStatus): Reply
  {
    Reply(s, status, Completed(Some(status), 0))
  }

  /** The DUMP request finds its record, and that record already holds an
      MDL: the case in which the routine as written overwrites it. */
  ghost predicate ReplacesHeldMdl(s: State, input: string, env: DumpEnv)
  {
    && ReachesLookup(env)
    && PidParse.Wcstoul(input) in Pids(s.processList)
    && s.processList[FindProcessId(s.processList, PidParse.Wcstoul(input)).value].mdl.Some?
  }

  /** ProcessIoctlDumpRoutine as written: a record that already holds an
      MDL has it overwritten without release. From a state satisfying the
      invariant, the invariant is kept exactly when that does not happen. */
  function DumpAsWritten(s: State, input: string, env: DumpEnv): (r: Reply)
    ensures Inv(s) ==> (Inv(r.state) <==> !ReplacesHeldMdl(s, input, env))
  {
    DumpAsWrittenKeepsInvIff(s, input, env);
    DumpRoutine(s, input, env, false)
  }

  lemma DumpAsWrittenKeepsInvIff(s: State, input: string, env: DumpEnv)
    ensures Inv(s) ==> (Inv(DumpRoutine(s, input, env, false).state) <==> !ReplacesHeldMdl(s, input, env))
  {
    DumpPreservesInv(s, input, env, false);
    if Inv(s) && ReplacesHeldMdl(s, input, env) {
      DumpAsWrittenBreaksInv(s, input, env);
    }
  }

  /** Overwriting a held MDL loses it: afterwards it is neither held by a
      record nor released, whatever the state and the request. */
  lemma DumpAsWrittenBreaksInv(s: State, input: string, env: DumpEnv)
    requires Inv(s) && ReplacesHeldMdl(s, input, env)
    ensures !Inv(DumpRoutine(s, input, env, false).state)
  {
    var s' := DumpRoutine(s, input, env, false).state;
    var i := FindProcessId(s.processList, PidParse.Wcstoul(input)).value;
    assert s'.released == s.released;
    LostHandle(s, s', i);
    UnaccountedBreaksInv(s');
  }

  lemma UnaccountedBreaksInv(s: State)
    requires !Accounted(s)
    ensures !Inv(s)
  {
  }

  /** The accounting step behind DumpAsWrittenBreaksInv: replacing the held
      handle of record i by the fresh handle, releasing nothing, leaves the
      replaced handle unaccounted for. */
  lemma LostHandle(s: State, s': State, i: nat)
    requires Accounted(s)
    requires i < |s.processList| && s.processList[i].mdl.Some?
    requires s'.processList == s.processList[i := s.processList[i].(mdl := Some(s.nextMdl))]
    requires s'.released == s.released && s'.nextMdl == s.nextMdl + 1
    ensures !Accounted(s')
  {
    var n := s.nextMdl;
    var lost := s.processList[i].mdl.value;
    var p, p', rest := multiset(Pinned(s.processList)), multiset(Pinned(s'.processList)), multiset(s.released);
    assert p + rest == multiset(Upto(n));
    assert p' + multiset{lost} == p + multiset{n} by {
      var r := s.processList[i].(mdl := Some(n));
      PinnedUpdate(s.processList, i, r);
      assert Held(s.processList[i]) == [lost] && Held(r) == [n];
    }
    assert multiset(Upto(s'.nextMdl)) == multiset(Upto(n)) + multiset{n} by {
      UptoStep(n);
    }
    SwapOne(p', p, rest, lost, n);
    MissingOne(p' + rest, lost, multiset(Upto(s'.nextMdl)));
  }

  /** Multiset bookkeeping: trading x for y in one part of a sum. */
  lemma SwapOne<T>(p': multiset<T>, p: multiset<T>, rest: multiset<T>, x: T, y: T)
    requires p' + multiset{x} == p + multiset{y}
    ensures (p' + rest) + multiset{x} == (p + rest) + multiset{y}
  {
    forall z ensures ((p' + rest) + multiset{x})[z] == ((p + rest) + multiset{y})[z] {
      assert (p' + multiset{x})[z] == (p + multiset{y})[z];
    }
  }

  lemma MissingOne<T>(a: multiset<T>, x: T, b: multiset<T>)
    requires a + multiset{x} == b
    ensures a != b
  {
    assert a[x] + 1 == b[x];
  }

  /** ProcessIoctlDumpRoutine corrected to release the replaced MDL: it keeps
      the accounting invariant on every path. */
  function Dump(s: State, input: string, env: DumpEnv): (r: Reply)
    ensures Inv(s) ==> Inv(r.state)
    ensures r.irp == Completed(Some(r.returned), 0)
    ensures !ReachesLookup(env) ==> r.state.processList == s.processList
  {
    DumpPreservesInv(s, input, env, true);
    DumpRoutine(s, input, env, true)
  }

  lemma DumpPreservesInv(s: State, input: string, env: DumpEnv, releaseReplaced: bool)
    ensures Inv(s) && (releaseReplaced || !ReplacesHeldMdl(s, input, env))
            ==> Inv(DumpRoutine(s, input, env, releaseReplaced).state)
  {
    var s' := DumpRoutine(s, input, env, releaseReplaced).state;
    var pid := PidParse.Wcstoul(input);
    if Inv(s) && s' != s {
      if ReachesLookup(env) && pid in Pids(s.processList) {
        var i := FindProcessId(s.processList, pid).value;
        if releaseReplaced || s.processList[i].mdl.None? {
          PinKeepsInv(s, s', i);
        }
      } else {
        assert s' == s.(released := s.released + [s.nextMdl], nextMdl := s.nextMdl + 1);
        ReleaseFreshKeepsInv(s, s');
      }
    }
  }

  /** Attaching a fresh handle to record i (releasing what it held) keeps
      the invariant. */
  lemma PinKeepsInv(s: State, s': State, i: nat)
    requires Inv(s) && i < |s.processList|
    requires s'.processList == s.processList[i := s.processList[i].(mdl := Some(s.nextMdl))]
    requires s'.processQueue == s.processQueue && s'.nextAddr == s.nextAddr
    requires s'.released == s.released + Held(s.processList[i])
    requires s'.nextMdl == s.nextMdl + 1
    ensures Inv(s')
  {
    var r := s.processList[i].(mdl := Some(s.nextMdl));
    SameAddrs(s.processList + s.processQueue, s'.processList + s.processQueue);
    PinAccounting(s, s', i, r);
  }

  /** Acquiring a handle and releasing it at once keeps the invariant. */
  lemma ReleaseFreshKeepsInv(s: State, s': State)
    requires Inv(s)
    requires s' == s.(released := s.released + [s.nextMdl], nextMdl := s.nextMdl + 1)
    ensures Inv(s')
  {
    UptoStep(s.nextMdl);
  }

  /** Attaching the fresh handle to record i, with the replaced record's
      handle released, keeps every acquired MDL accounted for. */
  lemma PinAccounting(s: State, s': State, i: nat, r: Record)
    requires multiset(Pinned(s.processList)) + multiset(s.released) == multiset(Upto(s.nextMdl))
    requires i < |s.processList|
    requires r == s.processList[i].(mdl := Some(s.nextMdl))
    requires s'.processList == s.processList[i := r]
    requires s'.released == s.released + Held(s.processList[i])
    requires s'.nextMdl == s.nextMdl + 1
    ensures multiset(Pinned(s'.processList)) + multiset(s'.released) == multiset(Upto(s'.nextMdl))
  {
    var m := s.nextMdl;
    var removed := s.processList[i];
    PinnedUpdate(s.processList, i, r);
    UptoStep(m);
    assert Held(r) == [m];
    calc {
      multiset(Pinned(s'.processList)) + multiset(s'.released);
      multiset(Pinned(s'.processList)) + multiset(Held(removed)) + multiset(s.released);
      multiset(Pinned(s.processList)) + multiset{m} + multiset(s.released);
      multiset(Upto(m)) + multiset{m};
    }
  }

  /** The finding at WdmDriver.c:656: pinning the same process twice with
      the routine as written loses the first MDL. Afterwards handle 0 has
      been acquired but is neither held by a record nor released. */
  lemma DumpAsWrittenLeaks()
    ensures var ok := DumpEnv(Returns, true, Returns, true, Returns);
            var s0 := State([Record(0, ProcInfo(4, 100, true), None)], [], [], 1, 0);
            var s2 := DumpAsWritten(DumpAsWritten(s0, "100", ok).state, "100", ok).state;
            && Inv(s0)
            && s2.nextMdl == 2
            && 0 !in Pinned(s2.processList) && 0 !in s2.released
            && !Inv(s2)
            && Unload(s2).released == [1]
            && ProcessNotify(s2, 4, 100, false, true, true).released == [1]
  {
    var ok := DumpEnv(Returns, true, Returns, true, Returns);
    var info := ProcInfo(4, 100, true);
    var s0 := State([Record(0, info, None)], [], [], 1, 0);
    var s1 := DumpAsWritten(s0, "100", ok).state;
    assert s1 == State([Record(0, info, Some(0))], [], [], 1, 1) by {
      PinHundred(s0, ok, None);
    }
    var s2 := DumpAsWritten(s1, "100", ok).state;
    assert s2 == State([Record(0, info, Some(1))], [], [], 1, 2) by {
      PinHundred(s1, ok, Some(0));
    }
    LeakedState(s2);
    LeakNeverReleased(s2);
    UnpinnedStart(s0);
  }

  lemma UnpinnedStart(s: State)
    requires s == State([Record(0, ProcInfo(4, 100, true), None)], [], [], 1, 0)
    ensures Inv(s)
  {
    assert Pinned(s.processList) == [] && Upto(0) == [];
  }

  /** The state the leak leaves behind: one record holding handle 1, nothing
      released, two handles acquired. */
  lemma LeakedState(s: State)
    requires s == State([Record(0, ProcInfo(4, 100, true), Some(1))], [], [], 1, 2)
    ensures 0 !in Pinned(s.processList) && 0 !in s.released && !Inv(s)
  {
    assert Pinned(s.processList) == [1];
    assert Upto(2) == [0, 1];
    assert multiset(Upto(2))[0] == 1;
  }

  /** Neither teardown path gives the lost handle back: DriverUnload's
      PrcFreeList and the exit of process 100 both release handle 1 alone. */
  lemma LeakNeverReleased(s: State)
    requires s == State([Record(0, ProcInfo(4, 100, true), Some(1))], [], [], 1, 2)
    ensures Unload(s).released == [1]
    ensures ProcessNotify(s, 4, 100, false, true, true).released == [1]
  {
    assert Pinned(s.processList) == [1];
    var s1 := QueueHalf(s, ProcInfo(4, 100, false), true);
    assert s1.processList == s.processList && s1.released == [];
    var removal := RemoveProcessId(s1.processList, Some(4), 100);
    assert FindProcessId(s1.processList, 100) == Some(0);
    assert removal.removed == Some(s.processList[0]);
  }

  /** One successful DUMP "100" against a directory holding only process 100. */
  lemma PinHundred(s: State, ok: DumpEnv, mdl: Option<MdlId>)
    requires s == State([Record(0, ProcInfo(4, 100, true), mdl)], [], [], 1, s.nextMdl)
    requires ok == DumpEnv(Returns, true, Returns, true, Returns)
    ensures DumpAsWritten(s, "100", ok).state
            == State([Record(0, ProcInfo(4, 100, true), Some(s.nextMdl))], [], [], 1, s.nextMdl + 1)
  {
    HundredParses();
    assert s.processList[0] in s.processList;
    assert FindProcessId(s.processList, 100) == Some(0);
    var r := DumpRoutine(s, "100", ok, false);
    assert r.state.processList == [Record(0, ProcInfo(4, 100, true), Some(s.nextMdl))];
  }

  lemma HundredParses()
    ensures PidParse.Wcstoul("100") == 100
  {
    PidParse.WcstoulOfDecimal(100, []);
    assert PidParse.Decimal(100) + [] == "100";
  }

  /** IocDispatchDeviceControl for the codes it handles synchronously. EXIT
      unpins every MDL of the directory, keeps its records and succeeds;
      DUMP runs ProcessIoctlDumpRoutine, as written when `releaseReplaced`
      is false and corrected when it is true; an unknown code fails with
      STATUS_INVALID_DEVICE_REQUEST and completes the IRP without writing
      its Status field. NOTIFY_CALLBACK only pends the IRP in the pending
      slot, which this model leaves out; the lists are untouched. As
      written, the invariant is lost exactly by a DUMP that overwrites a
      held MDL. */
  function Dispatch(s: State, code: ControlCode, input: string, env: DumpEnv, releaseReplaced: bool): (r: Reply)
    ensures Inv(s) && (releaseReplaced || !(code.DumpProcess? && ReplacesHeldMdl(s, input, env))) ==> Inv(r.state)
    ensures Inv(s) && !releaseReplaced && code.DumpProcess? && ReplacesHeldMdl(s, input, env) ==> !Inv(r.state)
    ensures code.Unknown? ==>
              r.state == s && r.returned == InvalidDeviceRequest && r.irp == Completed(None, 0)
    ensures code.NotifyCallback? ==> r.state == s && r.returned == Pending && r.irp == Pended
    ensures code.ExitRequest? ==>
              && r.returned == Success && r.irp == Completed(Some(Success), 0)
              && |r.state.processList| == |s.processList|
              && (forall i :: 0 <= i < |s.processList| ==>
                    && r.state.processList[i].addr == s.processList[i].addr
                    && r.state.processList[i].info == s.processList[i].info
                    && r.state.processList[i].mdl.None?)
              && r.state.released == s.released + Pinned(s.processList)
              && r.state.processQueue == s.processQueue
    ensures code.DumpProcess? ==>
              r == (if releaseReplaced then Dump(s, input, env) else DumpAsWritten(s, input, env))
  {
    match code
    case NotifyCallback => Reply(s, Pending, Pended)
    case DumpProcess => if releaseReplaced then Dump(s, input, env) else DumpAsWritten(s, input, env)
    case ExitRequest =>
      var unpinned := UnlockMdlList(s.processList, s.released);
      var s' := s.(processList := unpinned.list, released := unpinned.released);
      ExitPreservesInv(s, s');
      Complete(s', Success)
    case Unknown(_) => Reply(s, InvalidDeviceRequest, Completed(None, 0))
  }

  lemma ExitPreservesInv(s: State, s': State)
    requires s' == s.(processList := UnlockMdlList(s.processList, s.released).list,
                      released := UnlockMdlList(s.processList, s.released).released)
    ensures Inv(s) ==> Inv(s')
  {
    if Inv(s) {
      var u := UnlockMdlList(s.processList, s.released);
      SameAddrsAppend(s.processList, u.list, s.processQueue);
      assert multiset(s'.released) == multiset(s.released) + multiset(Pinned(s.processList));
    }
  }

  /** Replacing the front part by one with the same addresses keeps the
      address conditions of the whole. */
  lemma SameAddrsAppend(a: seq<Record>, b: seq<Record>, q: seq<Record>)
    requires |a| == |b|
    requires forall k :: 0 <= k < |a| ==> a[k].addr == b[k].addr
    ensures forall n :: AddrsBelow(a + q, n) ==> AddrsBelow(b + q, n)
    ensures DistinctAddrs(a + q) ==> DistinctAddrs(b + q)
  {
    forall k | 0 <= k < |a + q| ensures (a + q)[k].addr == (b + q)[k].addr {
      if k < |a| {
        assert (a + q)[k] == a[k] && (b + q)[k] == b[k];
      } else {
        assert (a + q)[k] == q[k - |a|] == (b + q)[k];
      }
    }
    SameAddrs(a + q, b + q);
  }

  /** The list teardown of DriverUnload, once the worker thread has
      stopped: PrcFreeList on the directory, then on the event queue. From
      a state satisfying the invariant, every MDL ever acquired has then
      been released exactly once. */
  function Unload(s: State): (s': State)
    ensures s'.processList == [] && s'.processQueue == []
    ensures s'.nextMdl == s.nextMdl
    ensures Inv(s) ==> multiset(s'.released) == multiset(Upto(s.nextMdl))
    ensures Inv(s) ==> Inv(s')
  {
    var directory := FreeList(s.processList, s.released);
    var queue := FreeList(s.processQueue, directory.released);
    s.(processList := [], processQueue := [], released := queue.released)
  }

  /** A buffer pinned by a DUMP that finds its record, as written or
      corrected, is held by the directory and released by the teardown. */
  lemma PinnedBufferReleasedAtUnload(s: State, input: string, env: DumpEnv, releaseReplaced: bool)
    requires ReachesLookup(env) && PidParse.Wcstoul(input) in Pids(s.processList)
    ensures s.nextMdl in Pinned(DumpRoutine(s, input, env, releaseReplaced).state.processList)
    ensures s.nextMdl in Unload(DumpRoutine(s, input, env, releaseReplaced).state).released
  {
    var s' := DumpRoutine(s, input, env, releaseReplaced).state;
    var i := FindProcessId(s.processList, PidParse.Wcstoul(input)).value;
    assert s'.processList[i].mdl == Some(s.nextMdl);
    PinnedMembers(s'.processList, s.nextMdl);
    var directory := FreeList(s'.processList, s'.released);
    var queue := FreeList(s'.processQueue, directory.released);
    assert Unload(s').released == queue.released;
    assert directory.released == s'.released + Pinned(s'.processList);
    assert queue.released == directory.released + Pinned(s'.processQueue);
  }

  /** The lifecycle callback keeps the invariant, whatever the allocation
      outcomes. */
  lemma ProcessNotifyPreservesInv(s: State, parentId: nat, processId: nat, create: bool,
                                  queueAllocOk: bool, listAllocOk: bool)
    requires Inv(s)
    ensures Inv(ProcessNotify(s, parentId, processId, create, queueAllocOk, listAllocOk))
  {
    var info := ProcInfo(parentId, processId, create);
    var s1 := QueueHalf(s, info, queueAllocOk);
    assert Inv(s1) by {
      if queueAllocOk {
        QueueInsertInv(s, Record(s.nextAddr, info, None));
      }
    }
    DirectoryHalfInv(s1, info, listAllocOk);
  }

  lemma DirectoryHalfInv(s: State, info: ProcInfo, listAllocOk: bool)
    requires Inv(s)
    ensures Inv(DirectoryHalf(s, info, listAllocOk))
  {
    if info.create && listAllocOk {
      ListInsertInv(s, Record(s.nextAddr, info, None));
    } else if !info.create && info.processId in Pids(s.processList) {
      ExitRemoveInv(s, FindProcessId(s.processList, info.processId).value);
    }
  }

  lemma QueueInsertInv(s: State, event: Record)
    requires Inv(s)
    requires event.addr == s.nextAddr && event.mdl.None?
    ensures Inv(s.(processQueue := [event] + s.processQueue, nextAddr := s.nextAddr + 1))
  {
    InsertFresh(s.processList, s.processQueue, event, s.nextAddr);
    assert ([event] + s.processQueue)[1..] == s.processQueue;
  }

  lemma ListInsertInv(s: State, entry: Record)
    requires Inv(s)
    requires entry.addr == s.nextAddr && entry.mdl.None?
    ensures Inv(s.(processList := [entry] + s.processList, nextAddr := s.nextAddr + 1))
  {
    var all := s.processList + s.processQueue;
    InsertFresh([], all, entry, s.nextAddr);
    assert [] + ([entry] + all) == [entry] + all;
    AppendAssociates([entry], s.processList, s.processQueue);
    PinnedCons(entry, s.processList);
  }

  lemma ExitRemoveInv(s: State, i: nat)
    requires Inv(s)
    requires i < |s.processList|
    ensures Inv(s.(processList := s.processList[..i] + s.processList[i + 1..],
                   released := s.released + Held(s.processList[i])))
  {
    PinnedRemove(s.processList, i);
    RemoveKeepsAddrs(s.processList, s.processQueue, i, s.nextAddr);
  }

  /** A record without an MDL adds nothing to the pinned handles. */
  lemma PinnedCons(r: Record, list: seq<Record>)
    requires r.mdl.None?
    ensures Pinned([r] + list) == Pinned(list)
  {
    assert ([r] + list)[1..] == list;
  }

  lemma UptoStep(n: nat)
    ensures multiset(Upto(n + 1)) == multiset(Upto(n)) + multiset{n}
  {
  }

  /** Replacing record i changes the pinned MDLs by exactly the two records'
      handles. */
  lemma PinnedUpdate(list: seq<Record>, i: nat, r: Record)
    requires i < |list|
    ensures multiset(Pinned(list[i := r])) + multiset(Held(list[i]))
            == multiset(Pinned(list)) + multiset(Held(r))
  {
    assert list == list[..i] + [list[i]] + list[i + 1..];
    assert list[i := r] == list[..i] + [r] + list[i + 1..];
    PinnedAppend(list[..i] + [list[i]], list[i + 1..]);
    PinnedAppend(list[..i], [list[i]]);
    PinnedAppend(list[..i] + [r], list[i + 1..]);
    PinnedAppend(list[..i], [r]);
  }

  /** Unlinking record i takes exactly its handle out of the pinned MDLs. */
  lemma PinnedRemove(list: seq<Record>, i: nat)
    requires i < |list|
    ensures multiset(Pinned(list[..i] + list[i + 1..])) + multiset(Held(list[i]))
            == multiset(Pinned(list))
  {
    PinnedSplit(list, i);
    var p, h, q := Pinned(list[..i]), Held(list[i]), Pinned(list[i + 1..]);
    assert multiset(p + (h + q)) == multiset(p) + multiset(h) + multiset(q);
    assert multiset(p + q) + multiset(h) == multiset(p) + multiset(h) + multiset(q);
  }

  /** The pinned handles around position i, as sequences. */
  lemma PinnedSplit(list: seq<Record>, i: nat)
    requires i < |list|
    ensures Pinned(list) == Pinned(list[..i]) + (Held(list[i]) + Pinned(list[i + 1..]))
    ensures Pinned(list[..i] + list[i + 1..]) == Pinned(list[..i]) + Pinned(list[i + 1..])
  {
    var a, x, b := list[..i], list[i], list[i + 1..];
    SplitAt(list, i);
    PinnedAppend(a, [x] + b);
    PinnedAppend(a, b);
    PinnedFirst([x] + b);
  }

  lemma PinnedFirst(list: seq<Record>)
    requires |list| > 0
    ensures Pinned(list) == Held(list[0]) + Pinned(list[1..])
  {
  }

  /** Two record sequences with the same addresses position by position
      agree on the address part of the invariant. */
  lemma SameAddrs(a: seq<Record>, b: seq<Record>)
    requires |a| == |b|
    requires forall k :: 0 <= k < |a| ==> a[k].addr == b[k].addr
    ensures forall n :: AddrsBelow(a, n) ==> AddrsBelow(b, n)
    ensures DistinctAddrs(a) ==> DistinctAddrs(b)
  {
  }

  /** A record with a fresh address can be placed between two parts of an
      allocated, duplicate-free sequence. */
  lemma InsertFresh(a: seq<Record>, b: seq<Record>, r: Record, n: nat)
    requires AddrsBelow(a + b, n) && DistinctAddrs(a + b)
    requires r.addr == n
    ensures AddrsBelow(a + ([r] + b), n + 1) && DistinctAddrs(a + ([r] + b))
  {
    var c := a + ([r] + b);
    var p := |a|;
    forall k | 0 <= k < |c| ensures c[k] == (if k < p then (a + b)[k] else if k == p then r else (a + b)[k - 1]) {
    }
    forall k | 0 <= k < |c| ensures c[k].addr < n + 1 {
      if k != p {
        assert c[k] == (a + b)[if k < p then k else k - 1];
      }
    }
    forall j, k | 0 <= j < k < |c| ensures c[j].addr != c[k].addr {
      var j' := if j < p then j else j - 1;
      var k' := if k < p then k else k - 1;
      if j == p {
        assert c[k] == (a + b)[k'];
      } else if k == p {
        assert c[j] == (a + b)[j'];
      } else {
        assert c[j] == (a + b)[j'] && c[k] == (a + b)[k'];
      }
    }
  }

  /** Unlinking a directory record keeps the address part of the invariant. */
  lemma RemoveKeepsAddrs(list: seq<Record>, queue: seq<Record>, i: nat, n: nat)
    requires i < |list|
    requires AddrsBelow(list + queue, n) && DistinctAddrs(list + queue)
    ensures AddrsBelow((list[..i] + list[i + 1..]) + queue, n)
    ensures DistinctAddrs((list[..i] + list[i + 1..]) + queue)
  {
    var c := list + queue;
    var c' := (list[..i] + list[i + 1..]) + queue;
    forall k | 0 <= k < |c'| ensures c'[k] == c[if k < i then k else k + 1] {
    }
  }
}
