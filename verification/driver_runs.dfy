/** Properties of whole sequences of process lifecycle events fed to the
    driver's callback, and of draining its event queue the way the worker
    thread does (one PrcRemoveHeadProcess per delivery). */
module DriverRuns {
  import opened Common
  import opened Process
  import opened Driver

  /** One call of CreateProcessNotifyRoutine: the event, and whether each
      of its PrcAlloc calls succeeds (an exit makes only the first). */
  datatype Notification = Notification(info: ProcInfo, queueAllocOk: bool, listAllocOk: bool)

  /** CreateProcessNotifyRoutine on one notification. */
  function Notify(s: State, e: Notification): State
  {
    ProcessNotify(s, e.info.parentId, e.info.processId, e.info.create, e.queueAllocOk, e.listAllocOk)
  }

  /** Feeds `events` to CreateProcessNotifyRoutine in order. */
  function Run(s: State, events: seq<Notification>): State
    decreases |events|
  {
    if |events| == 0 then s
    else
      Notify(Run(s, events[..|events| - 1]), events[|events| - 1])
  }

  /** The ids of the creates that got their directory record. */
  ghost function Created(events: seq<Notification>): set<nat>
  {
    set e | e in events && e.info.create && e.listAllocOk :: e.info.processId
  }

  ghost function Exited(events: seq<Notification>): set<nat>
  {
    set e | e in events && !e.info.create :: e.info.processId
  }

  /** Every id is created at most once and exits at most once, and never
      exits before it is created. */
  ghost predicate Disciplined(events: seq<Notification>)
  {
    forall i, j :: 0 <= i < j < |events| && events[i].info.processId == events[j].info.processId ==>
      events[i].info.create && !events[j].info.create
  }

  /** The events that got their queue record, in order. */
  function Queued(events: seq<Notification>): seq<ProcInfo>
  {
    if |events| == 0 then []
    else
      var e := events[|events| - 1];
      Queued(events[..|events| - 1]) + (if e.queueAllocOk then [e.info] else [])
  }

  /** The delivery order: what successive PrcRemoveHeadProcess calls hand
      to the client until the queue is empty. */
  function Drain(queue: seq<Record>): seq<ProcInfo>
    decreases |queue|
  {
    if |queue| == 0 then []
    else
      var taken := RemoveHead(queue);
      [taken.0.info] + Drain(taken.1)
  }

  /** The callback keeps the state invariant along any run, whatever the
      allocation outcomes. */
  lemma {:induction false} RunPreservesInv(s: State, events: seq<Notification>)
    requires Inv(s)
    ensures Inv(Run(s, events))
    decreases |events|
  {
    if |events| > 0 {
      var e := events[|events| - 1];
      RunPreservesInv(s, events[..|events| - 1]);
      ProcessNotifyPreservesInv(Run(s, events[..|events| - 1]), e.info.parentId, e.info.processId, e.info.create,
                                e.queueAllocOk, e.listAllocOk);
    }
  }

  /** The directory holds exactly the processes whose create got a
      directory record and that have not exited, each once. */
  lemma {:induction false} DirectoryTracksLiveProcesses(events: seq<Notification>)
    requires Disciplined(events)
    ensures Pids(Run(Initial(), events).processList) == Created(events) - Exited(events)
    ensures UniquePids(Run(Initial(), events).processList)
    decreases |events|
  {
    if |events| > 0 {
      var n := |events| - 1;
      var p, e := events[..n], events[n];
      assert events == p + [e];
      assert Disciplined(p) by {
        forall i, j | 0 <= i < j < |p| ensures p[i] == events[i] && p[j] == events[j] {}
      }
      DirectoryTracksLiveProcesses(p);
      var before := Run(Initial(), p);
      assert Run(Initial(), events) == Notify(before, e);
      TrackStep(p, e, before);
    }
  }

  /** One event of DirectoryTracksLiveProcesses. */
  lemma TrackStep(p: seq<Notification>, e: Notification, before: State)
    requires Disciplined(p + [e])
    requires Pids(before.processList) == Created(p) - Exited(p)
    requires UniquePids(before.processList)
    ensures var after := Notify(before, e);
            && Pids(after.processList) == Created(p + [e]) - Exited(p + [e])
            && UniquePids(after.processList)
  {
    var after := Notify(before, e);
    EventSets(p, e);
    if e.info.create {
      FreshCreate(p, e);
      if e.listAllocOk {
        CreateStep(before.processList, after.processList, e.info.processId);
      }
    } else {
      ExitStep(before, e);
    }
  }

  lemma ExitStep(s: State, e: Notification)
    requires !e.info.create
    requires UniquePids(s.processList)
    ensures var l' := Notify(s, e).processList;
            UniquePids(l') && Pids(l') == Pids(s.processList) - {e.info.processId}
  {
    RemoveProcessIdPids(s.processList, Some(e.info.parentId), e.info.processId);
  }

  lemma EventSets(p: seq<Notification>, e: Notification)
    ensures Created(p + [e]) == Created(p) + (if e.info.create && e.listAllocOk then {e.info.processId} else {})
    ensures Exited(p + [e]) == Exited(p) + (if e.info.create then {} else {e.info.processId})
  {
    assert forall x :: x in p + [e] <==> x in p || x == e;
  }

  /** Under the discipline, the id of a create is new to the run so far. */
  lemma FreshCreate(p: seq<Notification>, e: Notification)
    requires Disciplined(p + [e]) && e.info.create
    ensures e.info.processId !in Created(p)
  {
    forall x | x in p && x.info.create && x.listAllocOk ensures x.info.processId != e.info.processId {
      var i :| 0 <= i < |p| && p[i] == x;
      assert (p + [e])[i] == x && (p + [e])[|p|] == e;
    }
  }

  lemma CreateStep(before: seq<Record>, after: seq<Record>, pid: nat)
    requires |after| > 0 && after[1..] == before && after[0].info.processId == pid
    requires pid !in Pids(before) && UniquePids(before)
    ensures Pids(after) == Pids(before) + {pid}
    ensures UniquePids(after)
  {
    assert after == [after[0]] + before;
    forall i, j | 0 <= i < j < |after| ensures after[i].info.processId != after[j].info.processId {
      assert after[j] == before[j - 1];
      if i == 0 {
        assert after[j] in before;
      } else {
        assert after[i] == before[i - 1];
      }
    }
  }

  /** The worker hands out the most recent event first: the queue is a
      stack, so the events that got a queue record are delivered in
      reverse order. */
  lemma {:induction false} QueueDeliversNewestFirst(events: seq<Notification>)
    ensures Drain(Run(Initial(), events).processQueue) == Reverse(Queued(events))
    decreases |events|
  {
    if |events| > 0 {
      var n := |events| - 1;
      var e := events[n];
      QueueDeliversNewestFirst(events[..n]);
      var q0 := Run(Initial(), events[..n]).processQueue;
      var q := Run(Initial(), events).processQueue;
      if e.queueAllocOk {
        assert q[0].info == e.info && q[1..] == q0;
        assert Drain(q) == [e.info] + Drain(q0);
        assert Queued(events) == Queued(events[..n]) + [e.info];
        ReverseSnoc(Queued(events[..n]), e.info);
      } else {
        assert q == q0;
        assert Queued(events) == Queued(events[..n]) + [];
        assert Queued(events[..n]) + [] == Queued(events[..n]);
      }
    }
  }

  /** Three events for two processes, every allocation succeeding: create
      100, create 200, exit 100. The directory ends up with process 200
      alone, and three deliveries hand out exit 100, create 200 and create
      100, in that order. */
  lemma CreateCreateExitScenario()
    ensures var events := [Notification(ProcInfo(4, 100, true), true, true),
                           Notification(ProcInfo(4, 200, true), true, true),
                           Notification(ProcInfo(4, 100, false), true, true)];
            var s := Run(Initial(), events);
            && Pids(s.processList) == {200}
            && Drain(s.processQueue) == [ProcInfo(4, 100, false), ProcInfo(4, 200, true), ProcInfo(4, 100, true)]
  {
    var events := [Notification(ProcInfo(4, 100, true), true, true),
                   Notification(ProcInfo(4, 200, true), true, true),
                   Notification(ProcInfo(4, 100, false), true, true)];
    ScenarioDirectory(events);
    ScenarioDelivery(events);
  }

  lemma ScenarioDirectory(events: seq<Notification>)
    requires events == [Notification(ProcInfo(4, 100, true), true, true),
                        Notification(ProcInfo(4, 200, true), true, true),
                        Notification(ProcInfo(4, 100, false), true, true)]
    ensures Pids(Run(Initial(), events).processList) == {200}
  {
    ScenarioSets(events);
    DirectoryTracksLiveProcesses(events);
  }

  lemma ScenarioDelivery(events: seq<Notification>)
    requires events == [Notification(ProcInfo(4, 100, true), true, true),
                        Notification(ProcInfo(4, 200, true), true, true),
                        Notification(ProcInfo(4, 100, false), true, true)]
    ensures Drain(Run(Initial(), events).processQueue) == [events[2].info, events[1].info, events[0].info]
  {
    QueueDeliversNewestFirst(events);
    AllQueued(events);
    ReverseOfThree(Queued(events));
  }

  /** With every queue allocation succeeding, three events are all queued. */
  lemma AllQueued(events: seq<Notification>)
    requires |events| == 3
    requires forall k :: 0 <= k < 3 ==> events[k].queueAllocOk
    ensures Queued(events) == [events[0].info, events[1].info, events[2].info]
  {
    assert events[..2][..1][..0] == [];
    assert Queued(events[..2][..1]) == [events[0].info];
    assert Queued(events[..2]) == [events[0].info, events[1].info];
  }

  lemma ReverseOfThree<T>(s: seq<T>)
    requires |s| == 3
    ensures Reverse(s) == [s[2], s[1], s[0]]
  {
    assert Reverse(s) == [s[2]] + Reverse(s[..2]);
    assert Reverse(s[..2]) == [s[1]] + Reverse(s[..2][..1]);
    assert s[..2][..1] == [s[0]];
  }

  lemma ScenarioSets(events: seq<Notification>)
    requires events == [Notification(ProcInfo(4, 100, true), true, true),
                        Notification(ProcInfo(4, 200, true), true, true),
                        Notification(ProcInfo(4, 100, false), true, true)]
    ensures Disciplined(events)
    ensures Created(events) - Exited(events) == {200}
  {
    assert Created(events) == {100, 200} && Exited(events) == {100} by {
      ThreeEventSets(events);
    }
  }

  lemma ThreeEventSets(events: seq<Notification>)
    requires events == [Notification(ProcInfo(4, 100, true), true, true),
                        Notification(ProcInfo(4, 200, true), true, true),
                        Notification(ProcInfo(4, 100, false), true, true)]
    ensures Created(events) == {100, 200} && Exited(events) == {100}
  {
    forall x ensures x in events <==> x == events[0] || x == events[1] || x == events[2] {
    }
  }
}
