/** The process records of Process.h and Process.c and the list operations
    on them.

    A list of records is modelled as the sequence of its records in Flink
    order, the most recently inserted first (ListOp proves that the pointer
    structure behaves that way). A record's address is its allocation
    identity. Its memory descriptor list is an optional MDL handle: a
    record holds at most one. Releasing an MDL (MmUnlockPages followed by
    IoFreeMdl) appends its handle to a log, so that every release can be
    accounted for. */
module Process {
  import opened Common
  import ListOp

  type MdlId = nat

  /** PROC_INFO: what the lifecycle callback reports and the client receives. */
  datatype ProcInfo = ProcInfo(parentId: nat, processId: nat, create: bool)

  /** PROCESS_T. The SystemVA field is never assigned and is left out. */
  datatype Record = Record(addr: nat, info: ProcInfo, mdl: Option<MdlId>)

  ghost function Pids(list: seq<Record>): set<nat>
  {
    set r | r in list :: r.info.processId
  }

  ghost predicate UniquePids(list: seq<Record>)
  {
    forall i, j :: 0 <= i < j < |list| ==> list[i].info.processId != list[j].info.processId
  }

  /** The record addresses in list order: what the Flink chain links. */
  function Addrs(list: seq<Record>): (a: seq<nat>)
    ensures |a| == |list|
    ensures forall i :: 0 <= i < |list| ==> a[i] == list[i].addr
  {
    if |list| == 0 then [] else [list[0].addr] + Addrs(list[1..])
  }

  /** The MDL a record holds, as a sequence of zero or one handle. */
  function Held(r: Record): seq<MdlId>
  {
    if r.mdl.Some? then [r.mdl.value] else []
  }

  /** The MDLs held by the records of `list`, in list order. */
  function Pinned(list: seq<Record>): seq<MdlId>
  {
    if |list| == 0 then [] else Held(list[0]) + Pinned(list[1..])
  }

  lemma {:induction false} PinnedAppend(a: seq<Record>, b: seq<Record>)
    ensures Pinned(a + b) == Pinned(a) + Pinned(b)
    decreases |a|
  {
    if |a| == 0 {
      assert a + b == b;
    } else {
      assert (a + b)[1..] == a[1..] + b;
      PinnedAppend(a[1..], b);
    }
  }

  /** A handle is pinned in a list exactly when some record of it holds it. */
  lemma {:induction false} PinnedMembers(list: seq<Record>, m: MdlId)
    ensures m in Pinned(list) <==> exists i :: 0 <= i < |list| && list[i].mdl == Some(m)
    decreases |list|
  {
    if |list| > 0 {
      PinnedMembers(list[1..], m);
      if exists i :: 0 <= i < |list[1..]| && list[1..][i].mdl == Some(m) {
        var i :| 0 <= i < |list[1..]| && list[1..][i].mdl == Some(m);
        assert list[i + 1].mdl == Some(m);
      }
      if exists i :: 0 <= i < |list| && list[i].mdl == Some(m) {
        var i :| 0 <= i < |list| && list[i].mdl == Some(m);
        if i > 0 {
          assert list[1..][i - 1].mdl == Some(m);
        }
      }
    }
  }

  /** PrcAlloc: NULL when the pool is exhausted (`ok` false); otherwise a
      zeroed record at the address `addr` carrying the event and no
      MDL. */
  function Alloc(addr: nat, parentId: nat, processId: nat, create: bool, ok: bool): (r: Option<Record>)
    ensures r.Some? <==> ok
    ensures r.Some? ==> r.value.addr == addr
    ensures r.Some? ==> r.value.info == ProcInfo(parentId, processId, create)
    ensures r.Some? ==> r.value.mdl.None?
  {
    if ok then Some(Record(addr, ProcInfo(parentId, processId, create), None)) else None
  }

  /** PrcFree: an attached MDL is unlocked and freed before the record
      itself goes back to the pool. Returns the extended release log. */
  function Free(r: Record, released: seq<MdlId>): (released': seq<MdlId>)
    ensures r.mdl.None? ==> released' == released
    ensures r.mdl.Some? ==> released' == released + [r.mdl.value]
  {
    released + Held(r)
  }

  /** PrcInsertProcess / LopInsertHeadSync: the record becomes the first
      element. The insertion cannot fail. */
  function InsertProcess(list: seq<Record>, r: Record): (list': seq<Record>)
    ensures |list'| == |list| + 1
    ensures list'[0] == r && list'[1..] == list
  {
    [r] + list
  }

  /** The pointer-level insertion performs exactly InsertProcess on the
      sequence of linked addresses. */
  lemma InsertProcessLinks(l: ListOp.Links, list: seq<Record>, r: Record)
    requires ListOp.Represents(l, Addrs(list))
    requires ListOp.Elem(r.addr) !in l.flink
    ensures ListOp.Represents(ListOp.InsertHead(l, r.addr, Addrs(list)), Addrs(InsertProcess(list, r)))
  {
    assert Addrs(InsertProcess(list, r)) == [r.addr] + Addrs(list);
  }

  /** PrcFindProcessId: the position of the first record from the head
      (the most recently inserted one) whose process id is `pid`, or None
      when no record has it. */
  function FindProcessId(list: seq<Record>, pid: nat): (r: Option<nat>)
    ensures r.None? <==> pid !in Pids(list)
    ensures r.Some? ==> r.value < |list| && list[r.value].info.processId == pid
    ensures r.Some? ==> forall j :: 0 <= j < r.value ==> list[j].info.processId != pid
  {
    if |list| == 0 then None
    else if list[0].info.processId == pid then Some(0)
    else match FindProcessId(list[1..], pid)
      case None => None
      case Some(i) => Some(i + 1)
  }

  /** What PrcRemoveProcessId hands back: the list afterwards, the unlinked
      record (None for NULL) and whether the checked-build assertion on the
      parent id held. */
  datatype Removal = Removal(rest: seq<Record>, removed: Option<Record>, parentOk: bool)

  /** PrcRemoveProcessId: unlinks the record FindProcessId finds and gives
      it to the caller, which must free it. An absent id returns NULL and
      leaves the list alone. When a parent id is supplied the stored one is
      asserted to equal it; a free build carries on either way. */
  function RemoveProcessId(list: seq<Record>, parentId: Option<nat>, pid: nat): (r: Removal)
    ensures r.removed.None? <==> pid !in Pids(list)
    ensures r.removed.None? ==> r.rest == list && r.parentOk
    ensures r.removed.Some? ==>
              var i := FindProcessId(list, pid).value;
              && r.removed.value == list[i]
              && r.rest == list[..i] + list[i + 1..]
    ensures r.removed.Some? ==> r.removed.value.info.processId == pid
    ensures r.removed.Some? ==> |r.rest| == |list| - 1
    ensures r.removed.Some? ==> multiset(r.rest) + multiset{r.removed.value} == multiset(list)
    ensures r.parentOk <==>
              (r.removed.Some? && parentId.Some? ==> r.removed.value.info.parentId == parentId.value)
  {
    match FindProcessId(list, pid)
    case None => Removal(list, None, true)
    case Some(i) =>
      assert list == list[..i] + [list[i]] + list[i + 1..];
      Removal(list[..i] + list[i + 1..], Some(list[i]),
              parentId.None? || list[i].info.parentId == parentId.value)
  }

  /** With unique ids, removing one leaves exactly the other ids. */
  lemma RemoveProcessIdPids(list: seq<Record>, parentId: Option<nat>, pid: nat)
    requires UniquePids(list)
    ensures UniquePids(RemoveProcessId(list, parentId, pid).rest)
    ensures Pids(RemoveProcessId(list, parentId, pid).rest) == Pids(list) - {pid}
  {
    var r := RemoveProcessId(list, parentId, pid);
    if r.removed.Some? {
      var i := FindProcessId(list, pid).value;
      PidsWithout(list, i);
    }
  }

  /** Dropping position i of a list with unique ids drops exactly its id. */
  lemma PidsWithout(list: seq<Record>, i: nat)
    requires UniquePids(list) && i < |list|
    ensures UniquePids(list[..i] + list[i + 1..])
    ensures Pids(list[..i] + list[i + 1..]) == Pids(list) - {list[i].info.processId}
  {
    var o := list[..i] + list[i + 1..];
    var pid := list[i].info.processId;
    assert forall k :: 0 <= k < |o| ==> o[k] == list[if k < i then k else k + 1];
    forall x | x in Pids(list) - {pid} ensures x in Pids(o) {
      var k :| 0 <= k < |list| && list[k].info.processId == x;
      assert o[if k < i then k else k - 1] == list[k];
    }
    forall x | x in Pids(o) ensures x in Pids(list) - {pid} {
      var k :| 0 <= k < |o| && o[k].info.processId == x;
      assert o[k] == list[if k < i then k else k + 1];
    }
  }

  /** The pointer-level RemoveEntryList of the found record performs exactly
      the removal RemoveProcessId describes on the sequence of addresses. */
  lemma RemoveProcessIdLinks(l: ListOp.Links, list: seq<Record>, parentId: Option<nat>, pid: nat)
    requires ListOp.Represents(l, Addrs(list))
    requires pid in Pids(list)
    ensures var i := FindProcessId(list, pid).value;
            ListOp.Represents(ListOp.RemoveEntry(l, list[i].addr, Addrs(list)),
                              Addrs(RemoveProcessId(list, parentId, pid).rest))
  {
    var i := FindProcessId(list, pid).value;
    assert RemoveProcessId(list, parentId, pid).rest == list[..i] + list[i + 1..];
    AddrsWithout(list, i);
    UnlinkAt(l, Addrs(list), i);
  }

  /** Dropping record i drops its address from the address sequence. */
  lemma AddrsWithout(list: seq<Record>, i: nat)
    requires i < |list|
    ensures Addrs(list[..i] + list[i + 1..]) == Addrs(list)[..i] + Addrs(list)[i + 1..]
  {
    var rest := list[..i] + list[i + 1..];
    var a := Addrs(list);
    forall k | 0 <= k < |a| - 1 ensures Addrs(rest)[k] == (a[..i] + a[i + 1..])[k] {
      RemovedIndex(list, i, k);
      RemovedIndex(a, i, k);
    }
  }

  /** RemoveEntry on the entry at position i. */
  lemma UnlinkAt(l: ListOp.Links, order: seq<nat>, i: nat)
    requires ListOp.Represents(l, order) && i < |order|
    ensures ListOp.Represents(ListOp.RemoveEntry(l, order[i], order), order[..i] + order[i + 1..])
  {
  }

  /** Inserting a record whose id is new and removing that id again is the
      identity on the list, and hands back the record. */
  lemma InsertThenRemove(list: seq<Record>, r: Record)
    requires r.info.processId !in Pids(list)
    ensures RemoveProcessId(InsertProcess(list, r), Some(r.info.parentId), r.info.processId)
            == Removal(list, Some(r), true)
  {
  }

  /** Lookups see the most recent insertion first. */
  lemma InsertThenFind(list: seq<Record>, r: Record)
    ensures FindProcessId(InsertProcess(list, r), r.info.processId) == Some(0)
  {
  }

  /** PrcRemoveHeadProcess: takes the first element, the most recently
      inserted record. The source has no empty check (on an empty list it
      would hand back the sentinel as a record), so the list must be
      non-empty. */
  function RemoveHead(list: seq<Record>): (r: (Record, seq<Record>))
    requires |list| > 0
    ensures [r.0] + r.1 == list
  {
    (list[0], list[1..])
  }

  /** Insert at the head and remove from the head are inverse: the list
      hands out the newest record first (a stack, not a queue). */
  lemma RemoveHeadAfterInsert(list: seq<Record>, r: Record)
    ensures RemoveHead(InsertProcess(list, r)) == (r, list)
  {
  }

  /** A list together with a release log, the result of the bulk operations. */
  datatype Bulk = Bulk(list: seq<Record>, released: seq<MdlId>)

  /** PrcFreeList: repeatedly unlinks the first record and frees it, which
      releases its MDL, until the list is empty. */
  function FreeList(list: seq<Record>, released: seq<MdlId>): (r: Bulk)
    ensures r.list == []
    ensures r.released == released + Pinned(list)
    decreases |list|
  {
    if |list| == 0 then Bulk([], released)
    else
      var taken := RemoveHead(list);
      var r := FreeList(taken.1, Free(taken.0, released));
      FreeListStep(list, released, r.released);
      r
  }

  /** Freeing the head and then the rest releases what the whole list pins. */
  lemma FreeListStep(list: seq<Record>, released: seq<MdlId>, out: seq<MdlId>)
    requires |list| > 0
    requires out == Free(list[0], released) + Pinned(list[1..])
    ensures out == released + Pinned(list)
  {
    var held, rest := Held(list[0]), Pinned(list[1..]);
    assert Free(list[0], released) == released + held;
    assert Pinned(list) == held + rest;
    AppendAssociates(released, held, rest);
  }

  /** PrcUnlockMdlList: walks the list once, releasing and clearing every
      attached MDL. The records, their order and their Info stay. */
  function UnlockMdlList(list: seq<Record>, released: seq<MdlId>): (r: Bulk)
    ensures |r.list| == |list|
    ensures forall i :: 0 <= i < |list| ==>
              r.list[i].addr == list[i].addr && r.list[i].info == list[i].info && r.list[i].mdl.None?
    ensures Pinned(r.list) == []
    ensures r.released == released + Pinned(list)
    decreases |list|
  {
    if |list| == 0 then Bulk([], released)
    else
      var tail := UnlockMdlList(list[1..], Free(list[0], released));
      Bulk([list[0].(mdl := None)] + tail.list, tail.released)
  }

  /** Unpinning twice releases nothing the second time. */
  lemma UnlockMdlListIdempotent(list: seq<Record>, released: seq<MdlId>)
    ensures var once := UnlockMdlList(list, released);
            UnlockMdlList(once.list, once.released) == once
  {
    var once := UnlockMdlList(list, released);
    var twice := UnlockMdlList(once.list, once.released);
    assert twice.list == once.list;
  }
}
