/** The sentinel-headed circular doubly linked list of ListOp.h and ListOp.c,
    at the level of its Flink and Blink pointers.

    An entry is either the `Head` sentinel embedded in LIST_T or the list
    entry embedded in a record, which is named by the record's address.
    `Represents(l, order)` relates the pointer structure to the sequence of
    record addresses read along Flink from the sentinel; every operation is
    proved to act on that sequence as the record layer assumes. The spin
    lock is not modelled: each operation is one atomic step. */
module ListOp {
  import opened Common


  datatype Entry = Sentinel | Elem(addr: nat)

  /** The Flink and Blink fields of every entry linked into one list,
      the sentinel included. */
  datatype Links = Links(flink: map<Entry, Entry>, blink: map<Entry, Entry>)

  /** The entry Flink reaches from the sentinel: the first element, or the
      sentinel itself when there is none. */
  function First(order: seq<nat>): Entry
  {
    if |order| == 0 then Sentinel else Elem(order[0])
  }

  /** The entry Blink reaches from the sentinel. */
  function Last(order: seq<nat>): Entry
  {
    if |order| == 0 then Sentinel else Elem(order[|order| - 1])
  }

  /** The entry after position `i`; the list closes back on the sentinel. */
  function After(order: seq<nat>, i: nat): Entry
    requires i < |order|
  {
    if i + 1 < |order| then Elem(order[i + 1]) else Sentinel
  }

  /** The entry before position `i`. */
  function Before(order: seq<nat>, i: nat): Entry
    requires i < |order|
  {
    if i == 0 then Sentinel else Elem(order[i - 1])
  }

  ghost predicate Distinct(order: seq<nat>)
  {
    forall i, j :: 0 <= i < j < |order| ==> order[i] != order[j]
  }

  /** The entries linked into a list holding `order`: the sentinel and one
      entry per element. */
  ghost predicate Linked(order: seq<nat>, e: Entry)
  {
    e == Sentinel || e.addr in order
  }

  /** Exactly the entries of a list holding `order` have a link in `m`. */
  ghost predicate Domain(m: map<Entry, Entry>, order: seq<nat>)
  {
    forall e :: e in m <==> Linked(order, e)
  }

  /** Flink leads from the sentinel through `order` and back to the sentinel. */
  ghost predicate Forward(flink: map<Entry, Entry>, order: seq<nat>)
    requires Domain(flink, order)
  {
    && flink[Sentinel] == First(order)
    && forall i {:trigger flink[Elem(order[i])]} ::
         0 <= i < |order| ==> flink[Elem(order[i])] == After(order, i)
  }

  /** Blink walks the same ring the other way round. */
  ghost predicate Backward(blink: map<Entry, Entry>, order: seq<nat>)
    requires Domain(blink, order)
  {
    && blink[Sentinel] == Last(order)
    && forall i {:trigger blink[Elem(order[i])]} ::
         0 <= i < |order| ==> blink[Elem(order[i])] == Before(order, i)
  }

  /** `l` is a well-formed circular list whose elements, read along Flink
      from the sentinel, are `order`, each exactly once. */
  ghost predicate Represents(l: Links, order: seq<nat>)
  {
    && Distinct(order)
    && Domain(l.flink, order)
    && Domain(l.blink, order)
    && Forward(l.flink, order)
    && Backward(l.blink, order)
  }

  /** LopInit: InitializeListHead points both links of the sentinel back at
      itself, which is the empty list. */
  function Init(): (l: Links)
    ensures Represents(l, [])
    ensures forall order :: Represents(l, order) ==> order == []
  {
    Links(map[Sentinel := Sentinel], map[Sentinel := Sentinel])
  }

  /** LopIsListEmpty: the sentinel's Flink points at the sentinel. */
  function IsEmpty(l: Links, ghost order: seq<nat>): (b: bool)
    requires Represents(l, order)
    ensures b <==> |order| == 0
  {
    l.flink[Sentinel] == Sentinel
  }

  /** LopListBegin: the sentinel's Flink. */
  function Begin(l: Links, ghost order: seq<nat>): (e: Entry)
    requires Represents(l, order)
    ensures |order| == 0 ==> e == Sentinel
    ensures |order| > 0 ==> e == Elem(order[0])
  {
    l.flink[Sentinel]
  }

  /** LopListEnd: the sentinel's Blink. */
  function End(l: Links, ghost order: seq<nat>): (e: Entry)
    requires Represents(l, order)
    ensures |order| == 0 ==> e == Sentinel
    ensures |order| > 0 ==> e == Elem(order[|order| - 1])
  {
    l.blink[Sentinel]
  }

  /** LopEntryNext: an entry's Flink. */
  function EntryNext(l: Links, e: Entry, ghost order: seq<nat>): (n: Entry)
    requires Represents(l, order)
    requires e in l.flink
    ensures e == Sentinel ==> n == First(order)
    ensures forall i :: 0 <= i < |order| && e == Elem(order[i]) ==>
              n == (if i + 1 < |order| then Elem(order[i + 1]) else Sentinel)
  {
    l.flink[e]
  }

  /** LopInsertHeadSync (InsertHeadList): links the unlinked entry `addr`
      between the sentinel and the old first element. */
  function InsertHead(l: Links, addr: nat, ghost order: seq<nat>): (l': Links)
    requires Represents(l, order)
    requires Elem(addr) !in l.flink
    ensures Represents(l', [addr] + order)
  {
    var first := l.flink[Sentinel];
    var l' := Links(l.flink[Elem(addr) := first][Sentinel := Elem(addr)],
                    l.blink[Elem(addr) := Sentinel][first := Elem(addr)]);
    InsertHeadRepresents(l, addr, order, l');
    l'
  }

  lemma InsertHeadRepresents(l: Links, addr: nat, order: seq<nat>, l': Links)
    requires Represents(l, order)
    requires Elem(addr) !in l.flink
    requires l' == Links(l.flink[Elem(addr) := l.flink[Sentinel]][Sentinel := Elem(addr)],
                         l.blink[Elem(addr) := Sentinel][l.flink[Sentinel] := Elem(addr)])
    ensures Represents(l', [addr] + order)
  {
    var o := [addr] + order;
    assert !Linked(order, Elem(addr));
    InsertedLinked(order, addr);
    forall i | 0 <= i < |o|
      ensures l'.flink[Elem(o[i])] == After(o, i)
      ensures l'.blink[Elem(o[i])] == Before(o, i)
    {
      InsertedAt(l, addr, order, l', i);
    }
  }

  /** Putting a new address in front keeps the elements distinct and links
      exactly one more entry. */
  lemma InsertedLinked(order: seq<nat>, addr: nat)
    requires Distinct(order) && !Linked(order, Elem(addr))
    ensures Distinct([addr] + order)
    ensures forall e :: Linked([addr] + order, e) <==> (Linked(order, e) || e == Elem(addr))
  {
    var o := [addr] + order;
    forall a, b | 0 <= a < b < |o| ensures o[a] != o[b] {
      assert o[b] == order[b - 1];
      if a > 0 {
        assert o[a] == order[a - 1];
      }
    }
    forall e ensures Linked(o, e) <==> (Linked(order, e) || e == Elem(addr)) {
      if e.Elem? && e.addr in o && e.addr != addr {
        var k :| 0 <= k < |o| && o[k] == e.addr;
        assert order[k - 1] == e.addr;
      }
      if e.Elem? && e.addr in order {
        var k :| 0 <= k < |order| && order[k] == e.addr;
        assert o[k + 1] == e.addr;
      }
    }
  }

  /** InsertHeadRepresents at one position of the new order. */
  lemma InsertedAt(l: Links, addr: nat, order: seq<nat>, l': Links, i: nat)
    requires Represents(l, order)
    requires Elem(addr) !in l.flink
    requires l' == Links(l.flink[Elem(addr) := l.flink[Sentinel]][Sentinel := Elem(addr)],
                         l.blink[Elem(addr) := Sentinel][l.flink[Sentinel] := Elem(addr)])
    requires i <= |order|
    ensures l'.flink[Elem(([addr] + order)[i])] == After([addr] + order, i)
    ensures l'.blink[Elem(([addr] + order)[i])] == Before([addr] + order, i)
  {
    var o := [addr] + order;
    if i > 0 {
      assert o[i] == order[i - 1];
      assert Linked(order, Elem(o[i]));
      if i < |order| {
        assert o[i + 1] == order[i];
      }
    } else if |order| > 0 {
      assert o[1] == order[0];
    }
  }

  /** RemoveEntryList: joins the neighbours of the entry `addr`, which leaves
      the list. */
  function RemoveEntry(l: Links, addr: nat, ghost order: seq<nat>): (l': Links)
    requires Represents(l, order)
    requires addr in order
    ensures Elem(addr) !in l'.flink
    ensures forall i :: 0 <= i < |order| && order[i] == addr ==>
              Represents(l', order[..i] + order[i + 1..])
  {
    var e := Elem(addr);
    var next := l.flink[e];
    var prev := l.blink[e];
    var l' := Links(l.flink[prev := next] - {e}, l.blink[next := prev] - {e});
    forall i | 0 <= i < |order| && order[i] == addr
      ensures Represents(l', order[..i] + order[i + 1..])
    {
      RemoveEntryRepresents(l, order, i, l');
    }
    l'
  }

  lemma RemoveEntryRepresents(l: Links, order: seq<nat>, i: nat, l': Links)
    requires Represents(l, order)
    requires i < |order|
    requires l' == Links(l.flink[l.blink[Elem(order[i])] := l.flink[Elem(order[i])]] - {Elem(order[i])},
                         l.blink[l.flink[Elem(order[i])] := l.blink[Elem(order[i])]] - {Elem(order[i])})
    ensures Represents(l', order[..i] + order[i + 1..])
  {
    var o := order[..i] + order[i + 1..];
    assert l.flink[Elem(order[i])] == After(order, i);
    assert l.blink[Elem(order[i])] == Before(order, i);
    RemovedLinked(order, i);
    RemovedDomain(l.flink, order, i, l'.flink);
    RemovedDomain(l.blink, order, i, l'.blink);
    RemovedForward(l.flink, order, i, l'.flink);
    RemovedBackward(l.blink, order, i, l'.blink);
  }

  /** Removing position `i` keeps the remaining elements distinct and drops
      exactly the removed entry. */
  lemma RemovedLinked(order: seq<nat>, i: nat)
    requires Distinct(order)
    requires i < |order|
    ensures Distinct(order[..i] + order[i + 1..])
    ensures forall e :: Linked(order[..i] + order[i + 1..], e) <==> (Linked(order, e) && e != Elem(order[i]))
  {
    var o := order[..i] + order[i + 1..];
    forall a, b | 0 <= a < b < |o| ensures o[a] != o[b] {
      RemovedIndex(order, i, a);
      RemovedIndex(order, i, b);
    }
    forall e ensures Linked(o, e) <==> (Linked(order, e) && e != Elem(order[i])) {
      if e.Elem? && e.addr in o {
        var k :| 0 <= k < |o| && o[k] == e.addr;
        RemovedIndex(order, i, k);
      }
      if e.Elem? && e.addr in order && e != Elem(order[i]) {
        var k :| 0 <= k < |order| && order[k] == e.addr;
        RemovedIndex(order, i, if k < i then k else k - 1);
      }
    }
  }

  lemma RemovedDomain(m: map<Entry, Entry>, order: seq<nat>, i: nat, m': map<Entry, Entry>)
    requires Domain(m, order)
    requires i < |order|
    requires forall e :: Linked(order[..i] + order[i + 1..], e) <==> (Linked(order, e) && e != Elem(order[i]))
    requires forall e :: e in m' <==> (e in m && e != Elem(order[i]))
    ensures Domain(m', order[..i] + order[i + 1..])
  {
  }

  lemma RemovedForward(flink: map<Entry, Entry>, order: seq<nat>, i: nat, flink': map<Entry, Entry>)
    requires Distinct(order)
    requires Domain(flink, order) && Forward(flink, order)
    requires i < |order|
    requires flink' == flink[Before(order, i) := After(order, i)] - {Elem(order[i])}
    requires Domain(flink', order[..i] + order[i + 1..])
    ensures Forward(flink', order[..i] + order[i + 1..])
  {
    var o := order[..i] + order[i + 1..];
    forall k | 0 <= k < |o| ensures flink'[Elem(o[k])] == After(o, k) {
      RemovedIndex(order, i, k);
      var k' := if k < i then k else k + 1;
      assert flink[Elem(order[k'])] == After(order, k');
      if k + 1 < |o| {
        RemovedIndex(order, i, k + 1);
      }
    }
  }

  lemma RemovedBackward(blink: map<Entry, Entry>, order: seq<nat>, i: nat, blink': map<Entry, Entry>)
    requires Distinct(order)
    requires Domain(blink, order) && Backward(blink, order)
    requires i < |order|
    requires blink' == blink[After(order, i) := Before(order, i)] - {Elem(order[i])}
    requires Domain(blink', order[..i] + order[i + 1..])
    ensures Backward(blink', order[..i] + order[i + 1..])
  {
    var o := order[..i] + order[i + 1..];
    forall k | 0 <= k < |o| ensures blink'[Elem(o[k])] == Before(o, k) {
      RemovedBackwardAt(blink, order, i, blink', k);
    }
    RemovedLast(blink, order, i, blink');
  }

  /** After unlinking position `i` the sentinel's Blink is the new last element. */
  lemma RemovedLast(blink: map<Entry, Entry>, order: seq<nat>, i: nat, blink': map<Entry, Entry>)
    requires Domain(blink, order) && blink[Sentinel] == Last(order)
    requires i < |order|
    requires blink' == blink[After(order, i) := Before(order, i)] - {Elem(order[i])}
    ensures Sentinel in blink' && blink'[Sentinel] == Last(order[..i] + order[i + 1..])
  {
    var o := order[..i] + order[i + 1..];
    if i + 1 < |order| {
      RemovedIndex(order, i, |o| - 1);
    } else if i > 0 {
      RemovedIndex(order, i, i - 1);
    }
  }

  /** RemovedBackward at one remaining position `k`. */
  lemma RemovedBackwardAt(blink: map<Entry, Entry>, order: seq<nat>, i: nat, blink': map<Entry, Entry>, k: nat)
    requires Distinct(order)
    requires Domain(blink, order) && Backward(blink, order)
    requires i < |order| && k < |order| - 1
    requires blink' == blink[After(order, i) := Before(order, i)] - {Elem(order[i])}
    requires Domain(blink', order[..i] + order[i + 1..])
    ensures blink'[Elem((order[..i] + order[i + 1..])[k])] == Before(order[..i] + order[i + 1..], k)
  {
    var o := order[..i] + order[i + 1..];
    var k' := if k < i then k else k + 1;
    RemovedIndex(order, i, k);
    assert o[k] == order[k'];
    assert order[k'] != order[i];
    assert blink[Elem(order[k'])] == Before(order, k');
    if k > 0 {
      RemovedIndex(order, i, k - 1);
    }
  }

  /** The traversal loop of PrcFindProcessId and PrcUnlockMdlList: starting
      at LopListBegin and following LopEntryNext until the sentinel visits
      every element once, in Flink order, in exactly |order| steps. */
  method Traverse(l: Links, ghost order: seq<nat>) returns (visited: seq<nat>)
    requires Represents(l, order)
    ensures visited == order
  {
    visited := [];
    var e := Begin(l, order);
    while e != Sentinel
      invariant |visited| <= |order|
      invariant visited == order[..|visited|]
      invariant e == (if |visited| < |order| then Elem(order[|visited|]) else Sentinel)
      decreases |order| - |visited|
    {
      assert Linked(order, e);
      visited := visited + [e.addr];
      e := EntryNext(l, e, order);
    }
  }
}
