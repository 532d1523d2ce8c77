/** The asyncns context as the code keeps it: an array of query objects, a wrapping id
    counter and a doubly linked list of finished queries, each operation proved against
    the value-level client. */
module AsyncNs {
  import opened Wrappers
  import opened Bytes
  import opened AddrInfos
  import opened Datagram
  import opened Lookups
  import opened Client
  import opened Framing
  import opened ReceiveLoop
  import AddrCodec

  class AsyncQuery {
    var done: bool
    var id: Word32
    var kind: Word32
    var next: AsyncQuery?
    var prev: AsyncQuery?
    var status: Status
    var addrinfo: AddrInfo?
    var host: Option<seq<Byte>>
    var serv: Option<seq<Byte>>

    /** The nodes of the address list, and what they hold. */
    ghost var chain: seq<AddrInfo>
    ghost var addrs: seq<AddrNode>

    constructor (id: Word32, kind: Word32)
      ensures this.id == id && this.kind == kind && !done && next == null && prev == null
      ensures addrinfo == null && chain == [] && addrs == []
    {
      this.id, this.kind, done := id, kind, false;
      next, prev := null, null;
      status, addrinfo, host, serv := Status(0, 0, 0), null, None, None;
      chain, addrs := [], [];
    }

    /** The answer the fields of a finished query hold. */
    ghost function Stored(): Answer
      reads this`kind, this`status, this`addrs, this`host, this`serv
    {
      if kind == REQUEST_ADDRINFO then AddrAnswer(status, addrs)
      else if kind == REQUEST_NAMEINFO then NameAnswer(status, host, serv)
      else ResAnswer(status, if serv.Some? then serv.value else [])
    }

    ghost predicate Represents(v: Query)
      reads this`id, this`done, this`kind, this`status, this`addrs, this`host, this`serv
    {
      && id == Id(v.tick) && kind == RequestKind(v.lookup)
      && done == v.answer.Some?
      && (done ==> Stored() == v.answer.value && ResKept() && NormalAnswer(Stored()))
    }

    ghost predicate ListKept()
      reads this`addrinfo, this`chain, this`addrs, chain
    {
      Chain(addrinfo, chain) && Contents(chain) == addrs
    }

    /** The answer of a resolver query is kept exactly when the query succeeded. */
    predicate ResKept()
      reads this`kind, this`status, this`serv
    {
      kind != REQUEST_ADDRINFO && kind != REQUEST_NAMEINFO ==> (serv.Some? <==> status.ret >= 0)
    }
  }

  const EAI_SYSTEM: Int32 := -11
  const EAI_AGAIN: Int32 := -3
  const ECHILD: Int32 := 10
  const EAGAIN: Int32 := 11

  /** strncpy into a buffer of n bytes whose last byte is then cleared: a C string of at most
      n - 1 characters. */
  function Truncated(str: seq<Byte>, n: nat): (r: seq<Byte>)
    requires n > 0 && IsCString(str)
    ensures IsCString(r) && |r| == (if |str| <= n then |str| else n)
    ensures forall i :: 0 <= i < |r| - 1 ==> r[i] == str[i]
  {
    if |str| <= n then str else str[..n - 1] + [0]
  }

  /** The name a caller with a buffer of `len` bytes gets to see. */
  function Shown(name: Option<seq<Byte>>, len: Option<nat>): Option<seq<Byte>>
    requires len != Some(0)
  {
    if len.Some? && name.Some? && IsCString(name.value) then Some(Truncated(name.value, len.value)) else None
  }

  /** A buffer of size n gets the name if there is one: all of it if it fits, else its first n - 1
      characters, and a terminating zero either way. */
  lemma ShownName(name: seq<Byte>, n: nat)
    requires IsCString(name) && n > 0
    ensures var r := Shown(Some(name), Some(n));
            && r.Some? && |r.value| <= n && IsCString(r.value)
            && (|name| <= n ==> r.value == name)
            && (|name| > n ==> r.value[..|r.value| - 1] == name[..n - 1])
    ensures Shown(None, Some(n)) == None && Shown(Some(name), None) == None
  {
  }

  /** The done list: from head to tail through next, and back through prev. */
  ghost predicate Links(order: seq<AsyncQuery>, head: AsyncQuery?, tail: AsyncQuery?)
    reads order`next, order`prev
  {
    && (forall j, k :: 0 <= j < k < |order| ==> order[j] != order[k])
    && head == (if order == [] then null else order[0])
    && tail == (if order == [] then null else order[|order| - 1])
    && (forall k {:trigger order[k].prev} :: 0 <= k < |order| ==>
          order[k].prev == if k == 0 then null else order[k - 1])
    && (forall k {:trigger order[k].next} :: 0 <= k < |order| ==>
          order[k].next == if k == |order| - 1 then null else order[k + 1])
  }

  /** Slot i is empty or holds the query object for entry i of the table, and exactly the
      objects in the slots are live; a query's id names its slot. */
  ghost predicate Slots(queries: array<AsyncQuery?>, table: seq<Option<Query>>, live: set<AsyncQuery>)
    reads queries, live`id, live`done, live`kind, live`status, live`addrs, live`host, live`serv
  {
    && queries.Length == SLOTS && |table| == SLOTS
    && (forall i :: 0 <= i < SLOTS ==> (queries[i] == null <==> table[i].None?))
    && (forall i :: 0 <= i < SLOTS && queries[i] != null ==>
          queries[i] in live && queries[i].id % SLOTS == i && queries[i].Represents(table[i].value))
    && (forall q :: q in live ==> queries[q.id % SLOTS] == q)
  }

  /** Every query has its own address list, made of the given nodes. */
  ghost predicate Lists(live: set<AsyncQuery>, nodes: set<AddrInfo>)
    reads live`addrinfo, live`chain, live`addrs, nodes
  {
    && (forall q, n :: q in live && n in q.chain ==> n in nodes)
    && (forall q :: q in live ==> q.ListKept())
    && (forall p, q :: p in live && q in live && p != q ==> Apart(p.chain, q.chain))
  }

  ghost predicate Apart(xs: seq<AddrInfo>, ys: seq<AddrInfo>) {
    forall n :: n in xs ==> n !in ys
  }

  ghost predicate Finished(queries: array<AsyncQuery?>, finished: seq<nat>, order: seq<AsyncQuery>)
    reads queries
  {
    && queries.Length == SLOTS && |order| == |finished|
    && (forall k :: 0 <= k < |order| ==> finished[k] < SLOTS && queries[finished[k]] == order[k])
  }

  class Context {
    var queries: array<AsyncQuery?>
    var currentId: Word32
    var currentIndex: nat
    var nQueries: nat
    var dead: bool
    var doneHead: AsyncQuery?
    var doneTail: AsyncQuery?

    /** The value this object stands for, the objects in its slots, and the done list. */
    ghost var s: State
    ghost var live: set<AsyncQuery>
    ghost var order: seq<AsyncQuery>
    /** The nodes of the address lists its queries hold. */
    ghost var nodes: set<AddrInfo>

    ghost predicate Valid()
      reads this, queries, live, order, nodes
    {
      Table() && Lists(live, nodes)
    }

    /** Slots, counters and done list are those of the value. */
    ghost predicate Table()
      reads this`queries, this`currentId, this`currentIndex, this`nQueries, this`dead, this`doneHead, this`doneTail
      reads this`s, this`live, this`order, queries, live, order
    {
      && Client.Valid(s)
      && Slots(queries, s.table, live) && Finished(queries, s.finished, order) && Links(order, doneHead, doneTail)
      && currentId == Id(s.tick) && currentIndex == Slot(s.tick)
      && nQueries == s.count && dead == s.dead
    }

    constructor ()
      ensures Valid() && s == FRESH && fresh(queries) && live == {} && nodes == {}
    {
      queries := new AsyncQuery?[SLOTS](_ => null);
      currentId, currentIndex, nQueries, dead := 0, 0, 0, false;
      doneHead, doneTail := null, null;
      s, live, order, nodes := FRESH, {}, [], {};
      new;
      FreshValid();
    }

    /** complete_query's list work. */
    method LinkLast(q: AsyncQuery)
      requires Links(order, doneHead, doneTail) && q !in order
      modifies this`doneHead, this`doneTail, this`order, order`next, q`next, q`prev
      ensures Links(order, doneHead, doneTail) && order == old(order) + [q]
    {
      q.prev := doneTail;
      if doneTail != null {
        doneTail.next := q;
      } else {
        doneHead := q;
      }
      doneTail := q;
      q.next := null;
      order := order + [q];
    }

    /** asyncns_cancel's list work. */
    method Unlink(q: AsyncQuery, ghost k: nat)
      requires Links(order, doneHead, doneTail) && k < |order| && order[k] == q
      modifies this`doneHead, this`doneTail, this`order, order`next, order`prev
      ensures Links(order, doneHead, doneTail) && order == old(order)[..k] + old(order)[k + 1..]
    {
      if q.prev != null {
        q.prev.next := q.next;
      } else {
        doneHead := q.next;
      }
      if q.next != null {
        q.next.prev := q.prev;
      } else {
        doneTail := q.prev;
      }
      ghost var was := order;
      order := order[..k] + order[k + 1..];
      assert forall j :: 0 <= j < k ==> order[j] == was[j];
      assert forall j :: k <= j < |order| ==> order[j] == was[j + 1];
    }

    // ----- finding a slot, finding a query

    /** The search loop of alloc_query: it stops at the cyclically first free slot. The inner
        loop is the wrap-around of the index; the id wraps around on its own. */
    method FindSlot()
      requires queries.Length == SLOTS && |s.table| == SLOTS && Occupied(s.table) < SLOTS
      requires forall i :: 0 <= i < SLOTS ==> (queries[i] == null <==> s.table[i].None?)
      requires currentIndex == Slot(s.tick) && currentId == Id(s.tick)
      modifies this`currentIndex, this`currentId
      ensures var t := s.tick + Advance(s.table, s.tick, 0); currentIndex == Slot(t) && currentId == Id(t)
    {
      hide Occupied, Slot, Id, Advance;
      ghost var d := 0;
      AdvanceFindsFree(s.table, s.tick);
      while queries[currentIndex] != null
        invariant d < SLOTS && currentIndex == Slot(s.tick + d) && currentId == Id(s.tick + d)
        invariant Advance(s.table, s.tick, 0) == Advance(s.table, s.tick, d)
        decreases SLOTS - d
      {
        CounterStep(s.tick + d);
        AdvanceStep(s.table, s.tick, d);
        currentIndex, currentId := currentIndex + 1, (currentId + 1) % 0x1_0000_0000;
        while currentIndex >= SLOTS
          invariant currentIndex == Slot(s.tick + d + 1) || currentIndex == SLOTS == Slot(s.tick + d) + 1
          invariant currentId == Id(s.tick + d + 1)
        {
          currentIndex := currentIndex - SLOTS;
        }
        d := d + 1;
      }
      AdvanceStep(s.table, s.tick, d);
    }

    /** alloc_query, with the type its caller stores right after. */
    method AllocQuery(lookup: Lookup, memory: bool) returns (q: AsyncQuery?)
      requires Valid()
      modifies this, queries
      ensures Valid() && s == Alloc(old(s), lookup, memory)
      ensures q != null <==> old(s).count < SLOTS && memory
      ensures q != null ==> fresh(q) && queries[Slot(s.tick)] == q && live == old(live) + {q}
      ensures q == null ==> live == old(live)
      ensures queries == old(queries) && nodes == old(nodes)
    {
      hide Table, Lists, Alloc;
      q := FillSlot(lookup, memory);
      if q != null {
        ListsAdd(old(live), q);
      }
    }

    method FillSlot(lookup: Lookup, memory: bool) returns (q: AsyncQuery?)
      requires Table()
      modifies this`s, this`live, this`currentId, this`currentIndex, this`nQueries, queries
      ensures Table() && s == Alloc(old(s), lookup, memory) && queries.Length == SLOTS
      ensures q != null ==> q.addrinfo == null && q.chain == [] && q.addrs == []
      ensures q != null <==> old(s).count < SLOTS && memory
      ensures q != null ==> fresh(q) && queries[Slot(s.tick)] == q && live == old(live) + {q}
      ensures q == null ==> live == old(live)
    {
      hide Client.Valid, Lists, Links, Slots, Finished, Occupied, Advance, Slot, Id;
      NullSlots();
      AllocValid(s, lookup, memory);
      if nQueries >= SLOTS {
        return null;
      }
      AdvanceFindsFree(s.table, s.tick);
      FindSlot();
      ghost var s' := Alloc(s, lookup, memory);
      SlotOfId(s'.tick);
      if !memory {
        s := s';
        return null;
      }
      q := new AsyncQuery(currentId, RequestKind(lookup));
      AddSlot(q, s'.table[currentIndex].value);
      nQueries := nQueries + 1;
      s, live := s', live + {q};
    }

    lemma ListsAdd(live: set<AsyncQuery>, q: AsyncQuery)
      requires Lists(live, nodes) && q.addrinfo == null && q.chain == [] && q.addrs == []
      ensures Lists(live + {q}, nodes)
    {
      assert q.ListKept();
    }

    lemma ListsFewer(fewerNodes: set<AddrInfo>)
      requires Lists(live, nodes) && fewerNodes <= nodes
      requires forall q, n :: q in live && n in q.chain ==> n in fewerNodes
      ensures Lists(live, fewerNodes)
    {
    }

    lemma NullSlots()
      requires Table()
      ensures queries.Length == SLOTS && |s.table| == SLOTS && s.count == Occupied(s.table)
      ensures forall i :: 0 <= i < SLOTS ==> (queries[i] == null <==> s.table[i].None?)
    {
    }

    method AddSlot(q: AsyncQuery, ghost v: Query)
      requires Slots(queries, s.table, live) && Finished(queries, s.finished, order)
      requires q !in live && q.Represents(v) && q.id % SLOTS == currentIndex < SLOTS && queries[currentIndex] == null
      modifies queries
      ensures Slots(queries, s.table[currentIndex := Some(v)], live + {q}) && Finished(queries, s.finished, order)
      ensures queries[currentIndex] == q
    {
      queries[currentIndex] := q;
    }

    // ----- cancelling

    lemma SlotOf(q: AsyncQuery)
      requires Table() && q in live
      ensures var i := q.id % SLOTS;
              Live(s, i) && queries[i] == q && q.Represents(s.table[i].value) && s.count > 0 && dead == s.dead
    {
      LiveCounted(s, q.id % SLOTS);
    }

    lemma ValidValue()
      requires Table()
      ensures Client.Valid(s)
    {
    }

    /** Where a finished query stands in the done list. */
    lemma PlaceOf(q: AsyncQuery) returns (k: nat)
      requires Table() && q in live
      ensures q.done ==> k < |order| == |s.finished| && order[k] == q
      ensures q.done ==> Without(s.finished, q.id % SLOTS) == s.finished[..k] + s.finished[k + 1..]
      ensures !q.done ==> q !in order && Without(s.finished, q.id % SLOTS) == s.finished
    {
      hide Occupied, ValidQuery, Links, Without;
      var i := q.id % SLOTS;
      SlotOf(q);
      k := 0;
      if q.done {
        assert Completed(s.table, i);
        k :| 0 <= k < |s.finished| && s.finished[k] == i;
        WithoutAt(s.finished, k);
      } else {
        assert i !in s.finished;
        WithoutAbsent(s.finished, i);
        forall j | 0 <= j < |order|
          ensures order[j] != q
        {
          assert Completed(s.table, s.finished[j]);
        }
      }
    }

    /** The done list holds live queries only, each in the slot the value says. */
    lemma OrderIsLive()
      requires Table()
      ensures forall q :: q in order ==> q in live
      ensures |order| == |s.finished|
    {
    }

    /** The slots and the list once the query at slot i is in neither. */
    method ClearSlot(q: AsyncQuery, ghost finished: seq<nat>)
      requires Slots(queries, s.table, live) && q in live
      requires |order| == |finished| && q !in order
      requires forall k :: 0 <= k < |order| ==> finished[k] < SLOTS && queries[finished[k]] == order[k]
      modifies queries
      ensures Slots(queries, s.table[q.id % SLOTS := None], live - {q}) && Finished(queries, finished, order)
    {
      queries[q.id % SLOTS] := null;
    }

    lemma CutFinished(k: nat)
      requires Table() && k < |order| == |s.finished|
      ensures var f, r := s.finished[..k] + s.finished[k + 1..], order[..k] + order[k + 1..];
              && |r| == |f| && order[k] !in r && queries.Length == SLOTS
              && forall j :: 0 <= j < |r| ==> f[j] < SLOTS && queries[f[j]] == r[j]
    {
      hide Client.Valid, Lists, Slots;
    }

    /** The first half of asyncns_cancel: a finished query leaves the done list. */
    method Detach(q: AsyncQuery)
      requires Table() && q in live
      modifies this`doneHead, this`doneTail, this`order, live`next, live`prev
      ensures Slots(queries, s.table, live) && Links(order, doneHead, doneTail)
      ensures var finished := Without(s.finished, q.id % SLOTS);
              && |order| == |finished| && q !in order && queries.Length == SLOTS
              && forall k :: 0 <= k < |order| ==> finished[k] < SLOTS && queries[finished[k]] == order[k]
    {
      hide Client.Valid, Lists, Links, Slots, Finished, Without;
      OrderIsLive();
      ghost var k := PlaceOf(q);
      if q.done {
        CutFinished(k);
        Unlink(q, k);
      } else {
        FinishedSlots();
      }
    }

    /** asyncns_cancel: out of the done list if it is there, out of its slot. */
    method Cancel(q: AsyncQuery)
      requires Valid() && q in live
      modifies this, queries, live`next, live`prev
      ensures old(s).count > 0 && old(q.id) % SLOTS < |old(s).table| && s == Remove(old(s), old(q.id) % SLOTS)
      ensures Valid() && live == old(live) - {q} && queries == old(queries) && nodes == old(nodes)
    {
      hide Table, Lists, Remove;
      EmptySlot(q);
      ListsWithout(old(live), q);
    }

    method EmptySlot(q: AsyncQuery)
      requires Table() && q in live
      modifies this`s, this`live, this`nQueries, this`doneHead, this`doneTail, this`order, queries, live`next, live`prev
      ensures old(s).count > 0 && old(q.id) % SLOTS < |old(s).table| && s == Remove(old(s), old(q.id) % SLOTS)
      ensures Table() && live == old(live) - {q}
    {
      hide Client.Valid, Lists, Links, Slots, Occupied, Without, Finished;
      ghost var i := q.id % SLOTS;
      SlotOf(q);
      RemoveValid(s, i);
      Detach(q);
      ClearSlot(q, Without(s.finished, i));
      nQueries := nQueries - 1;
      s, live := Remove(s, i), live - {q};
    }

    lemma ListsWithout(live: set<AsyncQuery>, q: AsyncQuery)
      requires Lists(live, nodes)
      ensures Lists(live - {q}, nodes)
    {
    }

    lemma FinishedSlots()
      requires Table()
      ensures |order| == |s.finished| && queries.Length == SLOTS
      ensures forall k :: 0 <= k < |order| ==> s.finished[k] < SLOTS && queries[s.finished[k]] == order[k]
    {
    }

    // ----- responses

    /** lookup_query. */
    method LookupQuery(id: Word32) returns (q: AsyncQuery?)
      requires Valid()
      ensures var i := id % SLOTS;
              && |s.table| == SLOTS
              && (q != null <==> s.table[i].Some? && Id(s.table[i].value.tick) == id)
              && (q != null ==> q in live && q.id == id && queries[i] == q)
    {
      hide Client.Valid, Lists, Links, Finished;
      q := queries[id % SLOTS];
      if q != null && q.id == id {
        return q;
      }
      return null;
    }

    method MarkDone(q: AsyncQuery, ghost v: Query, ghost a: Answer)
      requires Slots(queries, s.table, live) && q in live && !q.done && s.table[q.id % SLOTS] == Some(v)
      requires q.Stored() == a && q.ResKept() && NormalAnswer(a)
      modifies q`done
      ensures Slots(queries, s.table[q.id % SLOTS := Some(v.(answer := Some(a)))], live)
    {
      q.done := true;
    }

    /** complete_query, once the answer's fields are stored. */
    method CompleteQuery(q: AsyncQuery, ghost a: Answer)
      requires Valid() && q in live && !q.done && q.Stored() == a && q.ResKept() && NormalAnswer(a)
      requires Accepts(q.kind, ReplyKind(a))
      modifies this, q`done, live`next, live`prev
      ensures Live(old(s), old(q.id) % SLOTS) && s == Complete(old(s), old(q.id) % SLOTS, a)
      ensures Valid() && live == old(live) && queries == old(queries) && nodes == old(nodes)
    {
      hide Table, Lists, Complete, NormalAnswer, Accepts;
      FinishQuery(q, a);
    }

    method FinishQuery(q: AsyncQuery, ghost a: Answer)
      requires Table() && q in live && !q.done && q.Stored() == a && q.ResKept() && NormalAnswer(a)
      requires Accepts(q.kind, ReplyKind(a))
      modifies this`s, this`doneHead, this`doneTail, this`order, q`done, live`next, live`prev
      ensures Live(old(s), old(q.id) % SLOTS) && s == Complete(old(s), old(q.id) % SLOTS, a) && Table()
    {
      hide Client.Valid, Lists, Links, Slots, Occupied, Finished, NormalAnswer, Accepts;
      ghost var i := q.id % SLOTS;
      SlotOf(q);
      OrderIsLive();
      ghost var k := PlaceOf(q);
      CompleteValid(s, i, a);
      MarkDone(q, s.table[i].value, a);
      LinkLast(q);
      FinishedAppend(old(order), old(s).finished, q);
      s := Complete(s, i, a);
    }

    lemma FinishedAppend(order: seq<AsyncQuery>, finished: seq<nat>, q: AsyncQuery)
      requires Finished(queries, finished, order) && queries[q.id % SLOTS] == q
      ensures Finished(queries, finished + [q.id % SLOTS], order + [q])
    {
    }

    /** What the checks of one case of handle_response's switch make of a datagram. */
    ghost predicate Checked(fault: Option<Fault>, a: Answer, p: Arrival, id: Word32, kind: Word32) {
      match fault
      case None => p == Message(Answered(id, a)) && Accepts(kind, ReplyKind(a)) && NormalAnswer(a)
      case Some(f) =>
        || (f == TooShort && p == Short(id))
        || (f == WrongType && p == Message(Answered(id, a)) && !Accepts(kind, ReplyKind(a)))
    }

    /** A datagram whose length is the one it says. */
    predicate Framed(b: seq<Byte>, kind: Word32) {
      |b| >= HEADER && GetHeader(b).length == |b| && GetHeader(b).kind == kind
    }

    /** RESPONSE_ADDRINFO: the list is decoded node by node and linked into the query. */
    method StoreAddrs(q: AsyncQuery, b: seq<Byte>, room: nat) returns (fault: Option<Fault>, ghost a: Answer)
      requires Valid() && q in live && Framed(b, RESPONSE_ADDRINFO)
      modifies this`nodes, q`status, q`host, q`serv, q`addrinfo, q`chain, q`addrs
      ensures Checked(fault, a, ParseReply(b, room), GetHeader(b).id, q.kind)
      ensures fault.None? ==> q.Stored() == a && q.ResKept()
      ensures fresh(nodes - old(nodes))
      ensures fault.None? && !q.done ==> Valid()
    {
      hide Table, Lists, GetHeader, GetStatus, AddrCodec.ReadReply, Contents, Chain;
      a := AddrAnswer(Status(0, 0, 0), []);
      if |b| < AddrCodec.RESPONSE_HEADER {
        return Some(TooShort), a;
      }
      var st, head;
      ghost var chain;
      st, head, chain := AddrCodec.ReceiveAddrInfo(b, room);
      a := AddrAnswer(st, Contents(chain));
      if q.kind != REQUEST_ADDRINFO {
        return Some(WrongType), a;
      }
      SetFields(q, st, q.host, q.serv);
      StoreList(q, head, chain);
      return None, a;
    }

    method SetFields(q: AsyncQuery, st: Status, host: Option<seq<Byte>>, serv: Option<seq<Byte>>)
      requires Table() && q in live
      modifies q`status, q`host, q`serv
      ensures q.status == st && q.host == host && q.serv == serv
      ensures !q.done ==> Table()
    {
      hide Client.Valid, Links, Finished;
      q.status, q.host, q.serv := st, host, serv;
    }

    method StoreList(q: AsyncQuery, head: AddrInfo?, ghost chain: seq<AddrInfo>)
      requires (!q.done ==> Table()) && q in live
      requires Lists(live, nodes) && Chain(head, chain) && forall n :: n in chain ==> n !in nodes
      modifies this`nodes, q`addrinfo, q`chain, q`addrs
      ensures q.addrinfo == head && q.chain == chain && q.addrs == Contents(chain)
      ensures nodes == old(nodes) + (set n | n in chain) && Lists(live, nodes)
      ensures !q.done ==> Table()
    {
      hide Table, Chain, Contents, Apart;
      NewList(q, chain);
      SetList(q, head, chain);
      nodes := nodes + (set n | n in chain);
    }

    method SetList(q: AsyncQuery, head: AddrInfo?, ghost chain: seq<AddrInfo>)
      requires (!q.done ==> Table()) && q in live
      modifies q`addrinfo, q`chain, q`addrs
      ensures q.addrinfo == head && q.chain == chain && q.addrs == Contents(chain)
      ensures !q.done ==> Table()
    {
      hide Contents, Client.Valid, Links, Finished;
      q.addrinfo, q.chain, q.addrs := head, chain, Contents(chain);
    }

    lemma NewList(q: AsyncQuery, chain: seq<AddrInfo>)
      requires Lists(live, nodes) && forall n :: n in chain ==> n !in nodes
      ensures forall p :: p in live ==> Apart(p.chain, chain) && Apart(chain, p.chain)
    {
    }

    /** RESPONSE_NAMEINFO: a name whose length is 0 stays absent. */
    method StoreNames(q: AsyncQuery, b: seq<Byte>, room: nat) returns (fault: Option<Fault>, ghost a: Answer)
      requires Valid() && q in live && Framed(b, RESPONSE_NAMEINFO)
      modifies q`status, q`host, q`serv
      ensures Checked(fault, a, ParseReply(b, room), GetHeader(b).id, q.kind)
      ensures fault.None? ==> q.Stored() == a && q.ResKept()
      ensures fault.None? && !q.done ==> Valid()
    {
      hide Table, Lists, GetHeader, GetStatus, UnLE, NameField, IsCString;
      a := NameAnswer(Status(0, 0, 0), None, None);
      if |b| < NAME_REPLY {
        return Some(TooShort), a;
      }
      var hostLen, servLen, tail := UnLE(b[16..24]), UnLE(b[24..32]), b[NAME_REPLY..];
      var st := GetStatus(b[32..44]);
      var host := NameField(tail, hostLen);
      var serv := NameField(if hostLen <= |tail| then tail[hostLen..] else [], servLen);
      a := NameAnswer(st, host, serv);
      ParsedNormal(b, room);
      if q.kind != REQUEST_NAMEINFO {
        return Some(WrongType), a;
      }
      SetFields(q, st, host, serv);
      return None, a;
    }

    /** RESPONSE_RES: as many bytes as the return code says, if the query succeeded. */
    method StoreData(q: AsyncQuery, b: seq<Byte>, room: nat) returns (fault: Option<Fault>, ghost a: Answer)
      requires Valid() && q in live && Framed(b, RESPONSE_RES)
      modifies q`status, q`host, q`serv
      ensures Checked(fault, a, ParseReply(b, room), GetHeader(b).id, q.kind)
      ensures fault.None? ==> q.Stored() == a && q.ResKept()
      ensures fault.None? && !q.done ==> Valid()
    {
      hide Table, Lists, GetHeader, GetStatus;
      a := ResAnswer(Status(0, 0, 0), []);
      if |b| < RES_REPLY {
        return Some(TooShort), a;
      }
      var st, tail := GetStatus(b[16..28]), b[RES_REPLY..];
      var data := if st.ret < 0 then [] else if st.ret <= |tail| then tail[..st.ret] else tail;
      a := ResAnswer(st, data);
      if q.kind != REQUEST_RES_QUERY && q.kind != REQUEST_RES_SEARCH {
        return Some(WrongType), a;
      }
      SetFields(q, st, q.host, if st.ret >= 0 then Some(data) else None);
      return None, a;
    }

    /** handle_response; an assert that fires ends the program. */
    method HandleDatagram(b: seq<Byte>, room: nat) returns (fault: Option<Fault>)
      requires Valid()
      modifies this, live`done, live`next, live`prev
      modifies live`status, live`host, live`serv, live`addrinfo, live`chain, live`addrs
      ensures |old(s).table| == SLOTS
      ensures match Framing.HandleDatagram(old(s), b, room)
              case Fires(f) => fault == Some(f)
              case After(s') => fault == None && Valid() && s == s'
      ensures live == old(live) && queries == old(queries) && fresh(nodes - old(nodes))
    {
      hide Table, Lists, GetHeader, Complete, Accepts, NormalAnswer, ParseReply;
      NullSlots();
      ParsedFrame(b, room);
      if |b| < HEADER || GetHeader(b).length != |b| {
        return Some(LengthMismatch);
      }
      var h := GetHeader(b);
      if h.kind == RESPONSE_DIED {
        Die();
        return None;
      }
      var q := LookupQuery(h.id);
      if q == null {
        return None;
      }
      SlotOf(q);
      ghost var a;
      if h.kind == RESPONSE_ADDRINFO {
        fault, a := StoreAddrs(q, b, room);
      } else if h.kind == RESPONSE_NAMEINFO {
        fault, a := StoreNames(q, b, room);
      } else if h.kind == RESPONSE_RES {
        fault, a := StoreData(q, b, room);
      } else {
        return None;
      }
      if fault.Some? {
        return;
      }
      if q.done {
        return Some(DoneTwice);
      }
      CompleteQuery(q, a);
      return None;
    }

    method Die()
      requires Table()
      modifies this`dead, this`s
      ensures Table() && s == old(s).(dead := true)
    {
      hide Client.Valid, Links, Slots, Finished;
      TableSize(s);
      HandleResponseValid(s, Died);
      dead := true;
      s := s.(dead := true);
    }

    /** What the header alone decides about a datagram. */
    lemma ParsedFrame(b: seq<Byte>, room: nat)
      ensures |b| < HEADER || GetHeader(b).length != |b| ==> ParseReply(b, room) == BadLength
      ensures |b| >= HEADER && GetHeader(b).length == |b| ==>
                var h, p := GetHeader(b), ParseReply(b, room);
                && (h.kind == RESPONSE_DIED ==> p == Message(Died))
                && (h.kind != RESPONSE_DIED ==>
                      p == Unknown || p == Short(h.id) || (p.Message? && p.reply.Answered? && p.reply.id == h.id))
                && (h.kind !in {RESPONSE_DIED, RESPONSE_ADDRINFO, RESPONSE_NAMEINFO, RESPONSE_RES} ==> p == Unknown)
    {
      hide GetHeader, GetStatus, AddrCodec.ReadReply, NameField, UnLE;
    }

    /** asyncns_wait on a socket that behaves as the script says. */
    method Wait(script: seq<Recv>, block: bool) returns (used: nat, r: WaitResult)
      requires Valid()
      modifies this, live`done, live`next, live`prev
      modifies live`status, live`host, live`serv, live`addrinfo, live`chain, live`addrs
      ensures used == ReceiveLoop.Wait(old(s), script, block, false).1
      ensures r == ReceiveLoop.Wait(old(s), script, block, false).2
      ensures !r.AssertFired? ==> Valid() && s == ReceiveLoop.Wait(old(s), script, block, false).0
      ensures live == old(live) && queries == old(queries) && fresh(nodes - old(nodes))
    {
      hide Client.Valid, Lists, Links, Slots, Finished, Framing.HandleDatagram, Received;
      used := 0;
      var handled := false;
      ghost var whole := ReceiveLoop.Wait(s, script, block, false);
      while true
        invariant Valid() && used <= |script| && live == old(live) && queries == old(queries)
        invariant fresh(nodes - old(nodes))
        invariant var rest := ReceiveLoop.Wait(s, script[used..], block, handled);
                  whole == (rest.0, used + rest.1, rest.2)
        decreases |script| - used
      {
        ghost var rest := script[used..];
        if dead {
          return used, NoWorker;
        }
        if used == |script| {
          return used, if block && !handled then StillWaiting else WaitResult.Handled;
        }
        assert rest[1..] == script[used + 1..];
        var recv := script[used];
        used := used + 1;
        match recv {
          case Failure =>
            return used, RecvFailed;
          case Nothing(ready) =>
            if !block || handled {
              return used, WaitResult.Handled;
            }
            if !ready {
              return used, SelectFailed;
            }
          case Datagram(bytes, room) =>
            TableSize(s);
            var fault := HandleDatagram(Received(bytes), room);
            if fault.Some? {
              return used, AssertFired(fault.value);
            }
            handled := true;
        }
      }
    }

    // ----- asking and collecting

    /** asyncns_getaddrinfo, asyncns_getnameinfo and asyncns_res, which differ only in the
        request they build: a null result, or the query whose request has been sent. `out` is
        the datagram handed to send, if it comes to that; `sent` says whether send succeeds. */
    method Ask(lookup: Lookup, memory: bool, sent: bool) returns (q: AsyncQuery?, out: Option<seq<Byte>>)
      requires Valid() && Askable(lookup)
      modifies this, queries, live
      ensures Valid() && queries == old(queries)
      ensures s == Issue(old(s), lookup, memory, sent).0
      ensures q != null <==> Issue(old(s), lookup, memory, sent).1
      ensures q != null ==> fresh(q) && live == old(live) + {q} && queries[Slot(s.tick)] == q
      ensures q == null ==> live == old(live)
      ensures Issue(old(s), lookup, memory, true).1 ==>
                out == Some(EncodeRequest(Id(Issue(old(s), lookup, memory, true).0.tick), lookup))
      ensures !Issue(old(s), lookup, memory, true).1 ==> out == None
    {
      hide Client.Valid, Lists, Links, Slots, Finished, Alloc, Remove, EncodeRequest, RequestSize;
      IssueValid(s, lookup, memory, sent);
      out := None;
      if dead {
        return null, None;
      }
      q := AllocQuery(lookup, memory);
      if q == null {
        return null, None;
      }
      InItsSlot();
      NewId();
      out := BuildRequest(currentId, lookup);
      if out.None? || !sent {
        Cancel(q);
        return null, out;
      }
    }

    lemma NewId()
      requires Table()
      ensures currentId == Id(s.tick)
    {
    }

    /** A query's id names its slot. */
    lemma InItsSlot()
      requires Table()
      ensures queries.Length == SLOTS
      ensures forall i :: 0 <= i < SLOTS && queries[i] != null ==> queries[i] in live && queries[i].id % SLOTS == i
    {
    }

    /** asyncns_getaddrinfo_done: the result code and list, and what errno and h_errno are set to.
        The list is the caller's from then on. */
    method GetAddrInfoDone(q: AsyncQuery)
      returns (ret: Int32, res: AddrInfo?, ghost chain: seq<AddrInfo>, err: Option<Int32>, hErr: Option<Int32>)
      requires Valid() && q in live && q.kind == REQUEST_ADDRINFO
      modifies this, queries, live
      ensures Valid() && queries == old(queries)
      ensures old(s).count > 0 && Live(old(s), old(q.id) % SLOTS) && s == Done(old(s), old(q.id) % SLOTS).0
      ensures Chain(res, chain)
      ensures match Done(old(s), old(q.id) % SLOTS).1
              case Refused => ret == EAI_SYSTEM && chain == [] && err == Some(ECHILD) && hErr == None
              case Again => ret == EAI_AGAIN && chain == [] && err == None && hErr == None
              case Result(a) =>
                && a.AddrAnswer? && ret == a.status.ret && Contents(chain) == a.nodes
                && err == (if ret == EAI_SYSTEM then Some(a.status.err) else None)
                && hErr == (if ret != 0 then Some(a.status.hErr) else None)
      ensures nodes == old(nodes) - (set n | n in chain) && forall n :: n in chain ==> n in old(nodes)
      ensures live == if Done(old(s), old(q.id) % SLOTS).1.Result? then old(live) - {q} else old(live)
    {
      hide Table, Lists, Remove, Chain, Contents;
      SlotOf(q);
      NoNodes();
      ret, res, chain, err, hErr := EAI_SYSTEM, null, [], None, None;
      if dead {
        err := Some(ECHILD);
        return;
      }
      if !q.done {
        ret := EAI_AGAIN;
        return;
      }
      OwnList(q);
      res, chain := q.addrinfo, q.chain;
      ret := q.status.ret;
      if ret == EAI_SYSTEM {
        err := Some(q.status.err);
      }
      if ret != 0 {
        hErr := Some(q.status.hErr);
      }
      Cancel(q);
      ListsFewer(nodes - (set n | n in chain));
      nodes := nodes - (set n | n in chain);
    }

    lemma NoNodes()
      ensures Chain(null, []) && Contents([]) == []
    {
    }

    lemma OwnList(q: AsyncQuery)
      requires Lists(live, nodes) && q in live
      ensures Chain(q.addrinfo, q.chain) && Contents(q.chain) == q.addrs
      ensures forall n :: n in q.chain ==> n in nodes
      ensures forall p, n :: p in live && p != q && n in p.chain ==> n in nodes && n !in q.chain
    {
      assert q.ListKept();
    }

    /** asyncns_getnameinfo_done, for callers that ask for the host, the service, both or
        neither, each into a buffer of the given size. */
    method GetNameInfoDone(q: AsyncQuery, hostLen: Option<nat>, servLen: Option<nat>)
      returns (ret: Int32, host: Option<seq<Byte>>, serv: Option<seq<Byte>>, err: Option<Int32>, hErr: Option<Int32>)
      requires Valid() && q in live && q.kind == REQUEST_NAMEINFO
      requires hostLen != Some(0) && servLen != Some(0)
      modifies this, queries, live
      ensures Valid() && queries == old(queries)
      ensures old(s).count > 0 && Live(old(s), old(q.id) % SLOTS) && s == Done(old(s), old(q.id) % SLOTS).0
      ensures match Done(old(s), old(q.id) % SLOTS).1
              case Refused => ret == EAI_SYSTEM && host == None && serv == None && err == Some(ECHILD) && hErr == None
              case Again => ret == EAI_AGAIN && host == None && serv == None && err == None && hErr == None
              case Result(a) =>
                && a.NameAnswer? && ret == a.status.ret
                && host == Shown(a.host, hostLen) && serv == Shown(a.serv, servLen)
                && err == (if ret == EAI_SYSTEM then Some(a.status.err) else None)
                && hErr == (if ret != 0 then Some(a.status.hErr) else None)
      ensures live == if Done(old(s), old(q.id) % SLOTS).1.Result? then old(live) - {q} else old(live)
    {
      hide Table, Lists, Remove, Truncated, IsCString;
      SlotOf(q);
      ret, host, serv, err, hErr := EAI_SYSTEM, None, None, None, None;
      if dead {
        err := Some(ECHILD);
        return;
      }
      if !q.done {
        ret := EAI_AGAIN;
        return;
      }
      host, serv := Shown(q.host, hostLen), Shown(q.serv, servLen);
      ret := q.status.ret;
      if ret == EAI_SYSTEM {
        err := Some(q.status.err);
      }
      if ret != 0 {
        hErr := Some(q.status.hErr);
      }
      Cancel(q);
    }

    /** asyncns_res_done: the answer's length and bytes, or a negated error code. */
    method ResDone(q: AsyncQuery) returns (ret: int, answer: Option<seq<Byte>>, err: Option<Int32>, hErr: Option<Int32>)
      requires Valid() && q in live && (q.kind == REQUEST_RES_QUERY || q.kind == REQUEST_RES_SEARCH)
      modifies this, queries, live
      ensures Valid() && queries == old(queries)
      ensures old(s).count > 0 && Live(old(s), old(q.id) % SLOTS) && s == Done(old(s), old(q.id) % SLOTS).0
      ensures match Done(old(s), old(q.id) % SLOTS).1
              case Refused => ret == -ECHILD && answer == None && err == Some(ECHILD) && hErr == None
              case Again => ret == -EAGAIN && answer == None && err == Some(EAGAIN) && hErr == None
              case Result(a) =>
                && a.ResAnswer? && answer == (if a.status.ret >= 0 then Some(a.data) else None)
                && if a.status.ret < 0 then
                     ret == -(a.status.err as int) && err == Some(a.status.err) && hErr == Some(a.status.hErr)
                   else ret == a.status.ret && err == None && hErr == None
      ensures live == if Done(old(s), old(q.id) % SLOTS).1.Result? then old(live) - {q} else old(live)
    {
      hide Table, Lists, Remove;
      SlotOf(q);
      ret, answer, err, hErr := -ECHILD, None, None, None;
      if dead {
        err := Some(ECHILD);
        return;
      }
      if !q.done {
        ret, err := -EAGAIN, Some(EAGAIN);
        return;
      }
      answer := q.serv;
      ret := q.status.ret;
      if ret < 0 {
        err, hErr := Some(q.status.err), Some(q.status.hErr);
        ret := -(q.status.err as int);
      }
      Cancel(q);
    }

    /** asyncns_getnext. */
    method GetNext() returns (q: AsyncQuery?)
      requires Valid()
      ensures q == null <==> s.finished == []
      ensures q != null ==> queries.Length == SLOTS && s.finished[0] < SLOTS && q == queries[s.finished[0]]
    {
      hide Client.Valid, Lists, Slots;
      q := doneHead;
    }

    lemma Emptied()
      requires Table() && forall i :: 0 <= i < SLOTS ==> s.table[i].None?
      ensures s.count == 0 && live == {} && s.finished == [] && doneHead == null
    {
      hide Occupied;
      EmptyTable(s.table);
      FinishedIsSome(s);
    }

    /** asyncns_free's sweep over the table. */
    method Free()
      requires Valid()
      modifies this, queries, live
      ensures Valid() && s.count == 0 && live == {} && s.finished == [] && doneHead == null
    {
      hide Client.Valid, Lists, Links, Slots, Finished, Without, Occupied;
      NullSlots();
      for p := 0 to SLOTS
        invariant Valid() && queries == old(queries) && live <= old(live)
        invariant |s.table| == SLOTS == queries.Length && forall i :: 0 <= i < p ==> s.table[i].None?
      {
        InItsSlot();
        NullSlots();
        if queries[p] != null {
          Cancel(queries[p]);
        }
      }
      Emptied();
    }
  }
}
