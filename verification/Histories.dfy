/** What holds of the client over its whole life, for any sequence of operations: how ids
    are handed out, in what order completions are offered, and what a dead context still does. */
module Histories {
  import opened Wrappers
  import opened Lookups
  import opened Bytes
  import opened Client
  import opened Framing
  import opened Protocol

  // ----- ids

  ghost predicate Paced(issued: seq<nat>) {
    forall k :: 0 <= k < |issued| - 1 ==> issued[k] <= issued[k + 1] <= issued[k] + 255
  }

  /** The counter stands at the last id given out, or at a free slot a failed allocation moved
      it to; and only the last query given out can be in the slot it points at. */
  ghost predicate IdInv(s: State) {
    && |s.table| == SLOTS
    && Paced(s.issued)
    && (|s.issued| > 0 ==> s.issued[|s.issued| - 1] <= s.tick <= s.issued[|s.issued| - 1] + 255)
    && (s.table[Slot(s.tick)].Some? ==>
          && |s.issued| > 0 && s.tick == s.issued[|s.issued| - 1]
          && s.table[Slot(s.tick)].value.serial == |s.issued| - 1)
    && (forall i :: 0 <= i < SLOTS && s.table[i].Some? ==>
          s.table[i].value.serial < |s.issued| && s.issued[s.table[i].value.serial] == s.table[i].value.tick
          && Slot(s.table[i].value.tick) == i)
  }

  lemma AllocIds(s: State, lookup: Lookup, memory: bool)
    requires Valid(s) && IdInv(s)
    ensures IdInv(Alloc(s, lookup, memory))
  {
    hide Occupied, ValidFinished, ValidQuery, Advance;
    AllocValid(s, lookup, memory);
    var s' := Alloc(s, lookup, memory);
    assert s.table[Slot(s.tick)].None? ==> Probe(s.table, s.tick, 0).None?;
    if s'.issued != s.issued {
      assert s'.issued == s.issued + [s'.tick];
      forall k | 0 <= k < |s'.issued| - 1
        ensures s'.issued[k] <= s'.issued[k + 1] <= s'.issued[k] + 255
      {
        assert s'.issued[k] == s.issued[k];
      }
    }
  }

  lemma RemoveIds(s: State, i: nat)
    requires IdInv(s) && i < SLOTS && s.count > 0
    ensures IdInv(Remove(s, i))
  {
    hide Without;
  }

  lemma ResponseIds(s: State, r: Reply)
    requires IdInv(s) && HandleResponse(s, r).After?
    ensures IdInv(HandleResponse(s, r).value)
  {
  }

  /** The query last given an id is still there. */
  ghost predicate LastIsLive(s: State) {
    exists i :: 0 <= i < |s.table| && s.table[i].Some? && s.table[i].value.serial == |s.issued| - 1
  }

  /** The next id: never smaller than the last, at most 255 further on, and the same one again
      exactly when the last query has been released and no failed allocation moved the counter. */
  lemma NextId(s: State, lookup: Lookup)
    requires Valid(s) && IdInv(s) && |s.issued| > 0 && s.count < SLOTS
    ensures var last, next := s.issued[|s.issued| - 1], Alloc(s, lookup, true).tick;
            && last <= next <= last + 255
            && (next == last <==> s.tick == last && !LastIsLive(s))
  {
    hide Occupied, ValidFinished, Advance;
    AllocIds(s, lookup, true);
    AllocValid(s, lookup, true);
    var last := s.issued[|s.issued| - 1];
    var s' := Alloc(s, lookup, true);
    assert s'.issued == s.issued + [s'.tick];
    assert s'.issued[|s.issued| - 1] == last && s'.issued[|s.issued|] == s'.tick;
    if s.tick == last {
      assert s.table[Slot(last)].None? ==> Probe(s.table, s.tick, 0).None?;
    }
  }

  /** Without memory the counter moves past a live query and stays there: the last query can
      be released and its id is not used again. */
  lemma FailedAllocationSkipsAnId(lookup: Lookup)
    ensures var s1 := Alloc(FRESH, lookup, true);
            var s2 := Alloc(s1, lookup, false);
            s1.count > 0 && s2.count > 0 && |s1.table| == SLOTS && |s2.table| == SLOTS &&
            var s3 := Remove(s2, 0);
            |s3.table| == SLOTS && !LastIsLive(s3) && s3.issued == [0] && Alloc(s3, lookup, true).tick == 1
  {
    hide Occupied, Advance, Without;
    assert Probe(FRESH.table, 0, 0).None?;
    var s1 := Alloc(FRESH, lookup, true);
    assert s1.table[0].Some? && forall i :: 1 <= i < SLOTS ==> s1.table[i].None?;
    assert Probe(s1.table, 0, 0).Some? && Probe(s1.table, 0, 1).None?;
    var s2 := Alloc(s1, lookup, false);
    var s3 := Remove(s2, 0);
    assert Probe(s3.table, 1, 0).None?;
  }

  // ----- completion order

  function Keep(xs: seq<nat>, live: set<nat>): seq<nat> {
    if |xs| == 0 then [] else (if xs[0] in live then [xs[0]] else []) + Keep(xs[1..], live)
  }

  function LiveSerials(table: seq<Option<Query>>): set<nat> {
    set i | 0 <= i < |table| && table[i].Some? :: table[i].value.serial
  }

  function SerialAt(table: seq<Option<Query>>, i: nat): nat {
    if i < |table| && table[i].Some? then table[i].value.serial else 0
  }

  function Serials(table: seq<Option<Query>>, slots: seq<nat>): seq<nat> {
    if |slots| == 0 then [] else [SerialAt(table, slots[0])] + Serials(table, slots[1..])
  }

  ghost predicate OrderInv(s: State) {
    && ValidFinished(s.table, s.finished)
    && Distinct(s.completed)
    && (forall k :: 0 <= k < |s.completed| ==> s.completed[k] < |s.issued|)
    && (forall i :: 0 <= i < |s.table| && s.table[i].Some? ==>
          && s.table[i].value.serial < |s.issued|
          && (s.table[i].value.answer.Some? <==> s.table[i].value.serial in s.completed))
    && (forall i, j :: 0 <= i < j < |s.table| && s.table[i].Some? && s.table[j].Some? ==>
          s.table[i].value.serial != s.table[j].value.serial)
    && Serials(s.table, s.finished) == Keep(s.completed, LiveSerials(s.table))
  }

  lemma {:induction false} KeepSame(xs: seq<nat>, live: set<nat>, live': set<nat>)
    requires forall x: nat :: x in xs ==> (x in live <==> x in live')
    ensures Keep(xs, live) == Keep(xs, live')
  {
    if |xs| > 0 {
      assert xs[0] in xs;
      assert forall x: nat :: x in xs[1..] ==> x in xs;
      KeepSame(xs[1..], live, live');
    }
  }

  lemma {:induction false} KeepAppend(xs: seq<nat>, x: nat, live: set<nat>)
    requires x in live
    ensures Keep(xs + [x], live) == Keep(xs, live) + [x]
  {
    if |xs| == 0 {
      assert Keep([x][1..], live) == [];
    } else {
      assert (xs + [x])[1..] == xs[1..] + [x];
      KeepAppend(xs[1..], x, live);
      var first := if xs[0] in live then [xs[0]] else [];
      assert first + (Keep(xs[1..], live) + [x]) == first + Keep(xs[1..], live) + [x];
    }
  }

  lemma {:induction false} KeepMembers(xs: seq<nat>, live: set<nat>)
    ensures forall y: nat :: y in Keep(xs, live) <==> y in xs && y in live
  {
    if |xs| > 0 {
      KeepMembers(xs[1..], live);
      assert xs == [xs[0]] + xs[1..];
    }
  }

  lemma {:induction false} KeepWithout(xs: seq<nat>, x: nat, live: set<nat>)
    requires Distinct(xs)
    ensures Keep(xs, live - {x}) == Without(Keep(xs, live), x)
  {
    if |xs| > 0 {
      var tail, tail' := Keep(xs[1..], live), Keep(xs[1..], live - {x});
      assert Keep(xs, live) == if xs[0] in live then [xs[0]] + tail else tail;
      assert Keep(xs, live - {x}) == if xs[0] in live && xs[0] != x then [xs[0]] + tail' else tail';
      if xs[0] == x {
        assert x !in xs[1..];
        KeepSame(xs[1..], live, live - {x});
        KeepMembers(xs[1..], live);
        WithoutAbsent(tail, x);
        assert ([x] + tail)[1..] == tail;
      } else {
        KeepWithout(xs[1..], x, live);
        assert ([xs[0]] + tail)[1..] == tail;
        assert Without([xs[0]] + tail, x) == [xs[0]] + Without(tail, x);
      }
    }
  }

  lemma {:induction false} SerialsSame(table: seq<Option<Query>>, table': seq<Option<Query>>, slots: seq<nat>)
    requires forall k :: 0 <= k < |slots| ==> SerialAt(table, slots[k]) == SerialAt(table', slots[k])
    ensures Serials(table, slots) == Serials(table', slots)
  {
    if |slots| > 0 {
      SerialsSame(table, table', slots[1..]);
    }
  }

  lemma {:induction false} SerialsAppend(table: seq<Option<Query>>, slots: seq<nat>, i: nat)
    ensures Serials(table, slots + [i]) == Serials(table, slots) + [SerialAt(table, i)]
  {
    if |slots| == 0 {
      assert Serials(table, [i][1..]) == [];
    } else {
      assert (slots + [i])[1..] == slots[1..] + [i];
      SerialsAppend(table, slots[1..], i);
    }
  }

  lemma {:induction false} SerialsWithout(table: seq<Option<Query>>, slots: seq<nat>, i: nat)
    requires forall k :: 0 <= k < |slots| && slots[k] != i ==> SerialAt(table, slots[k]) != SerialAt(table, i)
    ensures Serials(table, Without(slots, i)) == Without(Serials(table, slots), SerialAt(table, i))
  {
    if |slots| > 0 {
      var tail := Serials(table, slots[1..]);
      assert ([SerialAt(table, slots[0])] + tail)[1..] == tail;
      if slots[0] != i {
        SerialsWithout(table, slots[1..], i);
        assert ([slots[0]] + Without(slots[1..], i))[1..] == Without(slots[1..], i);
      }
    }
  }

  lemma RemoveOrder(s: State, i: nat)
    requires OrderInv(s) && |s.table| == SLOTS && Live(s, i) && s.count > 0
    ensures OrderInv(Remove(s, i))
  {
    hide Keep, Serials, Without, LiveSerials;
    var s', x := Remove(s, i), s.table[i].value.serial;
    RemoveFinished(s.table, s.finished, i);
    SerialsSame(s.table, s'.table, s'.finished) by {
      WithoutMembers(s.finished, i);
      forall k | 0 <= k < |s'.finished|
        ensures SerialAt(s.table, s'.finished[k]) == SerialAt(s'.table, s'.finished[k])
      {
        assert s'.finished[k] in s'.finished;
      }
    }
    SerialsWithout(s.table, s.finished, i) by {
      forall k | 0 <= k < |s.finished| && s.finished[k] != i
        ensures SerialAt(s.table, s.finished[k]) != x
      {
        assert Completed(s.table, s.finished[k]);
      }
    }
    LiveRemoved(s, i);
    KeepWithout(s.completed, x, LiveSerials(s.table));
  }

  lemma LiveRemoved(s: State, i: nat)
    requires OrderInv(s) && Live(s, i)
    ensures LiveSerials(s.table[i := None]) == LiveSerials(s.table) - {s.table[i].value.serial}
  {
    hide Keep, Serials;
    var t, x := s.table[i := None], s.table[i].value.serial;
    forall y: nat | y in LiveSerials(s.table) - {x}
      ensures y in LiveSerials(t)
    {
      var j :| 0 <= j < |s.table| && s.table[j].Some? && s.table[j].value.serial == y;
      assert t[j].Some? && t[j].value.serial == y;
    }
  }

  lemma AllocOrder(s: State, lookup: Lookup, memory: bool)
    requires Valid(s) && OrderInv(s)
    ensures OrderInv(Alloc(s, lookup, memory))
  {
    hide Keep, Serials, Occupied, Advance, ValidQuery;
    AllocValid(s, lookup, memory);
    var s' := Alloc(s, lookup, memory);
    if s'.table != s.table {
      SerialsSame(s.table, s'.table, s.finished);
      KeepSame(s.completed, LiveSerials(s.table), LiveSerials(s'.table)) by {
        LiveAdded(s, Slot(s'.tick), s'.table[Slot(s'.tick)].value);
      }
    }
  }

  lemma LiveAdded(s: State, i: nat, q: Query)
    requires i < |s.table| && s.table[i].None?
    ensures LiveSerials(s.table[i := Some(q)]) == LiveSerials(s.table) + {q.serial}
  {
    var t := s.table[i := Some(q)];
    forall y: nat | y in LiveSerials(s.table) + {q.serial}
      ensures y in LiveSerials(t)
    {
      if y == q.serial {
        assert t[i].value.serial == y;
      } else {
        var j :| 0 <= j < |s.table| && s.table[j].Some? && s.table[j].value.serial == y;
        assert t[j].Some? && t[j].value.serial == y;
      }
    }
  }

  lemma CompleteOrder(s: State, i: nat, a: Answer)
    requires OrderInv(s) && Live(s, i) && s.table[i].value.answer.None?
    ensures OrderInv(Complete(s, i, a))
  {
    hide Keep, Serials;
    var s', x := Complete(s, i, a), s.table[i].value.serial;
    assert forall k :: 0 <= k < |s.finished| ==> s.finished[k] != i;
    SerialsSame(s.table, s'.table, s.finished);
    SerialsAppend(s'.table, s.finished, i);
    assert LiveSerials(s'.table) == LiveSerials(s.table) by {
      forall y: nat
        ensures y in LiveSerials(s'.table) <==> y in LiveSerials(s.table)
      {
        if y in LiveSerials(s.table) {
          var j :| 0 <= j < |s.table| && s.table[j].Some? && s.table[j].value.serial == y;
          assert s'.table[j].Some? && s'.table[j].value.serial == y;
        }
      }
    }
    assert x in LiveSerials(s.table);
    KeepAppend(s.completed, x, LiveSerials(s.table));
  }

  // ----- over whole runs

  ghost predicate HistoryInv(s: State) {
    Valid(s) && IdInv(s) && OrderInv(s)
  }

  lemma StartHistory(workers: nat)
    ensures HistoryInv(Start(workers).client)
  {
    hide Occupied;
    FreshValid();
  }

  lemma RemoveHistory(s: State, i: nat)
    requires HistoryInv(s) && Live(s, i) && s.count > 0
    ensures HistoryInv(Remove(s, i))
  {
    hide Valid, IdInv, OrderInv, Remove;
    TableSize(s);
    RemoveValid(s, i);
    RemoveIds(s, i);
    RemoveOrder(s, i);
  }

  lemma IssueHistory(s: State, lookup: Lookup, memory: bool, sent: bool)
    requires HistoryInv(s)
    ensures HistoryInv(Issue(s, lookup, memory, sent).0)
  {
    hide Valid, IdInv, OrderInv, Remove, Alloc;
    TableSize(s);
    AllocValid(s, lookup, memory);
    AllocIds(s, lookup, memory);
    AllocOrder(s, lookup, memory);
    if !s.dead && s.count < SLOTS && memory {
      var s1 := Alloc(s, lookup, memory);
      TableSize(s1);
      RemoveHistory(s1, Slot(s1.tick));
    }
  }

  lemma ResponseHistory(s: State, r: Reply)
    requires HistoryInv(s) && HandleResponse(s, r).After?
    ensures HistoryInv(HandleResponse(s, r).value)
  {
    hide Occupied, ValidFinished, ValidQuery, IdInv, Keep, Serials, Complete;
    HandleResponseValid(s, r);
    ResponseIds(s, r);
    if r.Answered? && s.table[r.id % SLOTS].Some? && Id(s.table[r.id % SLOTS].value.tick) == r.id {
      CompleteOrder(s, r.id % SLOTS, r.answer);
    }
  }

  lemma DatagramHistory(s: State, b: seq<Byte>, room: nat)
    requires HistoryInv(s) && HandleDatagram(s, b, room).After?
    ensures HistoryInv(HandleDatagram(s, b, room).value)
  {
    hide HistoryInv, ParseReply, HandleResponse;
    var p := ParseReply(b, room);
    if p.Message? {
      ResponseHistory(s, p.reply);
    }
  }

  lemma HistoryStep(o: Resolver, s: Sys, st: Step)
    requires HistoryInv(s.client) && Next(o, s, st).Some?
    ensures HistoryInv(Next(o, s, st).value.client)
  {
    hide Valid, IdInv, OrderInv, Remove, Issue, HandleDatagram, ParseRequest, EncodeReply, Received, Given;
    match st {
      case Ask(lookup, memory, sent) => IssueHistory(s.client, lookup, memory, sent);
      case Take(_) =>
      case Finish(_, _) =>
      case Receive(room) =>
        TableSize(s.client);
        if HandleDatagram(s.client, Received(Wire(s.responses[0])), room).After? {
          DatagramHistory(s.client, Received(Wire(s.responses[0])), room);
        }
      case Release(i) =>
        LiveCounted(s.client, i);
        RemoveHistory(s.client, i);
      case Cancel(i) =>
        LiveCounted(s.client, i);
        RemoveHistory(s.client, i);
      case Die(_, _) =>
    }
  }

  lemma {:induction false} HistoryRun(o: Resolver, s: Sys, steps: seq<Step>)
    requires HistoryInv(s.client) && Run(o, s, steps).Some?
    ensures HistoryInv(Run(o, s, steps).value.client)
    decreases |steps|
  {
    hide Next, Valid, IdInv, OrderInv;
    if |steps| > 0 {
      HistoryStep(o, s, steps[0]);
      HistoryRun(o, Next(o, s, steps[0]).value, steps[1..]);
    }
  }

  /** In every run the ids handed out never go back and never skip more than 254 values. */
  lemma IdsAreMonotone(o: Resolver, workers: nat, steps: seq<Step>, j: nat, k: nat)
    requires Run(o, Start(workers), steps).Some?
    requires j <= k < |Run(o, Start(workers), steps).value.client.issued|
    ensures var issued := Run(o, Start(workers), steps).value.client.issued;
            issued[j] <= issued[k] <= issued[j] + 255 * (k - j)
    decreases k - j
  {
    hide Next, Valid, OrderInv, Run, Start;
    StartHistory(workers);
    HistoryRun(o, Start(workers), steps);
    if j < k {
      IdsAreMonotone(o, workers, steps, j, k - 1);
      assert Paced(Run(o, Start(workers), steps).value.client.issued);
    }
  }

  lemma {:induction false} KeepFirst(xs: seq<nat>, live: set<nat>) returns (k: nat)
    requires Keep(xs, live) != []
    ensures k < |xs| && xs[k] == Keep(xs, live)[0] && xs[k] in live && forall j :: 0 <= j < k ==> xs[j] !in live
  {
    if xs[0] in live {
      k := 0;
    } else {
      assert Keep(xs, live) == Keep(xs[1..], live);
      k := KeepFirst(xs[1..], live);
      k := k + 1;
    }
  }

  /** asyncns_getnext, in every run: the query offered is the one that completed first among
      those not released yet, and one is offered whenever there is one. */
  lemma NextIsOldestCompletion(o: Resolver, workers: nat, steps: seq<Step>) returns (k: nat)
    requires Run(o, Start(workers), steps).Some?
    ensures var c := Run(o, Start(workers), steps).value.client;
            && |c.table| == SLOTS
            && (c.finished == [] <==> forall i :: 0 <= i < SLOTS ==> !Completed(c.table, i))
            && (c.finished != [] ==>
                  && Completed(c.table, c.finished[0]) && k < |c.completed|
                  && c.table[c.finished[0]].value.serial == c.completed[k]
                  && forall j :: 0 <= j < k ==> c.completed[j] !in LiveSerials(c.table))
  {
    hide Next, Run, Start, Keep, LiveSerials, IdInv, Occupied, ValidQuery;
    StartHistory(workers);
    HistoryRun(o, Start(workers), steps);
    var c := Run(o, Start(workers), steps).value.client;
    k := 0;
    if c.finished != [] {
      k := KeepFirst(c.completed, LiveSerials(c.table));
      assert Completed(c.table, c.finished[0]);
    } else {
      assert forall i :: 0 <= i < SLOTS && Completed(c.table, i) ==> i in c.finished;
    }
  }

  // ----- after a worker has died

  /** What a dead context can still change: slots can be emptied, nothing else. */
  ghost predicate OnlyReleased(s: State, s': State) {
    && s'.dead && s'.tick == s.tick && s'.issued == s.issued && s'.completed == s.completed
    && |s'.table| == |s.table|
    && forall i :: 0 <= i < |s.table| ==> s'.table[i] == s.table[i] || s'.table[i].None?
  }

  lemma DeadStep(o: Resolver, s: Sys, st: Step)
    requires Valid(s.client) && s.client.dead && Next(o, s, st).Some?
    ensures var s' := Next(o, s, st).value;
            && OnlyReleased(s.client, s'.client) && |s'.requests| <= |s.requests| && !st.Receive?
            && (!st.Cancel? ==> s'.client == s.client)
  {
    hide Valid, Without, ParseRequest, EncodeReply, Received, Given;
  }

  /** Dead is for ever: from then on no query is issued or completed, no response is read,
      and *_done releases nothing. */
  lemma {:induction false} DeadForever(o: Resolver, s: Sys, steps: seq<Step>)
    requires Valid(s.client) && s.client.dead && Run(o, s, steps).Some?
    ensures var s' := Run(o, s, steps).value;
            && OnlyReleased(s.client, s'.client) && |s'.requests| <= |s.requests|
            && ((forall k :: 0 <= k < |steps| ==> !steps[k].Cancel?) ==> s'.client == s.client)
    ensures forall k :: 0 <= k < |steps| ==> !steps[k].Receive?
    decreases |steps|
  {
    hide Next, Valid;
    if |steps| > 0 {
      DeadStep(o, s, steps[0]);
      DeadForever(o, Next(o, s, steps[0]).value, steps[1..]);
      forall k | 0 <= k < |steps|
        ensures !steps[k].Receive?
      {
        assert k > 0 ==> steps[k] == steps[1..][k - 1];
      }
    }
  }
}
