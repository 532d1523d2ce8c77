/** Every response reaches the query it answers. */
module Delivery {
  import opened Wrappers
  import opened Bytes
  import opened Lookups
  import opened Client
  import opened Framing
  import opened Protocol

  /** A message and the table agree: the slot the message's id points at holds no older
      query, and if it holds a query with the message's tick, that query sent this very
      message and is unfinished. */
  ghost predicate Claim(table: seq<Option<Query>>, m: Msg)
    requires |table| == SLOTS
  {
    var e := table[Slot(m.tick)];
    && (e.Some? ==> m.tick <= e.value.tick)
    && (e.Some? && e.value.tick == m.tick ==> MsgOf(e.value) == m && e.value.answer.None?)
  }

  ghost predicate Tracked(c: State, flight: multiset<Msg>)
    requires |c.table| == SLOTS
  {
    forall m :: m in flight ==>
      flight[m] == 1 && m.tick <= c.tick && m.serial < |c.issued| && Claim(c.table, m)
  }

  /** The id counter stands at an id that is free again although a request sent under it is
      still in flight: the next query would be given the id of that request. */
  ghost predicate Hazard(c: State, flight: multiset<Msg>)
    requires |c.table| == SLOTS
  {
    c.table[Slot(c.tick)].None? && exists m :: m in flight && m.tick == c.tick
  }

  /** Every unfinished query's request is in flight. */
  ghost predicate Lossless(table: seq<Option<Query>>, flight: multiset<Msg>) {
    forall i :: 0 <= i < |table| && table[i].Some? && table[i].value.answer.None? ==> MsgOf(table[i].value) in flight
  }

  /** `d` is a worker's reply to this message. */
  ghost predicate IsReply(o: Resolver, m: Msg, d: seq<Byte>) {
    exists when: nat :: RepliesWith(o, m, d, when)
  }

  ghost predicate RepliesWith(o: Resolver, m: Msg, d: seq<Byte>, when: nat) {
    EncodeReply(Id(m.tick), Given(o, m.lookup, when)) == Some(d)
  }

  predicate IsRequest(r: Request) {
    Proper(r.origin.lookup) && r.datagram == EncodeRequest(Id(r.origin.tick), r.origin.lookup)
  }

  predicate IsJob(w: Worker)
    requires w.Busy?
  {
    Proper(w.origin.lookup) && w.id == Id(w.origin.tick) && w.lookup == w.origin.lookup
  }

  /** The bytes on the wire are those of the messages they belong to. */
  ghost predicate Wired(o: Resolver, s: Sys) {
    && (forall k :: 0 <= k < |s.requests| ==> IsRequest(s.requests[k]))
    && (forall w :: 0 <= w < |s.workers| && s.workers[w].Busy? ==> IsJob(s.workers[w]))
    && (forall k :: 0 <= k < |s.responses| && s.responses[k].Delivery? ==>
          IsReply(o, s.responses[k].origin, s.responses[k].datagram))
  }

  ghost predicate AllWorking(s: Sys) {
    forall w :: 0 <= w < |s.workers| ==> s.workers[w] != Gone
  }

  /** The invariant of the whole system. The last line holds for as long as no worker has died. */
  ghost predicate Inv(o: Resolver, s: Sys) {
    && Valid(s.client)
    && s.fault.None?
    && Tracked(s.client, InFlight(s))
    && Wired(o, s)
    && (AllWorking(s) ==> Lossless(s.client.table, InFlight(s)) && !s.client.dead && Death !in s.responses)
  }

  /** The one way out of the invariant: a lookup of the request was answered with more than the
      client's receive buffer holds. */
  ghost predicate Overlong(o: Resolver, s: Sys) {
    && s.fault == Some(LengthMismatch)
    && |s.responses| > 0 && s.responses[0].Delivery?
    && IsReply(o, s.responses[0].origin, s.responses[0].datagram)
    && |s.responses[0].datagram| > RECV_BUFFER
  }

  /** What a run must meet: no query is asked in a hazard, no socket address is longer than the
      workers' buffer for it, and no response is 2^32 ids old when it is read. */
  ghost predicate Careful(s: Sys, st: Step)
    requires Valid(s.client)
  {
    && (st.Ask? ==> !Hazard(s.client, InFlight(s)) && ShortAddress(st.lookup))
    && (st.Receive? && |s.responses| > 0 && s.responses[0].Delivery? ==>
          s.client.tick < s.responses[0].origin.tick + 0x1_0000_0000)
  }

  ghost predicate CarefulRun(o: Resolver, s: Sys, steps: seq<Step>)
    requires Valid(s.client)
    decreases |steps|
  {
    |steps| == 0 ||
    (Careful(s, steps[0]) && (Next(o, s, steps[0]).Some? ==> CarefulRun(o, Next(o, s, steps[0]).value, steps[1..])))
  }

  lemma {:induction false} CarefulAppend(o: Resolver, s: Sys, xs: seq<Step>, ys: seq<Step>)
    requires Valid(s.client) && CarefulRun(o, s, xs) && Run(o, s, xs).Some?
    requires CarefulRun(o, Run(o, s, xs).value, ys)
    ensures CarefulRun(o, s, xs + ys)
    decreases |xs|
  {
    hide Next, Valid, Careful;
    if |xs| == 0 {
      assert xs + ys == ys;
    } else {
      assert (xs + ys)[1..] == xs[1..] + ys;
      CarefulAppend(o, Next(o, s, xs[0]).value, xs[1..], ys);
    }
  }

  // ----- what each client operation does to a tracked flight

  lemma AllocTracked(c: State, lookup: Lookup, memory: bool, flight: multiset<Msg>)
    requires Valid(c) && Tracked(c, flight) && !Hazard(c, flight)
    ensures |Alloc(c, lookup, memory).table| == SLOTS && Tracked(Alloc(c, lookup, memory), flight)
    ensures memory && c.count < SLOTS ==>
      var c' := Alloc(c, lookup, memory);
      var m := Msg(c'.tick, |c.issued|, lookup);
      m !in flight && Tracked(c', flight + multiset{m})
  {
    hide Occupied, Advance, Valid;
    TableSize(c);
    AllocValid(c, lookup, memory);
    var c' := Alloc(c, lookup, memory);
    TableSize(c');
    if memory && c.count < SLOTS {
      forall m | m in flight
        ensures Claim(c'.table, m)
      {
        assert Claim(c.table, m);
      }
    }
  }

  lemma RemoveTracked(c: State, i: nat, flight: multiset<Msg>)
    requires Valid(c) && Live(c, i) && c.count > 0 && Tracked(c, flight)
    ensures |Remove(c, i).table| == SLOTS && Tracked(Remove(c, i), flight)
    ensures Lossless(c.table, flight) ==> Lossless(Remove(c, i).table, flight)
  {
    hide Occupied, Without, ValidFinished;
    var c' := Remove(c, i);
    forall m | m in flight
      ensures Claim(c'.table, m)
    {
      assert Claim(c.table, m);
    }
  }

  lemma IssueTracked(c: State, lookup: Lookup, memory: bool, sent: bool, flight: multiset<Msg>)
    requires Valid(c) && Tracked(c, flight) && !Hazard(c, flight)
    ensures var (c', out) := Issue(c, lookup, memory, sent);
            && |c'.table| == SLOTS
            && Tracked(c', if out then flight + multiset{Msg(c'.tick, |c.issued|, lookup)} else flight)
    ensures var (c', out) := Issue(c, lookup, memory, sent);
            && |c'.table| == SLOTS
            && (Lossless(c.table, flight) ==>
                  Lossless(c'.table, if out then flight + multiset{Msg(c'.tick, |c.issued|, lookup)} else flight))
  {
    hide Occupied, Advance, Valid, Alloc, Remove, Tracked, Lossless, Hazard;
    TableSize(c);
    AllocValid(c, lookup, memory);
    AllocTracked(c, lookup, memory, flight);
    if Lossless(c.table, flight) {
      AllocLossless(c, lookup, memory, flight);
    }
    if !c.dead && c.count < SLOTS && memory {
      var s1 := Alloc(c, lookup, memory);
      RemoveTracked(s1, Slot(s1.tick), flight);
      RemoveNew(c, lookup, flight);
    }
  }

  lemma AllocLossless(c: State, lookup: Lookup, memory: bool, flight: multiset<Msg>)
    requires Valid(c) && Lossless(c.table, flight)
    ensures |Alloc(c, lookup, memory).table| == SLOTS
    ensures Lossless(Alloc(c, lookup, memory).table,
                     flight + multiset{Msg(Alloc(c, lookup, memory).tick, |c.issued|, lookup)})
    ensures !memory || c.count >= SLOTS ==> Lossless(Alloc(c, lookup, memory).table, flight)
  {
    hide Occupied, Advance;
    AllocValid(c, lookup, memory);
  }

  /** A query whose send failed leaves nothing behind. */
  lemma RemoveNew(c: State, lookup: Lookup, flight: multiset<Msg>)
    requires Valid(c) && c.count < SLOTS
    ensures Alloc(c, lookup, true).count > 0 && |Alloc(c, lookup, true).table| == SLOTS
    ensures Remove(Alloc(c, lookup, true), Slot(Alloc(c, lookup, true).tick)).table == c.table
  {
    hide Occupied, Advance;
    AllocValid(c, lookup, true);
  }

  /** The id on a response names the query that asked, or no query at all. */
  lemma ResponseFindsItsQuery(c: State, flight: multiset<Msg>, m: Msg)
    requires Valid(c) && Tracked(c, flight) && m in flight && c.tick < m.tick + 0x1_0000_0000
    ensures var e := c.table[Id(m.tick) % SLOTS];
            e.Some? && Id(e.value.tick) == Id(m.tick) ==> MsgOf(e.value) == m && e.value.answer.None?
  {
    hide Occupied, ValidFinished;
    SlotOfId(m.tick);
    assert Claim(c.table, m);
    var e := c.table[Slot(m.tick)];
    if e.Some? && Id(e.value.tick) == Id(m.tick) {
      SameId(m.tick, e.value.tick);
    }
  }

  /** What the client makes of a worker's reply, in any state: a reply longer than its buffer
      makes the length assert fire, any other is handled as the worker's answer, cut at the
      memory the client has at that moment. */
  lemma ReplyHandled(o: Resolver, c: State, m: Msg, d: seq<Byte>, when: nat, room: nat)
    requires |c.table| == SLOTS && RepliesWith(o, m, d, when)
    ensures var a := Arrived(Given(o, m.lookup, when), room);
            && Accepts(RequestKind(m.lookup), ReplyKind(a))
            && HandleDatagram(c, Received(d), room) ==
               if |d| > RECV_BUFFER then Fires(LengthMismatch) else HandleResponse(c, Answered(Id(m.tick), a))
  {
    hide ParseReply, EncodeReply, Received, Render, Plain, Sendable, Receivable, Arrived, HandleResponse;
    SendableIff(Id(m.tick), Given(o, m.lookup, when));
    ReplyRoundTrip(Id(m.tick), Given(o, m.lookup, when), room);
  }

  /** The query that sent this very message is still there. */
  predicate Waiting(table: seq<Option<Query>>, m: Msg) {
    var i := Slot(m.tick);
    i < |table| && table[i].Some? && MsgOf(table[i].value) == m
  }

  /** A tracked answer completes the query that asked, or no query; no assert fires. */
  lemma AnswerTracked(c: State, flight: multiset<Msg>, m: Msg, a: Answer)
    requires Valid(c) && Tracked(c, flight) && m in flight && c.tick < m.tick + 0x1_0000_0000
    requires Accepts(RequestKind(m.lookup), ReplyKind(a))
    ensures |c.table| == SLOTS
    ensures HandleResponse(c, Answered(Id(m.tick), a)) ==
              After(if Waiting(c.table, m) then Complete(c, Slot(m.tick), a) else c)
  {
    hide Occupied, ValidFinished;
    SlotOfId(m.tick);
    ResponseFindsItsQuery(c, flight, m);
    assert Claim(c.table, m);
  }

  /** That accounts for the message. */
  lemma MessageTracked(c: State, flight: multiset<Msg>, m: Msg, a: Answer)
    requires Valid(c) && Tracked(c, flight) && m in flight
    ensures var c' := if Waiting(c.table, m) then Complete(c, Slot(m.tick), a) else c;
            && |c'.table| == SLOTS && Tracked(c', flight - multiset{m})
            && (Lossless(c.table, flight) ==> Lossless(c'.table, flight - multiset{m}))
  {
    hide Occupied, ValidFinished;
    var c' := if Waiting(c.table, m) then Complete(c, Slot(m.tick), a) else c;
    forall x | x in flight - multiset{m}
      ensures Claim(c'.table, x)
    {
      assert x in flight && x != m;
      assert Claim(c.table, x);
    }
    assert Claim(c.table, m);
  }

  /** Every reply to a tracked message: no assert fires but the one on the length, and that one
      fires iff the reply is longer than the receive buffer; otherwise the query that asked is
      completed with the answer given, cut at the memory at hand, or is gone and nothing
      happens. Either way the message is accounted for. */
  lemma ReceiveTracked(o: Resolver, c: State, flight: multiset<Msg>, m: Msg, d: seq<Byte>, when: nat, room: nat)
    requires Valid(c) && Tracked(c, flight) && m in flight && c.tick < m.tick + 0x1_0000_0000
    requires RepliesWith(o, m, d, when)
    ensures |c.table| == SLOTS
    ensures var a := Arrived(Given(o, m.lookup, when), room);
            var c' := if Waiting(c.table, m) then Complete(c, Slot(m.tick), a) else c;
            && HandleDatagram(c, Received(d), room) ==
               (if |d| > RECV_BUFFER then Fires(LengthMismatch) else After(c'))
            && |c'.table| == SLOTS
            && Tracked(c', flight - multiset{m})
            && (Lossless(c.table, flight) ==> Lossless(c'.table, flight - multiset{m}))
  {
    hide Valid, Tracked, Lossless, RepliesWith, HandleDatagram, HandleResponse, Received, Arrived, Given;
    TableSize(c);
    ReplyHandled(o, c, m, d, when, room);
    AnswerTracked(c, flight, m, Arrived(Given(o, m.lookup, when), room));
    MessageTracked(c, flight, m, Arrived(Given(o, m.lookup, when), room));
  }

  // ----- the invariant over every step

  lemma StartInv(o: Resolver, workers: nat)
    ensures Inv(o, Start(workers))
  {
    hide Occupied;
    FreshValid();
    NoJobs(Start(workers).workers);
    assert forall w :: 0 <= w < workers ==> !Start(workers).workers[w].Busy?;
  }

  lemma {:induction false} NoJobs(ws: seq<Worker>)
    requires forall w :: 0 <= w < |ws| ==> ws[w] == Idle
    ensures Jobs(ws) == multiset{}
  {
    if |ws| > 0 {
      NoJobs(ws[1..]);
    }
  }

  lemma InvAsk(o: Resolver, s: Sys, st: Step)
    requires Inv(o, s) && st.Ask? && Careful(s, st) && Next(o, s, st).Some?
    ensures Inv(o, Next(o, s, st).value)
  {
    hide Occupied, Tracked, Lossless, InFlight, ValidFinished, Alloc, Remove, IsReply, EncodeRequest,
      WellFormed, ShortAddress;
    InFlightAsk(o, s, st);
    IssueTracked(s.client, st.lookup, st.memory, st.sent, InFlight(s));
    IssueKeepsAnswers(s.client, st.lookup, st.memory, st.sent);
    var s' := Next(o, s, st).value;
    TableSize(s'.client);
    assert AllWorking(s') ==> AllWorking(s);
  }

  lemma IssueKeepsAnswers(c: State, lookup: Lookup, memory: bool, sent: bool)
    requires Valid(c)
    ensures var c' := Issue(c, lookup, memory, sent).0;
            && |c'.table| == SLOTS && c'.dead == c.dead
            && forall i :: 0 <= i < SLOTS && Completed(c'.table, i) ==> c'.table[i] == c.table[i]
  {
    hide Occupied, Advance, ValidFinished;
    AllocValid(c, lookup, memory);
  }

  /** A worker that takes up a request gets the id and the lookup of the message. */
  lemma TakeGivesJob(o: Resolver, s: Sys, w: nat)
    requires Wired(o, s) && w < |s.workers| && s.workers[w] == Idle && |s.requests| > 0
    ensures var m := s.requests[0].origin;
            TakeNext(s, w) ==
              Some(s.(requests := s.requests[1..], workers := s.workers[w := Busy(m, Id(m.tick), m.lookup)]))
  {
    hide ParseRequest, EncodeRequest, Received, WellFormed;
    assert IsRequest(s.requests[0]);
    RequestRoundTrip(Id(s.requests[0].origin.tick), s.requests[0].origin.lookup);
  }

  lemma InvTake(o: Resolver, s: Sys, st: Step)
    requires Inv(o, s) && st.Take? && Next(o, s, st).Some?
    ensures Inv(o, Next(o, s, st).value)
  {
    hide Valid, Tracked, Lossless, InFlight, IsReply, Proper;
    TableSize(s.client);
    TakeGivesJob(o, s, st.w);
    assert IsRequest(s.requests[0]);
    var s' := Next(o, s, st).value;
    InFlightWork(o, s, st);
    BusyWorks(s, s', st.w);
    assert AllWorking(s') ==> AllWorking(s);
  }

  lemma BusyWorks(s: Sys, s': Sys, w: nat)
    requires w < |s.workers| == |s'.workers| && s.workers[w] != Gone && s'.workers == s.workers[w := s'.workers[w]]
    ensures AllWorking(s') ==> AllWorking(s)
  {
    forall v | AllWorking(s') && 0 <= v < |s.workers|
      ensures s.workers[v] != Gone
    {
      assert s'.workers[v] != Gone;
    }
  }

  lemma InvFinish(o: Resolver, s: Sys, st: Step)
    requires Inv(o, s) && st.Finish? && Next(o, s, st).Some?
    ensures Inv(o, Next(o, s, st).value)
  {
    hide Valid, Tracked, Lossless, InFlight, Given, EncodeReply;
    TableSize(s.client);
    var s' := Next(o, s, st).value;
    assert IsJob(s.workers[st.w]);
    assert forall d :: EncodeReply(s.workers[st.w].id, Given(o, s.workers[st.w].lookup, st.when)) == Some(d) ==>
                         RepliesWith(o, s.workers[st.w].origin, d, st.when);
    if s'.workers[st.w] == Gone {
      InFlightLost(o, s, st);
      TrackedFewer(s.client, s.client, InFlight(s), InFlight(s'));
    } else {
      InFlightWork(o, s, st);
      BusyWorks(s, s', st.w);
    }
  }

  lemma InvReceive(o: Resolver, s: Sys, st: Step)
    requires Inv(o, s) && st.Receive? && Careful(s, st) && Next(o, s, st).Some?
    ensures var s' := Next(o, s, st).value; Inv(o, s') || (Overlong(o, s') && s'.client == s.client)
  {
    hide Valid, Tracked, Lossless, InFlight, Wired, HandleDatagram;
    if s.responses[0].Delivery? {
      InvDelivery(o, s, st);
    } else {
      InvDeath(o, s, st);
    }
  }

  lemma InvDelivery(o: Resolver, s: Sys, st: Step)
    requires Inv(o, s) && st.Receive? && Careful(s, st) && Next(o, s, st).Some? && s.responses[0].Delivery?
    ensures var s' := Next(o, s, st).value; Inv(o, s') || (Overlong(o, s') && s'.client == s.client)
  {
    hide Valid, Tracked, Lossless, InFlight, RepliesWith, HandleDatagram, Received, Complete;
    TableSize(s.client);
    var s' := Next(o, s, st).value;
    var Delivery(m, d) := s.responses[0];
    InFlightOrigin(s, 0);
    var when: nat :| RepliesWith(o, m, d, when);
    ReceiveTracked(o, s.client, InFlight(s), m, d, when, st.room);
    CompleteKeeps(s.client, Slot(m.tick), Arrived(Given(o, m.lookup, when), st.room));
    if s'.fault.None? {
      InFlightLost(o, s, st);
      assert InFlight(s') == InFlight(s) - multiset{m};
    }
  }

  lemma InvDeath(o: Resolver, s: Sys, st: Step)
    requires Inv(o, s) && st.Receive? && Next(o, s, st).Some? && s.responses[0] == Death
    ensures Inv(o, Next(o, s, st).value)
  {
    hide Valid, Tracked, Lossless, InFlight, IsReply, HandleDatagram, Received;
    var s' := Next(o, s, st).value;
    TableSize(s.client);
    DeathHandled(s.client, st.room);
    InFlightLost(o, s, st);
    assert InFlight(s') == InFlight(s);
    assert !AllWorking(s');
    TrackedFewer(s.client, s'.client, InFlight(s), InFlight(s'));
  }

  lemma DeathHandled(c: State, room: nat)
    requires |c.table| == SLOTS
    ensures HandleDatagram(c, Received(Wire(Death)), room) == After(c.(dead := true))
  {
    hide ParseReply, Received;
    DeathNoticeRoundTrip(room);
  }

  lemma CompleteKeeps(c: State, i: nat, a: Answer)
    ensures Live(c, i) ==> Complete(c, i, a).dead == c.dead
  {
  }

  /** A worker that manages to say that it ends is heard: its notice goes to the back of the
      responses, and a client that reads one is dead and otherwise unchanged. */
  lemma DeathIsHeard(o: Resolver, s: Sys, w: nat, room: nat)
    requires Valid(s.client) && s.fault.None?
    ensures Next(o, s, Die(w, true)).Some? ==>
              var s' := Next(o, s, Die(w, true)).value;
              && w < |s.workers| && s'.workers == s.workers[w := Gone] && s'.responses == s.responses + [Death]
              && s'.client == s.client && s'.requests == s.requests && s'.fault.None?
    ensures |s.responses| > 0 && s.responses[0] == Death && !s.client.dead ==>
              Next(o, s, Receive(room)) ==
                Some(s.(responses := s.responses[1..], client := s.client.(dead := true)))
  {
    hide Valid, HandleDatagram, Received;
    TableSize(s.client);
    DeathHandled(s.client, room);
  }

  lemma InFlightOrigin(s: Sys, k: nat)
    requires k < |s.responses| && s.responses[k].Delivery?
    ensures s.responses[k].origin in InFlight(s)
  {
    hide Bag;
    InBag(s.responses, OriginBag, k);
    assert s.responses[k].origin in OriginBag(s.responses[k]);
  }

  lemma InvRemove(o: Resolver, s: Sys, st: Step)
    requires Inv(o, s) && (st.Release? || st.Cancel?) && Careful(s, st) && Next(o, s, st).Some?
    ensures Inv(o, Next(o, s, st).value)
  {
    hide Valid, Occupied, Tracked, Lossless, Bag, Without, IsReply, IsJob, IsRequest;
    TableSize(s.client);
    LiveCounted(s.client, st.i);
    if st.Cancel? || (!s.client.dead && s.client.table[st.i].value.answer.Some?) {
      RemoveTracked(s.client, st.i, InFlight(s));
    }
  }

  lemma InvDie(o: Resolver, s: Sys, st: Step)
    requires Inv(o, s) && st.Die? && Next(o, s, st).Some?
    ensures Inv(o, Next(o, s, st).value)
  {
    hide Valid, Lossless, InFlight, IsReply, IsJob, IsRequest, Tracked;
    TableSize(s.client);
    InFlightLost(o, s, st);
    var s' := Next(o, s, st).value;
    assert s'.workers[st.w] == Gone;
    TrackedFewer(s.client, s.client, InFlight(s), InFlight(s'));
  }

  lemma TrackedFewer(c: State, c': State, flight: multiset<Msg>, fewer: multiset<Msg>)
    requires |c.table| == SLOTS && Tracked(c, flight) && fewer <= flight
    requires c'.table == c.table && c'.tick == c.tick && c'.issued == c.issued
    ensures Tracked(c', fewer)
  {
  }

  lemma InvStep(o: Resolver, s: Sys, st: Step)
    requires Inv(o, s) && Careful(s, st) && Next(o, s, st).Some?
    ensures var s' := Next(o, s, st).value; Inv(o, s') || (Overlong(o, s') && s'.client == s.client)
  {
    hide Inv, Next, Careful, Overlong;
    match st {
      case Ask(_, _, _) => InvAsk(o, s, st);
      case Take(_) => InvTake(o, s, st);
      case Finish(_, _) => InvFinish(o, s, st);
      case Receive(_) => InvReceive(o, s, st);
      case Release(_) => InvRemove(o, s, st);
      case Cancel(_) => InvRemove(o, s, st);
      case Die(_, _) => InvDie(o, s, st);
    }
  }
}
