/** The safety condition is exact: asking in a hazard can always be driven into an assert,
    and a hazard is what an impolite cancel leaves behind. */
module Hazards {
  import opened Wrappers
  import opened Bytes
  import opened Datagram
  import opened Lookups
  import opened Client
  import opened Framing
  import opened Protocol
  import opened Delivery
  import opened Runs

  /** Two messages carry the id of one unfinished query, or one message that of a finished
      query; and the workers are there to answer them. */
  ghost predicate Doomed(o: Resolver, s: Sys, a: Msg, b: Msg) {
    && Valid(s.client) && s.fault.None? && !s.client.dead
    && AllWorking(s) && |s.workers| > 0 && Death !in s.responses
    && Wired(o, s) && Served(o, s)
    && a.tick == b.tick && a != b && a in InFlight(s)
    && DoomedSlot(s.client, a, b, InFlight(s))
  }

  ghost predicate DoomedSlot(c: State, a: Msg, b: Msg, flight: multiset<Msg>)
    requires |c.table| == SLOTS
  {
    var e := c.table[Slot(a.tick)];
    && e.Some? && e.value.tick == a.tick
    && (e.value.answer.None? ==> b in flight)
  }

  /** Handling any response keeps a doomed client doomed, if no assert fires at once. */
  lemma HandleDoomed(c: State, a: Msg, b: Msg, flight: multiset<Msg>, m: Msg, ans: Answer) returns (a': Msg, b': Msg)
    requires Valid(c) && a.tick == b.tick && a != b && a in flight && m in flight && DoomedSlot(c, a, b, flight)
    requires HandleResponse(c, Answered(Id(m.tick), ans)).After?
    ensures var c' := HandleResponse(c, Answered(Id(m.tick), ans)).value;
            && |c'.table| == SLOTS && a'.tick == b'.tick && a' != b' && a' in flight - multiset{m}
            && DoomedSlot(c', a', b', flight - multiset{m})
  {
    hide Occupied, ValidFinished, ValidQuery;
    SlotOfId(m.tick);
    SlotOfId(a.tick);
    if m == a {
      a', b' := b, a;
    } else {
      a', b' := a, b;
    }
  }

  /** The assert of complete_query, or one of handle_response's asserts on the type. */
  predicate Crossed(f: Option<Fault>) {
    f == Some(DoneTwice) || f == Some(WrongType)
  }

  lemma ReceiveWired(o: Resolver, s: Sys, room: nat)
    requires Valid(s.client) && Wired(o, s) && Served(o, s) && Next(o, s, Receive(room)).Some?
    ensures var s' := Next(o, s, Receive(room)).value; s'.workers == s.workers && Wired(o, s') && Served(o, s')
    ensures |s.responses| > 0
    ensures s.responses[0].Delivery? ==>
              IsReply(o, s.responses[0].origin, s.responses[0].datagram) && |s.responses[0].datagram| <= RECV_BUFFER
  {
    hide Valid, HandleDatagram, IsReply, IsJob, IsRequest, Received, InFlight, Answerable;
    ReceiveServed(o, s, room);
  }

  lemma DoomedReceive(o: Resolver, s: Sys, a: Msg, b: Msg, room: nat) returns (a': Msg, b': Msg)
    requires Doomed(o, s, a, b) && Next(o, s, Receive(room)).Some?
    ensures var s' := Next(o, s, Receive(room)).value; Crossed(s'.fault) || Doomed(o, s', a', b')
  {
    hide InFlight, Valid, HandleDatagram, HandleResponse, DoomedSlot, RepliesWith, Wired, Served,
      Received, Arrived, Given;
    TableSize(s.client);
    ReceiveWired(o, s, room);
    var Delivery(m, d) := s.responses[0];
    var when: nat :| RepliesWith(o, m, d, when);
    var ans := Arrived(Given(o, m.lookup, when), room);
    ReplyHandled(o, s.client, m, d, when, room);
    a', b' := a, b;
    OnlyCrossed(s.client, Answered(Id(m.tick), ans));
    var s' := Next(o, s, Receive(room)).value;
    if s'.fault.None? {
      InFlightOrigin(s, 0);
      InFlightLost(o, s, Receive(room));
      a', b' := HandleDoomed(s.client, a, b, InFlight(s), m, ans);
      assert InFlight(s') == InFlight(s) - multiset{m};
    }
  }

  lemma OnlyCrossed(c: State, r: Reply)
    requires |c.table| == SLOTS && r.Answered?
    ensures var e := HandleResponse(c, r); if e.Fires? then Crossed(Some(e.fault)) else e.value.dead == c.dead
  {
  }

  lemma DoomedWork(o: Resolver, s: Sys, a: Msg, b: Msg, st: Step)
    requires Doomed(o, s, a, b) && (st.Take? || st.Finish?) && Next(o, s, st).Some?
    requires var s' := Next(o, s, st).value;
             AllWorking(s') && |s'.workers| == |s.workers| && Served(o, s') && Wired(o, s') && s'.fault.None?
    ensures Doomed(o, Next(o, s, st).value, a, b)
  {
    hide InFlight, Valid, DoomedSlot, IsReply, IsJob, IsRequest, ParseRequest, EncodeReply, Received, Given, Served;
    if st.Take? {
      TakeGivesJob(o, s, st.w);
    }
    InFlightWork(o, s, st);
  }

  /** From a doomed state the workers and the receive loop need only go on for one of the two
      asserts to fire. */
  lemma {:induction false} DoomedCrashes(o: Resolver, s: Sys, a: Msg, b: Msg, room: nat) returns (steps: seq<Step>)
    requires Doomed(o, s, a, b)
    ensures Valid(s.client) && (forall k :: 0 <= k < |steps| ==> InternalWith(steps[k], room))
    ensures Run(o, s, steps).Some? && Crossed(Run(o, s, steps).value.fault)
    decreases Measure(s)
  {
    hide Next, Measure, InFlight, Valid, DoomedSlot, Wired, Served, AllWorking, Crossed;
    var st := SomeStepEnabled(o, s, room);
    var s' := Next(o, s, st).value;
    InternalStep(o, s, st);
    var a', b' := a, b;
    if st.Receive? {
      a', b' := DoomedReceive(o, s, a, b, st.room);
    } else {
      DoomedWork(o, s, a, b, st);
    }
    if Crossed(s'.fault) {
      steps := [st];
      assert steps[1..] == [];
    } else {
      var rest := DoomedCrashes(o, s', a', b', room);
      steps := [st] + rest;
      assert steps[1..] == rest;
    }
  }

  lemma AskServed(o: Resolver, s: Sys, lookup: Lookup)
    requires Valid(s.client) && s.fault.None? && Wired(o, s) && Served(o, s)
    requires Askable(lookup) && Proper(lookup) && Answerable(o, lookup)
    ensures var s' := Next(o, s, Ask(lookup, true, true)); s'.Some? && Wired(o, s'.value) && Served(o, s'.value)
  {
    hide Valid, InFlight, Issue, Answerable, EncodeRequest, WellFormed, IsReply, IsJob, ShortAddress, Askable;
    InFlightAsk(o, s, Ask(lookup, true, true));
  }

  lemma AskInHazard(o: Resolver, s: Sys, lookup: Lookup) returns (a: Msg, b: Msg)
    requires Inv(o, s) && AllWorking(s) && |s.workers| > 0 && Hazard(s.client, InFlight(s))
    requires s.client.count < SLOTS && Askable(lookup) && Proper(lookup) && Served(o, s) && Answerable(o, lookup)
    ensures Valid(s.client)
    ensures var s' := Next(o, s, Ask(lookup, true, true)); s'.Some? && Doomed(o, s'.value, a, b)
  {
    hide InFlight, Occupied, ValidFinished, ValidQuery, Lossless, Answerable, EncodeRequest, Wired,
      Served, Askable;
    var m :| m in InFlight(s) && m.tick == s.client.tick;
    var st := Ask(lookup, true, true);
    InFlightAsk(o, s, st);
    AskServed(o, s, lookup);
    IssueValid(s.client, lookup, true, true);
    assert Probe(s.client.table, s.client.tick, 0).None?;
    a, b := m, Msg(s.client.tick, |s.client.issued|, lookup);
  }

  /** Exactness. In a reachable state with its workers alive, room for one more query and every
      request answerable, the query can be asked safely iff there is no hazard: in a hazard the
      workers and the receive loop alone can make one of the two asserts fire, and outside one
      they never do. */
  lemma AskIsSafeIffNoHazard(o: Resolver, s: Sys, lookup: Lookup)
    requires Inv(o, s) && AllWorking(s) && |s.workers| > 0
    requires s.client.count < SLOTS && Askable(lookup) && Proper(lookup) && s.client.tick + 255 < 0x1_0000_0000
    requires Served(o, s) && Answerable(o, lookup)
    ensures Valid(s.client)
    ensures Hazard(s.client, InFlight(s)) <==>
            exists steps :: (forall k :: 0 <= k < |steps| ==> Internal(steps[k]))
                         && Run(o, s, [Ask(lookup, true, true)] + steps).Some?
                         && Crossed(Run(o, s, [Ask(lookup, true, true)] + steps).value.fault)
  {
    hide Inv, InFlight, Next, Run, Hazard, Valid, AllWorking, Crossed, Served, Proper, Askable, Answerable;
    InvValid(o, s);
    var ask := Ask(lookup, true, true);
    if Hazard(s.client, InFlight(s)) {
      var a, b := AskInHazard(o, s, lookup);
      var steps := DoomedCrashes(o, Next(o, s, ask).value, a, b, 0);
      RunFirst(o, s, ask, steps);
    } else {
      forall steps | (forall k :: 0 <= k < |steps| ==> Internal(steps[k])) && Run(o, s, [ask] + steps).Some?
        ensures !Crossed(Run(o, s, [ask] + steps).value.fault)
      {
        RunFirst(o, s, ask, steps);
        ProperIsShort(lookup);
        AskInvTick(o, s, ask);
        InternalSafe(o, Next(o, s, ask).value, steps);
      }
    }
  }

  lemma ProperIsShort(l: Lookup)
    requires Proper(l)
    ensures ShortAddress(l)
  {
  }

  lemma RunFirst(o: Resolver, s: Sys, st: Step, steps: seq<Step>)
    requires Valid(s.client)
    ensures Run(o, s, [st] + steps) == if Next(o, s, st).None? then None else Run(o, Next(o, s, st).value, steps)
  {
    hide Next, Valid;
    assert ([st] + steps)[1..] == steps;
  }

  lemma AskInvTick(o: Resolver, s: Sys, st: Step)
    requires Inv(o, s) && st.Ask? && !Hazard(s.client, InFlight(s)) && ShortAddress(st.lookup) && Next(o, s, st).Some?
    ensures Inv(o, Next(o, s, st).value) && Next(o, s, st).value.client.tick <= s.client.tick + 255
  {
    hide InFlight, Occupied, ValidFinished, ValidQuery, Lossless, Advance, Without;
    InvStep(o, s, st);
    AllocValid(s.client, st.lookup, st.memory);
  }

  lemma InternalSafe(o: Resolver, s: Sys, steps: seq<Step>)
    requires Inv(o, s) && s.client.tick < 0x1_0000_0000
    requires (forall k :: 0 <= k < |steps| ==> Internal(steps[k])) && Run(o, s, steps).Some?
    ensures !Crossed(Run(o, s, steps).value.fault)
  {
    hide Inv, Next, Valid, Run, CarefulRun, IsReply;
    InvValid(o, s);
    InternalCareful(o, s, steps);
    InvRun(o, s, steps);
  }

  /** An impolite cancel is what makes a hazard. */
  lemma ImpoliteCancelMakesHazard(o: Resolver, s: Sys, i: nat)
    requires Inv(o, s) && AllWorking(s) && Live(s.client, i)
    requires s.client.table[i].value.answer.None? && s.client.table[i].value.tick == s.client.tick
    ensures Valid(s.client) && Next(o, s, Cancel(i)).Some?
    ensures var s' := Next(o, s, Cancel(i)).value; |s'.client.table| == SLOTS && Hazard(s'.client, InFlight(s'))
  {
    hide Jobs, Origins, Occupied, ValidFinished, Without;
    LiveCounted(s.client, i);
    assert MsgOf(s.client.table[i].value) in InFlight(s);
  }

  // ----- the shortest such run: ask, cancel before the answer is in, ask again

  /** The context with one query under id 0, the one with the given serial. */
  function OneQuery(serial: nat, lookup: Lookup, answer: Option<Answer>, issued: seq<nat>, done: seq<nat>): State {
    State(NoQueries()[0 := Some(Query(0, serial, lookup, answer))], 0, 1, false,
          if answer.Some? then [0] else [], issued, done)
  }

  lemma AskUnderIdZero(lookup: Lookup, issued: seq<nat>)
    requires RequestSize(lookup) <= BUFSIZE
    ensures var c := FRESH.(issued := issued);
            Valid(c) && Issue(c, lookup, true, true) == (OneQuery(|issued|, lookup, None, issued + [0], []), true)
  {
    hide Occupied;
    FreshValid();
    assert Probe(FRESH.table, 0, 0).None?;
  }

  lemma CancelQueryZero(lookup: Lookup, issued: seq<nat>)
    ensures Remove(OneQuery(0, lookup, None, issued, []), 0) == FRESH.(issued := issued)
  {
    assert NoQueries()[0 := Some(Query(0, 0, lookup, None))][0 := None] == NoQueries();
  }

  lemma RunTwo(o: Resolver, s: Sys, a: Step, b: Step)
    requires Valid(s.client) && Next(o, s, a).Some?
    ensures Run(o, s, [a, b]) == Next(o, Next(o, s, a).value, b)
  {
    hide Next, Valid;
    assert [a, b] == [a] + [b];
    RunOne(o, s, a);
    RunAppend(o, s, [a], [b]);
    RunOne(o, Next(o, s, a).value, b);
  }

  /** In every state the client handles this response as this answer, under its message's id. */
  ghost predicate Handled(r: Response, room: nat, a: Answer)
    requires r.Delivery?
  {
    forall c: State {:trigger HandleDatagram(c, Received(Wire(r)), room)} :: |c.table| == SLOTS ==>
      HandleDatagram(c, Received(Wire(r)), room) == HandleResponse(c, Answered(Id(r.origin.tick), a))
  }

  /** An idle worker takes up the first request and replies to it. */
  lemma ServeOne(o: Resolver, s: Sys, w: nat, when: nat, room: nat) returns (d: seq<Byte>, s1: Sys, s2: Sys)
    requires Valid(s.client) && s.fault.None? && w < |s.workers| && s.workers[w] == Idle
    requires |s.requests| > 0 && IsRequest(s.requests[0])
    requires Deliverable(Given(o, s.requests[0].origin.lookup, when))
    ensures Next(o, s, Take(w)) == Some(s1) && s1.client == s.client && Next(o, s1, Finish(w, when)) == Some(s2)
    ensures var m := s.requests[0].origin;
            && s1.workers == s.workers[w := Busy(m, Id(m.tick), m.lookup)]
            && s1.requests == s.requests[1..] && s1.responses == s.responses && s1.fault.None?
            && s2 == s.(requests := s.requests[1..], responses := s.responses + [Delivery(m, d)])
            && Handled(Delivery(m, d), room, Arrived(Given(o, m.lookup, when), room))
  {
    hide Valid, ParseRequest, EncodeRequest, ParseReply, EncodeReply, Received, Given, WellFormed, Plain, Sendable,
      Receivable, Arrived, HandleResponse;
    var m := s.requests[0].origin;
    RequestRoundTrip(Id(m.tick), m.lookup);
    s1 := Next(o, s, Take(w)).value;
    assert s1.workers[w] == Busy(m, Id(m.tick), m.lookup);
    d, s2 := Replies(o, s1, w, when, room);
    assert s.workers[w := s1.workers[w]][w := Idle] == s.workers;
  }

  /** A busy worker replies. */
  lemma Replies(o: Resolver, s: Sys, w: nat, when: nat, room: nat) returns (d: seq<Byte>, s': Sys)
    requires Valid(s.client) && s.fault.None? && w < |s.workers| && s.workers[w].Busy?
    requires IsJob(s.workers[w]) && Deliverable(Given(o, s.workers[w].lookup, when))
    ensures Next(o, s, Finish(w, when)) == Some(s')
    ensures var m := s.workers[w].origin;
            && s' == s.(workers := s.workers[w := Idle], responses := s.responses + [Delivery(m, d)])
            && Handled(Delivery(m, d), room, Arrived(Given(o, m.lookup, when), room))
  {
    hide Valid, ParseReply, EncodeReply, Received, Given, Plain, Sendable, Receivable, Arrived, HandleResponse, Proper;
    var Busy(m, id, l) := s.workers[w];
    GivenPlain(o, l, when);
    SendableIff(id, Given(o, l, when));
    d := EncodeReply(id, Given(o, l, when)).value;
    s' := Next(o, s, Finish(w, when)).value;
    ReplyRoundTrip(id, Given(o, l, when), room);
  }

  lemma AskStep(o: Resolver, s: Sys, lookup: Lookup, issued: seq<nat>)
    requires s.client == FRESH.(issued := issued) && s.fault.None? && Askable(lookup) && Proper(lookup)
    ensures Valid(s.client)
    ensures Next(o, s, Ask(lookup, true, true)) ==
              Some(s.(client := OneQuery(|issued|, lookup, None, issued + [0], []),
                      requests := s.requests + [Request(Msg(0, |issued|, lookup), EncodeRequest(0, lookup))]))
  {
    hide Valid, Issue, EncodeRequest, WellFormed;
    AskUnderIdZero(lookup, issued);
  }

  lemma CancelStep(o: Resolver, s: Sys, lookup: Lookup, issued: seq<nat>)
    requires Valid(s.client) && s.client == OneQuery(0, lookup, None, issued, []) && s.fault.None?
    ensures Next(o, s, Cancel(0)) == Some(s.(client := FRESH.(issued := issued)))
  {
    hide Valid, Remove;
    CancelQueryZero(lookup, issued);
  }

  predicate IdZero(r: Response) {
    r.Delivery? && r.origin.tick == 0
  }

  /** Two responses under id 0 are waiting. The first one completes the query there, whoever it
      is meant for, if the types agree; then the second one finds it done. */
  lemma ReceiveTwice(o: Resolver, s: Sys, l: Lookup, room: nat, a1: Answer, a2: Answer)
    requires Valid(s.client) && s.fault.None? && s.client == OneQuery(1, l, None, [0, 0], [])
    requires |s.responses| == 2 && IdZero(s.responses[0]) && IdZero(s.responses[1])
    requires Accepts(RequestKind(l), ReplyKind(a2))
    requires Handled(s.responses[0], room, a1) && Handled(s.responses[1], room, a2)
    ensures Next(o, s, Receive(room)).Some?
    ensures var s1 := Next(o, s, Receive(room)).value;
            if Accepts(RequestKind(l), ReplyKind(a1)) then
              && s1 == s.(client := OneQuery(1, l, Some(a1), [0, 0], [1]), responses := s.responses[1..])
              && Next(o, s1, Receive(room)) == Some(s1.(fault := Some(DoneTwice)))
            else s1 == s.(fault := Some(WrongType))
  {
    hide Valid, HandleDatagram, Received;
    var table := NoQueries();
    assert table[0 := Some(Query(0, 1, l, None))][0 := Some(Query(0, 1, l, Some(a1)))]
        == table[0 := Some(Query(0, 1, l, Some(a1)))];
    assert s.responses[1..][0] == s.responses[1];
  }

  lemma GivenAccepted(o: Resolver, l: Lookup, when: nat, room: nat)
    ensures Accepts(RequestKind(l), ReplyKind(Arrived(Given(o, l, when), room)))
  {
  }

  function AskCancelAsk(first: Lookup, second: Lookup): seq<Step> {
    [Ask(first, true, true), Cancel(0)] + [Ask(second, true, true)]
  }

  /** Both requests are now waiting under id 0, and the second query is the one that has it. */
  lemma AskedTwice(o: Resolver, workers: nat, first: Lookup, second: Lookup) returns (s: Sys)
    requires Askable(first) && Proper(first) && Askable(second) && Proper(second)
    ensures Run(o, Start(workers), AskCancelAsk(first, second)) == Some(s)
    ensures s == Start(workers).(client := OneQuery(1, second, None, [0, 0], []),
                                 requests := [Request(Msg(0, 0, first), EncodeRequest(0, first)),
                                              Request(Msg(0, 1, second), EncodeRequest(0, second))])
  {
    hide Next, Valid, Proper, Askable, EncodeRequest, OneQuery, Run;
    var s0, ask1, ask2 := Start(workers), Ask(first, true, true), Ask(second, true, true);
    assert [] + [0] == [0] && [0] + [0] == [0, 0];
    AskStep(o, s0, first, []);
    var s1 := Next(o, s0, ask1).value;
    CancelStep(o, s1, first, [0]);
    var s2 := Next(o, s1, Cancel(0)).value;
    AskStep(o, s2, second, [0]);
    s := Next(o, s2, ask2).value;
    RunTwo(o, s0, ask1, Cancel(0));
    RunOne(o, s2, ask2);
    RunAppend(o, s0, [ask1, Cancel(0)], [ask2]);
  }

  function ServeBoth(t1: nat, t2: nat): seq<Step> {
    [Take(0), Finish(0, t1)] + [Take(0), Finish(0, t2)]
  }

  /** One worker answers both requests; each datagram is handled as its lookup's answer. */
  lemma BothServed(o: Resolver, s: Sys, first: Lookup, second: Lookup, t1: nat, t2: nat, room: nat) returns (s': Sys)
    requires Valid(s.client) && s.fault.None? && |s.workers| > 0 && s.workers[0] == Idle && s.responses == []
    requires s.requests == [Request(Msg(0, 0, first), EncodeRequest(0, first)),
                            Request(Msg(0, 1, second), EncodeRequest(0, second))]
    requires Proper(first) && Proper(second) && Deliverable(Given(o, first, t1)) && Deliverable(Given(o, second, t2))
    ensures Run(o, s, ServeBoth(t1, t2)) == Some(s')
    ensures s'.client == s.client && s'.fault.None? && |s'.responses| == 2
    ensures IdZero(s'.responses[0]) && IdZero(s'.responses[1])
    ensures Handled(s'.responses[0], room, Arrived(Given(o, first, t1), room))
    ensures Handled(s'.responses[1], room, Arrived(Given(o, second, t2), room))
  {
    hide Next, Valid, Proper, EncodeRequest, Run, Given, Deliverable, Arrived;
    var d1, s1, s2 := ServeOne(o, s, 0, t1, room);
    var d2, s3, s4 := ServeOne(o, s2, 0, t2, room);
    s' := s4;
    RunTwo(o, s, Take(0), Finish(0, t1));
    RunTwo(o, s2, Take(0), Finish(0, t2));
    RunAppend(o, s, [Take(0), Finish(0, t1)], [Take(0), Finish(0, t2)]);
  }

  function MixUp(first: Lookup, second: Lookup, t1: nat, t2: nat, room: nat): seq<Step> {
    AskCancelAsk(first, second) + ServeBoth(t1, t2) + [Receive(room)]
  }

  /** Ask, cancel before the answer is in, ask again, and let one worker answer both requests.
      If the second lookup takes the first one's type of answer, it is completed with the first
      lookup's answer, and then complete_query's assert fires; otherwise an assert on the type does. */
  lemma AskCancelAskCrashes(o: Resolver, workers: nat, first: Lookup, second: Lookup, t1: nat, t2: nat, room: nat)
    requires workers > 0 && Askable(first) && Proper(first) && Askable(second) && Proper(second)
    requires Deliverable(Given(o, first, t1)) && Deliverable(Given(o, second, t2))
    ensures var steps, wrong := MixUp(first, second, t1, t2, room), Arrived(Given(o, first, t1), room);
            var early, late := Run(o, Start(workers), steps), Run(o, Start(workers), steps + [Receive(room)]);
            && early.Some?
            && if Accepts(RequestKind(second), ReplyKind(wrong)) then
                 && early.value.client == OneQuery(1, second, Some(wrong), [0, 0], [1])
                 && late.Some? && late.value.fault == Some(DoneTwice)
               else early.value.fault == Some(WrongType)
  {
    hide Next, Valid, Handled, Deliverable, Proper, Arrived, Askable, EncodeRequest, Given, OneQuery, Run, AskCancelAsk,
      ServeBoth;
    var s0, receive := Start(workers), Receive(room);
    var s3 := AskedTwice(o, workers, first, second);
    var s7 := BothServed(o, s3, first, second, t1, t2, room);
    RunAppend(o, s0, AskCancelAsk(first, second), ServeBoth(t1, t2));
    GivenAccepted(o, second, t2, room);
    ReceiveTwice(o, s7, second, room, Arrived(Given(o, first, t1), room), Arrived(Given(o, second, t2), room));
    RunOne(o, s7, receive);
    RunAppend(o, s0, AskCancelAsk(first, second) + ServeBoth(t1, t2), [receive]);
    RunOne(o, Next(o, s7, receive).value, receive);
    RunAppend(o, s0, MixUp(first, second, t1, t2, room), [receive]);
  }
}
