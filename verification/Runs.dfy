/** Theorems over whole runs: safety, the rules a caller can follow, progress, and that
    the safety condition is exact. */
module Runs {
  import opened Wrappers
  import AddrCodec
  import opened Bytes
  import opened Lookups
  import opened Client
  import opened Framing
  import opened Protocol
  import opened Delivery
  import opened Provenance

  /** What a reader wants to know of the state a run from the start has led to: every finished
      query holds what the lookup a worker made for that very query gave, cut at the memory the
      client had when it read the reply; and nothing has gone wrong but, perhaps, that the client
      was sent a reply longer than its receive buffer. */
  ghost predicate Sound(o: Resolver, workers: nat, steps: seq<Step>, s: Sys) {
    Own(o, workers, steps, s.client.table) && OnlyOverlong(o, s)
  }

  ghost predicate OnlyOverlong(o: Resolver, s: Sys) {
    s.fault.Some? ==> Overlong(o, s)
  }

  /** A state a careful run from the start leads to, with where its answers come from. */
  ghost predicate Reached(o: Resolver, workers: nat, steps: seq<Step>, s: Sys) {
    && Run(o, Start(workers), steps) == Some(s)
    && Inv(o, s) && Own(o, workers, steps, s.client.table) && FromWorkers(o, workers, steps, s.responses)
  }

  lemma InvFault(o: Resolver, s: Sys)
    ensures Inv(o, s) ==> s.fault.None?
    ensures Overlong(o, s) ==> s.fault.Some?
  {
    hide Valid, Tracked, Wired, Lossless, IsReply;
  }

  lemma {:induction false} InvRun(o: Resolver, s: Sys, steps: seq<Step>)
    requires Inv(o, s) && CarefulRun(o, s, steps) && Run(o, s, steps).Some?
    ensures var s' := Run(o, s, steps).value; OnlyOverlong(o, s') && (s'.fault.None? ==> Inv(o, s'))
    decreases |steps|
  {
    hide Inv, Next, Careful, Overlong;
    InvValid(o, s);
    if |steps| > 0 {
      var s1 := Next(o, s, steps[0]).value;
      InvStep(o, s, steps[0]);
      InvFault(o, s1);
      if s1.fault.Some? {
        NothingAfterFault(o, s1, steps[1..]);
      } else {
        InvRun(o, s1, steps[1..]);
      }
    }
  }

  lemma ReachedStep(o: Resolver, workers: nat, past: seq<Step>, s: Sys, st: Step)
    requires Reached(o, workers, past, s) && Careful(s, st) && Next(o, s, st).Some?
    ensures var s' := Next(o, s, st).value;
            && Run(o, Start(workers), past + [st]) == Some(s')
            && (s'.fault.None? ==> Reached(o, workers, past + [st], s'))
            && Sound(o, workers, past + [st], s')
  {
    hide Inv, Next, Run, Careful, Own, FromWorkers, Overlong;
    InvValid(o, s);
    StepTraced(o, workers, past, st, s);
    InvStep(o, s, st);
    InvFault(o, Next(o, s, st).value);
    RunOne(o, s, st);
    RunAppend(o, Start(workers), past, [st]);
  }

  lemma {:induction false} ReachedRun(o: Resolver, workers: nat, past: seq<Step>, s: Sys, steps: seq<Step>)
    requires Reached(o, workers, past, s) && Valid(s.client)
    requires CarefulRun(o, s, steps) && Run(o, s, steps).Some?
    ensures var s' := Run(o, s, steps).value;
            && Run(o, Start(workers), past + steps) == Some(s')
            && (s'.fault.None? ==> Reached(o, workers, past + steps, s'))
            && Sound(o, workers, past + steps, s')
    decreases |steps|
  {
    hide Valid, Next, Careful, Reached, Sound, Start, Run, CarefulRun;
    ReachedFacts(o, workers, past, s);
    FirstStep(o, s, steps);
    if |steps| == 0 {
      assert past + steps == past;
    } else {
      var s1 := Next(o, s, steps[0]).value;
      ReachedStep(o, workers, past, s, steps[0]);
      if s1.fault.Some? {
        NothingAfterFault(o, s1, steps[1..]);
        assert past + steps == past + [steps[0]];
      } else {
        assert past + [steps[0]] + steps[1..] == past + steps;
        ReachedRun(o, workers, past + [steps[0]], s1, steps[1..]);
      }
    }
  }

  lemma FirstStep(o: Resolver, s: Sys, steps: seq<Step>)
    requires Valid(s.client) && CarefulRun(o, s, steps) && Run(o, s, steps).Some?
    ensures steps == [] ==> Run(o, s, steps) == Some(s)
    ensures steps != [] ==>
              && Careful(s, steps[0]) && Next(o, s, steps[0]).Some?
              && var s1 := Next(o, s, steps[0]).value;
                 CarefulRun(o, s1, steps[1..]) && Run(o, s1, steps[1..]) == Run(o, s, steps)
  {
    hide Valid, Next, Careful;
  }

  lemma ReachedFacts(o: Resolver, workers: nat, past: seq<Step>, s: Sys)
    requires Reached(o, workers, past, s)
    ensures Run(o, Start(workers), past) == Some(s) && Inv(o, s) && Valid(s.client) && s.fault.None?
    ensures Sound(o, workers, past, s)
  {
    hide Run, Own, FromWorkers;
  }

  lemma StartReached(o: Resolver, workers: nat)
    ensures Reached(o, workers, [], Start(workers))
  {
    hide Inv, Own, FromWorkers;
    StartInv(o, workers);
    NothingYet(o, workers);
  }

  lemma NothingAfterFault(o: Resolver, s: Sys, steps: seq<Step>)
    requires Valid(s.client) && s.fault.Some? && Run(o, s, steps).Some?
    ensures steps == [] && Run(o, s, steps) == Some(s)
  {
    hide Valid;
  }

  lemma InvValid(o: Resolver, s: Sys)
    requires Inv(o, s)
    ensures Valid(s.client) && |s.client.table| == SLOTS && s.fault.None?
  {
  }

  /** In every interleaving of the client and the workers in which no query is asked in a
      hazard or with an overlong address, and no response is read 2^32 ids late. */
  lemma EveryAnswerIsItsOwn(o: Resolver, workers: nat, steps: seq<Step>)
    requires CarefulRun(o, Start(workers), steps) && Run(o, Start(workers), steps).Some?
    ensures var s := Run(o, Start(workers), steps).value;
            Sound(o, workers, steps, s) && (s.fault.None? ==> Reached(o, workers, steps, s))
  {
    hide Next, CarefulRun, Run, Valid, Reached, Sound;
    StartReached(o, workers);
    ReachedRun(o, workers, [], Start(workers), steps);
    assert [] + steps == steps;
  }

  /** What a finished query holds, in terms of what the lookup function gave a worker: the fields
      that belong to the kind of lookup, an address list up to the first node that did not fit the
      reply or the client's memory, with EAI_MEMORY if any is missing, and no list after a
      failure. */
  lemma AnswerFields(o: Resolver, workers: nat, steps: seq<Step>, s: Sys, i: nat)
    requires Sound(o, workers, steps, s) && Completed(s.client.table, i)
    ensures exists j: nat, k: nat ::
              var q := s.client.table[i].value;
              && j < k && RepliedAt(o, workers, steps, j, MsgOf(q)) && ReadAt(o, workers, steps, k, MsgOf(q))
              && var raw, a, room := o(q.lookup, steps[j].when), q.answer.value, steps[k].room;
                 match q.lookup
                 case AddrLookup(_, _, _) =>
                   var cut := if raw.status.ret == 0 then AddrCodec.FirstMisfit(raw.nodes, 0) else 0;
                   var missing := room < cut || (raw.status.ret == 0 && cut < |raw.nodes|);
                   && a.AddrAnswer?
                   && a.status == (if missing then raw.status.(ret := AddrCodec.EAI_MEMORY) else raw.status)
                   && a.nodes == raw.nodes[..if room < cut then room else cut]
                 case NameLookup(_, _, gethost, getserv) =>
                   a == NameAnswer(raw.status,
                                   if raw.status.ret == 0 && gethost != 0 then raw.host else None,
                                   if raw.status.ret == 0 && getserv != 0 then raw.serv else None)
                 case ResLookup(_, _, _, _) => a == ResAnswer(raw.status, raw.data)
  {
    hide Before, Overlong, AddrCodec.FirstMisfit;
    var q := s.client.table[i].value;
    assert OwnAnswer(o, workers, steps, MsgOf(q), q.answer.value);
    var j: nat, k: nat :|
      && j < k && RepliedAt(o, workers, steps, j, MsgOf(q)) && ReadAt(o, workers, steps, k, MsgOf(q))
      && q.answer.value == Arrived(Given(o, q.lookup, steps[j].when), steps[k].room);
    RenderFields(q.lookup, o(q.lookup, steps[j].when));
  }

  /** The client has memory for at least so many address nodes whenever it reads a response. */
  predicate Roomy(steps: seq<Step>, least: nat) {
    forall k :: 0 <= k < |steps| && steps[k].Receive? ==> steps[k].room >= least
  }

  /** With memory for 159 nodes at every read, a finished query holds what its worker's lookup
      gave, cut at nothing but the reply buffer; so what fits the reply arrives unchanged. */
  lemma AmpleMemory(o: Resolver, workers: nat, steps: seq<Step>, s: Sys, i: nat)
    requires Sound(o, workers, steps, s) && Completed(s.client.table, i) && Roomy(steps, AddrCodec.MOST_NODES)
    ensures exists j: nat ::
              var q := s.client.table[i].value;
              && RepliedAt(o, workers, steps, j, MsgOf(q))
              && var sent := Given(o, q.lookup, steps[j].when);
              && q.answer == Some(Arrived(sent, AddrCodec.MOST_NODES))
              && (q.answer == Some(sent) <==> Uncut(sent))
  {
    hide Before, Overlong, Given, Uncut, Arrived;
    var q := s.client.table[i].value;
    var m, a := MsgOf(q), q.answer.value;
    assert OwnAnswer(o, workers, steps, m, a);
    var j: nat, k: nat :|
      && j < k && RepliedAt(o, workers, steps, j, m) && ReadAt(o, workers, steps, k, m)
      && a == Arrived(Given(o, m.lookup, steps[j].when), steps[k].room);
    AmpleRoom(Given(o, m.lookup, steps[j].when), steps[k].room);
  }

  /** No resolver answer is longer than 10224 bytes. */
  ghost predicate Brief(o: Resolver) {
    forall l: Lookup, when: nat :: Receivable(Given(o, l, when))
  }

  /** Then the one remaining assert does not fire either. */
  lemma BriefResolversNeverFail(o: Resolver, s: Sys)
    requires Brief(o) && OnlyOverlong(o, s)
    ensures s.fault.None?
  {
    hide EncodeReply, Given, Plain, Sendable, Receivable;
    if s.fault.Some? {
      var m, d := s.responses[0].origin, s.responses[0].datagram;
      var when: nat :| RepliesWith(o, m, d, when);
      var a := Given(o, m.lookup, when);
      GivenPlain(o, m.lookup, when);
      SendableIff(Id(m.tick), a);
      ReplyRoundTrip(Id(m.tick), a, 0);
    }
  }

  lemma GivenPlain(o: Resolver, l: Lookup, when: nat)
    ensures Plain(Given(o, l, when))
  {
    hide Plain, Render;
  }

  /** At every point of such a run at which a response is about to be read: if the id in its
      datagram finds a query, then that query sent the request and is still unfinished. */
  lemma ResponsesReachTheirSenders(o: Resolver, workers: nat, steps: seq<Step>, room: nat)
    requires CarefulRun(o, Start(workers), steps) && Run(o, Start(workers), steps).Some?
    requires var s := Run(o, Start(workers), steps).value;
             && s.fault.None? && |s.responses| > 0 && s.responses[0].Delivery?
             && |s.responses[0].datagram| <= RECV_BUFFER
             && s.client.tick < s.responses[0].origin.tick + 0x1_0000_0000
    ensures var s := Run(o, Start(workers), steps).value;
            var Delivery(m, d) := s.responses[0];
            && |s.client.table| == SLOTS
            && (exists a :: ParseReply(d, room) == Message(Answered(Id(m.tick), a)))
            && var e := s.client.table[Id(m.tick) % SLOTS];
               (e.Some? && Id(e.value.tick) == Id(m.tick) ==> MsgOf(e.value) == m && e.value.answer.None?)
  {
    hide Next, CarefulRun, Run, ParseReply, EncodeReply, InFlight, Tracked, Lossless, RepliesWith;
    StartInv(o, workers);
    InvRun(o, Start(workers), steps);
    var s := Run(o, Start(workers), steps).value;
    var Delivery(m, d) := s.responses[0];
    InvValid(o, s);
    InFlightOrigin(s, 0);
    ResponseFindsItsQuery(s.client, InFlight(s), m);
    ReplyNamesItsQuery(o, m, d, room);
  }

  lemma ReplyNamesItsQuery(o: Resolver, m: Msg, d: seq<Byte>, room: nat)
    requires IsReply(o, m, d) && |d| <= RECV_BUFFER
    ensures exists a :: ParseReply(d, room) == Message(Answered(Id(m.tick), a))
  {
    hide ParseReply, EncodeReply, Given, Plain, Sendable, Receivable, Arrived;
    var when: nat :| RepliesWith(o, m, d, when);
    var sent := Given(o, m.lookup, when);
    GivenPlain(o, m.lookup, when);
    SendableIff(Id(m.tick), sent);
    ReplyRoundTrip(Id(m.tick), sent, room);
    assert ParseReply(d, room) == Message(Answered(Id(m.tick), Arrived(sent, room)));
  }

  // ----- the rule a caller can follow

  /** An unfinished query is not cancelled while the id counter still stands at its id, and no
      socket address is longer than the workers' buffer for it. */
  ghost predicate Polite(s: Sys, st: Step) {
    && (st.Cancel? && Live(s.client, st.i) && s.client.table[st.i].value.answer.None? ==>
          s.client.table[st.i].value.tick != s.client.tick)
    && (st.Ask? ==> ShortAddress(st.lookup))
  }

  ghost predicate PoliteRun(o: Resolver, s: Sys, steps: seq<Step>)
    requires Valid(s.client)
    decreases |steps|
  {
    |steps| == 0 ||
    (Polite(s, steps[0]) && (Next(o, s, steps[0]).Some? ==> PoliteRun(o, Next(o, s, steps[0]).value, steps[1..])))
  }

  lemma TickGrows(o: Resolver, s: Sys, st: Step)
    requires Valid(s.client) && Next(o, s, st).Some?
    ensures s.client.tick <= Next(o, s, st).value.client.tick
    ensures !st.Ask? ==> s.client.tick == Next(o, s, st).value.client.tick
  {
    hide Occupied, ValidFinished, ValidQuery, Advance, Without, HandleDatagram, ParseRequest, EncodeReply,
      Received, Given;
    if st.Ask? {
      AllocValid(s.client, st.lookup, st.memory);
    } else if st.Receive? && Next(o, s, st).value.fault.None? {
      SlotsKept(s.client, Received(Wire(s.responses[0])), st.room);
    }
  }

  lemma {:induction false} TickGrowsRun(o: Resolver, s: Sys, steps: seq<Step>)
    requires Valid(s.client) && Run(o, s, steps).Some?
    ensures s.client.tick <= Run(o, s, steps).value.client.tick
    decreases |steps|
  {
    hide Next, Valid;
    if |steps| > 0 {
      TickGrows(o, s, steps[0]);
      TickGrowsRun(o, Next(o, s, steps[0]).value, steps[1..]);
    }
  }

  ghost predicate NoHazard(s: Sys) {
    |s.client.table| == SLOTS && !Hazard(s.client, InFlight(s))
  }

  lemma NoHazardAsk(o: Resolver, s: Sys, st: Step)
    requires Inv(o, s) && NoHazard(s) && st.Ask? && Next(o, s, st).Some?
    ensures NoHazard(Next(o, s, st).value)
  {
    hide InFlight, Occupied, ValidFinished, ValidQuery, Lossless, Wired, Advance, Without, EncodeRequest,
      WellFormed;
    InFlightAsk(o, s, st);
    AllocValid(s.client, st.lookup, st.memory);
    IssueValid(s.client, st.lookup, st.memory, st.sent);
  }

  lemma NoHazardWork(o: Resolver, s: Sys, st: Step)
    requires Inv(o, s) && NoHazard(s) && (st.Take? || st.Finish? || st.Die?) && Next(o, s, st).Some?
    ensures NoHazard(Next(o, s, st).value)
  {
    hide InFlight, Valid, Tracked, Lossless, IsReply, IsRequest, EncodeReply, Given;
    var s' := Next(o, s, st).value;
    if st.Take? {
      TakeGivesJob(o, s, st.w);
      InFlightWork(o, s, st);
    } else if s'.workers[st.w] == Gone {
      InFlightLost(o, s, st);
    } else {
      InFlightWork(o, s, st);
    }
  }

  lemma NoHazardReceive(o: Resolver, s: Sys, st: Step)
    requires Inv(o, s) && NoHazard(s) && st.Receive? && Careful(s, st) && Next(o, s, st).Some?
    requires Next(o, s, st).value.fault.None?
    ensures NoHazard(Next(o, s, st).value)
  {
    hide InFlight, Valid, Tracked, Lossless, Wired, HandleDatagram, Received;
    InvValid(o, s);
    InFlightLost(o, s, st);
    SlotsKept(s.client, Received(Wire(s.responses[0])), st.room);
  }

  /** A response empties no slot and leaves the counter where it is. */
  lemma SlotsKept(c: State, b: seq<Byte>, room: nat)
    requires |c.table| == SLOTS && HandleDatagram(c, b, room).After?
    ensures var c' := HandleDatagram(c, b, room).value;
            && |c'.table| == SLOTS && c'.tick == c.tick
            && forall i :: 0 <= i < SLOTS ==> c'.table[i].Some? == c.table[i].Some?
  {
    hide ParseReply;
  }

  lemma NoHazardRemove(o: Resolver, s: Sys, st: Step)
    requires Inv(o, s) && NoHazard(s) && Polite(s, st) && (st.Release? || st.Cancel?) && Next(o, s, st).Some?
    ensures NoHazard(Next(o, s, st).value)
  {
    hide Bag, Occupied, ValidFinished, Lossless, Without, Wired;
    RemoveHazard(s.client, st.i, InFlight(s));
  }

  /** A query at the current id that is removed either has no request in flight any more, or
      is unfinished. */
  lemma RemoveHazard(c: State, i: nat, flight: multiset<Msg>)
    requires Valid(c) && Live(c, i) && Tracked(c, flight) && !Hazard(c, flight)
    ensures forall m :: m in flight && m.tick == c.tick && i == Slot(c.tick) ==>
              c.table[i].value.answer.None? && c.table[i].value.tick == c.tick
  {
    hide Occupied, ValidFinished;
    forall m | m in flight && m.tick == c.tick && i == Slot(c.tick)
      ensures c.table[i].value.answer.None? && c.table[i].value.tick == c.tick
    {
      assert Claim(c.table, m);
    }
  }

  lemma NoHazardStep(o: Resolver, s: Sys, st: Step)
    requires Inv(o, s) && NoHazard(s) && Polite(s, st) && Careful(s, st) && Next(o, s, st).Some?
    requires Next(o, s, st).value.fault.None?
    ensures NoHazard(Next(o, s, st).value)
  {
    hide Inv, NoHazard, Polite, Careful, Next;
    match st {
      case Ask(_, _, _) => NoHazardAsk(o, s, st);
      case Receive(_) => NoHazardReceive(o, s, st);
      case Release(_) => NoHazardRemove(o, s, st);
      case Cancel(_) => NoHazardRemove(o, s, st);
      case _ => NoHazardWork(o, s, st);
    }
  }

  /** Polite cancels and fewer than 2^32 ids in all make a run careful. */
  lemma {:induction false} PoliteRunIsCareful(o: Resolver, s: Sys, steps: seq<Step>)
    requires Inv(o, s) && NoHazard(s) && PoliteRun(o, s, steps) && Run(o, s, steps).Some?
    requires Run(o, s, steps).value.client.tick < 0x1_0000_0000
    ensures CarefulRun(o, s, steps)
    decreases |steps|
  {
    hide Inv, Next, Hazard, InFlight, ShortAddress, Overlong;
    InvValid(o, s);
    if |steps| > 0 {
      TickGrowsRun(o, s, steps);
      assert Careful(s, steps[0]);
      var s' := Next(o, s, steps[0]).value;
      InvStep(o, s, steps[0]);
      InvFault(o, s');
      if s'.fault.Some? {
        NothingAfterFault(o, s', steps[1..]);
      } else {
        NoHazardStep(o, s, steps[0]);
        PoliteRunIsCareful(o, s', steps[1..]);
      }
    }
  }

  /** A caller that never cancels an unfinished query while the counter stands at its id, asks
      with no overlong socket address, and uses fewer than 2^32 ids, gets every answer right,
      whatever the workers do. */
  lemma PoliteCallersAreServed(o: Resolver, workers: nat, steps: seq<Step>)
    requires PoliteRun(o, Start(workers), steps) && Run(o, Start(workers), steps).Some?
    requires Run(o, Start(workers), steps).value.client.tick < 0x1_0000_0000
    ensures var s := Run(o, Start(workers), steps).value;
            Sound(o, workers, steps, s) && (s.fault.None? ==> Reached(o, workers, steps, s))
  {
    hide Next, CarefulRun, PoliteRun, Run, Valid, Inv, Reached, Sound;
    StartInv(o, workers);
    NothingInFlight(workers);
    PoliteRunIsCareful(o, Start(workers), steps);
    EveryAnswerIsItsOwn(o, workers, steps);
  }

  lemma NothingInFlight(workers: nat)
    ensures var s := Start(workers);
            |s.client.table| == SLOTS && InFlight(s) == multiset{} && NoHazard(s)
  {
    NoJobs(Start(workers).workers);
  }

  /** The repository's own client asks at most one query per context, so it may cancel as it
      likes, and a worker may die at any time. */
  lemma OneQueryContextIsServed(o: Resolver, workers: nat, steps: seq<Step>)
    requires forall j, k :: 0 <= j < k < |steps| && steps[j].Ask? ==> !steps[k].Ask?
    requires forall k :: 0 <= k < |steps| && steps[k].Ask? ==> ShortAddress(steps[k].lookup)
    requires Run(o, Start(workers), steps).Some?
    ensures var s := Run(o, Start(workers), steps).value;
            Sound(o, workers, steps, s) && (s.fault.None? ==> Reached(o, workers, steps, s))
  {
    hide Next, CarefulRun, Run, Valid, Inv, Reached, Sound, ShortAddress;
    StartInv(o, workers);
    NothingInFlight(workers);
    AskOnceCareful(o, Start(workers), steps);
    EveryAnswerIsItsOwn(o, workers, steps);
  }

  /** Until the query is asked nothing is in flight and the counter stands at 0. */
  lemma {:induction false} AskOnceCareful(o: Resolver, s: Sys, steps: seq<Step>)
    requires Valid(s.client) && InFlight(s) == multiset{} && s.client.tick == 0
    requires forall j, k :: 0 <= j < k < |steps| && steps[j].Ask? ==> !steps[k].Ask?
    requires forall k :: 0 <= k < |steps| && steps[k].Ask? ==> ShortAddress(steps[k].lookup)
    ensures CarefulRun(o, s, steps)
    decreases |steps|
  {
    hide InFlight, Valid, Next, ShortAddress;
    TableSize(s.client);
    if |steps| > 0 {
      assert Careful(s, steps[0]) by {
        if steps[0].Receive? && |s.responses| > 0 && s.responses[0].Delivery? {
          InFlightOrigin(s, 0);
        }
      }
      if Next(o, s, steps[0]).Some? {
        var s' := Next(o, s, steps[0]).value;
        if steps[0].Ask? {
          FirstTick(o, s, steps[0]);
          NoAskCareful(o, s', steps[1..]);
        } else {
          TickGrows(o, s, steps[0]);
          NothingAppears(o, s, steps[0]);
          AskOnceCareful(o, s', steps[1..]);
        }
      }
    }
  }

  lemma RequestInFlight(s: Sys)
    requires |s.requests| > 0
    ensures s.requests[0].origin in InFlight(s)
  {
    hide Bag;
    BagFirst(s.requests, SentBag);
  }

  lemma JobInFlight(s: Sys, w: nat)
    requires w < |s.workers| && s.workers[w].Busy?
    ensures s.workers[w].origin in InFlight(s)
  {
    hide Bag;
    InBag(s.workers, JobBag, w);
    assert s.workers[w].origin in JobBag(s.workers[w]);
  }

  lemma WorkLeft(s: Sys)
    requires InFlight(s) != multiset{} && s.responses == []
    ensures Jobs(s.workers) != multiset{} || |s.requests| > 0
  {
  }

  lemma NothingAppears(o: Resolver, s: Sys, st: Step)
    requires Valid(s.client) && InFlight(s) == multiset{} && !st.Ask? && Next(o, s, st).Some?
    ensures InFlight(Next(o, s, st).value) == multiset{}
  {
    hide Bag, Valid, HandleDatagram, Received, ParseRequest, EncodeReply, Render;
    if st.Take? {
      RequestInFlight(s);
    } else if st.Finish? {
      JobInFlight(s, st.w);
    } else if (st.Receive? && Next(o, s, st).value.fault.None?) || st.Die? {
      InFlightLost(o, s, st);
    }
  }

  lemma FirstTick(o: Resolver, s: Sys, st: Step)
    requires Valid(s.client) && s.client.tick == 0 && Next(o, s, st).Some?
    ensures Next(o, s, st).value.client.tick <= 255
  {
    hide Occupied, ValidFinished, ValidQuery, Advance, Without;
    if st.Ask? {
      AllocValid(s.client, st.lookup, st.memory);
    }
  }

  lemma {:induction false} NoAskCareful(o: Resolver, s: Sys, steps: seq<Step>)
    requires Valid(s.client) && s.client.tick < 0x1_0000_0000 && forall k :: 0 <= k < |steps| ==> !steps[k].Ask?
    ensures CarefulRun(o, s, steps)
    decreases |steps|
  {
    hide Next, Valid;
    if |steps| > 0 {
      assert !steps[0].Ask?;
      if Next(o, s, steps[0]).Some? {
        TickGrows(o, s, steps[0]);
        NoAskCareful(o, Next(o, s, steps[0]).value, steps[1..]);
      }
    }
  }

  // ----- progress

  predicate Internal(st: Step) {
    st.Take? || st.Finish? || st.Receive?
  }

  predicate InternalWith(st: Step, room: nat) {
    Internal(st) && (st.Receive? ==> st.room == room)
  }

  ghost predicate Unfinished(c: State) {
    exists i :: 0 <= i < |c.table| && c.table[i].Some? && c.table[i].value.answer.None?
  }

  /** Every query there is has its answer. */
  ghost predicate AllFinished(c: State) {
    forall i :: 0 <= i < |c.table| && c.table[i].Some? ==> Completed(c.table, i)
  }

  function BusyCount(ws: seq<Worker>): nat {
    if |ws| == 0 then 0 else (if ws[0].Busy? then 1 else 0) + BusyCount(ws[1..])
  }

  /** Each message still has at most three steps to go. */
  function Measure(s: Sys): nat {
    3 * |s.requests| + 2 * BusyCount(s.workers) + |s.responses|
  }

  lemma {:induction false} BusyCountUpdate(ws: seq<Worker>, w: nat, x: Worker)
    requires w < |ws|
    ensures BusyCount(ws[w := x]) == BusyCount(ws) - (if ws[w].Busy? then 1 else 0) + (if x.Busy? then 1 else 0)
  {
    if w == 0 {
      assert ws[w := x][1..] == ws[1..];
    } else {
      assert ws[w := x][1..] == ws[1..][w - 1 := x];
      BusyCountUpdate(ws[1..], w - 1, x);
    }
  }

  /** Taking, finishing and receiving use up the measure. */
  lemma InternalStep(o: Resolver, s: Sys, st: Step)
    requires Valid(s.client) && Internal(st) && Next(o, s, st).Some?
    ensures var s' := Next(o, s, st).value; s'.fault.None? ==> Measure(s') < Measure(s)
  {
    hide Valid, BusyCount, HandleDatagram, ParseRequest, EncodeReply, Received, Given;
    var s' := Next(o, s, st).value;
    if !st.Receive? && s'.fault.None? {
      BusyCountUpdate(s.workers, st.w, s'.workers[st.w]);
    }
  }

  /** Once nothing more is asked, work cannot go on for longer than the measure says. */
  lemma {:induction false} InternalRunBounded(o: Resolver, s: Sys, steps: seq<Step>)
    requires Valid(s.client) && Run(o, s, steps).Some?
    requires forall k :: 0 <= k < |steps| ==> Internal(steps[k])
    ensures |steps| <= Measure(s) + 1
    ensures Run(o, s, steps).value.fault.None? ==> |steps| <= Measure(s) - Measure(Run(o, s, steps).value)
    decreases |steps|
  {
    hide Next, Valid, Measure, Internal;
    if |steps| > 0 {
      var s' := Next(o, s, steps[0]).value;
      InternalStep(o, s, steps[0]);
      if s'.fault.Some? {
        NothingAfterFault(o, s', steps[1..]);
      } else {
        InternalRunBounded(o, s', steps[1..]);
      }
    }
  }

  /** Some lookup made for it gives an answer that reaches the client. */
  ghost predicate Answerable(o: Resolver, l: Lookup) {
    exists when: nat :: Deliverable(Given(o, l, when))
  }

  ghost predicate RepliesFit(s: Sys) {
    forall k :: 0 <= k < |s.responses| && s.responses[k].Delivery? ==> |s.responses[k].datagram| <= RECV_BUFFER
  }

  /** Every outstanding request can be answered, and no reply already sent is overlong. */
  ghost predicate Served(o: Resolver, s: Sys) {
    (forall m :: m in InFlight(s) ==> Answerable(o, m.lookup)) && RepliesFit(s)
  }

  lemma {:induction false} SomeoneBusy(ws: seq<Worker>) returns (w: nat)
    requires Jobs(ws) != multiset{}
    ensures w < |ws| && ws[w].Busy?
  {
    if ws[0].Busy? {
      w := 0;
    } else {
      w := SomeoneBusy(ws[1..]);
      w := w + 1;
    }
  }

  /** While a message is in flight and nobody has died, something can happen that loses no
      worker and no request. */
  lemma SomeStepEnabled(o: Resolver, s: Sys, room: nat) returns (st: Step)
    requires Valid(s.client) && s.fault.None? && !s.client.dead && AllWorking(s) && |s.workers| > 0
    requires Wired(o, s) && Served(o, s) && InFlight(s) != multiset{}
    ensures InternalWith(st, room) && Next(o, s, st).Some?
    ensures var s' := Next(o, s, st).value;
            && AllWorking(s') && |s'.workers| == |s.workers| && Served(o, s')
            && (!st.Receive? ==> s'.fault.None? && Wired(o, s'))
  {
    hide Valid, Bag, HandleDatagram, Wired, Served, TakeNext, FinishNext, Received;
    if |s.responses| > 0 {
      st := Receive(room);
      ReceiveServed(o, s, room);
    } else {
      WorkLeft(s);
      var w: nat := 0;
      if Jobs(s.workers) != multiset{} {
        w := SomeoneBusy(s.workers);
      }
      if s.workers[w].Busy? {
        var when := FinishServed(o, s, w);
        st := Finish(w, when);
      } else {
        st := Take(w);
        TakeServed(o, s, w);
      }
    }
  }

  lemma ReceiveServed(o: Resolver, s: Sys, room: nat)
    requires Valid(s.client) && Served(o, s) && Next(o, s, Receive(room)).Some?
    ensures Served(o, Next(o, s, Receive(room)).value)
  {
    hide Valid, Bag, HandleDatagram, Received, Answerable;
    var s' := Next(o, s, Receive(room)).value;
    if s'.fault.None? {
      InFlightLost(o, s, Receive(room));
    }
  }

  lemma TakeServed(o: Resolver, s: Sys, w: nat)
    requires Valid(s.client) && s.fault.None? && Wired(o, s) && Served(o, s) && AllWorking(s)
    requires w < |s.workers| && s.workers[w] == Idle && |s.requests| > 0
    ensures Next(o, s, Take(w)).Some?
    ensures var s' := Next(o, s, Take(w)).value;
            && s'.fault.None? && AllWorking(s') && |s'.workers| == |s.workers| && Served(o, s') && Wired(o, s')
  {
    hide Valid, InFlight, Answerable, IsReply, Proper, TakeNext;
    TakeGivesJob(o, s, w);
    assert IsRequest(s.requests[0]);
    InFlightWork(o, s, Take(w));
  }

  /** A deliverable answer is sent, and fits the client's buffer. */
  lemma FinishSends(o: Resolver, s: Sys, w: nat, when: nat) returns (d: seq<Byte>)
    requires Wired(o, s) && w < |s.workers| && s.workers[w].Busy?
    requires Deliverable(Given(o, s.workers[w].lookup, when))
    ensures var m := s.workers[w].origin;
            && IsReply(o, m, d) && |d| <= RECV_BUFFER && s.workers[w].lookup == m.lookup
            && FinishNext(o, s, w, when) ==
               Some(s.(workers := s.workers[w := Idle], responses := s.responses + [Delivery(m, d)]))
  {
    hide EncodeReply, Given, Sendable, Receivable, IsRequest, Plain, Proper;
    var Busy(m, id, l) := s.workers[w];
    assert IsJob(s.workers[w]);
    GivenPlain(o, l, when);
    SendableIff(id, Given(o, l, when));
    ReplyRoundTrip(id, Given(o, l, when), 0);
    d := EncodeReply(id, Given(o, l, when)).value;
    assert RepliesWith(o, m, d, when);
  }

  lemma FinishServed(o: Resolver, s: Sys, w: nat) returns (when: nat)
    requires Valid(s.client) && s.fault.None? && Wired(o, s) && Served(o, s) && AllWorking(s)
    requires w < |s.workers| && s.workers[w].Busy?
    ensures Next(o, s, Finish(w, when)).Some?
    ensures var s' := Next(o, s, Finish(w, when)).value;
            && s'.fault.None? && AllWorking(s') && |s'.workers| == |s.workers| && Served(o, s') && Wired(o, s')
  {
    hide Valid, InFlight, Deliverable, Given, FinishNext, IsReply, IsRequest;
    var m, l := s.workers[w].origin, s.workers[w].lookup;
    JobInFlight(s, w);
    assert IsJob(s.workers[w]);
    when :| Deliverable(Given(o, l, when));
    var d := FinishSends(o, s, w, when);
    InFlightWork(o, s, Finish(w, when));
  }

  /** Conservation: with all workers alive, each unfinished query has exactly one message in
      flight, and it is waiting, worked on, or answered. */
  lemma OneMessagePerUnfinishedQuery(o: Resolver, s: Sys, i: nat)
    requires Inv(o, s) && AllWorking(s)
    requires Live(s.client, i) && s.client.table[i].value.answer.None?
    ensures InFlight(s)[MsgOf(s.client.table[i].value)] == 1
    ensures InFlight(s) != multiset{}
  {
    hide InFlight, Occupied, ValidFinished, ValidQuery, Wired;
    assert MsgOf(s.client.table[i].value) in InFlight(s);
  }

  /** While a message is in flight some step of the workers or of the client's receive loop is
      enabled, whatever the lookups give. */
  lemma SomethingHappens(o: Resolver, s: Sys) returns (st: Step)
    requires Valid(s.client) && s.fault.None? && !s.client.dead && AllWorking(s) && |s.workers| > 0
    requires InFlight(s) != multiset{}
    ensures Internal(st) && Next(o, s, st).Some?
  {
    hide Valid, Bag, HandleDatagram, ParseRequest, EncodeReply, Received, Given;
    if |s.responses| > 0 {
      st := Receive(0);
    } else {
      WorkLeft(s);
      var w: nat := 0;
      if Jobs(s.workers) != multiset{} {
        w := SomeoneBusy(s.workers);
      }
      st := if s.workers[w].Busy? then Finish(w, 0) else Take(w);
    }
  }

  /** So while an unfinished query exists, something can happen; and where nothing can, every
      query has finished. */
  lemma UnfinishedQueriesProgress(o: Resolver, s: Sys)
    requires Inv(o, s) && AllWorking(s) && |s.workers| > 0 && Unfinished(s.client)
    ensures exists st :: Internal(st) && Next(o, s, st).Some?
  {
    hide InFlight, Occupied, ValidFinished, ValidQuery, Next, Wired;
    var i :| 0 <= i < |s.client.table| && s.client.table[i].Some? && s.client.table[i].value.answer.None?;
    OneMessagePerUnfinishedQuery(o, s, i);
    var st := SomethingHappens(o, s);
  }

  /** From every reachable state with its workers alive, if every outstanding request can be
      answered, the outstanding work can be run to the end, and then every query has its answer;
      the client may have any amount of memory meanwhile. */
  lemma AllQueriesFinish(o: Resolver, workers: nat, past: seq<Step>, s: Sys, room: nat) returns (steps: seq<Step>)
    requires Reached(o, workers, past, s) && AllWorking(s) && |s.workers| > 0 && s.client.tick < 0x1_0000_0000
    requires Served(o, s)
    ensures forall k :: 0 <= k < |steps| ==> InternalWith(steps[k], room)
    ensures Run(o, Start(workers), past + steps).Some?
    ensures var s' := Run(o, Start(workers), past + steps).value;
            Reached(o, workers, past + steps, s') && Sound(o, workers, past + steps, s') && AllFinished(s'.client)
  {
    hide Reached, Sound, Served, AllWorking, Next, Run, Inv, Valid, CarefulRun;
    ReachedFacts(o, workers, past, s);
    steps := WorkToTheEnd(o, s, room);
    InternalCareful(o, s, steps);
    ReachedRun(o, workers, past, s, steps);
  }

  lemma InternalCareful(o: Resolver, s: Sys, steps: seq<Step>)
    requires Valid(s.client) && s.client.tick < 0x1_0000_0000
    requires forall k :: 0 <= k < |steps| ==> Internal(steps[k])
    ensures CarefulRun(o, s, steps)
  {
    hide Valid, CarefulRun;
    assert forall k :: 0 <= k < |steps| ==> Internal(steps[k]) ==> !steps[k].Ask?;
    NoAskCareful(o, s, steps);
  }

  lemma {:induction false} WorkToTheEnd(o: Resolver, s: Sys, room: nat) returns (steps: seq<Step>)
    requires Inv(o, s) && AllWorking(s) && |s.workers| > 0 && s.client.tick < 0x1_0000_0000
    requires Served(o, s)
    ensures Valid(s.client) && (forall k :: 0 <= k < |steps| ==> InternalWith(steps[k], room))
    ensures Run(o, s, steps).Some?
    ensures var s' := Run(o, s, steps).value; s'.fault.None? && !Unfinished(s'.client)
    decreases Measure(s)
  {
    hide Next, Measure, AllWorking, Served, Valid, Wired, Tracked, Lossless, InFlight;
    InvValid(o, s);
    steps := [];
    if Unfinished(s.client) {
      var i :| 0 <= i < |s.client.table| && s.client.table[i].Some? && s.client.table[i].value.answer.None?;
      OneMessagePerUnfinishedQuery(o, s, i);
      var st := SomeStepEnabled(o, s, room);
      var s' := Next(o, s, st).value;
      ServedFits(o, s);
      FittingStep(o, s, st);
      InternalStep(o, s, st);
      var rest := WorkToTheEnd(o, s', room);
      steps := [st] + rest;
      assert steps[1..] == rest;
    }
  }

  lemma ServedFits(o: Resolver, s: Sys)
    requires Served(o, s)
    ensures RepliesFit(s)
  {
    hide RepliesFit, Answerable, InFlight;
  }

  lemma FittingStep(o: Resolver, s: Sys, st: Step)
    requires Inv(o, s) && RepliesFit(s) && Internal(st) && s.client.tick < 0x1_0000_0000 && Next(o, s, st).Some?
    ensures var s' := Next(o, s, st).value; Inv(o, s') && s'.client.tick == s.client.tick
  {
    hide Next, Inv, InFlight, IsReply;
    InvValid(o, s);
    TickGrows(o, s, st);
    InvStep(o, s, st);
    FaultKeepsResponses(o, s, st);
    WorkNeverFails(o, s, st);
    InvFault(o, Next(o, s, st).value);
  }

  /** A failing receive leaves the culprit in place. */
  lemma FaultKeepsResponses(o: Resolver, s: Sys, st: Step)
    requires Valid(s.client) && Next(o, s, st).Some?
    ensures var s' := Next(o, s, st).value; st.Receive? && s'.fault.Some? ==> s'.responses == s.responses
  {
    hide Valid, HandleDatagram, Received;
  }

  lemma WorkNeverFails(o: Resolver, s: Sys, st: Step)
    requires Inv(o, s) && Next(o, s, st).Some?
    ensures st.Take? || st.Finish? ==> Next(o, s, st).value.fault.None?
  {
    hide Valid, Tracked, Lossless, InFlight, Wired, ParseRequest, EncodeReply, Received, Given;
    if st.Take? {
      TakeGivesJob(o, s, st.w);
    }
  }

  /** Every answer to these lookups reaches the client, whenever they are made. */
  ghost predicate Dependable(o: Resolver, l: Lookup) {
    forall when: nat :: Deliverable(Given(o, l, when))
  }

  ghost predicate AllDependable(o: Resolver, s: Sys) {
    (forall m :: m in InFlight(s) ==> Dependable(o, m.lookup)) && RepliesFit(s)
  }

  lemma InternalKeepsWorking(o: Resolver, s: Sys, st: Step)
    requires Inv(o, s) && AllDependable(o, s) && AllWorking(s) && Internal(st) && s.client.tick < 0x1_0000_0000
    requires Next(o, s, st).Some?
    ensures var s' := Next(o, s, st).value;
            && Inv(o, s') && AllDependable(o, s') && AllWorking(s')
            && |s'.workers| == |s.workers| && s'.client.tick == s.client.tick
  {
    hide Valid, InFlight, Tracked, Lossless, Dependable, RepliesFit, Next, Wired;
    InvValid(o, s);
    FittingStep(o, s, st);
    if st.Finish? {
      FinishDependable(o, s, st);
    } else if st.Take? {
      TakeDependable(o, s, st);
    } else {
      ReceiveDependable(o, s, st);
    }
  }

  lemma FinishDependable(o: Resolver, s: Sys, st: Step)
    requires Valid(s.client) && Wired(o, s) && AllDependable(o, s) && AllWorking(s)
    requires st.Finish? && Next(o, s, st).Some?
    ensures var s' := Next(o, s, st).value; AllDependable(o, s') && AllWorking(s') && |s'.workers| == |s.workers|
  {
    hide Valid, InFlight, Deliverable, Given, IsReply, IsRequest, EncodeReply;
    JobInFlight(s, st.w);
    assert IsJob(s.workers[st.w]);
    assert Deliverable(Given(o, s.workers[st.w].lookup, st.when));
    var d := FinishSends(o, s, st.w, st.when);
    InFlightWork(o, s, st);
  }

  lemma TakeDependable(o: Resolver, s: Sys, st: Step)
    requires Valid(s.client) && Wired(o, s) && AllDependable(o, s) && AllWorking(s) && st.Take? && Next(o, s, st).Some?
    ensures var s' := Next(o, s, st).value; AllDependable(o, s') && AllWorking(s') && |s'.workers| == |s.workers|
  {
    hide Valid, InFlight, Dependable, IsReply, IsRequest, ParseRequest, Received, Wired;
    TakeGivesJob(o, s, st.w);
    InFlightWork(o, s, st);
  }

  lemma ReceiveDependable(o: Resolver, s: Sys, st: Step)
    requires Valid(s.client) && AllDependable(o, s) && AllWorking(s) && st.Receive? && Next(o, s, st).Some?
    requires Next(o, s, st).value.fault.None?
    ensures var s' := Next(o, s, st).value; AllDependable(o, s') && AllWorking(s') && |s'.workers| == |s.workers|
  {
    hide Valid, InFlight, Dependable, HandleDatagram, Received;
    InFlightLost(o, s, st);
  }

  /** If every answer to the outstanding requests reaches the client, it does not matter in what
      order the work is done: from a reachable state with its workers alive, any run of takes,
      replies and receives that cannot go on has finished every query. */
  lemma WorkFinishesInAnyOrder(o: Resolver, workers: nat, past: seq<Step>, s: Sys, steps: seq<Step>)
    requires Reached(o, workers, past, s) && AllWorking(s) && |s.workers| > 0 && s.client.tick < 0x1_0000_0000
    requires AllDependable(o, s)
    requires Run(o, Start(workers), past + steps).Some?
    requires forall k :: 0 <= k < |steps| ==> Internal(steps[k])
    requires forall st :: Internal(st) ==> Next(o, Run(o, Start(workers), past + steps).value, st).None?
    ensures var s' := Run(o, Start(workers), past + steps).value;
            Reached(o, workers, past + steps, s') && Sound(o, workers, past + steps, s') && AllFinished(s'.client)
  {
    hide Reached, Sound, AllDependable, AllWorking, Next, Run, Inv, Valid, CarefulRun, Start, Internal;
    ReachedFacts(o, workers, past, s);
    RunAppend(o, Start(workers), past, steps);
    WorkFinishes(o, s, steps);
    InternalCareful(o, s, steps);
    ReachedRun(o, workers, past, s, steps);
  }

  lemma {:induction false} WorkFinishes(o: Resolver, s: Sys, steps: seq<Step>)
    requires Inv(o, s) && AllDependable(o, s) && AllWorking(s) && |s.workers| > 0 && s.client.tick < 0x1_0000_0000
    requires (forall k :: 0 <= k < |steps| ==> Internal(steps[k])) && Run(o, s, steps).Some?
    requires forall st :: Internal(st) ==> Next(o, Run(o, s, steps).value, st).None?
    ensures var s' := Run(o, s, steps).value; s'.fault.None? && !Unfinished(s'.client)
    decreases |steps|
  {
    hide Inv, Next, AllDependable, AllWorking, Unfinished, Valid, Internal;
    InvValid(o, s);
    if |steps| > 0 {
      InternalKeepsWorking(o, s, steps[0]);
      WorkFinishes(o, Next(o, s, steps[0]).value, steps[1..]);
    } else if Unfinished(s.client) {
      UnfinishedQueriesProgress(o, s);
    }
  }
}
