/** The age limit on responses is exact: a run that breaks no other rule, in which a response
    is read when the id counter has come round once, and reaches a query it does not answer. */
module LateReplies {
  import opened Wrappers
  import opened Datagram
  import opened Lookups
  import opened Client
  import opened Framing
  import opened Protocol
  import opened Delivery
  import opened Runs
  import opened Hazards

  /** 0, 1, ..., n - 1. */
  function Counting(n: nat): (s: seq<nat>)
    ensures |s| == n
  {
    if n == 0 then [] else Counting(n - 1) + [n - 1]
  }

  /** The context with one query, the n-th, asked under tick n. */
  function Holding(q: Query, completed: seq<nat>): State {
    State(NoQueries()[Slot(q.tick) := Some(q)], q.tick, 1, false, if q.answer.Some? then [Slot(q.tick)] else [],
          Counting(q.tick + 1), completed)
  }

  /** That context, and one worker that has not yet come back from the first request. */
  predicate Stuck(s: Sys, first: Lookup, q: Query) {
    && q.serial == q.tick && s.client == Holding(q, s.client.completed)
    && s.requests == [] && s.responses == [] && s.fault.None?
    && |s.workers| >= 2 && s.workers[0] == Busy(Msg(0, 0, first), 0, first) && s.workers[1] == Idle
  }

  /** The same with the next query asked as well. */
  function HoldingTwo(q: Query, completed: seq<nat>, l: Lookup): State {
    var c, n := Holding(q, completed), q.tick + 1;
    c.(table := c.table[Slot(n) := Some(Query(n, n, l, None))], tick := n, count := 2, issued := Counting(n + 1))
  }

  // ----- one more query

  lemma NextSlot(n: nat)
    ensures Slot(n + 1) != Slot(n)
  {
    SlotStep(n);
  }

  lemma SlotBounds(n: nat)
    ensures Slot(n) < SLOTS
  {
  }

  /** With its own query not released, the context gives the next one the next id. */
  lemma AskNextId(q: Query, completed: seq<nat>, l: Lookup)
    requires Valid(Holding(q, completed)) && RequestSize(l) <= BUFSIZE
    ensures Issue(Holding(q, completed), l, true, true) == (HoldingTwo(q, completed, l), true)
  {
    hide Valid;
    var c := Holding(q, completed);
    NextSlot(q.tick);
    assert Probe(c.table, c.tick, 0).Some? && Probe(c.table, c.tick, 1).None?;
    assert Advance(c.table, c.tick, 0) == Advance(c.table, c.tick, 1) == 1;
  }

  /** Then that one is completed, and the old query collected, or cancelled if it is unfinished. */
  function Dropped(q: Query): Step {
    if q.answer.Some? then Release(Slot(q.tick)) else Cancel(Slot(q.tick))
  }

  lemma DropOld(q: Query, completed: seq<nat>, l: Lookup, a: Answer)
    requires Accepts(RequestKind(l), ReplyKind(a))
    ensures var n, c1 := q.tick + 1, HoldingTwo(q, completed, l);
            && HandleResponse(c1, Answered(Id(n), a)) == After(Complete(c1, Slot(n), a))
            && Complete(c1, Slot(n), a).table[Slot(q.tick)] == Some(q)
            && Remove(Complete(c1, Slot(n), a), Slot(q.tick)) == Holding(Query(n, n, l, Some(a)), completed + [n])
            && !c1.dead && c1.tick == n && !Complete(c1, Slot(n), a).dead
            && Holding(Query(n, n, l, Some(a)), completed + [n]).completed == completed + [n]
  {
    var n := q.tick + 1;
    hide Slot, Id;
    SlotBounds(q.tick);
    SlotBounds(n);
    NextSlot(q.tick);
    SlotOfId(n);
    var table := NoQueries();
    var unfinished, finished := Query(n, n, l, None), Query(n, n, l, Some(a));
    assert table[Slot(q.tick) := Some(q)][Slot(n) := Some(unfinished)][Slot(n) := Some(finished)][Slot(q.tick) := None]
        == table[Slot(n) := Some(finished)];
    assert [] + [Slot(n)] == [Slot(n)] && [Slot(q.tick)] + [Slot(n)] == [Slot(q.tick), Slot(n)];
    assert Without([Slot(n)], Slot(q.tick)) == [Slot(n)] by {
      WithoutAbsent([Slot(n)], Slot(q.tick));
    }
    assert Without([Slot(q.tick), Slot(n)], Slot(q.tick)) == [Slot(n)];
  }

  /** A careful run from the start. */
  ghost predicate Led(o: Resolver, workers: nat, steps: seq<Step>, s: Sys) {
    CarefulRun(o, Start(workers), steps) && Run(o, Start(workers), steps) == Some(s)
  }

  lemma Extend(o: Resolver, workers: nat, steps: seq<Step>, s: Sys, st: Step)
    requires Led(o, workers, steps, s) && Valid(s.client) && Careful(s, st) && Next(o, s, st).Some?
    ensures Led(o, workers, steps + [st], Next(o, s, st).value)
  {
    hide Next, Valid, Careful, Start;
    assert CarefulRun(o, s, [st]);
    RunOne(o, s, st);
    RunAppend(o, Start(workers), steps, [st]);
    CarefulAppend(o, Start(workers), steps, [st]);
  }

  lemma Asking(o: Resolver, s: Sys, first: Lookup, q: Query, l: Lookup) returns (s1: Sys)
    requires Valid(s.client) && Stuck(s, first, q) && Askable(l) && Proper(l)
    ensures var n := q.tick + 1;
            && Next(o, s, Ask(l, true, true)) == Some(s1) && Careful(s, Ask(l, true, true))
            && s1 == s.(client := HoldingTwo(q, s.client.completed, l),
                     requests := [Request(Msg(n, n, l), EncodeRequest(Id(n), l))])
  {
    hide Valid, Issue, EncodeRequest, WellFormed, InFlight;
    AskNextId(q, s.client.completed, l);
    s1 := Next(o, s, Ask(l, true, true)).value;
  }

  /** Ask and be answered, by the worker that is not stuck. */
  lemma HalfRound(o: Resolver, workers: nat, steps: seq<Step>, s: Sys, first: Lookup, q: Query, l: Lookup, when: nat,
                  room: nat) returns (steps': seq<Step>, s': Sys)
    requires Valid(s.client) && Led(o, workers, steps, s) && Stuck(s, first, q)
    requires Askable(l) && Proper(l) && Deliverable(Given(o, l, when))
    ensures Led(o, workers, steps', s') && Valid(s'.client)
    ensures |s'.responses| == 1
    ensures var n, r := q.tick + 1, s'.responses[0];
            && s' == s.(client := HoldingTwo(q, s.client.completed, l), responses := [r])
            && r.Delivery? && r.origin == Msg(n, n, l) && Handled(r, room, Arrived(Given(o, l, when), room))
  {
    hide Led, Next, Valid, Holding, HoldingTwo, Proper, Askable, EncodeRequest, Given, Arrived, Deliverable, Handled;
    var ask := Ask(l, true, true);
    var s1 := Asking(o, s, first, q, l);
    Extend(o, workers, steps, s, ask);
    var d, s2, s3 := ServeOne(o, s1, 1, when, room);
    Extend(o, workers, steps + [ask], s1, Take(1));
    Extend(o, workers, steps + [ask] + [Take(1)], s2, Finish(1, when));
    steps', s' := steps + [ask] + [Take(1)] + [Finish(1, when)], s3;
  }

  /** Ask, be answered, let go of the query before: all by the rules. */
  lemma OneRound(o: Resolver, workers: nat, steps: seq<Step>, s: Sys, first: Lookup, q: Query, l: Lookup, when: nat,
                 room: nat) returns (steps': seq<Step>, s': Sys, q': Query)
    requires Valid(s.client) && Led(o, workers, steps, s) && Stuck(s, first, q)
    requires Askable(l) && Proper(l) && Deliverable(Given(o, l, when))
    ensures Led(o, workers, steps', s') && Valid(s'.client) && Stuck(s', first, q') && q'.tick == q.tick + 1
  {
    hide Led, Next, Valid, Holding, Proper, Askable, EncodeRequest, Given, Arrived, Deliverable, Complete, Remove,
      Handled, HandleResponse;
    var n, a := q.tick + 1, Arrived(Given(o, l, when), room);
    q' := Query(n, n, l, Some(a));
    GivenAccepted(o, l, when, room);
    DropOld(q, s.client.completed, l, a);
    var half, s1 := HalfRound(o, workers, steps, s, first, q, l, when, room);
    TableSize(s1.client);
    var s2 := Reading(o, s1, room, a);
    Extend(o, workers, half, s1, Receive(room));
    TableSize(s2.client);
    s' := Dropping(o, s2, q);
    Extend(o, workers, half + [Receive(room)], s2, Dropped(q));
    steps' := half + [Receive(room)] + [Dropped(q)];
  }

  /** The newest query's response is read. */
  lemma Reading(o: Resolver, s: Sys, room: nat, a: Answer) returns (s': Sys)
    requires Valid(s.client) && s.fault.None? && !s.client.dead
    requires |s.responses| == 1 && s.responses[0].Delivery? && s.responses[0].origin.tick == s.client.tick
    requires Handled(s.responses[0], room, a) && |s.client.table| == SLOTS
    requires HandleResponse(s.client, Answered(Id(s.client.tick), a)).After?
    ensures Careful(s, Receive(room)) && Next(o, s, Receive(room)) == Some(s')
    ensures s' == s.(responses := [], client := HandleResponse(s.client, Answered(Id(s.client.tick), a)).value)
  {
    hide Valid, HandleDatagram, HandleResponse, Received, InFlight;
    s' := Next(o, s, Receive(room)).value;
  }

  lemma Dropping(o: Resolver, s: Sys, q: Query) returns (s': Sys)
    requires Valid(s.client) && s.fault.None? && !s.client.dead
    requires |s.client.table| == SLOTS && s.client.table[Slot(q.tick)] == Some(q)
    ensures s.client.count > 0
    ensures Careful(s, Dropped(q)) && Next(o, s, Dropped(q)) == Some(s')
    ensures s' == s.(client := Remove(s.client, Slot(q.tick)))
  {
    hide Valid, Remove, InFlight;
    LiveCounted(s.client, Slot(q.tick));
    s' := Next(o, s, Dropped(q)).value;
  }

  lemma FirstStuck(o: Resolver, workers: nat, first: Lookup) returns (steps: seq<Step>, s: Sys)
    requires workers >= 2 && Askable(first) && Proper(first)
    ensures Led(o, workers, steps, s) && Valid(s.client) && Stuck(s, first, Query(0, 0, first, None))
  {
    hide Next, Valid, Proper, Askable, EncodeRequest, InFlight, Run, CarefulRun, Issue, ShortAddress;
    var s0, ask := Start(workers), Ask(first, true, true);
    Extend0(o, workers);
    NothingInFlight(workers);
    ProperIsShort(first);
    AskStep(o, s0, first, []);
    assert [] + [0] == [0] && Counting(1) == [0];
    var s1 := Next(o, s0, ask).value;
    Extend(o, workers, [], s0, ask);
    assert [] + [ask] == [ask];
    s := Taking(o, s1);
    Extend(o, workers, [ask], s1, Take(0));
    steps := [ask] + [Take(0)];
  }

  lemma Extend0(o: Resolver, workers: nat)
    ensures Led(o, workers, [], Start(workers))
  {
  }

  lemma Taking(o: Resolver, s: Sys) returns (s': Sys)
    requires Valid(s.client) && s.fault.None? && |s.workers| > 0 && s.workers[0] == Idle
    requires |s.requests| == 1 && IsRequest(s.requests[0])
    ensures var m := s.requests[0].origin;
            && Next(o, s, Take(0)) == Some(s') && Careful(s, Take(0))
            && s' == s.(requests := [], workers := s.workers[0 := Busy(m, Id(m.tick), m.lookup)])
  {
    hide Valid, ParseRequest, EncodeRequest, Received, WellFormed, InFlight;
    var m := s.requests[0].origin;
    RequestRoundTrip(Id(m.tick), m.lookup);
    s' := Next(o, s, Take(0)).value;
  }

  /** Any number of rounds, while the first request is still being worked on. */
  lemma {:induction false} Rounds(o: Resolver, workers: nat, first: Lookup, l: Lookup, when: nat, room: nat, n: nat)
    returns (steps: seq<Step>, s: Sys, q: Query)
    requires workers >= 2 && Askable(first) && Proper(first)
    requires Askable(l) && Proper(l) && Deliverable(Given(o, l, when))
    ensures Led(o, workers, steps, s) && Valid(s.client) && Stuck(s, first, q) && q.tick == n
    decreases n
  {
    hide Led, Valid, Stuck, Proper, Askable, Deliverable, Given;
    if n == 0 {
      steps, s := FirstStuck(o, workers, first);
      q := Query(0, 0, first, None);
    } else {
      steps, s, q := Rounds(o, workers, first, l, when, room, n - 1);
      steps, s, q := OneRound(o, workers, steps, s, first, q, l, when, room);
    }
  }

  /** After 2^32 - 1 rounds one more query is asked: its tick is 2^32, its id is 0 again. Now the
      first worker replies. The run has been careful all along, the response is exactly 2^32 ids
      old, and reading it completes the newest query with the first lookup's answer, or makes an
      assert on the type fire. */
  lemma LateReplyMisleads(o: Resolver, workers: nat, first: Lookup, l: Lookup, t0: nat, when: nat, room: nat)
    returns (steps: seq<Step>, s: Sys)
    requires workers >= 2 && Askable(first) && Proper(first) && Deliverable(Given(o, first, t0))
    requires Askable(l) && Proper(l) && Deliverable(Given(o, l, when))
    ensures Led(o, workers, steps, s) && Valid(s.client) && |s.client.table| == SLOTS
    ensures |s.responses| == 1 && s.responses[0].Delivery? && s.responses[0].origin == Msg(0, 0, first)
    ensures s.client.tick == 0x1_0000_0000
    ensures s.client.table[0] == Some(Query(0x1_0000_0000, 0x1_0000_0000, l, None))
    ensures Next(o, s, Receive(room)).Some?
    ensures var s', wrong := Next(o, s, Receive(room)).value, Arrived(Given(o, first, t0), room);
            if Accepts(RequestKind(l), ReplyKind(wrong)) then
              && s'.fault.None? && |s'.client.table| == SLOTS
              && s'.client.table[0] == Some(Query(0x1_0000_0000, 0x1_0000_0000, l, Some(wrong)))
            else s'.fault == Some(WrongType)
  {
    hide Led, Next, Valid, Proper, Askable, EncodeRequest, Given, Arrived, Deliverable, Handled, Counting;
    var before, s1, q := Rounds(o, workers, first, l, when, room, 0xFFFF_FFFF);
    var s2 := Asking(o, s1, first, q, l);
    Extend(o, workers, before, s1, Ask(l, true, true));
    var d, s3 := Replies(o, s2, 0, t0, room);
    assert Careful(s2, Finish(0, t0));
    Extend(o, workers, before + [Ask(l, true, true)], s2, Finish(0, t0));
    steps, s := before + [Ask(l, true, true)] + [Finish(0, t0)], s3;
    LateReading(o, s, room, Arrived(Given(o, first, t0), room));
  }

  lemma LateReading(o: Resolver, s: Sys, room: nat, a: Answer)
    requires Valid(s.client) && s.fault.None? && !s.client.dead && |s.responses| > 0
    requires s.responses[0].Delivery? && s.responses[0].origin.tick == 0 && Handled(s.responses[0], room, a)
    requires |s.client.table| == SLOTS && s.client.table[0].Some?
    requires Id(s.client.table[0].value.tick) == 0 && s.client.table[0].value.answer.None?
    ensures Next(o, s, Receive(room)).Some?
    ensures var s', q := Next(o, s, Receive(room)).value, s.client.table[0].value;
            if Accepts(RequestKind(q.lookup), ReplyKind(a)) then
              && s'.fault.None? && |s'.client.table| == SLOTS && s'.client.table[0] == Some(q.(answer := Some(a)))
            else s'.fault == Some(WrongType)
  {
    hide Valid, HandleDatagram, Received;
  }
}
