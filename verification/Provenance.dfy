/** Where a stored answer comes from: the lookup a worker made for that very query, cut at the
    memory the client had when it read the reply. */
module Provenance {
  import opened Wrappers
  import opened Bytes
  import opened Lookups
  import opened Client
  import opened Framing
  import opened Protocol
  import opened Delivery

  /** The state before step k of a run. */
  ghost function Before(o: Resolver, workers: nat, steps: seq<Step>, k: nat): (r: Option<Sys>)
    requires k <= |steps|
    ensures r.Some? ==> Valid(r.value.client)
  {
    Run(o, Start(workers), steps[..k])
  }

  /** In step j a worker ends its lookup for this message. */
  ghost predicate RepliedAt(o: Resolver, workers: nat, steps: seq<Step>, j: nat, m: Msg) {
    && j < |steps| && steps[j].Finish? && Before(o, workers, steps, j).Some?
    && var ws, w := Before(o, workers, steps, j).value.workers, steps[j].w;
       w < |ws| && ws[w].Busy? && ws[w].origin == m
  }

  /** In step k the client reads a reply to this message. */
  ghost predicate ReadAt(o: Resolver, workers: nat, steps: seq<Step>, k: nat, m: Msg) {
    && k < |steps| && steps[k].Receive? && Before(o, workers, steps, k).Some?
    && var rs := Before(o, workers, steps, k).value.responses;
       |rs| > 0 && rs[0].Delivery? && rs[0].origin == m
  }

  /** `d` is the reply a worker sent to this message. */
  ghost predicate SentBy(o: Resolver, workers: nat, steps: seq<Step>, m: Msg, d: seq<Byte>) {
    exists j: nat :: RepliedAt(o, workers, steps, j, m) && RepliesWith(o, m, d, steps[j].when)
  }

  /** `a` is what the lookup a worker made for this message gave, as the client read it later. */
  ghost predicate OwnAnswer(o: Resolver, workers: nat, steps: seq<Step>, m: Msg, a: Answer) {
    exists j: nat, k: nat ::
      && j < k && RepliedAt(o, workers, steps, j, m) && ReadAt(o, workers, steps, k, m)
      && a == Arrived(Given(o, m.lookup, steps[j].when), steps[k].room)
  }

  ghost predicate FromWorkers(o: Resolver, workers: nat, steps: seq<Step>, rs: seq<Response>) {
    forall k :: 0 <= k < |rs| && rs[k].Delivery? ==> SentBy(o, workers, steps, rs[k].origin, rs[k].datagram)
  }

  /** Every finished query holds its own answer. */
  ghost predicate Own(o: Resolver, workers: nat, steps: seq<Step>, table: seq<Option<Query>>) {
    forall i :: 0 <= i < |table| && Completed(table, i) ==>
      OwnAnswer(o, workers, steps, MsgOf(table[i].value), table[i].value.answer.value)
  }

  // ----- longer runs

  lemma BeforeLonger(o: Resolver, workers: nat, steps: seq<Step>, st: Step, k: nat)
    requires k <= |steps|
    ensures Before(o, workers, steps + [st], k) == Before(o, workers, steps, k)
  {
    hide Run, Start;
    assert (steps + [st])[..k] == steps[..k];
  }

  lemma BeforeNow(o: Resolver, workers: nat, steps: seq<Step>, st: Step)
    ensures Before(o, workers, steps + [st], |steps|) == Run(o, Start(workers), steps)
  {
    hide Run, Start;
    assert (steps + [st])[..|steps|] == steps;
  }

  lemma RepliedLonger(o: Resolver, workers: nat, steps: seq<Step>, st: Step, j: nat, m: Msg)
    requires RepliedAt(o, workers, steps, j, m)
    ensures RepliedAt(o, workers, steps + [st], j, m)
  {
    hide Before;
    BeforeLonger(o, workers, steps, st, j);
  }

  lemma ReadLonger(o: Resolver, workers: nat, steps: seq<Step>, st: Step, k: nat, m: Msg)
    requires ReadAt(o, workers, steps, k, m)
    ensures ReadAt(o, workers, steps + [st], k, m)
  {
    hide Before;
    BeforeLonger(o, workers, steps, st, k);
  }

  lemma SentLonger(o: Resolver, workers: nat, steps: seq<Step>, st: Step, m: Msg, d: seq<Byte>)
    requires SentBy(o, workers, steps, m, d)
    ensures SentBy(o, workers, steps + [st], m, d)
  {
    hide Before, RepliesWith;
    var j: nat :| RepliedAt(o, workers, steps, j, m) && RepliesWith(o, m, d, steps[j].when);
    RepliedLonger(o, workers, steps, st, j, m);
  }

  lemma OwnLonger(o: Resolver, workers: nat, steps: seq<Step>, st: Step, m: Msg, a: Answer)
    requires OwnAnswer(o, workers, steps, m, a)
    ensures OwnAnswer(o, workers, steps + [st], m, a)
  {
    hide Before, Arrived, Given;
    var j: nat, k: nat :|
      && j < k && RepliedAt(o, workers, steps, j, m) && ReadAt(o, workers, steps, k, m)
      && a == Arrived(Given(o, m.lookup, steps[j].when), steps[k].room);
    RepliedLonger(o, workers, steps, st, j, m);
    ReadLonger(o, workers, steps, st, k, m);
  }

  // ----- every step

  /** A step that completes no query, and sends nothing. */
  lemma NothingNew(o: Resolver, workers: nat, steps: seq<Step>, st: Step, s: Sys, s': Sys)
    requires Own(o, workers, steps, s.client.table) && FromWorkers(o, workers, steps, s.responses)
    requires |s'.client.table| == |s.client.table|
    requires forall i :: 0 <= i < |s.client.table| && Completed(s'.client.table, i) ==>
               s'.client.table[i] == s.client.table[i]
    requires forall k :: 0 <= k < |s'.responses| && s'.responses[k].Delivery? ==> s'.responses[k] in s.responses
    ensures Own(o, workers, steps + [st], s'.client.table) && FromWorkers(o, workers, steps + [st], s'.responses)
  {
    hide OwnAnswer, SentBy;
    forall i | 0 <= i < |s'.client.table| && Completed(s'.client.table, i)
      ensures var q := s'.client.table[i].value; OwnAnswer(o, workers, steps + [st], MsgOf(q), q.answer.value)
    {
      assert Completed(s.client.table, i);
      OwnLonger(o, workers, steps, st, MsgOf(s.client.table[i].value), s.client.table[i].value.answer.value);
    }
    forall k | 0 <= k < |s'.responses| && s'.responses[k].Delivery?
      ensures SentBy(o, workers, steps + [st], s'.responses[k].origin, s'.responses[k].datagram)
    {
      SentLonger(o, workers, steps, st, s'.responses[k].origin, s'.responses[k].datagram);
    }
  }

  lemma FinishTraced(o: Resolver, workers: nat, steps: seq<Step>, st: Step, s: Sys)
    requires Run(o, Start(workers), steps) == Some(s) && Inv(o, s) && st.Finish? && Next(o, s, st).Some?
    requires Own(o, workers, steps, s.client.table) && FromWorkers(o, workers, steps, s.responses)
    ensures var s' := Next(o, s, st).value;
            Own(o, workers, steps + [st], s'.client.table) && FromWorkers(o, workers, steps + [st], s'.responses)
  {
    hide Run, Before, Valid, Own, FromWorkers, Tracked, Lossless, InFlight, EncodeReply, Given;
    var s' := Next(o, s, st).value;
    NothingNew(o, workers, steps, st, s, s.(workers := s'.workers));
    var m := s.workers[st.w].origin;
    assert IsJob(s.workers[st.w]);
    if s'.responses != s.responses {
      var d := s'.responses[|s.responses|].datagram;
      assert s'.responses == s.responses + [Delivery(m, d)];
      BeforeNow(o, workers, steps, st);
      assert RepliedAt(o, workers, steps + [st], |steps|, m) && RepliesWith(o, m, d, (steps + [st])[|steps|].when);
      SentOneMore(o, workers, steps + [st], s.responses, m, d);
    }
  }

  lemma SentOneMore(o: Resolver, workers: nat, steps: seq<Step>, rs: seq<Response>, m: Msg, d: seq<Byte>)
    requires FromWorkers(o, workers, steps, rs) && SentBy(o, workers, steps, m, d)
    ensures FromWorkers(o, workers, steps, rs + [Delivery(m, d)])
  {
    hide SentBy;
  }

  lemma ReceiveTraced(o: Resolver, workers: nat, steps: seq<Step>, st: Step, s: Sys)
    requires Run(o, Start(workers), steps) == Some(s) && Inv(o, s) && st.Receive? && Careful(s, st)
    requires Next(o, s, st).Some? && s.responses[0].Delivery?
    requires Own(o, workers, steps, s.client.table) && FromWorkers(o, workers, steps, s.responses)
    ensures var s' := Next(o, s, st).value;
            Own(o, workers, steps + [st], s'.client.table) && FromWorkers(o, workers, steps + [st], s'.responses)
  {
    hide Run, Valid, Own, Tracked, Lossless, InFlight, RepliesWith, Before, HandleDatagram, Received, Arrived, Given;
    TableSize(s.client);
    var s' := Next(o, s, st).value;
    var Delivery(m, d) := s.responses[0];
    var j: nat :| RepliedAt(o, workers, steps, j, m) && RepliesWith(o, m, d, steps[j].when);
    var when := steps[j].when;
    InFlightOrigin(s, 0);
    ReceiveTracked(o, s.client, InFlight(s), m, d, when, st.room);
    NothingNew(o, workers, steps, st, s, s.(responses := s'.responses));
    if s'.client != s.client {
      var a := Arrived(Given(o, m.lookup, when), st.room);
      ReadNow(o, workers, steps, st, s);
      RepliedLonger(o, workers, steps, st, j, m);
      OwnNow(o, workers, steps + [st], m, j, |steps|);
      OwnOneMore(o, workers, steps + [st], s.client, m, a);
    }
  }

  /** The step that is being made. */
  lemma ReadNow(o: Resolver, workers: nat, steps: seq<Step>, st: Step, s: Sys)
    requires Run(o, Start(workers), steps) == Some(s) && st.Receive?
    requires |s.responses| > 0 && s.responses[0].Delivery?
    ensures ReadAt(o, workers, steps + [st], |steps|, s.responses[0].origin)
  {
    hide Run, Start, Before;
    BeforeNow(o, workers, steps, st);
  }

  lemma OwnNow(o: Resolver, workers: nat, steps: seq<Step>, m: Msg, j: nat, k: nat)
    requires j < k && RepliedAt(o, workers, steps, j, m) && ReadAt(o, workers, steps, k, m)
    ensures j < |steps| && k < |steps| && steps[j].Finish? && steps[k].Receive?
    ensures OwnAnswer(o, workers, steps, m, Arrived(Given(o, m.lookup, steps[j].when), steps[k].room))
  {
    hide Before, Arrived, Given;
  }

  lemma OwnOneMore(o: Resolver, workers: nat, steps: seq<Step>, c: State, m: Msg, a: Answer)
    requires Own(o, workers, steps, c.table) && Waiting(c.table, m) && OwnAnswer(o, workers, steps, m, a)
    ensures Own(o, workers, steps, Complete(c, Slot(m.tick), a).table)
  {
    hide OwnAnswer;
  }

  lemma StepTraced(o: Resolver, workers: nat, steps: seq<Step>, st: Step, s: Sys)
    requires Run(o, Start(workers), steps) == Some(s) && Inv(o, s) && Careful(s, st) && Next(o, s, st).Some?
    requires Own(o, workers, steps, s.client.table) && FromWorkers(o, workers, steps, s.responses)
    ensures var s' := Next(o, s, st).value;
            Own(o, workers, steps + [st], s'.client.table) && FromWorkers(o, workers, steps + [st], s'.responses)
  {
    hide Inv, Own, FromWorkers, Run;
    if st.Finish? {
      FinishTraced(o, workers, steps, st, s);
    } else if st.Receive? && ReadsReply(s) {
      ReceiveTraced(o, workers, steps, st, s);
    } else {
      OtherSteps(o, s, st);
      NothingNew(o, workers, steps, st, s, Next(o, s, st).value);
    }
  }

  predicate ReadsReply(s: Sys) {
    |s.responses| > 0 && s.responses[0].Delivery?
  }

  lemma OtherSteps(o: Resolver, s: Sys, st: Step)
    requires Inv(o, s) && Next(o, s, st).Some? && !st.Finish? && (st.Receive? ==> !ReadsReply(s))
    ensures var s' := Next(o, s, st).value;
            && |s'.client.table| == |s.client.table|
            && (forall i :: 0 <= i < |s.client.table| && Completed(s'.client.table, i) ==>
                  s'.client.table[i] == s.client.table[i])
            && forall k :: 0 <= k < |s'.responses| && s'.responses[k].Delivery? ==> s'.responses[k] in s.responses
  {
    hide Valid, Tracked, Lossless, InFlight, IsReply, HandleDatagram, Received, ParseRequest, EncodeRequest, Issue,
      Without, Proper, Wired;
    TableSize(s.client);
    if st.Ask? {
      IssueKeepsAnswers(s.client, st.lookup, st.memory, st.sent);
    } else if st.Receive? {
      DeathHandled(s.client, st.room);
    }
  }

  lemma NothingYet(o: Resolver, workers: nat)
    ensures Own(o, workers, [], Start(workers).client.table) && FromWorkers(o, workers, [], Start(workers).responses)
  {
  }
}
