/** The client, the two datagram sockets and the workers as one transition system; what
    travels through the sockets is bytes. */
module Protocol {
  import opened Wrappers
  import opened Bytes
  import opened Datagram
  import opened Lookups
  import opened Client
  import opened Framing

  /** Whose message it is: history, which decides no step. */
  datatype Msg = Msg(tick: nat, serial: nat, lookup: Lookup)

  function MsgOf(q: Query): Msg {
    Msg(q.tick, q.serial, q.lookup)
  }

  datatype Request = Request(origin: Msg, datagram: seq<Byte>)

  /** A busy worker knows the id and the lookup it read from the request. */
  datatype Worker = Idle | Busy(origin: Msg, id: Word32, lookup: Lookup) | Gone

  datatype Response = Delivery(origin: Msg, datagram: seq<Byte>) | Death

  function Wire(r: Response): seq<Byte> {
    match r
    case Delivery(_, datagram) => datagram
    case Death => DEATH_NOTICE
  }

  /** `fault` says what has gone wrong for good; then nothing happens any more. */
  datatype Sys = Sys(client: State, requests: seq<Request>, workers: seq<Worker>, responses: seq<Response>,
                     fault: Option<Fault>)

  /** The outcome of a lookup made at a given moment, for every lookup something the lookup
      functions can return. */
  type Resolver = o: (Lookup, nat) -> Raw | forall l: Lookup, t: nat :: Plain(Render(l, o(l, t)))
    witness (l, t) => Raw(Status(-1, 0, 0), [], None, None, [])

  /** Ask: issue a query. Take: a worker receives a request. Finish: it replies. Receive: the
      client handles one response, with memory for `room` address nodes. Release: a *_done
      call. Die: a worker ends, with or without managing to say so. */
  datatype Step =
    | Ask(lookup: Lookup, memory: bool, sent: bool)
    | Take(w: nat)
    | Finish(w: nat, when: nat)
    | Receive(room: nat)
    | Release(i: nat)
    | Cancel(i: nat)
    | Die(w: nat, announced: bool)

  /** The answer a lookup made at a given moment gives. */
  function Given(o: Resolver, l: Lookup, when: nat): Answer {
    Render(l, o(l, when))
  }

  function Start(workers: nat): (s: Sys)
    ensures Valid(s.client)
  {
    FreshValid();
    Sys(FRESH, [], seq(workers, _ => Idle), [], None)
  }

  ghost function AskNext(s: Sys, lookup: Lookup, memory: bool, sent: bool): Option<Sys>
    requires Valid(s.client)
  {
    if !Askable(lookup) || !WellFormed(lookup) then None
    else
      var (c, out) := Issue(s.client, lookup, memory, sent);
      if !out then Some(s.(client := c))
      else
        var r := Request(Msg(c.tick, |s.client.issued|, lookup), EncodeRequest(Id(c.tick), lookup));
        Some(s.(client := c, requests := s.requests + [r]))
  }

  /** A worker receives a request and takes it apart; an assert of its own ends it. */
  function TakeNext(s: Sys, w: nat): Option<Sys> {
    if !(w < |s.workers| && s.workers[w] == Idle && |s.requests| > 0) then None
    else
      var s1 := s.(requests := s.requests[1..]);
      match ParseRequest(Received(s.requests[0].datagram))
      case Job(id, l) => Some(s1.(workers := s.workers[w := Busy(s.requests[0].origin, id, l)]))
      case Overruns => Some(s.(fault := Some(Overrun)))
      case AssertFails => Some(s1.(workers := s.workers[w := Gone]))
      case Terminate => Some(s1.(workers := s.workers[w := Gone], responses := s.responses + [Death]))
      case Ignored => Some(s1)
  }

  /** A worker makes its lookup and replies, or is ended by an assert in between. */
  function FinishNext(o: Resolver, s: Sys, w: nat, when: nat): Option<Sys> {
    if !(w < |s.workers| && s.workers[w].Busy?) then None
    else
      var Busy(m, id, l) := s.workers[w];
      match EncodeReply(id, Given(o, l, when))
      case None => Some(s.(workers := s.workers[w := Gone]))
      case Some(d) => Some(s.(workers := s.workers[w := Idle], responses := s.responses + [Delivery(m, d)]))
  }

  function ReceiveNext(s: Sys, room: nat): Option<Sys>
    requires |s.client.table| == SLOTS
  {
    if s.client.dead || |s.responses| == 0 then None
    else
      match HandleDatagram(s.client, Received(Wire(s.responses[0])), room)
      case Fires(f) => Some(s.(fault := Some(f)))
      case After(c) => Some(s.(responses := s.responses[1..], client := c))
  }

  /** One step, or None when it is not enabled. */
  ghost function Next(o: Resolver, s: Sys, st: Step): (r: Option<Sys>)
    requires Valid(s.client)
    ensures r.Some? ==> Valid(r.value.client)
  {
    hide Valid, Occupied, Remove, Alloc, Complete, Issue, HandleDatagram, EncodeReply, ParseRequest, EncodeRequest;
    TableSize(s.client);
    if s.fault.Some? then None
    else
      match st
      case Ask(lookup, memory, sent) =>
        IssueValid(s.client, lookup, memory, sent);
        AskNext(s, lookup, memory, sent)
      case Take(w) => TakeNext(s, w)
      case Finish(w, when) => FinishNext(o, s, w, when)
      case Receive(room) =>
        ReceiveValid(s, room);
        ReceiveNext(s, room)
      case Release(i) =>
        if !Live(s.client, i) then None
        else
          LiveCounted(s.client, i);
          DoneValid(s.client, i);
          Some(s.(client := Done(s.client, i).0))
      case Cancel(i) =>
        if !Live(s.client, i) then None
        else
          LiveCounted(s.client, i);
          RemoveValid(s.client, i);
          Some(s.(client := Remove(s.client, i)))
      case Die(w, announced) =>
        if w < |s.workers| && s.workers[w] != Gone
        then Some(s.(workers := s.workers[w := Gone],
                     responses := if announced then s.responses + [Death] else s.responses))
        else None
  }

  lemma ReceiveValid(s: Sys, room: nat)
    requires Valid(s.client)
    ensures |s.client.table| == SLOTS
    ensures ReceiveNext(s, room).Some? ==> Valid(ReceiveNext(s, room).value.client)
  {
    hide Valid, HandleDatagram;
    TableSize(s.client);
    if |s.responses| > 0 && HandleDatagram(s.client, Received(Wire(s.responses[0])), room).After? {
      HandleDatagramValid(s.client, Received(Wire(s.responses[0])), room);
    }
  }

  ghost function Run(o: Resolver, s: Sys, steps: seq<Step>): (r: Option<Sys>)
    requires Valid(s.client)
    ensures r.Some? ==> Valid(r.value.client)
    decreases |steps|
  {
    if |steps| == 0 then Some(s)
    else
      var s' := Next(o, s, steps[0]);
      if s'.None? then None else Run(o, s'.value, steps[1..])
  }

  lemma {:induction false} RunAppend(o: Resolver, s: Sys, xs: seq<Step>, ys: seq<Step>)
    requires Valid(s.client)
    ensures Run(o, s, xs + ys) == if Run(o, s, xs).None? then None else Run(o, Run(o, s, xs).value, ys)
    decreases |xs|
  {
    hide Next, Valid;
    if |xs| == 0 {
      assert xs + ys == ys;
    } else {
      assert (xs + ys)[1..] == xs[1..] + ys;
      if Next(o, s, xs[0]).Some? {
        RunAppend(o, Next(o, s, xs[0]).value, xs[1..], ys);
      }
    }
  }

  lemma RunOne(o: Resolver, s: Sys, st: Step)
    requires Valid(s.client)
    ensures Run(o, s, [st]) == Next(o, s, st)
  {
    hide Next, Valid;
    assert [st][1..] == [];
  }

  // ----- the messages in flight

  function SentBag(r: Request): multiset<Msg> {
    multiset{r.origin}
  }

  function JobBag(w: Worker): multiset<Msg> {
    if w.Busy? then multiset{w.origin} else multiset{}
  }

  function OriginBag(r: Response): multiset<Msg> {
    if r.Delivery? then multiset{r.origin} else multiset{}
  }

  /** The messages found in a sequence of requests, workers or responses. */
  function Bag<T>(xs: seq<T>, bag: T -> multiset<Msg>): multiset<Msg> {
    if |xs| == 0 then multiset{} else bag(xs[0]) + Bag(xs[1..], bag)
  }

  function Sent(rs: seq<Request>): multiset<Msg> {
    Bag(rs, SentBag)
  }

  function Jobs(ws: seq<Worker>): multiset<Msg> {
    Bag(ws, JobBag)
  }

  function Origins(rs: seq<Response>): multiset<Msg> {
    Bag(rs, OriginBag)
  }

  /** Every request the client has sent and not yet heard back about: waiting in the request
      socket, being worked on, or answered in the response socket. */
  function InFlight(s: Sys): multiset<Msg> {
    Sent(s.requests) + Jobs(s.workers) + Origins(s.responses)
  }

  lemma Rearrange(a: multiset<Msg>, b: multiset<Msg>, c: multiset<Msg>, d: multiset<Msg>, e: multiset<Msg>)
    requires b + c == d + e
    ensures a + b + c == a + d + e
  {
    assert a + b + c == a + (b + c);
    assert a + d + e == a + (d + e);
  }

  lemma {:induction false} BagUpdate<T>(xs: seq<T>, bag: T -> multiset<Msg>, i: nat, x: T)
    requires i < |xs|
    ensures Bag(xs[i := x], bag) + bag(xs[i]) == Bag(xs, bag) + bag(x)
  {
    if i == 0 {
      assert xs[i := x][1..] == xs[1..];
      assert Bag(xs[i := x], bag) == bag(x) + Bag(xs[1..], bag);
    } else {
      assert xs[i := x][1..] == xs[1..][i - 1 := x];
      BagUpdate(xs[1..], bag, i - 1, x);
      Rearrange(bag(xs[0]), Bag(xs[1..][i - 1 := x], bag), bag(xs[i]), Bag(xs[1..], bag), bag(x));
    }
  }

  lemma {:induction false} BagAppend<T>(xs: seq<T>, bag: T -> multiset<Msg>, x: T)
    ensures Bag(xs + [x], bag) == Bag(xs, bag) + bag(x)
  {
    if |xs| == 0 {
      assert xs + [x] == [x] && [x][1..] == [];
    } else {
      assert (xs + [x])[1..] == xs[1..] + [x];
      BagAppend(xs[1..], bag, x);
    }
  }

  lemma BagFirst<T>(xs: seq<T>, bag: T -> multiset<Msg>)
    requires |xs| > 0
    ensures Bag(xs, bag) == bag(xs[0]) + Bag(xs[1..], bag)
  {
  }

  lemma {:induction false} InBag<T>(xs: seq<T>, bag: T -> multiset<Msg>, k: nat)
    requires k < |xs|
    ensures bag(xs[k]) <= Bag(xs, bag)
  {
    if k > 0 {
      InBag(xs[1..], bag, k - 1);
    }
  }

  /** Asking adds the new request, if one went out. */
  lemma InFlightAsk(o: Resolver, s: Sys, st: Step)
    requires Valid(s.client) && Next(o, s, st).Some? && st.Ask?
    ensures var (c, out) := Issue(s.client, st.lookup, st.memory, st.sent);
            var s' := Next(o, s, st).value;
            && s'.client == c
            && InFlight(s') ==
               if out then InFlight(s) + multiset{Msg(c.tick, |s.client.issued|, st.lookup)} else InFlight(s)
  {
    hide Valid, Bag, Issue, EncodeRequest, TakeNext, FinishNext, ReceiveNext;
    var (c, out) := Issue(s.client, st.lookup, st.memory, st.sent);
    var r := Request(Msg(c.tick, |s.client.issued|, st.lookup), EncodeRequest(Id(c.tick), st.lookup));
    BagAppend(s.requests, SentBag, r);
  }

  /** A worker that takes up a request or sends its reply neither loses nor doubles a message. */
  lemma InFlightWork(o: Resolver, s: Sys, st: Step)
    requires Valid(s.client) && Next(o, s, st).Some?
    requires st.Take? || st.Finish?
    requires var s' := Next(o, s, st).value;
             && s'.fault.None? && st.w < |s'.workers|
             && (if st.Take? then s'.workers[st.w].Busy? else s'.workers[st.w] == Idle)
    ensures InFlight(Next(o, s, st).value) == InFlight(s)
  {
    hide Valid, InFlight, ReceiveNext, AskNext, ParseRequest, EncodeReply, Received, Given;
    var s' := Next(o, s, st).value;
    if st.Take? {
      TakenUp(s, s', st.w);
    } else {
      assert s'.responses == s.responses + [s'.responses[|s.responses|]];
      Replied(s, s', st.w);
    }
  }

  lemma TakenUp(s: Sys, s': Sys, w: nat)
    requires w < |s.workers| == |s'.workers| && s'.workers == s.workers[w := s'.workers[w]] && |s.requests| > 0
    requires s.workers[w] == Idle && s'.workers[w].Busy? && s'.workers[w].origin == s.requests[0].origin
    requires s'.requests == s.requests[1..] && s'.responses == s.responses
    ensures InFlight(s') == InFlight(s)
  {
    hide Bag;
    BagUpdate(s.workers, JobBag, w, s'.workers[w]);
    BagFirst(s.requests, SentBag);
    assert Jobs(s'.workers) == Jobs(s.workers) + multiset{s.requests[0].origin};
  }

  lemma Replied(s: Sys, s': Sys, w: nat)
    requires w < |s.workers| && s.workers[w].Busy? && s'.workers == s.workers[w := Idle] && s'.requests == s.requests
    requires |s'.responses| == |s.responses| + 1 && s'.responses[|s.responses|].Delivery?
    requires s'.responses == s.responses + [s'.responses[|s.responses|]]
    requires s'.responses[|s.responses|].origin == s.workers[w].origin
    ensures InFlight(s') == InFlight(s)
  {
    hide Bag;
    var d := s'.responses[|s.responses|];
    BagUpdate(s.workers, JobBag, w, Idle);
    BagAppend(s.responses, OriginBag, d);
    assert Jobs(s'.workers) + OriginBag(d) == Jobs(s.workers);
    assert InFlight(s') == Sent(s.requests) + (Jobs(s'.workers) + OriginBag(d)) + Origins(s.responses);
  }

  /** The message a step uses up: a handled response, or the job of a worker that ends. */
  function Consumed(s: Sys, st: Step): multiset<Msg> {
    if st.Receive? && |s.responses| > 0 then OriginBag(s.responses[0])
    else if (st.Die? || st.Finish?) && st.w < |s.workers| then JobBag(s.workers[st.w])
    else multiset{}
  }

  lemma InFlightLost(o: Resolver, s: Sys, st: Step)
    requires Valid(s.client) && Next(o, s, st).Some? && Next(o, s, st).value.fault.None?
    requires st.Receive? || st.Die? || (st.Finish? && Next(o, s, st).value.workers[st.w] == Gone)
    ensures InFlight(Next(o, s, st).value) + Consumed(s, st) == InFlight(s)
  {
    hide Valid, Bag, Sent, Jobs, HandleDatagram, AskNext, TakeNext, EncodeReply, Received, Given;
    if st.Receive? {
      BagFirst(s.responses, OriginBag);
    } else {
      var s' := Next(o, s, st).value;
      WorkerEnds(s, st.w);
      BagAppend(s.responses, OriginBag, Death);
      assert Jobs(s'.workers) + JobBag(s.workers[st.w]) == Jobs(s.workers);
    }
  }

  lemma WorkerEnds(s: Sys, w: nat)
    requires w < |s.workers|
    ensures Jobs(s.workers[w := Gone]) + JobBag(s.workers[w]) == Jobs(s.workers)
  {
    hide Bag;
    BagUpdate(s.workers, JobBag, w, Gone);
  }
}
