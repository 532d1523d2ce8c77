/** The pieces together: the transition system's messages as datagrams, and a host lookup from
    the worker's address list to the addresses the socket tries. */
module EndToEnd {
  import opened Wrappers
  import opened Bytes
  import opened AddrInfos
  import opened Datagram
  import opened Lookups
  import Client
  import Framing
  import AddrCodec
  import Spec = SocketSpec
  import opened SocketConnect
  import opened AsyncNs
  import ReceiveLoop
  import SrvParser

  /** On the wire, for every lookup that is sent and every answer that is: the worker reads the
      very lookup, or runs over its buffer for socket addresses; and on the datagram of the reply
      the client does, in every state, what it does on the answer as cut on its way, or its
      length assert fires. */
  lemma MessagesSurviveTheWire(id: Word32, l: Lookup, a: Answer, room: nat)
    requires Framing.WellFormed(l) && RequestSize(l) <= BUFSIZE
    requires Framing.Plain(a) && Framing.Sendable(a)
    ensures Framing.ParseRequest(Framing.Received(Framing.EncodeRequest(id, l)))
         == if Framing.ShortAddress(l) then Framing.Job(id, l) else Framing.Overruns
    ensures Framing.EncodeReply(id, a).Some?
    ensures var wire := Framing.Received(Framing.EncodeReply(id, a).value);
            forall s: Client.State :: |s.table| == Client.SLOTS ==>
              Framing.HandleDatagram(s, wire, room) ==
                if Framing.Receivable(a) then Client.HandleResponse(s, Client.Answered(id, Framing.Arrived(a, room)))
                else Client.Fires(Client.LengthMismatch)
    ensures forall s: Client.State :: |s.table| == Client.SLOTS ==>
              Framing.HandleDatagram(s, Framing.Received(Framing.DEATH_NOTICE), room)
              == Client.HandleResponse(s, Client.Died)
  {
    hide Framing.ParseRequest, Framing.ParseReply, Framing.EncodeRequest, Framing.EncodeReply, Framing.WellFormed,
      Framing.Plain, Framing.Sendable, Framing.Receivable, Framing.Arrived, RequestSize, Client.HandleResponse,
      Framing.Received;
    Framing.RequestRoundTrip(id, l);
    Framing.ReplyRoundTrip(id, a, room);
    Framing.DeathNoticeRoundTrip(room);
  }

  /** What a lookup that ended with st and the list ns leaves the socket with: the list with its
      ports set if the lookup succeeded and all of the list got through, otherwise no list. */
  function Found(st: Status, ns: seq<AddrNode>, room: nat, port: nat): Option<seq<AddrNode>>
    requires forall i :: 0 <= i < |ns| ==> HasPort(ns[i])
  {
    if st.ret == 0 && AddrCodec.FirstMisfit(ns, 0) == |ns| <= room then Some(WithPorts(ns, port)) else None
  }

  /** What a *_done call's outcome leaves the socket with. */
  function HostResult(o: Client.Outcome, port: nat): Option<seq<AddrNode>>
    requires o.Result? && o.answer.AddrAnswer? ==> HavePorts(o.answer.nodes)
  {
    if o.Result? && o.answer.AddrAnswer? && o.answer.status.ret == 0 then Some(WithPorts(o.answer.nodes, port))
    else None
  }

  predicate HavePorts(ns: seq<AddrNode>) {
    forall i :: 0 <= i < |ns| ==> HasPort(ns[i])
  }

  /** All of the list and nothing else, with the port as asked, or nothing at all. */
  lemma FoundIsAll(st: Status, ns: seq<AddrNode>, room: nat, port: nat)
    requires forall i :: 0 <= i < |ns| ==> HasPort(ns[i])
    ensures var f := Found(st, ns, room, port);
            && (f.Some? <==> st.ret == 0 && AddrCodec.FirstMisfit(ns, 0) == |ns| && |ns| <= room)
            && (f.Some? ==> PortsSet(ns, f.value, port))
  {
    hide WithPorts, PortsSet, AddrCodec.FirstMisfit;
    PortsWritten(ns, port);
  }

  /** asyncns_resolver_host_done: collect the query, set the port in every node of its list, tell
      the socket. On a dead context, on an unfinished query and after a failed lookup the socket
      is told of the failure. */
  method HostDone(ctx: Context, q: AsyncQuery, sock: Socket, luck: Spec.Luck)
    requires ctx.Valid() && q in ctx.live && q.kind == REQUEST_ADDRINFO && HavePorts(q.addrs)
    requires sock.Valid() && sock.s.results == [] && sock.s.iter.None?
    modifies ctx, ctx.queries, ctx.live, ctx.nodes, sock, sock.sa
    ensures ctx.Valid() && sock.Valid()
    ensures var i := old(q.id) % Client.SLOTS;
            && old(ctx.s).count > 0 && Client.Live(old(ctx.s), i)
            && var (c, o) := Client.Done(old(ctx.s), i);
               && ctx.s == c
               && (o.Result? && o.answer.AddrAnswer? ==> HavePorts(o.answer.nodes))
               && sock.s == Spec.Resolved(old(sock.s), HostResult(o, sock.sa.port), luck)
  {
    hide Context.Table, Lists, Chain, Contents, Spec.Resolved, HasPort, WithPorts, Client.Remove;
    ctx.SlotOf(q);
    var ret, res, chain, err, hErr := ctx.GetAddrInfoDone(q);
    NodesHavePort(chain);
    sock.LookupFinished(ret == 0, res, chain, luck);
  }

  /** The datagrams that are waiting: the reply, and perhaps the death notice of its worker. */
  function Script(reply: seq<Byte>, room: nat, died: bool): seq<ReceiveLoop.Recv> {
    [ReceiveLoop.Datagram(reply, room)] + (if died then [ReceiveLoop.Datagram(Framing.DEATH_NOTICE, room)] else [])
  }

  /** What reading them does to the context whose query sent the request. */
  lemma ReplyRead(s: Client.State, i: nat, reply: seq<Byte>, room: nat, died: bool, sent: Answer)
    requires Client.Valid(s) && !s.dead && Client.Live(s, i) && s.table[i].value.answer.None?
    requires Accepts(RequestKind(s.table[i].value.lookup), ReplyKind(sent))
    requires Framing.Plain(sent) && Framing.Receivable(sent)
    requires Framing.EncodeReply(Client.Id(s.table[i].value.tick), sent) == Some(reply)
    ensures var (s', n, r) := ReceiveLoop.Wait(s, Script(reply, room, died), false, false);
            && s' == Client.Complete(s, i, Framing.Arrived(sent, room)).(dead := died)
            && r == (if died then ReceiveLoop.NoWorker else ReceiveLoop.Handled)
  {
    hide Client.Valid, Framing.ParseReply, Framing.EncodeReply, Framing.Arrived, Client.Complete, Framing.Received,
      Framing.Plain, Framing.Receivable, Framing.Sendable;
    var q := s.table[i].value;
    var a := Framing.Arrived(sent, room);
    SlotNamed(s, i);
    Framing.SendableIff(Client.Id(q.tick), sent);
    Framing.ReplyRoundTrip(Client.Id(q.tick), sent, room);
    Framing.DeathNoticeRoundTrip(room);
    var s1 := Client.Complete(s, i, a);
    assert Framing.HandleDatagram(s, Framing.Received(reply), room) == Client.After(s1);
    Framing.HandleDatagramValid(s, Framing.Received(reply), room);
    Client.TableSize(s1);
    var death := ReceiveLoop.Datagram(Framing.DEATH_NOTICE, room);
    var rest := if died then [death] else [];
    assert Script(reply, room, died)[1..] == rest && [death][1..] == [];
    StillAlive(s, i, a);
    if died {
      Framing.HandleDatagramValid(s1, Framing.Received(Framing.DEATH_NOTICE), room);
      var s2 := s1.(dead := true);
      assert Framing.HandleDatagram(s1, Framing.Received(Framing.DEATH_NOTICE), room) == Client.After(s2);
      assert ReceiveLoop.Wait(s2, [], false, true) == (s2, 0, ReceiveLoop.NoWorker);
      assert ReceiveLoop.Wait(s1, rest, false, true) == (s2, 1, ReceiveLoop.NoWorker);
    } else {
      assert ReceiveLoop.Wait(s1, rest, false, true) == (s1, 0, ReceiveLoop.Handled);
      assert s1 == s1.(dead := died);
    }
  }

  lemma SlotNamed(s: Client.State, i: nat)
    requires Client.Valid(s) && Client.Live(s, i)
    ensures |s.table| == Client.SLOTS && Client.Id(s.table[i].value.tick) % Client.SLOTS == i
  {
    hide Client.Occupied, Client.ValidFinished;
    Client.SlotOfId(s.table[i].value.tick);
  }

  lemma StillAlive(s: Client.State, i: nat, a: Answer)
    requires Client.Live(s, i)
    ensures Client.Complete(s, i, a).dead == s.dead
  {
  }

  lemma NodesHavePort(chain: seq<AddrInfo>)
    requires HavePorts(Contents(chain))
    ensures forall i :: 0 <= i < |chain| ==> HasPort(chain[i].Node())
  {
    forall i | 0 <= i < |chain|
      ensures HasPort(chain[i].Node())
    {
      assert Contents(chain)[i] == chain[i].Node();
    }
  }

  lemma DoneAfterRead(s: Client.State, i: nat, st: Status, ns: seq<AddrNode>, room: nat, died: bool, port: nat)
    requires Client.Live(s, i) && forall k :: 0 <= k < |ns| ==> HasPort(ns[k])
    ensures var a := Framing.Arrived(AddrAnswer(st, ns), room);
            var c := Client.Complete(s, i, a).(dead := died);
            && c.table[i].Some? && c.table[i].value.answer == Some(a) && a.AddrAnswer? && HavePorts(a.nodes)
            && (c.count > 0 ==>
                  var o := Client.Done(c, i).1;
                  && (o.Result? && o.answer.AddrAnswer? ==> HavePorts(o.answer.nodes))
                  && HostResult(o, port) == if died then None else Found(st, ns, room, port))
  {
    hide AddrCodec.FirstMisfit, WithPorts, HasPort;
    assert ns[..|ns|] == ns;
  }

  /** asyncns_resolver_io_cb when the reply to the host lookup has come, and with it perhaps the
      death notice of its worker: read both, then finish. The socket goes on with the worker's
      list, if the lookup succeeded and all of it got through and the worker still lives. */
  method HostReply(ctx: Context, q: AsyncQuery, reply: seq<Byte>, room: nat, died: bool, sock: Socket, luck: Spec.Luck,
                   ghost st: Status, ghost ns: seq<AddrNode>)
    requires ctx.Valid() && q in ctx.live && q.kind == REQUEST_ADDRINFO && !q.done && !ctx.dead
    requires forall i :: 0 <= i < |ns| ==> Representable(ns[i]) && HasPort(ns[i])
    requires AddrCodec.WorkerReply(q.id, st, ns) == AddrCodec.Sent(reply)
    requires sock.Valid() && sock.s.results == [] && sock.s.iter.None?
    modifies ctx, ctx.queries, ctx.live, ctx.nodes, sock, sock.sa
    ensures ctx.Valid() && sock.Valid()
    ensures sock.s == Spec.Resolved(old(sock.s), if died then None else Found(st, ns, room, sock.sa.port), luck)
  {
    hide Context.Table, Lists, Chain, Contents, Spec.Resolved, HasPort, Client.Complete, AddrCodec.WorkerReply, Found,
      HostResult, HavePorts, Representable, Framing.Arrived;
    ctx.SlotOf(q);
    ghost var s, i := ctx.s, q.id % Client.SLOTS;
    ctx.ValidValue();
    ReplyRead(s, i, reply, room, died, AddrAnswer(st, ns));
    DoneAfterRead(s, i, st, ns, room, died, sock.sa.port);
    var used, r := ctx.Wait(Script(reply, room, died), false);
    ctx.SlotOf(q);
    HostDone(ctx, q, sock, luck);
  }

  // ----- service lookups

  /** A failed lookup leaves no server; where the error number is negative, which errno never is,
      the code would take it for a length. */
  function ParsedAnswer(st: Status, data: seq<Byte>): SrvParser.Outcome {
    if st.ret > 0 then SrvParser.Parse(data)
    else if st.ret < 0 && st.err < 0 then SrvParser.Unspecified
    else SrvParser.NotFound
  }

  /** asyncns_resolver_srv_done: collect the query and parse the answer, if there is one. */
  method SrvDone(ctx: Context, q: AsyncQuery) returns (r: SrvParser.Outcome)
    requires ctx.Valid() && q in ctx.live && q.kind == REQUEST_RES_QUERY
    modifies ctx, ctx.queries, ctx.live
    ensures ctx.Valid()
    ensures var i := old(q.id) % Client.SLOTS;
            && old(ctx.s).count > 0 && Client.Live(old(ctx.s), i)
            && match Client.Done(old(ctx.s), i).1
               case Result(a) =>
                 && a.ResAnswer?
                 && r == ParsedAnswer(a.status, a.data)
               case _ => r == SrvParser.NotFound
  {
    hide Context.Table, Lists, Client.Remove, SrvParser.Parse;
    ctx.SlotOf(q);
    var ret, answer, err, hErr := ctx.ResDone(q);
    if ret <= 0 {
      return SrvParser.NotFound;
    }
    if answer.None? {
      return SrvParser.Unspecified;
    }
    r := SrvParser.ParseSrvResponse(answer.value);
  }

  /** asyncns_resolver_io_cb when the reply to the service lookup has come: what the parser makes
      of the DNS message the worker was given, if it is no longer than the client can receive. */
  method SrvReply(ctx: Context, q: AsyncQuery, reply: seq<Byte>, died: bool, ghost st: Status, ghost data: seq<Byte>)
    returns (r: SrvParser.Outcome)
    requires ctx.Valid() && q in ctx.live && q.kind == REQUEST_RES_QUERY && !q.done && !ctx.dead
    requires |data| == (if st.ret < 0 then 0 else st.ret)
    requires |data| <= Framing.RECV_BUFFER - Framing.RES_REPLY
    requires Framing.EncodeReply(q.id, ResAnswer(st, data)) == Some(reply)
    modifies ctx, ctx.queries, ctx.live
    ensures ctx.Valid()
    ensures st.ret <= 0 && st.err >= 0 ==> r == SrvParser.NotFound
    ensures died ==> r == SrvParser.NotFound
    ensures st.ret > 0 && !died ==> r == SrvParser.Parse(data)
  {
    hide Context.Table, Lists, Client.Complete, Framing.EncodeReply, SrvParser.Parse;
    ctx.SlotOf(q);
    ghost var s, i := ctx.s, q.id % Client.SLOTS;
    ctx.ValidValue();
    ReplyRead(s, i, reply, 0, died, ResAnswer(st, data));
    Completed(s, i, ResAnswer(st, data), died);
    var used, w := ctx.Wait(Script(reply, 0, died), false);
    ctx.SlotOf(q);
    r := SrvDone(ctx, q);
  }

  lemma Completed(s: Client.State, i: nat, a: Answer, died: bool)
    requires Client.Live(s, i)
    ensures var c := Client.Complete(s, i, a).(dead := died);
            && c.table[i].Some? && c.table[i].value.answer == Some(a)
            && (c.count > 0 ==> Client.Done(c, i).1 == if died then Client.Refused else Client.Result(a))
  {
  }

  // ----- what the socket tries

  /** From then on, through every trace of callbacks, the addresses tried since the last reset
      are the worker's, in its order, each with the port set and nothing else changed; unless
      there is no list, and then the socket reports the failure and tries nothing. */
  lemma TriedAreTheWorkersAddresses(states: seq<Spec.State>, steps: seq<Spec.Step>, j: nat, k: nat, st: Status,
                                    ns: seq<AddrNode>, room: nat, port: nat)
    requires Spec.Trace(states, steps) && j < k < |states|
    requires ns != [] && forall i :: 0 <= i < |ns| ==> HasPort(ns[i])
    requires steps[j].DoResolved? && steps[j].found == Found(st, ns, room, port)
    ensures Found(st, ns, room, port).None? ==>
              states[j + 1] == states[j].(told := states[j].told + [Spec.DnsFailed])
    ensures Found(st, ns, room, port).Some? ==>
              && PortsSet(ns, states[k].results, port)
              && |states[k].tried| <= |ns|
              && forall i :: 0 <= i < |states[k].tried| ==> PortSet(ns[i], states[k].tried[i], port)
  {
    hide WithPorts, PortSet, AddrCodec.FirstMisfit, Spec.Next, Spec.Tells;
    var found := Found(st, ns, room, port);
    if found.Some? {
      PortsWritten(ns, port);
      ResultsKept(states, steps, j, k, found.value);
      Spec.TraceSound(states, steps, k);
    }
    ResolvedNow(states, steps, j);
  }

  lemma ResolvedNow(states: seq<Spec.State>, steps: seq<Spec.Step>, j: nat)
    requires Spec.Trace(states, steps) && j < |steps| && steps[j].DoResolved?
    ensures steps[j].found.None? ==> states[j + 1] == states[j].(told := states[j].told + [Spec.DnsFailed])
  {
    hide Spec.AttemptNext;
  }

  /** The results stay what the lookup found. */
  lemma {:induction false} ResultsKept(states: seq<Spec.State>, steps: seq<Spec.Step>, j: nat, k: nat,
                                       found: seq<AddrNode>)
    requires Spec.Trace(states, steps) && j < k < |states| && found != []
    requires steps[j].DoResolved? && steps[j].found == Some(found)
    ensures states[k].results == found
    decreases k
  {
    hide Spec.Tells;
    Spec.TraceSound(states, steps, k - 1);
    Spec.StepInOrder(states[k - 1], steps[k - 1]);
    if k - 1 > j {
      ResultsKept(states, steps, j, k - 1, found);
    } else {
      Spec.AttemptInOrder(states[j].(results := found), steps[j].luck);
    }
  }
}
