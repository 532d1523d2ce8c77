/** asyncns_wait: how the client reads the response socket. */
module ReceiveLoop {
  import opened Wrappers
  import opened Bytes
  import opened Client
  import opened Framing

  /** What one recv on the response socket gives: a datagram, with memory for `room` address
      nodes while it is handled, nothing yet (`ready` says whether a select then reports
      more), or an error other than EAGAIN. */
  datatype Recv = Datagram(bytes: seq<Byte>, room: nat) | Nothing(ready: bool) | Failure

  datatype WaitResult = Handled | NoWorker | RecvFailed | SelectFailed | AssertFired(fault: Fault) | StillWaiting

  /** What a script of recv results leads to, and how much of it is used. A script that ends
      stands for a socket that stays empty. */
  function Wait(s: State, script: seq<Recv>, block: bool, handled: bool): (State, nat, WaitResult)
    requires Valid(s)
    decreases |script|
  {
    hide Valid;
    if s.dead then (s, 0, NoWorker)
    else if |script| == 0 then (s, 0, if block && !handled then StillWaiting else Handled)
    else
      match script[0]
      case Failure => (s, 1, RecvFailed)
      case Nothing(ready) =>
        if !block || handled then (s, 1, Handled)
        else if !ready then (s, 1, SelectFailed)
        else var (s', n, r) := Wait(s, script[1..], block, handled); (s', n + 1, r)
      case Datagram(bytes, room) =>
        TableSize(s);
        var h := HandleDatagram(s, Received(bytes), room);
        if h.Fires? then (s, 1, AssertFired(h.fault))
        else
          HandleDatagramValid(s, Received(bytes), room);
          var (s', n, r) := Wait(h.value, script[1..], block, true);
          (s', n + 1, r)
  }

  predicate IsDeath(r: Recv) {
    r.Datagram? && ParseReply(Received(r.bytes), r.room) == Message(Died)
  }

  /** The pending datagrams a non-blocking wait reads: up to and including the first death notice. */
  function Pending(rs: seq<Recv>): (n: nat)
    ensures n <= |rs|
    ensures forall k :: 0 <= k < n - 1 ==> !IsDeath(rs[k])
    ensures n < |rs| ==> n > 0 && IsDeath(rs[n - 1])
  {
    if |rs| == 0 then 0 else if IsDeath(rs[0]) then 1 else 1 + Pending(rs[1..])
  }

  /** Handling datagrams one after the other; the first assert that fires ends it. */
  ghost function HandleAll(s: State, rs: seq<Recv>): (r: Effect)
    requires Valid(s) && forall k :: 0 <= k < |rs| ==> rs[k].Datagram?
    ensures r.After? ==> Valid(r.value)
    decreases |rs|
  {
    hide Valid;
    if |rs| == 0 then After(s)
    else
      TableSize(s);
      var h := HandleDatagram(s, Received(rs[0].bytes), rs[0].room);
      if h.Fires? then h
      else
        HandleDatagramValid(s, Received(rs[0].bytes), rs[0].room);
        HandleAll(h.value, rs[1..])
  }

  /** A non-blocking wait on a live context handles the pending datagrams in order up to the
      first death notice, and reports that one; it fails only where handling one of them does. */
  lemma {:induction false} WaitHandlesInOrder(s: State, rs: seq<Recv>, handled: bool)
    requires Valid(s) && !s.dead && forall k :: 0 <= k < |rs| ==> rs[k].Datagram?
    ensures var (s', n, r) := Wait(s, rs, false, handled);
            match HandleAll(s, rs[..Pending(rs)])
            case Fires(f) => r == AssertFired(f)
            case After(all) =>
              && s' == all && n == Pending(rs) && r == (if s'.dead then NoWorker else Handled)
              && (s'.dead <==> exists k :: 0 <= k < |rs| && IsDeath(rs[k]))
    decreases |rs|
  {
    hide Valid, HandleDatagram, ParseReply;
    if |rs| > 0 {
      TableSize(s);
      var b, room := Received(rs[0].bytes), rs[0].room;
      var h := HandleDatagram(s, b, room);
      var front := rs[..Pending(rs)];
      assert front[0] == rs[0];
      HandlingKills(s, b, room);
      if h.After? {
        HandleDatagramValid(s, b, room);
        if IsDeath(rs[0]) {
          assert front[1..] == [];
        } else {
          assert front[1..] == rs[1..][..Pending(rs[1..])];
          WaitHandlesInOrder(h.value, rs[1..], true);
          assert forall k :: 0 <= k < |rs| - 1 ==> rs[1..][k] == rs[k + 1];
          assert (exists k :: 0 <= k < |rs| && IsDeath(rs[k]))
              ==> exists k :: 0 <= k < |rs[1..]| && IsDeath(rs[1..][k]) by {
            if k :| 0 <= k < |rs| && IsDeath(rs[k]) {
              assert rs[1..][k - 1] == rs[k];
            }
          }
        }
      }
    }
  }

  /** Only a death notice kills the context, and it always does. */
  lemma HandlingKills(s: State, b: seq<Byte>, room: nat)
    requires |s.table| == SLOTS
    ensures var h, death := HandleDatagram(s, b, room), ParseReply(b, room) == Message(Died);
            && (h.After? ==> h.value.dead == (s.dead || death))
            && (death ==> h.After?)
  {
    hide ParseReply;
  }

  /** The datagrams among what recv gave. */
  function Datagrams(script: seq<Recv>): (rs: seq<Recv>)
    ensures forall k :: 0 <= k < |rs| ==> rs[k].Datagram?
    ensures rs == [] <==> forall k :: 0 <= k < |script| ==> !script[k].Datagram?
  {
    if |script| == 0 then [] else (if script[0].Datagram? then [script[0]] else []) + Datagrams(script[1..])
  }

  /** What the loop goes on after: a datagram, or, as long as it may block and has handled nothing,
      an empty socket on which select reports more. */
  predicate GoesOn(script: seq<Recv>, k: nat, block: bool, handled: bool)
    requires k < |script|
  {
    || script[k].Datagram?
    || (script[k] == Nothing(true) && block && !handled && forall j :: 0 <= j < k ==> !script[j].Datagram?)
  }

  /** One turn of the loop. */
  lemma WaitTurn(s: State, script: seq<Recv>, block: bool, handled: bool)
    requires Valid(s) && !s.dead && |script| > 0 && |s.table| == SLOTS
    ensures var w := Wait(s, script, block, handled);
            match script[0]
            case Failure => w == (s, 1, RecvFailed)
            case Nothing(ready) =>
              if !block || handled then w == (s, 1, Handled)
              else if !ready then w == (s, 1, SelectFailed)
              else var rest := Wait(s, script[1..], block, handled); w == (rest.0, rest.1 + 1, rest.2)
            case Datagram(bytes, room) =>
              (match HandleDatagram(s, Received(bytes), room)
               case Fires(f) => w == (s, 1, AssertFired(f))
               case After(s1) =>
                 Valid(s1) && var rest := Wait(s1, script[1..], block, true); w == (rest.0, rest.1 + 1, rest.2))
  {
    hide Valid, HandleDatagram, Received;
    if script[0].Datagram? && HandleDatagram(s, Received(script[0].bytes), script[0].room).After? {
      HandleDatagramValid(s, Received(script[0].bytes), script[0].room);
    }
  }

  lemma Front(script: seq<Recv>, n: nat)
    requires 0 < n <= |script|
    ensures script[..n] == [script[0]] + script[1..][..n - 1]
    ensures Datagrams(script[..n]) ==
            (if script[0].Datagram? then [script[0]] else []) + Datagrams(script[1..][..n - 1])
  {
    assert script[..n][1..] == script[1..][..n - 1];
  }

  /** It handles the datagrams among what it reads, in order, and fails where handling them does. */
  lemma {:induction false} WaitHandlesAll(s: State, script: seq<Recv>, block: bool, handled: bool)
    requires Valid(s)
    ensures var (s', n, r) := Wait(s, script, block, handled);
            && n <= |script|
            && match HandleAll(s, Datagrams(script[..n]))
               case After(all) => s' == all && !r.AssertFired?
               case Fires(f) => r == AssertFired(f)
    decreases |script|
  {
    hide Valid, HandleDatagram, Received, Wait;
    if s.dead || |script| == 0 {
      WaitAtOnce(s, script, block, handled);
    } else {
      TableSize(s);
      WaitTurn(s, script, block, handled);
      var n := Wait(s, script, block, handled).1;
      if script[0].Datagram? {
        var h := HandleDatagram(s, Received(script[0].bytes), script[0].room);
        if h.After? {
          WaitHandlesAll(h.value, script[1..], block, true);
          Front(script, n);
          var rest := Datagrams(script[1..][..n - 1]);
          assert ([script[0]] + rest)[1..] == rest;
        } else {
          Front(script, 1);
          assert script[1..][..0] == [] && [script[0]] + [] == [script[0]];
          FirstFails(s, script[0]);
        }
      } else {
        if script[0] == Nothing(true) && block && !handled {
          WaitHandlesAll(s, script[1..], block, handled);
        }
        Front(script, n);
        assert [] + Datagrams(script[1..][..n - 1]) == Datagrams(script[1..][..n - 1]);
      }
    }
  }

  lemma FirstFails(s: State, d: Recv)
    requires Valid(s) && |s.table| == SLOTS && d.Datagram? && HandleDatagram(s, Received(d.bytes), d.room).Fires?
    ensures HandleAll(s, [d]) == HandleDatagram(s, Received(d.bytes), d.room)
  {
    hide Valid, HandleDatagram, Received;
  }

  lemma WaitAtOnce(s: State, script: seq<Recv>, block: bool, handled: bool)
    requires Valid(s) && (s.dead || |script| == 0)
    ensures Wait(s, script, block, handled) ==
            (s, 0, if s.dead then NoWorker else if block && !handled then StillWaiting else Handled)
  {
    hide Valid;
  }

  /** It goes on up to the result it stops at. */
  lemma {:induction false} WaitGoesOn(s: State, script: seq<Recv>, block: bool, handled: bool)
    requires Valid(s)
    ensures var n := Wait(s, script, block, handled).1;
            && n <= |script|
            && forall k :: 0 <= k < n - 1 ==> GoesOn(script, k, block, handled) && !IsDeath(script[k])
    decreases |script|
  {
    hide Valid, HandleDatagram, Wait, ParseReply;
    if s.dead || |script| == 0 {
      WaitAtOnce(s, script, block, handled);
    } else {
      TableSize(s);
      WaitTurn(s, script, block, handled);
      var n := Wait(s, script, block, handled).1;
      var tail := script[1..];
      var s1, busy := s, handled;
      if script[0].Datagram? {
        var h := HandleDatagram(s, Received(script[0].bytes), script[0].room);
        HandlingKills(s, Received(script[0].bytes), script[0].room);
        s1, busy := if h.After? then h.value else s, true;
      }
      if n > 1 {
        WaitGoesOn(s1, tail, block, busy);
        WaitDead(s1, tail, block, busy);
        forall k | 0 <= k < n - 1
          ensures GoesOn(script, k, block, handled) && !IsDeath(script[k])
        {
          if k > 0 {
            assert script[k] == tail[k - 1] && GoesOn(tail, k - 1, block, busy) && !IsDeath(tail[k - 1]);
            assert forall j :: 0 < j < k ==> script[j] == tail[j - 1];
          }
        }
      }
    }
  }

  lemma WaitDead(s: State, script: seq<Recv>, block: bool, handled: bool)
    requires Valid(s)
    ensures s.dead ==> Wait(s, script, block, handled).1 == 0
  {
    hide Valid;
  }

  /** The reason for a result: the last thing read, or the end of what there was to read. */
  predicate Stopped(wasDead: bool, s': State, got: seq<Recv>, all: bool, r: WaitResult, block: bool, handled: bool) {
    var last := if got == [] then None else Some(got[|got| - 1]);
    var busy := handled || exists k :: 0 <= k < |got| && got[k].Datagram?;
    match r
    case NoWorker => s'.dead && if wasDead then got == [] else last.Some? && IsDeath(last.value)
    case AssertFired(_) => !wasDead && last.Some? && last.value.Datagram?
    case RecvFailed => !s'.dead && last == Some(Failure)
    case SelectFailed => !s'.dead && last == Some(Nothing(false)) && block && !busy
    case Handled =>
      && !s'.dead && (!block || busy)
      && if last.Some? && last.value.Nothing? then true else all && (last.Some? ==> last.value.Datagram?)
    case StillWaiting => !s'.dead && all && block && !busy && (last.None? || last.value == Nothing(true))
  }

  lemma {:induction false} WaitStops(s: State, script: seq<Recv>, block: bool, handled: bool)
    requires Valid(s)
    ensures var (s', n, r) := Wait(s, script, block, handled);
            n <= |script| && Stopped(s.dead, s', script[..n], n == |script|, r, block, handled)
    decreases |script|
  {
    hide Valid, HandleDatagram, Wait, ParseReply;
    if s.dead || |script| == 0 {
      WaitAtOnce(s, script, block, handled);
    } else {
      TableSize(s);
      WaitTurn(s, script, block, handled);
      var (s', n, r) := Wait(s, script, block, handled);
      var tail := script[1..];
      var s1, busy, more := s, handled, false;
      match script[0] {
        case Datagram(bytes, room) =>
          var h := HandleDatagram(s, Received(bytes), room);
          HandlingKills(s, Received(bytes), room);
          if h.After? {
            s1, busy, more := h.value, true, true;
          }
        case Nothing(ready) =>
          more := block && !handled && ready;
        case Failure =>
      }
      if more {
        WaitStops(s1, tail, block, busy);
        WaitDead(s1, tail, block, busy);
        StoppedLater(s.dead, s1.dead, s', script, n, r, block, handled, busy);
      }
    }
  }

  lemma StoppedLater(wasDead: bool, isDead: bool, s': State, script: seq<Recv>, n: nat, r: WaitResult, block: bool,
                     handled: bool, busy: bool)
    requires 0 < n <= |script| && Stopped(isDead, s', script[1..][..n - 1], n == |script|, r, block, busy)
    requires !wasDead && (script[0].Datagram? || script[0] == Nothing(true)) && busy == (handled || script[0].Datagram?)
    requires isDead <==> IsDeath(script[0])
    requires n == 1 && !isDead ==> n == |script|
    requires n > 1 ==> !isDead
    requires script[0] == Nothing(true) ==> block && !handled
    ensures Stopped(wasDead, s', script[..n], n == |script|, r, block, handled)
  {
    hide IsDeath;
    var got, tail := script[..n], script[1..][..n - 1];
    assert got == [script[0]] + tail;
    assert forall k :: 0 < k < n ==> got[k] == tail[k - 1];
    assert (exists k :: 0 <= k < |tail| && tail[k].Datagram?) ==> exists k :: 0 < k < |got| && got[k].Datagram? by {
      if k :| 0 <= k < |tail| && tail[k].Datagram? {
        assert got[k + 1].Datagram?;
      }
    }
  }
}
