/** The output buffer of lm-old-socket.c as a value: what a partial write leaves over is kept
    and sent when the channel becomes writable. */
module OutputSpec {
  import opened Wrappers
  import opened Bytes

  /** The value-level socket. `delivered` and `accepted` are history: the bytes the channel has
      taken, and the bytes of all writes that were not refused by an error. `armed` says that
      the writable watch will still call back: returning FALSE from the callback ends it. */
  datatype State = State(buffer: Option<seq<Byte>>, watch: bool, armed: bool, delivered: seq<Byte>, accepted: seq<Byte>)

  const IDLE: State := State(None, false, false, [], [])

  /** How one write to the channel ends, after any number of EAGAINs: so many bytes taken, or
      an error (or end of file), which takes none. */
  datatype Io = Took(n: nat) | Failed

  function Taken(io: Io, len: nat): nat {
    if io.Failed? then 0 else if io.n <= len then io.n else len
  }

  /** old_socket_write. */
  function Write(s: State, data: seq<Byte>, io: Io): State {
    if s.buffer.Some? then s.(buffer := Some(s.buffer.value + data), accepted := s.accepted + data)
    else if io.Failed? then s
    else
      var n := Taken(io, |data|);
      var s' := s.(delivered := s.delivered + data[..n], accepted := s.accepted + data);
      if n < |data| then s'.(buffer := Some(data[n..]), watch := true, armed := true) else s'
  }

  /** socket_buffered_write_cb; the result says whether the watch stays. */
  function Callback(s: State, io: Io): (State, bool) {
    if s.buffer.None? then (s, false)
    else if io.Failed? then (s, false)
    else
      var b := s.buffer.value;
      var n := Taken(io, |b|);
      var s' := s.(delivered := s.delivered + b[..n]);
      if n == |b| then (s'.(buffer := None, watch := false), false)
      else (s'.(buffer := Some(b[n..])), true)
  }

  /** The main loop calls it, and keeps the watch iff it says so. */
  function Writable(s: State, io: Io): (State, bool) {
    var (s', keep) := Callback(s, io);
    (s'.(armed := keep), keep)
  }

  /** What is still to be sent. */
  function Pending(s: State): seq<Byte> {
    if s.buffer.Some? then s.buffer.value else []
  }

  /** The invariant of every run, errors included: nothing accepted is lost, duplicated or
      reordered; the buffer is non-empty whenever it exists; the watch exists iff it does. */
  ghost predicate Inv(s: State) {
    && s.accepted == s.delivered + Pending(s)
    && (s.buffer.Some? ==> s.buffer.value != [])
    && (s.watch <==> s.buffer.Some?)
    && (s.armed ==> s.watch)
  }

  lemma WriteInv(s: State, data: seq<Byte>, io: Io)
    requires Inv(s)
    ensures Inv(Write(s, data, io))
  {
    if s.buffer.Some? {
      assert s.delivered + s.buffer.value + data == s.delivered + (s.buffer.value + data);
    } else if io.Took? {
      var n := Taken(io, |data|);
      assert s.delivered + data == s.delivered + data[..n] + data[n..];
    }
  }

  lemma WritableInv(s: State, io: Io)
    requires Inv(s)
    ensures Inv(Writable(s, io).0) && Writable(s, io).0.accepted == s.accepted
  {
    if s.buffer.Some? && io.Took? {
      var b, n := s.buffer.value, Taken(io, |s.buffer.value|);
      assert s.delivered + b == s.delivered + b[..n] + b[n..];
    }
  }

  /** The watch stays iff the channel has not failed and has not taken all there was; the bytes
      taken are the front of the buffer, the rest stays in it. */
  lemma CallbackKeepsWatch(s: State, io: Io)
    requires Inv(s) && s.armed
    ensures var (s', keep) := Writable(s, io);
            && s'.armed == keep
            && (keep <==> io.Took? && io.n < |Pending(s)|)
            && (keep ==> s'.watch && Pending(s') != [])
            && s'.delivered == s.delivered + Pending(s)[..Taken(io, |Pending(s)|)]
            && Pending(s') == Pending(s)[Taken(io, |Pending(s)|)..]
  {
  }

  // ----- whole runs

  datatype Event = Wrote(data: seq<Byte>, io: Io) | Ready(io: Io)

  /** A callback happens only while the watch is there. */
  function Step(s: State, e: Event): State {
    match e
    case Wrote(data, io) => Write(s, data, io)
    case Ready(io) => if s.armed then Writable(s, io).0 else s
  }

  function Run(s: State, events: seq<Event>): State
    decreases |events|
  {
    if |events| == 0 then s else Run(Step(s, events[0]), events[1..])
  }

  /** All the bytes handed to old_socket_write. */
  function Written(events: seq<Event>): seq<Byte> {
    if |events| == 0 then []
    else (if events[0].Wrote? then events[0].data else []) + Written(events[1..])
  }

  /** A write of at least one byte that the channel refuses while nothing is buffered. */
  predicate Refused(s: State, e: Event) {
    e.Wrote? && e.io.Failed? && s.buffer.None? && e.data != []
  }

  /** A callback that meets an error. */
  predicate Broken(s: State, e: Event) {
    e.Ready? && e.io.Failed? && s.armed
  }

  predicate EverRefused(s: State, events: seq<Event>)
    decreases |events|
  {
    |events| > 0 && (Refused(s, events[0]) || EverRefused(Step(s, events[0]), events[1..]))
  }

  predicate EverBroken(s: State, events: seq<Event>)
    decreases |events|
  {
    |events| > 0 && (Broken(s, events[0]) || EverBroken(Step(s, events[0]), events[1..]))
  }

  lemma StepInv(s: State, e: Event)
    requires Inv(s)
    ensures Inv(Step(s, e))
    ensures var data := if e.Wrote? then e.data else [];
            if Refused(s, e) then Step(s, e).accepted == s.accepted && data != []
            else Step(s, e).accepted == s.accepted + data
  {
    match e {
      case Wrote(data, io) => WriteInv(s, data, io);
      case Ready(io) => WritableInv(s, io);
    }
  }

  lemma {:induction false} RunInv(s: State, events: seq<Event>)
    requires Inv(s)
    ensures Inv(Run(s, events))
    decreases |events|
  {
    hide Inv, Step;
    if |events| > 0 {
      StepInv(s, events[0]);
      RunInv(Step(s, events[0]), events[1..]);
    }
  }

  /** Every byte written is accepted, unless a write is refused, and then fewer are. */
  lemma {:induction false} AcceptedIff(s: State, events: seq<Event>)
    requires Inv(s)
    ensures var all := s.accepted + Written(events);
            if EverRefused(s, events) then |Run(s, events).accepted| < |all| else Run(s, events).accepted == all
    decreases |events|
  {
    hide Inv, Step;
    if |events| > 0 {
      var e, rest := events[0], events[1..];
      StepInv(s, e);
      AcceptedIff(Step(s, e), rest);
      var first := if e.Wrote? then e.data else [];
      assert s.accepted + first + Written(rest) == s.accepted + (first + Written(rest));
    }
  }

  /** Exactly when nothing is lost. Over every run from the start, whatever the partial writes:
      what the channel has taken followed by what is buffered is everything written, in order,
      iff no non-empty write was refused while nothing was buffered. */
  lemma NothingLost(events: seq<Event>)
    ensures var s := Run(IDLE, events);
            s.delivered + Pending(s) == Written(events) <==> !EverRefused(IDLE, events)
  {
    RunInv(IDLE, events);
    AcceptedIff(IDLE, events);
    assert [] + Written(events) == Written(events);
  }

  /** Exactly when the socket gets stuck: the watch the object believes in still calls back iff
      no callback has met an error. */
  lemma {:induction false} StuckIff(s: State, events: seq<Event>)
    requires Inv(s) && s.armed == s.watch
    ensures var s' := Run(s, events); s'.armed == s'.watch <==> !EverBroken(s, events)
    ensures EverBroken(s, events) ==> Run(s, events).buffer.Some?
    decreases |events|
  {
    hide Inv;
    if |events| > 0 {
      var e, s1 := events[0], Step(s, events[0]);
      StepInv(s, e);
      WatchedBuffer(s);
      WatchedBuffer(s1);
      if Broken(s, e) {
        ErrorIsFinal(s1, events[1..]);
        RunInv(s1, events[1..]);
        WatchedBuffer(Run(s1, events[1..]));
      } else {
        StuckIff(s1, events[1..]);
      }
    }
  }

  lemma WatchedBuffer(s: State)
    requires Inv(s)
    ensures s.watch <==> s.buffer.Some?
  {
  }

  lemma StuckFromStart(events: seq<Event>)
    ensures var s := Run(IDLE, events); s.armed == s.watch <==> !EverBroken(IDLE, events)
  {
    StuckIff(IDLE, events);
  }

  /** While it is not stuck, as many callbacks as there are bytes buffered, each of which gets
      rid of at least one, deliver them all. */
  lemma {:induction false} CallbacksDrain(s: State, events: seq<Event>)
    requires Inv(s) && s.armed == s.watch && |events| >= |Pending(s)|
    requires forall k :: 0 <= k < |events| ==> events[k].Ready? && events[k].io.Took? && events[k].io.n > 0
    ensures var s' := Run(s, events); s'.buffer.None? && s'.delivered == s.delivered + Pending(s)
    decreases |events|
  {
    if |events| > 0 {
      var e, s1 := events[0], Step(s, events[0]);
      StepInv(s, e);
      assert forall k :: 0 <= k < |events| - 1 ==> events[1..][k] == events[k + 1];
      CallbacksDrain(s1, events[1..]);
      var n := Taken(e.io, |Pending(s)|);
      assert s.delivered + Pending(s)[..n] + Pending(s)[n..] == s.delivered + Pending(s);
    }
  }

  /** What being stuck means: nothing is ever delivered again, and later writes pile up. */
  lemma {:induction false} ErrorIsFinal(s: State, events: seq<Event>)
    requires s.buffer.Some? && !s.armed
    ensures var s' := Run(s, events);
            && s'.buffer.Some? && !s'.armed && s'.delivered == s.delivered
            && s'.buffer.value == s.buffer.value + Written(events)
    decreases |events|
  {
    if |events| > 0 {
      ErrorIsFinal(Step(s, events[0]), events[1..]);
      if events[0].Wrote? {
        assert s.buffer.value + events[0].data + Written(events[1..])
            == s.buffer.value + (events[0].data + Written(events[1..]));
      } else {
        assert [] + Written(events[1..]) == Written(events[1..]);
      }
    } else {
      assert s.buffer.value + [] == s.buffer.value;
    }
  }

  /** So in every run in which a callback meets an error, everything ever delivered was delivered
      before the first such callback. */
  lemma {:induction false} NothingAfterError(s: State, events: seq<Event>) returns (k: nat)
    requires Inv(s) && EverBroken(s, events)
    ensures k < |events| && Broken(Run(s, events[..k]), events[k]) && !EverBroken(s, events[..k])
    ensures Run(s, events).delivered == Run(s, events[..k]).delivered
    decreases |events|
  {
    hide Inv;
    var s1 := Step(s, events[0]);
    StepInv(s, events[0]);
    if Broken(s, events[0]) {
      k := 0;
      ArmedBuffer(s);
      ErrorIsFinal(s1, events[1..]);
    } else {
      k := NothingAfterError(s1, events[1..]);
      k := k + 1;
      assert events[..k][1..] == events[1..][..k - 1];
    }
  }

  lemma ArmedBuffer(s: State)
    requires Inv(s) && s.armed
    ensures s.buffer.Some?
  {
  }
}

/** The socket object, its channel, and the write loop. */
module OutputBuffer {
  import opened Wrappers
  import opened Bytes
  import opened OutputSpec

  datatype Status = Normal(n: nat) | Eagain | Error

  /** The channel: the script of what each write call on it will do, and what it has taken. */
  class Channel {
    var script: seq<Status>
    ghost var taken: seq<Byte>

    constructor (script: seq<Status>)
      ensures this.script == script && taken == []
    {
      this.script, taken := script, [];
    }

    /** g_io_channel_write_chars on an unbuffered, unencoded channel. */
    method WriteChars(data: seq<Byte>) returns (st: Status)
      requires script != []
      modifies this
      ensures script == old(script)[1..]
      ensures var first := old(script)[0];
              if first.Normal?
              then st == Normal(if first.n <= |data| then first.n else |data|) && taken == old(taken) + data[..st.n]
              else st == first && taken == old(taken)
    {
      st := script[0];
      script := script[1..];
      if st.Normal? {
        st := Normal(if st.n <= |data| then st.n else |data|);
        taken := taken + data[..st.n];
      }
    }
  }

  /** The first call that is not an EAGAIN decides. */
  ghost predicate Decided(script: seq<Status>) {
    exists k :: 0 <= k < |script| && script[k] != Eagain
  }

  /** The first answer that is not EAGAIN counts. */
  lemma {:induction false} ResultDecides(script: seq<Status>) returns (k: nat)
    requires Decided(script)
    ensures k < |script| && script[k] != Eagain && forall j :: 0 <= j < k ==> script[j] == Eagain
    ensures Result(script) == if script[k] == Error then Failed else Took(script[k].n)
  {
    k := 0;
    if script[0] == Eagain {
      var m :| 0 <= m < |script| && script[m] != Eagain;
      assert script[1..][m - 1] == script[m];
      k := ResultDecides(script[1..]);
      k := k + 1;
    }
  }

  function Result(script: seq<Status>): Io {
    if |script| == 0 then Failed
    else match script[0]
         case Eagain => Result(script[1..])
         case Error => Failed
         case Normal(n) => Took(n)
  }

  class OldSocket {
    var outBuf: Option<seq<Byte>>
    var watchOut: bool
    const channel: Channel
    ghost var s: State

    ghost predicate Valid()
      reads this, channel
    {
      && s.buffer == outBuf && s.watch == watchOut && s.delivered == channel.taken && Inv(s)
    }

    constructor (channel: Channel)
      requires channel.taken == []
      ensures Valid() && s == IDLE && this.channel == channel
    {
      outBuf, watchOut, this.channel, s := None, false, channel, IDLE;
    }

    /** old_socket_do_write: retries while the channel says EAGAIN. `spinning`: it is still at it
        when the script ends. */
    method DoWrite(data: seq<Byte>) returns (r: int, spinning: bool)
      modifies channel
      ensures spinning <==> !Decided(old(channel.script))
      ensures spinning ==> channel.script == [] && channel.taken == old(channel.taken)
      ensures !spinning ==>
              var io := Result(old(channel.script));
              if io.Failed? then r == -1 && channel.taken == old(channel.taken)
              else r == Taken(io, |data|) && channel.taken == old(channel.taken) + data[..r]
    {
      var status := Eagain;
      while status == Eagain
        invariant status == Eagain ==>
          && Decided(channel.script) == Decided(old(channel.script))
          && Result(channel.script) == Result(old(channel.script)) && channel.taken == old(channel.taken)
        invariant status != Eagain ==> Decided(old(channel.script))
        invariant status == Error ==> Result(old(channel.script)) == Failed && channel.taken == old(channel.taken)
        invariant status.Normal? ==>
          var io := Result(old(channel.script));
          io.Took? && status.n == Taken(io, |data|) && channel.taken == old(channel.taken) + data[..status.n]
        decreases if status == Eagain then |channel.script| + 1 else 0
      {
        if channel.script == [] {
          return -1, true;
        }
        DecidedLater(channel.script);
        status := channel.WriteChars(data);
      }
      return if status.Normal? then status.n else -1, false;
    }

    lemma DecidedLater(script: seq<Status>)
      requires script != []
      ensures Decided(script) <==> script[0] != Eagain || Decided(script[1..])
    {
      if k :| 0 <= k < |script| && script[k] != Eagain {
        assert k > 0 ==> script[1..][k - 1] == script[k];
      }
      if k :| 0 <= k < |script| - 1 && script[1..][k] != Eagain {
        assert script[k + 1] != Eagain;
      }
    }

    /** old_socket_write. */
    method Write(data: seq<Byte>) returns (spinning: bool)
      requires Valid()
      modifies this, channel
      ensures Valid() && (spinning <==> old(outBuf).None? && !Decided(old(channel.script)))
      ensures s == if spinning then old(s) else OutputSpec.Write(old(s), data, Result(old(channel.script)))
    {
      ghost var io := Result(channel.script);
      WriteInv(s, data, io);
      if outBuf.Some? {
        outBuf := Some(outBuf.value + data);
        s := OutputSpec.Write(s, data, io);
        return false;
      }
      var written;
      written, spinning := DoWrite(data);
      if spinning {
        return;
      }
      if written != -1 && written < |data| {
        outBuf := Some(data[written..]);
        watchOut := true;
      }
      s := OutputSpec.Write(s, data, io);
    }

    /** socket_buffered_write_cb; false ends the watch. */
    method BufferedWriteCb() returns (keep: bool, spinning: bool)
      requires Valid()
      modifies this, channel
      ensures Valid() && (spinning <==> old(outBuf).Some? && !Decided(old(channel.script)))
      ensures if spinning then s == old(s) else (s, keep) == Writable(old(s), Result(old(channel.script)))
    {
      ghost var io := Result(channel.script);
      WritableInv(s, io);
      if outBuf.None? {
        s := Writable(s, io).0;
        return false, false;
      }
      var buffer := outBuf.value;
      var written;
      written, spinning := DoWrite(buffer);
      if spinning {
        return true, true;
      }
      if written < 0 {
        s := Writable(s, io).0;
        return false, false;
      }
      outBuf := Some(buffer[written..]);
      if |buffer| == written {
        watchOut := false;
        outBuf := None;
        s := Writable(s, io).0;
        return false, false;
      }
      s := Writable(s, io).0;
      return true, false;
    }
  }
}
