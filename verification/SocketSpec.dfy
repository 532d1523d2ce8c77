/** The connecting socket of lm-socket.c as a value: which addresses it tries, and what it
    tells its listeners. */
module SocketSpec {
  import opened Wrappers
  import opened AddrInfos

  /** Why a channel says it is closed. */
  datatype Reason = Requested | IoError | HungUp

  datatype Event = ConnectOk | Opened | TriedAll | DnsFailed | Closed(reason: Reason) | Writeable

  /** `iter` is the iterator's place in the results; `tried` lists the addresses passed to
      socket_attempt_connect since the last reset, and `told` the signals emitted, in order. */
  datatype State = State(results: seq<AddrNode>, iter: Option<nat>, connected: bool, tried: seq<AddrNode>,
                         told: seq<Event>)

  const FRESH: State := State([], None, false, [], [])

  /** How a connection attempt begins: the n-th attempt of this call either gets going or fails
      at once. */
  type Luck = nat -> bool

  /** The loop of socket_attempt_connect_next from place k on, after n attempts. */
  function TryFrom(s: State, k: nat, luck: Luck, n: nat): State
    requires k <= |s.results|
    decreases |s.results| - k
  {
    if k == |s.results| then s.(iter := Some(k), told := s.told + [TriedAll])
    else
      var s' := s.(iter := Some(k + 1), tried := s.tried + [s.results[k]]);
      if luck(n) then s' else TryFrom(s', k + 1, luck, n + 1)
  }

  function Place(s: State): nat {
    if s.iter.Some? then s.iter.value else 0
  }

  /** socket_attempt_connect_next. */
  function AttemptNext(s: State, luck: Luck): State
    requires Place(s) <= |s.results|
  {
    TryFrom(s, Place(s), luck, 0)
  }

  /** socket_reset, as far as these fields go. */
  function Reset(s: State): State {
    s.(connected := false, iter := None, tried := [])
  }

  /** socket_emit_disconnected_and_cleanup. */
  function Disconnect(s: State, reason: Reason): State {
    Reset(s.(told := s.told + [Closed(reason)]))
  }

  /** socket_out_cb. */
  function Out(s: State): State {
    if s.connected then s.(told := s.told + [Writeable])
    else s.(connected := true, told := s.told + [ConnectOk, Opened])
  }

  /** socket_err_cb; `pending` is a blocking error, which is none. */
  function Err(s: State, pending: bool, luck: Luck): State
    requires Place(s) <= |s.results|
  {
    if s.connected then Disconnect(s, IoError) else if pending then s else AttemptNext(s, luck)
  }

  /** lm_socket_connect: without results only a lookup is started. */
  function Connect(s: State, luck: Luck): State
    requires Place(s) <= |s.results|
  {
    if s.results == [] then s else AttemptNext(s, luck)
  }

  /** The lookup's outcome: no list, or the list it found. */
  function Resolved(s: State, found: Option<seq<AddrNode>>, luck: Luck): State
    requires Place(s) == 0
  {
    match found
    case None => s.(told := s.told + [DnsFailed])
    case Some(ns) => AttemptNext(s.(results := ns), luck)
  }

  // ----- addresses are tried in order, each once

  ghost predicate InOrder(s: State) {
    Place(s) <= |s.results| && s.tried == s.results[..Place(s)]
  }

  /** One search: it goes on from where the last one stopped, keeps trying in order, stops at the
      first attempt that gets going, and says "tried all" exactly when there is none left. */
  lemma {:induction false} TryFromInOrder(s: State, k: nat, luck: Luck, n: nat)
    requires k <= |s.results| && s.tried == s.results[..k]
    ensures var s' := TryFrom(s, k, luck, n);
            && InOrder(s') && s'.iter.Some? && s'.results == s.results && s'.connected == s.connected
            && k <= |s'.tried|
            && Search(s.told, s'.told, |s.results| - |s'.tried|, |s'.tried| - k, luck, n)
    decreases |s.results| - k
  {
    if k < |s.results| {
      assert s.results[..k + 1] == s.results[..k] + [s.results[k]];
      if !luck(n) {
        TryFromInOrder(s.(iter := Some(k + 1), tried := s.tried + [s.results[k]]), k + 1, luck, n + 1);
      }
    }
  }

  /** `count` attempts were made from the n-th on, with `left` addresses untried: either the last
      of them got going and nothing was said, or all failed, none is left, and that was said. */
  ghost predicate Search(told: seq<Event>, told': seq<Event>, left: int, count: int, luck: Luck, n: nat) {
    if told' == told then count > 0 && luck(n + count - 1) && forall i: nat :: n <= i < n + count - 1 ==> !luck(i)
    else told' == told + [TriedAll] && left == 0 && forall i: nat :: n <= i < n + count ==> !luck(i)
  }

  datatype Step =
    | DoConnect(luck: Luck)
    | DoResolved(found: Option<seq<AddrNode>>, luck: Luck)
    | DoOut
    | DoErr(pending: bool, luck: Luck)
    | DoHup
    | DoClose

  /** Any callback may come at any time; a lookup's result only while there are no results. */
  ghost predicate Enabled(s: State, st: Step) {
    && Place(s) <= |s.results|
    && (st.DoResolved? ==> s.results == [] && s.iter.None?)
  }

  ghost function Next(s: State, st: Step): State
    requires Enabled(s, st)
  {
    match st
    case DoConnect(luck) => Connect(s, luck)
    case DoResolved(found, luck) => Resolved(s, found, luck)
    case DoOut => Out(s)
    case DoErr(pending, luck) => Err(s, pending, luck)
    case DoHup => Disconnect(s, HungUp)
    case DoClose => Disconnect(s, Requested)
  }

  ghost predicate Trace(states: seq<State>, steps: seq<Step>) {
    && |states| == |steps| + 1 && states[0] == FRESH
    && forall k :: 0 <= k < |steps| ==> Enabled(states[k], steps[k]) && states[k + 1] == Next(states[k], steps[k])
  }

  lemma AttemptInOrder(s: State, luck: Luck)
    requires InOrder(s)
    ensures var s' := AttemptNext(s, luck);
            && InOrder(s') && s'.results == s.results && s'.connected == s.connected
            && |s.tried| <= |s'.tried| && s'.tried[..|s.tried|] == s.tried
            && Search(s.told, s'.told, |s.results| - |s'.tried|, |s'.tried| - |s.tried|, luck, 0)
  {
    TryFromInOrder(s, Place(s), luck, 0);
  }

  /** Every step keeps the addresses tried since the last reset a prefix of the results, in
      order and without repeats; "tried all" is said only when that prefix is the whole list. */
  lemma StepInOrder(s: State, st: Step)
    requires InOrder(s) && Enabled(s, st)
    ensures var s' := Next(s, st);
            && InOrder(s')
            && (s'.told == s.told + [TriedAll] ==> s'.tried == s'.results)
            && (st.DoResolved? || s'.results == s.results)
            && ((forall r :: s'.told != s.told + [Closed(r)]) ==>
                  |s.tried| <= |s'.tried| && s'.tried[..|s.tried|] == s.tried)
  {
    assert forall e :: (s.told + [e])[|s.told|] == e;
    match st {
      case DoConnect(luck) => AttemptInOrder(s, luck);
      case DoResolved(found, luck) =>
        if found.Some? {
          AttemptInOrder(s.(results := found.value), luck);
        }
      case DoErr(_, luck) => AttemptInOrder(s, luck);
      case DoOut =>
      case DoHup =>
      case DoClose =>
    }
  }

  // ----- what each callback does

  /** From s on, addresses are tried in list order: none before the last one got going, and
      either that one did, or none was left and that is said. */
  ghost predicate Searched(s: State, s': State, luck: Luck) {
    var from, to := |s.tried|, |s'.tried|;
    && from <= to <= |s.results| && s'.tried == s.results[..to] && s'.iter == Some(to)
    && s'.results == s.results && s'.connected == s.connected
    && (forall i: nat :: i + 1 < to - from ==> !luck(i))
    && ((s'.told == s.told && from < to && luck(to - from - 1)) ||
        (s'.told == s.told + [TriedAll] && to == |s.results| && (from < to ==> !luck(to - from - 1))))
  }

  lemma AttemptSearches(s: State, luck: Luck)
    requires InOrder(s)
    ensures Searched(s, AttemptNext(s, luck), luck)
  {
    hide TryFrom;
    AttemptInOrder(s, luck);
    var s' := AttemptNext(s, luck);
    assert s'.told == s.told ==> s.told + [TriedAll] != s.told;
    TryFromIter(s, Place(s), luck, 0);
  }

  lemma {:induction false} TryFromIter(s: State, k: nat, luck: Luck, n: nat)
    requires k <= |s.results|
    ensures TryFrom(s, k, luck, n).iter.Some?
    decreases |s.results| - k
  {
    if k < |s.results| && !luck(n) {
      TryFromIter(s.(iter := Some(k + 1), tried := s.tried + [s.results[k]]), k + 1, luck, n + 1);
    }
  }

  /** After "closed" the socket starts over: nothing tried, nothing connected, the results kept. */
  ghost predicate StartsOver(s: State, s': State, reason: Reason) {
    && s'.told == s.told + [Closed(reason)]
    && s'.tried == [] && s'.iter == None && !s'.connected && s'.results == s.results
  }

  /** What every callback does to every field. */
  lemma StepDoes(s: State, st: Step)
    requires InOrder(s) && Enabled(s, st)
    ensures var s' := Next(s, st);
            match st
            case DoErr(pending, luck) =>
              if s.connected then StartsOver(s, s', IoError)
              else if pending then s' == s
              else Searched(s, s', luck)
            case DoHup => StartsOver(s, s', HungUp)
            case DoClose => StartsOver(s, s', Requested)
            case DoOut =>
              && s'.told == s.told + (if s.connected then [Writeable] else [ConnectOk, Opened]) && s'.connected
              && s'.results == s.results && s'.iter == s.iter && s'.tried == s.tried
            case DoConnect(luck) => if s.results == [] then s' == s else Searched(s, s', luck)
            case DoResolved(None, _) =>
              && s'.told == s.told + [DnsFailed] && s'.results == [] && s'.tried == s.tried && s'.iter == None
              && s'.connected == s.connected
            case DoResolved(Some(ns), luck) => Searched(s.(results := ns), s', luck)
  {
    hide TryFrom, Searched;
    match st {
      case DoErr(_, luck) => AttemptSearches(s, luck);
      case DoConnect(luck) => AttemptSearches(s, luck);
      case DoResolved(Some(ns), luck) => AttemptSearches(s.(results := ns), luck);
      case _ =>
    }
  }

  /** A connection that fails while it is being made is never the end of it, unless that is said:
      the next addresses are tried at once, up to one that gets going or to the last. */
  lemma FailureGoesOn(s: State, luck: Luck)
    requires InOrder(s) && !s.connected
    ensures var s' := Next(s, DoErr(false, luck));
            || (|s'.tried| > |s.tried| && luck(|s'.tried| - |s.tried| - 1) && s'.told == s.told)
            || (s'.tried == s.results && s'.told == s.told + [TriedAll])
    ensures var s' := Next(s, DoErr(false, luck));
            |s.tried| < |s.results| ==> |s.tried| < |s'.tried| && s'.tried[|s.tried|] == s.results[|s.tried|]
  {
    hide AttemptNext, TryFrom;
    StepDoes(s, DoErr(false, luck));
    var s' := Next(s, DoErr(false, luck));
    assert s'.told == s.told ==> |s'.tried| > |s.tried|;
  }

  // ----- what listeners hear

  /** There is a "closed" after position j. */
  ghost predicate ClosedAfter(told: seq<Event>, j: nat) {
    exists m :: j < m < |told| && told[m].Closed?
  }

  ghost predicate ClosedBetween(told: seq<Event>, j: nat, k: nat)
    requires k <= |told|
  {
    exists m :: j < m < k && told[m].Closed?
  }

  /** Each success is followed by "opened", and two successes are separated by a "closed". */
  ghost predicate Alternating(told: seq<Event>) {
    && (forall k :: 0 <= k < |told| && told[k] == ConnectOk ==> k + 1 < |told| && told[k + 1] == Opened)
    && (forall j, k :: 0 <= j < k < |told| && told[j] == ConnectOk && told[k] == ConnectOk ==>
          ClosedBetween(told, j, k))
  }

  ghost predicate Tells(s: State) {
    && Alternating(s.told)
    && (!s.connected ==> forall j :: 0 <= j < |s.told| && s.told[j] == ConnectOk ==> ClosedAfter(s.told, j))
  }

  /** Saying more does not disturb what was said. */
  lemma TellMore(told: seq<Event>, more: seq<Event>)
    requires Alternating(told)
    ensures forall j :: 0 <= j < |told| && ClosedAfter(told, j) ==>
              ClosedAfter(told + more, j) && ClosedBetween(told + more, j, |told|)
    ensures (forall k :: 0 <= k < |more| ==> more[k] != ConnectOk) ==> Alternating(told + more)
  {
    var t := told + more;
    forall j | 0 <= j < |told| && ClosedAfter(told, j)
      ensures ClosedAfter(t, j) && ClosedBetween(t, j, |told|)
    {
      var m :| j < m < |told| && told[m].Closed?;
      assert t[m].Closed?;
    }
    forall j, k | 0 <= j < k < |told| && told[j] == ConnectOk && told[k] == ConnectOk
      ensures ClosedBetween(t, j, k)
    {
      assert ClosedBetween(told, j, k);
      var m :| j < m < k && told[m].Closed?;
      assert t[m].Closed?;
    }
  }

  lemma OutTells(s: State)
    requires Tells(s)
    ensures Tells(Out(s))
  {
    var more := if s.connected then [Writeable] else [ConnectOk, Opened];
    TellMore(s.told, more);
    var t := s.told + more;
    if !s.connected {
      forall j, k | 0 <= j < k < |t| && t[j] == ConnectOk && t[k] == ConnectOk
        ensures ClosedBetween(t, j, k)
      {
        if k == |s.told| {
          assert ClosedAfter(s.told, j);
        } else {
          assert ClosedBetween(s.told, j, k);
          var m :| j < m < k && s.told[m].Closed?;
          assert t[m].Closed?;
        }
      }
    }
  }

  lemma StepTells(s: State, st: Step)
    requires InOrder(s) && Tells(s) && Enabled(s, st)
    ensures Tells(Next(s, st))
  {
    hide Alternating, ClosedAfter;
    StepInOrder(s, st);
    match st {
      case DoConnect(luck) => AttemptInOrder(s, luck);
      case DoResolved(found, luck) =>
        if found.Some? {
          AttemptInOrder(s.(results := found.value), luck);
        }
      case DoErr(_, luck) => AttemptInOrder(s, luck);
      case DoOut => OutTells(s);
      case DoHup =>
      case DoClose =>
    }
    TellMore(s.told, [TriedAll]);
    TellMore(s.told, [DnsFailed]);
    forall r: Reason
      ensures Alternating(s.told + [Closed(r)])
      ensures forall j :: 0 <= j < |s.told| ==> ClosedAfter(s.told + [Closed(r)], j)
    {
      TellMore(s.told, [Closed(r)]);
      CloseTells(s.told, r);
    }
  }

  lemma CloseTells(told: seq<Event>, r: Reason)
    ensures forall j :: 0 <= j < |told| ==> ClosedAfter(told + [Closed(r)], j)
  {
    assert (told + [Closed(r)])[|told|] == Closed(r);
  }

  /** Both properties in every state of every trace. */
  lemma {:induction false} TraceSound(states: seq<State>, steps: seq<Step>, k: nat)
    requires Trace(states, steps) && k < |states|
    ensures InOrder(states[k]) && Tells(states[k])
    decreases k
  {
    hide Next, Enabled, Tells;
    if k > 0 {
      TraceSound(states, steps, k - 1);
      StepInOrder(states[k - 1], steps[k - 1]);
      StepTells(states[k - 1], steps[k - 1]);
    } else {
      NothingTold();
    }
  }

  lemma NothingTold()
    ensures Tells(FRESH)
  {
  }
}
