/** The client's query table as a value: what each operation of the asyncns context
    does to it, and the invariant they all keep. `tick` and `serial` are history: the
    id counter without its 32-bit wrap-around, and a number unique to each query. */
module Client {
  import opened Wrappers
  import opened Bytes
  import opened Datagram
  import opened Lookups

  /** MAX_QUERIES. */
  const SLOTS: nat := 256

  function Slot(tick: nat): (i: nat)
    ensures i < SLOTS
  {
    tick % SLOTS
  }

  /** The id as the unsigned int the code keeps. */
  function Id(tick: nat): Word32 {
    tick % 0x1_0000_0000
  }

  lemma SlotOfId(tick: nat)
    ensures Id(tick) % SLOTS == Slot(tick)
  {
  }

  /** Counting up by one, with the index and the id wrapping around separately. */
  lemma CounterStep(tick: nat)
    ensures Slot(tick + 1) == if Slot(tick) + 1 == SLOTS then 0 else Slot(tick) + 1
    ensures Id(tick + 1) == (Id(tick) + 1) % 0x1_0000_0000
  {
    SlotStep(tick);
    IdStep(tick);
  }

  lemma SlotStep(tick: nat)
    ensures Slot(tick + 1) == if Slot(tick) + 1 == SLOTS then 0 else Slot(tick) + 1
  {
    var q, r := tick / 256, tick % 256;
    assert tick + 1 == 256 * q + (r + 1);
  }

  lemma IdStep(tick: nat)
    ensures Id(tick + 1) == (Id(tick) + 1) % 0x1_0000_0000
  {
    var q, r := tick / 0x1_0000_0000, tick % 0x1_0000_0000;
    assert tick + 1 == 0x1_0000_0000 * q + (r + 1);
  }

  /** Two ticks with the same id less than 2^32 apart are the same. */
  lemma SameId(s: nat, t: nat)
    requires s <= t < s + 0x1_0000_0000 && Id(s) == Id(t)
    ensures s == t
  {
  }

  datatype Query = Query(tick: nat, serial: nat, lookup: Lookup, answer: Option<Answer>)

  /** `finished` lists the slots of the completed queries that are still there, oldest
      completion first. `issued` and `completed` are history: the tick of every query ever
      allocated, by serial, and the serials of the queries in the order they were completed. */
  datatype State = State(table: seq<Option<Query>>, tick: nat, count: nat, dead: bool, finished: seq<nat>,
                         issued: seq<nat>, completed: seq<nat>)

  function NoQueries(): (table: seq<Option<Query>>)
    ensures |table| == SLOTS && forall i :: 0 <= i < SLOTS ==> table[i].None?
  {
    seq(SLOTS, _ => None)
  }

  const FRESH: State := State(NoQueries(), 0, 0, false, [], [], [])

  function Occupied(table: seq<Option<Query>>): (n: nat)
    ensures n <= |table|
  {
    if |table| == 0 then 0 else (if table[0].Some? then 1 else 0) + Occupied(table[1..])
  }

  ghost predicate Live(s: State, i: nat) {
    i < |s.table| && s.table[i].Some?
  }

  ghost predicate Valid(s: State) {
    && |s.table| == SLOTS
    && s.count == Occupied(s.table)
    && (forall i :: 0 <= i < SLOTS && s.table[i].Some? ==> ValidQuery(s.table[i].value, i, s.tick, |s.issued|))
    && ValidFinished(s.table, s.finished)
  }

  ghost predicate ValidQuery(q: Query, i: nat, tick: nat, serials: nat) {
    && Slot(q.tick) == i && q.tick <= tick && q.serial < serials
    && (q.answer.Some? ==> Accepts(RequestKind(q.lookup), ReplyKind(q.answer.value)))
  }

  predicate Completed(table: seq<Option<Query>>, i: nat) {
    i < |table| && table[i].Some? && table[i].value.answer.Some?
  }

  ghost predicate Distinct(xs: seq<nat>) {
    forall k, m :: 0 <= k < m < |xs| ==> xs[k] != xs[m]
  }

  ghost predicate ValidFinished(table: seq<Option<Query>>, finished: seq<nat>) {
    && Distinct(finished)
    && (forall k :: 0 <= k < |finished| ==> Completed(table, finished[k]))
    && (forall i :: 0 <= i < |table| && Completed(table, i) ==> i in finished)
  }

  // ----- occupancy

  lemma {:induction false} OccupiedUpdate(table: seq<Option<Query>>, i: nat, v: Option<Query>)
    requires i < |table|
    ensures Occupied(table[i := v]) == Occupied(table) - (if table[i].Some? then 1 else 0) + (if v.Some? then 1 else 0)
  {
    if i == 0 {
      assert table[i := v][1..] == table[1..];
    } else {
      assert table[i := v][1..] == table[1..][i - 1 := v];
      OccupiedUpdate(table[1..], i - 1, v);
    }
  }

  /** Pigeonhole: fewer queries than slots leaves a free slot. */
  lemma {:induction false} FreeSlotExists(table: seq<Option<Query>>) returns (i: nat)
    requires Occupied(table) < |table|
    ensures i < |table| && table[i].None?
  {
    if table[0].None? {
      i := 0;
    } else {
      var j := FreeSlotExists(table[1..]);
      i := j + 1;
    }
  }

  lemma {:induction false} EmptyTable(table: seq<Option<Query>>)
    requires forall i :: 0 <= i < |table| ==> table[i].None?
    ensures Occupied(table) == 0
  {
    if |table| > 0 {
      EmptyTable(table[1..]);
    }
  }

  lemma FreshValid()
    ensures Valid(FRESH)
  {
    EmptyTable(FRESH.table);
  }

  lemma FinishedIsSome(s: State)
    requires Valid(s)
    ensures s.finished != [] ==> exists i :: 0 <= i < |s.table| && s.table[i].Some?
  {
    if s.finished != [] {
      assert Completed(s.table, s.finished[0]);
    }
  }

  lemma TableSize(s: State)
    requires Valid(s)
    ensures |s.table| == SLOTS
  {
  }

  // ----- the operations

  /** The slot the search looks at after j steps. */
  function Probe(table: seq<Option<Query>>, tick: nat, j: nat): Option<Query>
    requires |table| == SLOTS
  {
    table[Slot(tick + j)]
  }

  /** How far the search in alloc_query advances, having already advanced d slots. */
  function Advance(table: seq<Option<Query>>, tick: nat, d: nat): (r: nat)
    requires |table| == SLOTS && d <= SLOTS
    ensures d <= r <= SLOTS
    ensures forall j :: d <= j < r ==> Probe(table, tick, j).Some?
    ensures r < SLOTS ==> Probe(table, tick, r).None?
    decreases SLOTS - d
  {
    if d == SLOTS || Probe(table, tick, d).None? then d else Advance(table, tick, d + 1)
  }

  lemma AdvanceStep(table: seq<Option<Query>>, tick: nat, d: nat)
    requires |table| == SLOTS && d < SLOTS
    ensures Advance(table, tick, d) == if Probe(table, tick, d).Some? then Advance(table, tick, d + 1) else d
  {
  }

  /** The search ends within 255 steps, at the cyclically first free slot. */
  lemma AdvanceFindsFree(table: seq<Option<Query>>, tick: nat)
    requires |table| == SLOTS && Occupied(table) < SLOTS
    ensures Advance(table, tick, 0) < SLOTS
  {
    hide Occupied, Advance;
    var i := FreeSlotExists(table);
    var d := if i >= Slot(tick) then i - Slot(tick) else i + SLOTS - Slot(tick);
    assert Slot(tick + d) == i;
    assert Probe(table, tick, d).None?;
  }

  /** alloc_query. Without memory the counter has still moved on to the free slot. */
  function Alloc(s: State, lookup: Lookup, memory: bool): State
    requires |s.table| == SLOTS
  {
    if s.count >= SLOTS then s
    else
      var t := s.tick + Advance(s.table, s.tick, 0);
      if !memory then s.(tick := t)
      else s.(tick := t, table := s.table[Slot(t) := Some(Query(t, |s.issued|, lookup, None))],
              count := s.count + 1, issued := s.issued + [t])
  }

  function Without(xs: seq<nat>, x: nat): seq<nat> {
    if |xs| == 0 then [] else if xs[0] == x then xs[1..] else [xs[0]] + Without(xs[1..], x)
  }

  /** asyncns_cancel. */
  function Remove(s: State, i: nat): State
    requires i < |s.table| && s.count > 0
  {
    s.(table := s.table[i := None], count := s.count - 1, finished := Without(s.finished, i))
  }

  /** complete_query, with the answer handle_response stored just before. */
  function Complete(s: State, i: nat, a: Answer): State
    requires Live(s, i)
  {
    s.(table := s.table[i := Some(s.table[i].value.(answer := Some(a)))],
       finished := s.finished + [i], completed := s.completed + [s.table[i].value.serial])
  }

  datatype Reply = Answered(id: Word32, answer: Answer) | Died

  /** What can go wrong for good: the length asserts of handle_response, its type asserts, the
      assert of complete_query, and a worker's copy running over its buffer. */
  datatype Fault = LengthMismatch | TooShort | WrongType | DoneTwice | Overrun

  datatype Effect = After(value: State) | Fires(fault: Fault)

  /** handle_response on a message taken apart: the new state, or the assert that fires. */
  function HandleResponse(s: State, r: Reply): Effect
    requires |s.table| == SLOTS
  {
    match r
    case Died => After(s.(dead := true))
    case Answered(id, a) =>
      var i := id % SLOTS;
      if s.table[i].None? || Id(s.table[i].value.tick) != id then After(s)
      else if !Accepts(RequestKind(s.table[i].value.lookup), ReplyKind(a)) then Fires(WrongType)
      else if s.table[i].value.answer.Some? then Fires(DoneTwice)
      else After(Complete(s, i, a))
  }

  /** asyncns_getaddrinfo and its siblings: the new state, and whether a request went out
      (it is the one of the query at the slot of the new tick). */
  function Issue(s: State, lookup: Lookup, memory: bool, sent: bool): (State, bool)
    requires Valid(s)
  {
    if s.dead then (s, false)
    else
      var s1 := Alloc(s, lookup, memory);
      if s.count >= SLOTS || !memory then (s1, false)
      else if RequestSize(lookup) > BUFSIZE || !sent then (Remove(s1, Slot(s1.tick)), false)
      else (s1, true)
  }

  datatype Outcome = Refused | Again | Result(answer: Answer)

  /** The three *_done functions: refuse when a worker has died, ask to come back while the
      query is unfinished, otherwise hand out the answer and release the query. */
  function Done(s: State, i: nat): (State, Outcome)
    requires Live(s, i) && s.count > 0
  {
    var q := s.table[i].value;
    if s.dead then (s, Refused)
    else if q.answer.None? then (s, Again)
    else (Remove(s, i), Result(q.answer.value))
  }

  // ----- the invariant over the operations

  lemma AllocValid(s: State, lookup: Lookup, memory: bool)
    requires Valid(s)
    ensures Valid(Alloc(s, lookup, memory))
    ensures s.tick <= Alloc(s, lookup, memory).tick <= s.tick + 255
    ensures memory && s.count < SLOTS ==>
      var s' := Alloc(s, lookup, memory);
      && s.table[Slot(s'.tick)].None?
      && s'.table[Slot(s'.tick)] == Some(Query(s'.tick, |s.issued|, lookup, None))
      && s'.count > 0
  {
    hide Occupied, Advance;
    if s.count < SLOTS {
      AdvanceFindsFree(s.table, s.tick);
      if memory {
        var t := s.tick + Advance(s.table, s.tick, 0);
        OccupiedUpdate(s.table, Slot(t), Some(Query(t, |s.issued|, lookup, None)));
      }
    }
  }

  lemma {:induction false} WithoutMembers(xs: seq<nat>, x: nat)
    requires Distinct(xs)
    ensures forall y: nat :: y in Without(xs, x) <==> y in xs && y != x
    ensures Distinct(Without(xs, x))
  {
    if |xs| > 0 {
      assert xs == [xs[0]] + xs[1..];
      if xs[0] != x {
        WithoutMembers(xs[1..], x);
        assert xs[0] !in Without(xs[1..], x);
      }
    }
  }

  lemma {:induction false} WithoutAt(xs: seq<nat>, k: nat)
    requires k < |xs| && forall j :: 0 <= j < k ==> xs[j] != xs[k]
    ensures Without(xs, xs[k]) == xs[..k] + xs[k + 1..]
  {
    if k > 0 {
      WithoutAt(xs[1..], k - 1);
    }
  }

  lemma {:induction false} WithoutAbsent(xs: seq<nat>, x: nat)
    requires x !in xs
    ensures Without(xs, x) == xs
  {
    if |xs| > 0 {
      WithoutAbsent(xs[1..], x);
    }
  }

  lemma LiveCounted(s: State, i: nat)
    requires Valid(s) && Live(s, i)
    ensures s.count > 0
  {
    OccupiedUpdate(s.table, i, None);
  }

  lemma RemoveFinished(table: seq<Option<Query>>, finished: seq<nat>, i: nat)
    requires ValidFinished(table, finished) && i < |table|
    ensures ValidFinished(table[i := None], Without(finished, i))
  {
    hide Without;
    WithoutMembers(finished, i);
    var t, f := table[i := None], Without(finished, i);
    forall k | 0 <= k < |f|
      ensures Completed(t, f[k])
    {
      assert f[k] in finished;
    }
  }

  lemma RemoveValid(s: State, i: nat)
    requires Valid(s) && Live(s, i) && s.count > 0
    ensures Valid(Remove(s, i))
  {
    hide Occupied, Without, ValidFinished;
    OccupiedUpdate(s.table, i, None);
    RemoveFinished(s.table, s.finished, i);
  }

  lemma CompleteValid(s: State, i: nat, a: Answer)
    requires Valid(s) && Live(s, i) && s.table[i].value.answer.None?
    requires Accepts(RequestKind(s.table[i].value.lookup), ReplyKind(a))
    ensures Valid(Complete(s, i, a))
  {
    hide Occupied;
    assert forall k :: 0 <= k < |s.finished| ==> s.finished[k] != i;
    OccupiedUpdate(s.table, i, Complete(s, i, a).table[i]);
  }

  lemma HandleResponseValid(s: State, r: Reply)
    requires Valid(s) && HandleResponse(s, r).After?
    ensures Valid(HandleResponse(s, r).value)
  {
    hide Occupied, Complete;
    if r.Answered? && s.table[r.id % SLOTS].Some? && Id(s.table[r.id % SLOTS].value.tick) == r.id {
      CompleteValid(s, r.id % SLOTS, r.answer);
    }
  }

  lemma IssueValid(s: State, lookup: Lookup, memory: bool, sent: bool)
    requires Valid(s)
    ensures Valid(Issue(s, lookup, memory, sent).0)
    ensures Issue(s, lookup, memory, sent).1 ==>
      var s' := Issue(s, lookup, memory, sent).0;
      && s' == Alloc(s, lookup, true)
      && s.table[Slot(s'.tick)].None?
      && s'.table[Slot(s'.tick)] == Some(Query(s'.tick, |s.issued|, lookup, None))
  {
    hide Alloc, Valid, Remove;
    TableSize(s);
    AllocValid(s, lookup, memory);
    var s1 := Alloc(s, lookup, memory);
    TableSize(s1);
    if !s.dead && s.count < SLOTS && memory {
      RemoveValid(s1, Slot(s1.tick));
    }
  }

  lemma DoneValid(s: State, i: nat)
    requires Valid(s) && Live(s, i) && s.count > 0
    ensures Valid(Done(s, i).0)
  {
    RemoveValid(s, i);
  }

  /** A *_done call that succeeds hands out the answer stored for that query, empties that slot
      and no other, and keeps the order of the remaining completions; one that does not succeed
      changes nothing. */
  lemma DoneReleasesOne(s: State, i: nat) returns (k: nat)
    requires Valid(s) && Live(s, i)
    ensures s.count > 0
    ensures var (s', o) := Done(s, i);
            if s.dead then s' == s && o == Refused
            else if i !in s.finished then s' == s && o == Again
            else
              && o.Result? && s.table[i].value.answer == Some(o.answer)
              && |s'.table| == SLOTS && s'.table[i].None? && s'.count == s.count - 1 && s'.tick == s.tick
              && (forall j :: 0 <= j < SLOTS && j != i ==> s'.table[j] == s.table[j])
              && k < |s.finished| && s.finished[k] == i && s'.finished == s.finished[..k] + s.finished[k + 1..]
  {
    hide Occupied, ValidQuery, Without;
    LiveCounted(s, i);
    k := 0;
    if i in s.finished {
      k :| 0 <= k < |s.finished| && s.finished[k] == i;
      WithoutAt(s.finished, k);
      assert Completed(s.table, s.finished[k]);
    } else {
      assert !Completed(s.table, i);
    }
  }
}
