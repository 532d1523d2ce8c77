/** _lm_resolver_parse_srv_response: the best server of a DNS answer (sections 4.1.1 to
    4.1.3 of RFC 1035, record data as in RFC 2782). */
module SrvParser {
  import opened Wrappers
  import opened Bytes
  import opened DnsNames

  const DNS_HEADER: nat := 12
  const QFIXEDSZ: nat := 4
  const NO_PRIORITY: nat := 9999

  type Word16 = n: int | 0 <= n < 0x1_0000

  function BE16(n: Word16): (s: seq<Byte>)
    ensures |s| == 2
  {
    [n / 256, n % 256]
  }

  function Get16(msg: seq<Byte>, pos: nat): Word16
    requires pos + 2 <= |msg|
  {
    msg[pos] as int * 256 + msg[pos + 1]
  }

  /** Most significant byte first. */
  lemma NetworkOrder()
    ensures BE16(5222) == [0x14, 0x66] && Get16([0x14, 0x66], 0) == 5222
  {
  }

  lemma Get16At(msg: seq<Byte>, pos: nat, n: Word16)
    requires At(msg, pos, BE16(n))
    ensures Get16(msg, pos) == n
  {
    AtIndex(msg, pos, BE16(n), 0);
    AtIndex(msg, pos, BE16(n), 1);
  }

  /** The preferred server so far. */
  datatype Best = Best(priority: nat, name: seq<Byte>, port: nat)

  const START: Best := Best(NO_PRIORITY, [], 0)

  function Better(best: Best, priority: nat, name: seq<Byte>, port: nat): Best {
    if priority < best.priority then Best(priority, name, port) else best
  }

  /** Where the question loop leaves the cursor. */
  function SkipQuestions(msg: seq<Byte>, pos: nat, n: nat): nat
    decreases n
  {
    if n == 0 || DnExpand(msg, pos).None? then pos
    else SkipQuestions(msg, pos + DnExpand(msg, pos).value.1 + QFIXEDSZ, n - 1)
  }

  /** The answer loop: the preferred server and the cursor, or None when the code reads past
      the end or uses a target name that could not be expanded. */
  function Scan(msg: seq<Byte>, pos: nat, n: nat, best: Best): Option<(Best, nat)>
    decreases n
  {
    if n == 0 || DnExpand(msg, pos).None? then Some((best, pos))
    else
      var p := pos + DnExpand(msg, pos).value.1 + 10;
      if p + 6 > |msg| || DnExpand(msg, p + 6).None? then None
      else
        var (name, len) := DnExpand(msg, p + 6).value;
        Scan(msg, p + 6 + len, n - 1, Better(best, Get16(msg, p), name, Get16(msg, p + 4)))
  }

  datatype Outcome = Found(server: seq<Byte>, port: nat) | NotFound | Unspecified

  function Verdict(best: Best): Outcome {
    if |best.name| > 0 && best.name[0] != 0 then Found(best.name, best.port) else NotFound
  }

  function Parse(msg: seq<Byte>): Outcome {
    if |msg| < DNS_HEADER then Unspecified
    else
      var r := Scan(msg, SkipQuestions(msg, DNS_HEADER, Get16(msg, 4)), Get16(msg, 6), START);
      if r.None? then Unspecified else Verdict(r.value.0)
  }

  /** The parser itself, on any message. */
  method ParseSrvResponse(srv: seq<Byte>) returns (r: Outcome)
    ensures r == Parse(srv)
  {
    hide DnExpand;
    if |srv| < DNS_HEADER {
      return Unspecified;
    }
    var prefName: seq<Byte>, prefPort: nat, prefPrio: nat := [], 0, NO_PRIORITY;
    var pos: nat := DNS_HEADER;
    var qdcount: nat, ancount: nat := Get16(srv, 4), Get16(srv, 6);
    while qdcount > 0 && DnExpand(srv, pos).Some?
      invariant SkipQuestions(srv, DNS_HEADER, Get16(srv, 4)) == SkipQuestions(srv, pos, qdcount)
      decreases qdcount
    {
      var len := DnExpand(srv, pos).value.1;
      pos, qdcount := pos + len + QFIXEDSZ, qdcount - 1;
    }
    ghost var first := pos;
    while ancount > 0 && DnExpand(srv, pos).Some?
      invariant Scan(srv, first, Get16(srv, 6), START) == Scan(srv, pos, ancount, Best(prefPrio, prefName, prefPort))
      decreases ancount
    {
      var len := DnExpand(srv, pos).value.1;
      ancount := ancount - 1;
      pos := pos + len;
      pos := pos + 10;
      if pos + 6 > |srv| {
        return Unspecified;
      }
      var pref := Get16(srv, pos);
      pos := pos + 2;
      pos := pos + 2;
      var port := Get16(srv, pos);
      pos := pos + 2;
      var target := DnExpand(srv, pos);
      if target.None? {
        return Unspecified;
      }
      if pref < prefPrio {
        prefPrio, prefName, prefPort := pref, target.value.0, port;
      }
      pos := pos + target.value.1;
    }
    if |prefName| > 0 && prefName[0] != 0 {
      return Found(prefName, prefPort);
    }
    return NotFound;
  }

  // ----- well-formed answers

  /** `fixed` is type and class. */
  datatype Question = Question(name: WireName, fixed: seq<Byte>)

  /** `fixed` is type, class, time to live and data length, which the parser skips. */
  datatype Srv = Srv(owner: WireName, fixed: seq<Byte>, priority: Word16, weight: Word16, port: Word16,
                     target: WireName)

  predicate ValidQuestion(q: Question) {
    ValidName(q.name) && |q.fixed| == 4
  }

  predicate ValidSrv(a: Srv) {
    ValidName(a.owner) && |a.fixed| == 10 && ValidName(a.target)
  }

  function EncodeQuestion(q: Question): seq<Byte>
    requires ValidQuestion(q)
  {
    EncodeName(q.name) + q.fixed
  }

  function EncodeSrv(a: Srv): seq<Byte>
    requires ValidSrv(a)
  {
    EncodeName(a.owner) + (a.fixed + (BE16(a.priority) + (BE16(a.weight) + (BE16(a.port) + EncodeName(a.target)))))
  }

  function EncodeQuestions(qs: seq<Question>): seq<Byte>
    requires forall q :: q in qs ==> ValidQuestion(q)
  {
    if |qs| == 0 then [] else EncodeQuestion(qs[0]) + EncodeQuestions(qs[1..])
  }

  function EncodeAnswers(srvs: seq<Srv>): seq<Byte>
    requires forall a :: a in srvs ==> ValidSrv(a)
  {
    if |srvs| == 0 then [] else EncodeSrv(srvs[0]) + EncodeAnswers(srvs[1..])
  }

  /** The name standing at pos, with its pointer followed. */
  ghost function FullText(msg: seq<Byte>, w: WireName): seq<Byte> {
    Text(w.labels + Suffix(msg, w.pointer))
  }

  /** A name the resolver library accepts: its pointer leads to an earlier name, and it is not
      too long on the wire or as a text. */
  ghost predicate Readable(msg: seq<Byte>, pos: nat, w: WireName) {
    ValidName(w) && Resolves(msg, pos, w.pointer) && Short(w.labels + Suffix(msg, w.pointer))
  }

  ghost predicate QuestionsReadable(msg: seq<Byte>, pos: nat, qs: seq<Question>)
    decreases |qs|
  {
    |qs| > 0 ==>
      && ValidQuestion(qs[0]) && Readable(msg, pos, qs[0].name)
      && QuestionsReadable(msg, pos + |EncodeQuestion(qs[0])|, qs[1..])
  }

  ghost predicate AnswersReadable(msg: seq<Byte>, pos: nat, srvs: seq<Srv>)
    decreases |srvs|
  {
    |srvs| > 0 ==>
      && ValidSrv(srvs[0]) && Readable(msg, pos, srvs[0].owner)
      && Readable(msg, pos + |EncodeName(srvs[0].owner)| + 16, srvs[0].target)
      && AnswersReadable(msg, pos + |EncodeSrv(srvs[0])|, srvs[1..])
  }

  lemma ReadName(msg: seq<Byte>, pos: nat, w: WireName)
    requires Readable(msg, pos, w) && At(msg, pos, EncodeName(w))
    ensures DnExpand(msg, pos) == Some((FullText(msg, w), |EncodeName(w)|))
  {
    hide Expand, Text;
    ExpandEncoded(msg, pos, pos, w);
  }

  /** The question loop ends exactly behind the questions, or behind those that can be read if the
      header promises more. */
  lemma {:induction false} QuestionsSkipped(msg: seq<Byte>, pos: nat, qs: seq<Question>, n: nat)
    requires QuestionsReadable(msg, pos, qs) && forall q :: q in qs ==> ValidQuestion(q)
    requires At(msg, pos, EncodeQuestions(qs))
    requires n == |qs| || (n > |qs| && DnExpand(msg, pos + |EncodeQuestions(qs)|).None?)
    ensures SkipQuestions(msg, pos, n) == pos + |EncodeQuestions(qs)|
    decreases |qs|
  {
    hide DnExpand, EncodeName, Readable, At;
    if |qs| > 0 {
      AtSplit(msg, pos, EncodeQuestion(qs[0]), EncodeQuestions(qs[1..]));
      AtSplit(msg, pos, EncodeName(qs[0].name), qs[0].fixed);
      ReadName(msg, pos, qs[0].name);
      QuestionsSkipped(msg, pos + |EncodeQuestion(qs[0])|, qs[1..], n - 1);
    }
  }

  /** What the parser reads of one record: everything it compares or returns, and no weight. */
  datatype Record = Record(priority: nat, target: seq<Byte>, port: nat)

  ghost function Records(msg: seq<Byte>, srvs: seq<Srv>): (rs: seq<Record>)
    ensures |rs| == |srvs|
    ensures forall i :: 0 <= i < |srvs| ==>
              rs[i] == Record(srvs[i].priority, FullText(msg, srvs[i].target), srvs[i].port)
  {
    seq(|srvs|, i requires 0 <= i < |srvs| => Record(srvs[i].priority, FullText(msg, srvs[i].target), srvs[i].port))
  }

  function Pick(best: Best, rs: seq<Record>): Best
    decreases |rs|
  {
    if |rs| == 0 then best else Pick(Better(best, rs[0].priority, rs[0].target, rs[0].port), rs[1..])
  }

  lemma ReadRecord(msg: seq<Byte>, pos: nat, a: Srv, n: nat, best: Best)
    requires ValidSrv(a) && At(msg, pos, EncodeSrv(a)) && n > 0
    requires Readable(msg, pos, a.owner) && Readable(msg, pos + |EncodeName(a.owner)| + 16, a.target)
    ensures Scan(msg, pos, n, best) ==
            Scan(msg, pos + |EncodeSrv(a)|, n - 1, Better(best, a.priority, FullText(msg, a.target), a.port))
  {
    hide DnExpand, EncodeName, Readable, At, BE16, Get16, FullText;
    var p := pos + |EncodeName(a.owner)| + 10;
    var target := EncodeName(a.target);
    AtSplit(msg, pos, EncodeName(a.owner), a.fixed + (BE16(a.priority) + (BE16(a.weight) + (BE16(a.port) + target))));
    AtSplit(msg, p - 10, a.fixed, BE16(a.priority) + (BE16(a.weight) + (BE16(a.port) + target)));
    AtSplit(msg, p, BE16(a.priority), BE16(a.weight) + (BE16(a.port) + target));
    AtSplit(msg, p + 2, BE16(a.weight), BE16(a.port) + target);
    AtSplit(msg, p + 4, BE16(a.port), target);
    Sizes(a);
    ReadName(msg, pos, a.owner);
    ReadName(msg, p + 6, a.target);
    Within(msg, p + 4, BE16(a.port));
    Get16At(msg, p, a.priority);
    Get16At(msg, p + 4, a.port);
  }

  lemma Within(msg: seq<Byte>, pos: nat, part: seq<Byte>)
    requires At(msg, pos, part)
    ensures pos + |part| <= |msg|
  {
  }

  lemma Sizes(a: Srv)
    requires ValidSrv(a)
    ensures |BE16(a.priority)| == |BE16(a.weight)| == |BE16(a.port)| == 2
    ensures |EncodeSrv(a)| == |EncodeName(a.owner)| + 16 + |EncodeName(a.target)|
  {
  }

  /** The answer loop keeps the cursor on record boundaries, ends exactly behind the answers,
      or behind those that can be read if the header promises more, and folds over the
      priorities, targets and ports that were written. */
  lemma {:induction false} AnswersScanned(msg: seq<Byte>, pos: nat, srvs: seq<Srv>, n: nat, best: Best)
    requires AnswersReadable(msg, pos, srvs) && forall a :: a in srvs ==> ValidSrv(a)
    requires At(msg, pos, EncodeAnswers(srvs))
    requires n == |srvs| || (n > |srvs| && DnExpand(msg, pos + |EncodeAnswers(srvs)|).None?)
    ensures Scan(msg, pos, n, best) == Some((Pick(best, Records(msg, srvs)), pos + |EncodeAnswers(srvs)|))
    decreases |srvs|
  {
    hide DnExpand, EncodeName, EncodeSrv, Readable, At, FullText, Scan, Better, ValidName;
    if |srvs| > 0 {
      assert EncodeAnswers(srvs) == EncodeSrv(srvs[0]) + EncodeAnswers(srvs[1..]);
      AtSplit(msg, pos, EncodeSrv(srvs[0]), EncodeAnswers(srvs[1..]));
      ReadRecord(msg, pos, srvs[0], n, best);
      var best' := Better(best, srvs[0].priority, FullText(msg, srvs[0].target), srvs[0].port);
      AnswersScanned(msg, pos + |EncodeSrv(srvs[0])|, srvs[1..], n - 1, best');
      assert Records(msg, srvs)[1..] == Records(msg, srvs[1..]);
    } else {
      ScanEnds(msg, pos, n, best);
    }
  }

  lemma ScanEnds(msg: seq<Byte>, pos: nat, n: nat, best: Best)
    requires n == 0 || DnExpand(msg, pos).None?
    ensures Scan(msg, pos, n, best) == Some((best, pos))
  {
  }

  // ----- which server is picked

  /** m is the first record of the lowest priority. */
  ghost predicate FirstLowest(rs: seq<Record>, m: nat) {
    && m < |rs|
    && (forall j :: 0 <= j < |rs| ==> rs[m].priority <= rs[j].priority)
    && (forall j :: 0 <= j < m ==> rs[m].priority < rs[j].priority)
  }

  /** The running minimum is the first record of the lowest priority, if that beats the start. */
  lemma {:induction false} PickIsFirstLowest(best: Best, rs: seq<Record>, m: nat)
    requires FirstLowest(rs, m)
    ensures Pick(best, rs) == Better(best, rs[m].priority, rs[m].target, rs[m].port)
    decreases |rs|
  {
    var best' := Better(best, rs[0].priority, rs[0].target, rs[0].port);
    var tail := rs[1..];
    if m > 0 {
      assert forall j :: 0 <= j < |tail| ==> tail[j] == rs[j + 1];
      PickIsFirstLowest(best', tail, m - 1);
    } else {
      PickKeeps(best', tail);
    }
  }

  lemma {:induction false} PickKeeps(best: Best, rs: seq<Record>)
    requires forall j :: 0 <= j < |rs| ==> best.priority <= rs[j].priority
    ensures Pick(best, rs) == best
  {
    if |rs| > 0 {
      PickKeeps(best, rs[1..]);
    }
  }

  lemma {:induction false} FirstLowestExists(rs: seq<Record>) returns (m: nat)
    requires |rs| > 0
    ensures FirstLowest(rs, m)
  {
    m := 0;
    if |rs| > 1 {
      var k := FirstLowestExists(rs[1..]);
      assert forall j :: 1 <= j < |rs| ==> rs[j] == rs[1..][j - 1];
      if rs[1..][k].priority < rs[0].priority {
        m := k + 1;
      }
    }
  }

  /** A message: id and flags, two counts the parser ignores, the questions, the answers, how many
      more answers the header promises, and whatever follows. */
  datatype Message = Message(flags: seq<Byte>, others: seq<Byte>, qs: seq<Question>, srvs: seq<Srv>, more: nat,
                             rest: seq<Byte>)

  predicate ValidMessage(m: Message) {
    && |m.flags| == 4 && |m.others| == 4 && |m.qs| < 0x1_0000 && |m.srvs| + m.more < 0x1_0000
    && (forall q :: q in m.qs ==> ValidQuestion(q)) && (forall a :: a in m.srvs ==> ValidSrv(a))
  }

  function EncodeMessage(m: Message): seq<Byte>
    requires ValidMessage(m)
  {
    m.flags + (BE16(|m.qs|) + (BE16(|m.srvs| + m.more) + (m.others +
    (EncodeQuestions(m.qs) + (EncodeAnswers(m.srvs) + m.rest)))))
  }

  function AnswersAt(m: Message): nat
    requires ValidMessage(m)
  {
    DNS_HEADER + |EncodeQuestions(m.qs)|
  }

  /** All names in the message can be expanded, and behind the answers none, if more are promised. */
  ghost predicate MessageReadable(m: Message)
    requires ValidMessage(m)
  {
    && QuestionsReadable(EncodeMessage(m), DNS_HEADER, m.qs)
    && AnswersReadable(EncodeMessage(m), AnswersAt(m), m.srvs)
    && (m.more > 0 ==> DnExpand(EncodeMessage(m), AnswersAt(m) + |EncodeAnswers(m.srvs)|).None?)
  }

  lemma MessageLayout(m: Message)
    requires ValidMessage(m)
    ensures var msg := EncodeMessage(m);
            && |msg| >= DNS_HEADER && Get16(msg, 4) == |m.qs| && Get16(msg, 6) == |m.srvs| + m.more
            && At(msg, DNS_HEADER, EncodeQuestions(m.qs))
            && At(msg, DNS_HEADER + |EncodeQuestions(m.qs)|, EncodeAnswers(m.srvs))
  {
    hide EncodeQuestions, EncodeAnswers, BE16, Get16, At;
    var msg, a, b := EncodeMessage(m), EncodeQuestions(m.qs), EncodeAnswers(m.srvs);
    Whole(msg);
    CountSize(|m.qs|);
    CountSize(|m.srvs| + m.more);
    AtSplit(msg, 0, m.flags, BE16(|m.qs|) + (BE16(|m.srvs| + m.more) + (m.others + (a + (b + m.rest)))));
    AtSplit(msg, 4, BE16(|m.qs|), BE16(|m.srvs| + m.more) + (m.others + (a + (b + m.rest))));
    AtSplit(msg, 6, BE16(|m.srvs| + m.more), m.others + (a + (b + m.rest)));
    AtSplit(msg, 8, m.others, a + (b + m.rest));
    AtSplit(msg, 12, a, b + m.rest);
    AtSplit(msg, 12 + |a|, b, m.rest);
    Get16At(msg, 4, |m.qs|);
    Get16At(msg, 6, |m.srvs| + m.more);
  }

  lemma CountSize(n: Word16)
    ensures |BE16(n)| == 2
  {
  }

  lemma Whole(msg: seq<Byte>)
    ensures At(msg, 0, msg)
  {
    assert msg[0..|msg|] == msg;
  }

  /** The outcome for given records: the target and port of the first record of the lowest
      priority; nothing if there is no record, if that priority is 9999 or more, or if that
      target is the root. */
  ghost predicate Preferred(rs: seq<Record>, r: Outcome) {
    && (rs == [] ==> r == NotFound)
    && forall m: nat :: FirstLowest(rs, m) ==>
         r == if rs[m].priority < NO_PRIORITY && rs[m].target != [] then Found(rs[m].target, rs[m].port) else NotFound
  }

  lemma VerdictPreferred(rs: seq<Record>)
    requires forall i :: 0 <= i < |rs| && rs[i].target != [] ==> rs[i].target[0] != 0
    ensures Preferred(rs, Verdict(Pick(START, rs)))
  {
    hide Pick;
    if rs == [] {
      PickKeeps(START, rs);
    }
    forall m: nat | FirstLowest(rs, m)
      ensures Pick(START, rs) == Better(START, rs[m].priority, rs[m].target, rs[m].port)
    {
      PickIsFirstLowest(START, rs, m);
    }
  }

  /** On every well-formed answer, even if the header promises more records than can be read: the
      parser returns the port of the first record of the lowest priority, and a server name that
      reads as the labels of that record's target; nothing if there is no record, if that priority
      is 9999 or more, or if that target is the root. */
  lemma ParsePicksPreferred(m: Message)
    requires ValidMessage(m) && MessageReadable(m)
    ensures var msg, r := EncodeMessage(m), Parse(EncodeMessage(m));
            && (m.srvs == [] ==> r == NotFound)
            && forall k: nat :: FirstLowest(Records(msg, m.srvs), k) ==>
                 var a := m.srvs[k];
                 var labels := a.target.labels + Suffix(msg, a.target.pointer);
                 if a.priority < 9999 && labels != []
                 then r.Found? && ReadText(r.server) == labels && r.port == a.port
                 else r == NotFound
  {
    hide EncodeMessage, SkipQuestions, Scan, Pick, EncodeQuestions, EncodeAnswers, At, Get16, QuestionsReadable,
      AnswersReadable, FirstLowest, Text, ReadText, Verdict, Suffix, ValidName;
    var msg := EncodeMessage(m);
    var rs := Records(msg, m.srvs);
    ParseReadable(m);
    forall k: nat | FirstLowest(rs, k)
      ensures k < |rs| && ReadText(rs[k].target) == m.srvs[k].target.labels + Suffix(msg, m.srvs[k].target.pointer)
      ensures rs[k].target == [] <==> m.srvs[k].target.labels + Suffix(msg, m.srvs[k].target.pointer) == []
    {
      InRange(rs, k);
      assert ValidSrv(m.srvs[k]);
      NameReadsBack(msg, m.srvs[k].target);
    }
  }

  lemma InRange(rs: seq<Record>, k: nat)
    requires FirstLowest(rs, k)
    ensures k < |rs|
  {
  }

  lemma NameReadsBack(msg: seq<Byte>, w: WireName)
    requires ValidName(w)
    ensures ReadText(FullText(msg, w)) == w.labels + Suffix(msg, w.pointer)
    ensures FullText(msg, w) == [] <==> w.labels + Suffix(msg, w.pointer) == []
  {
    if w.pointer.Some? && Expand(msg, w.pointer.value, w.pointer.value).Some? {
      ExpandValid(msg, w.pointer.value, w.pointer.value);
    }
    TextReadsBack(w.labels + Suffix(msg, w.pointer));
  }

  /** The loops consume exactly the questions and the answers. */
  lemma ParseReadable(m: Message)
    requires ValidMessage(m) && MessageReadable(m)
    ensures Preferred(Records(EncodeMessage(m), m.srvs), Parse(EncodeMessage(m)))
    ensures var msg := EncodeMessage(m);
            && SkipQuestions(msg, DNS_HEADER, |m.qs|) == AnswersAt(m)
            && var r := Scan(msg, AnswersAt(m), |m.srvs| + m.more, START);
               r.Some? && r.value.1 == AnswersAt(m) + |EncodeAnswers(m.srvs)|
  {
    hide EncodeMessage, SkipQuestions, Scan, Pick, EncodeQuestions, EncodeAnswers, At, Get16, QuestionsReadable,
      AnswersReadable, FullText, Readable, Preferred, Verdict, DnExpand;
    var msg := EncodeMessage(m);
    var rs := Records(msg, m.srvs);
    MessageLayout(m);
    QuestionsSkipped(msg, DNS_HEADER, m.qs, |m.qs|);
    AnswersScanned(msg, AnswersAt(m), m.srvs, |m.srvs| + m.more, START);
    forall i | 0 <= i < |rs| && rs[i].target != []
      ensures rs[i].target[0] != 0
    {
      TextStarts(msg, m.srvs[i].target);
    }
    VerdictPreferred(rs);
  }

  /** A question that cannot be read ends everything: the answers are looked for in its place. */
  lemma BrokenQuestion(msg: seq<Byte>, qs: seq<Question>)
    requires |msg| >= DNS_HEADER && Get16(msg, 4) > |qs| && forall q :: q in qs ==> ValidQuestion(q)
    requires QuestionsReadable(msg, DNS_HEADER, qs) && At(msg, DNS_HEADER, EncodeQuestions(qs))
    requires DnExpand(msg, DNS_HEADER + |EncodeQuestions(qs)|).None?
    ensures Parse(msg) == NotFound
  {
    hide DnExpand, EncodeQuestions, QuestionsReadable, At, SkipQuestions, Scan;
    QuestionsSkipped(msg, DNS_HEADER, qs, Get16(msg, 4));
    ScanEnds(msg, DNS_HEADER + |EncodeQuestions(qs)|, Get16(msg, 6), START);
  }

  lemma TextStarts(msg: seq<Byte>, w: WireName)
    ensures FullText(msg, w) != [] ==> FullText(msg, w)[0] != 0
  {
  }

  /** The priority that wins does not depend on the order of the answers. */
  lemma WinningPriorityIgnoresOrder(rs: seq<Record>, rs': seq<Record>)
    requires multiset(rs) == multiset(rs')
    ensures Pick(START, rs).priority == Pick(START, rs').priority
  {
    hide Pick;
    if |rs| > 0 {
      var m := FirstLowestExists(rs);
      assert rs[m] in multiset(rs');
      var m' := FirstLowestExists(rs');
      assert rs'[m'] in multiset(rs);
      PickIsFirstLowest(START, rs, m);
      PickIsFirstLowest(START, rs', m');
    } else {
      assert |multiset(rs')| == 0;
      PickKeeps(START, rs);
      PickKeeps(START, rs');
    }
  }

  /** A message without compression is readable as soon as its names fit the buffer. */
  ghost predicate Uncompressed(w: WireName) {
    ValidName(w) && w.pointer == None && Short(w.labels)
  }

  lemma {:induction false} UncompressedQuestions(msg: seq<Byte>, pos: nat, qs: seq<Question>)
    requires forall q :: q in qs ==> ValidQuestion(q) && Uncompressed(q.name)
    ensures QuestionsReadable(msg, pos, qs)
    decreases |qs|
  {
    hide Readable, Uncompressed, EncodeName, EncodeQuestion, ValidName;
    if |qs| > 0 {
      assert qs[0] in qs;
      UncompressedName(msg, pos, qs[0].name);
      UncompressedQuestions(msg, pos + |EncodeQuestion(qs[0])|, qs[1..]);
    }
  }

  lemma {:induction false} UncompressedAnswers(msg: seq<Byte>, pos: nat, srvs: seq<Srv>)
    requires forall a :: a in srvs ==> ValidSrv(a) && Uncompressed(a.owner) && Uncompressed(a.target)
    ensures AnswersReadable(msg, pos, srvs)
    decreases |srvs|
  {
    hide Readable, Uncompressed, EncodeName, EncodeSrv, ValidName;
    if |srvs| > 0 {
      assert srvs[0] in srvs;
      UncompressedName(msg, pos, srvs[0].owner);
      UncompressedName(msg, pos + |EncodeName(srvs[0].owner)| + 16, srvs[0].target);
      UncompressedAnswers(msg, pos + |EncodeSrv(srvs[0])|, srvs[1..]);
    }
  }

  lemma UncompressedName(msg: seq<Byte>, pos: nat, w: WireName)
    requires Uncompressed(w)
    ensures Readable(msg, pos, w) && FullText(msg, w) == Text(w.labels)
  {
    assert w.labels + [] == w.labels;
  }

  /** A whole message without compression, header counts and all, is readable. */
  lemma UncompressedMessage(m: Message)
    requires ValidMessage(m) && m.more == 0
    requires forall q :: q in m.qs ==> Uncompressed(q.name)
    requires forall a :: a in m.srvs ==> Uncompressed(a.owner) && Uncompressed(a.target)
    ensures MessageReadable(m)
  {
    hide Uncompressed, QuestionsReadable, AnswersReadable, ValidQuestion, ValidSrv, EncodeMessage;
    UncompressedQuestions(EncodeMessage(m), DNS_HEADER, m.qs);
    UncompressedAnswers(EncodeMessage(m), AnswersAt(m), m.srvs);
  }
}
