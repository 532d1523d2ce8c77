/** Request and reply datagrams: built by one side, checked and taken apart by the other. */
module Framing {
  import opened Wrappers
  import opened Bytes
  import opened AddrInfos
  import opened Datagram
  import opened Lookups
  import opened Client
  import AddrCodec

  /** sizeof of the nameinfo and res replies, and of the buffer every recv is given. */
  const NAME_REPLY: nat := 48
  const RES_REPLY: nat := 32
  const RECV_BUFFER: nat := (BUFSIZE / HEADER + 1) * HEADER

  /** The buffers a worker gives getnameinfo. */
  const NI_MAXHOST: nat := 1025
  const NI_MAXSERV: nat := 32

  /** sizeof of the sockaddr_storage a worker copies the socket address into. */
  const SOCKADDR_STORAGE: nat := 128

  /** recv fills a fixed buffer and drops what does not fit. */
  function Received(b: seq<Byte>): seq<Byte> {
    if |b| <= RECV_BUFFER then b else b[..RECV_BUFFER]
  }

  // ----- requests

  /** What callers hand in: C strings, and a socket address whose length fits its field. */
  predicate WellFormed(l: Lookup) {
    match l
    case AddrLookup(node, service, _) =>
      (node.Some? ==> IsCString(node.value)) && (service.Some? ==> IsCString(service.value))
    case NameLookup(sockaddr, _, _, _) => 0 < |sockaddr| < Range(UINT)
    case ResLookup(_, dname, _, _) => IsCString(dname)
  }

  predicate ShortAddress(l: Lookup) {
    l.NameLookup? ==> |l.sockaddr| <= SOCKADDR_STORAGE
  }

  /** What a worker can take apart and look up. */
  predicate Proper(l: Lookup) {
    WellFormed(l) && RequestSize(l) <= BUFSIZE && ShortAddress(l)
  }

  function PutHints(h: Option<Hints>): (s: seq<Byte>)
    ensures |s| == 20
  {
    match h
    case None => PutInt(1) + PutInt(0) + PutInt(0) + PutInt(0) + PutInt(0)
    case Some(h) => PutInt(0) + PutInt(h.flags) + PutInt(h.family) + PutInt(h.socktype) + PutInt(h.protocol)
  }

  function GetHints(b: seq<Byte>): Option<Hints>
    requires |b| == 20
  {
    if GetInt(b[0..4]) != 0 then None
    else Some(Hints(GetInt(b[4..8]), GetInt(b[8..12]), GetInt(b[12..16]), GetInt(b[16..20])))
  }

  /** Where the hints stand. */
  lemma HintsLayout(b: seq<Byte>)
    requires |b| == 20
    ensures GetHints(b).None? <==> GetInt(b[0..4]) != 0
    ensures GetHints(b).Some? ==>
              var h := GetHints(b).value;
              && h.flags == GetInt(b[4..8]) && h.family == GetInt(b[8..12])
              && h.socktype == GetInt(b[12..16]) && h.protocol == GetInt(b[16..20])
  {
  }

  lemma HintsRoundTrip(h: Option<Hints>)
    ensures GetHints(PutHints(h)) == h
  {
    hide PutInt, GetInt;
    var v := if h.Some? then h.value else Hints(0, 0, 0, 0);
    var flag: Int32 := if h.Some? then 0 else 1;
    var b := PutHints(h);
    assert b[0..4] == PutInt(flag) && b[4..8] == PutInt(v.flags) && b[8..12] == PutInt(v.family)
        && b[12..16] == PutInt(v.socktype) && b[16..20] == PutInt(v.protocol);
    IntRoundTrip(flag);
    IntRoundTrip(v.flags);
    IntRoundTrip(v.family);
    IntRoundTrip(v.socktype);
    IntRoundTrip(v.protocol);
  }

  /** The fixed part of a request after the common header. */
  function RequestFields(l: Lookup): (s: seq<Byte>)
    ensures |s| == match l case AddrLookup(_, _, _) => 40 case _ => 16
  {
    match l
    case AddrLookup(node, service, hints) =>
      PutHints(hints) + Padding(4) + LE(|Present(node)|, SIZE_T) + LE(|Present(service)|, SIZE_T)
    case NameLookup(sockaddr, flags, gethost, getserv) =>
      PutInt(flags) + LE(|sockaddr|, UINT) + PutInt(gethost) + PutInt(getserv)
    case ResLookup(_, dname, rclass, rtype) =>
      PutInt(rclass) + PutInt(rtype) + LE(|dname|, SIZE_T)
  }

  function RequestTail(l: Lookup): seq<Byte> {
    match l
    case AddrLookup(node, service, _) => Present(node) + Present(service)
    case NameLookup(sockaddr, _, _, _) => sockaddr
    case ResLookup(_, dname, _, _) => dname
  }

  function EncodeRequest(id: Word32, l: Lookup): (s: seq<Byte>)
    ensures |s| == RequestSize(l)
  {
    PutHeader(Header(RequestKind(l), id, RequestSize(l))) + RequestFields(l) + RequestTail(l)
  }

  /** What a worker makes of a datagram: one of handle_request's asserts fires, it copies a
      socket address beyond the end of its buffer, it is told to stop, it ignores an unknown
      type, or it has a lookup to do. */
  datatype Parsed = AssertFails | Overruns | Terminate | Ignored | Job(id: Word32, lookup: Lookup)

  /** A string argument: a null pointer when its length is 0, else the C string at that place. */
  function Argument(b: seq<Byte>, len: nat): Option<seq<Byte>> {
    if len == 0 then None else Some(CStringAt(b))
  }

  function ParseAddrRequest(b: seq<Byte>, id: Word32): Parsed {
    if |b| < ADDR_REQUEST then AssertFails
    else
      var nodeLen, serviceLen := UnLE(b[40..48]), UnLE(b[48..56]);
      if |b| != ADDR_REQUEST + nodeLen + serviceLen then AssertFails
      else Job(id, AddrLookup(Argument(b[ADDR_REQUEST..], nodeLen), Argument(b[ADDR_REQUEST + nodeLen..], serviceLen),
                              GetHints(b[16..36])))
  }

  function ParseNameRequest(b: seq<Byte>, id: Word32): Parsed {
    if |b| < NAME_REQUEST || |b| != NAME_REQUEST + UnLE(b[20..24]) then AssertFails
    else if UnLE(b[20..24]) > SOCKADDR_STORAGE then Overruns
    else Job(id, NameLookup(b[NAME_REQUEST..], GetInt(b[16..20]), GetInt(b[24..28]), GetInt(b[28..32])))
  }

  function ParseResRequest(b: seq<Byte>, id: Word32, search: bool): Parsed {
    if |b| < RES_REQUEST || |b| != RES_REQUEST + UnLE(b[24..32]) then AssertFails
    else Job(id, ResLookup(search, CStringAt(b[RES_REQUEST..]), GetInt(b[16..20]), GetInt(b[20..24])))
  }

  /** handle_request's checks and what it passes to the lookup. */
  function ParseRequest(b: seq<Byte>): Parsed {
    if |b| < HEADER || GetHeader(b).length != |b| then AssertFails
    else
      var h := GetHeader(b);
      if h.kind == REQUEST_ADDRINFO then ParseAddrRequest(b, h.id)
      else if h.kind == REQUEST_NAMEINFO then ParseNameRequest(b, h.id)
      else if h.kind == REQUEST_RES_QUERY || h.kind == REQUEST_RES_SEARCH then
        ParseResRequest(b, h.id, h.kind == REQUEST_RES_SEARCH)
      else if h.kind == REQUEST_TERMINATE then Terminate
      else Ignored
  }

  /** Every check of handle_request on every datagram, read off the bytes. */
  lemma RequestChecks(b: seq<Byte>)
    ensures var p := ParseRequest(b);
            if |b| < 16 || UnLE(b[8..16]) != |b| then p == AssertFails
            else
              var kind, id := UnLE(b[0..4]), UnLE(b[4..8]);
              if kind == 7 then p == Terminate
              else if kind !in {0, 2, 4, 5} then p == Ignored
              else if |b| < (if kind == 0 then 56 else 32) then p == AssertFails
              else if |b| != (if kind == 0 then 56 + UnLE(b[40..48]) + UnLE(b[48..56])
                              else if kind == 2 then 32 + UnLE(b[20..24])
                              else 32 + UnLE(b[24..32])) then p == AssertFails
              else if kind == 2 && |b| > 32 + 128 then p == Overruns
              else
                && p.Job? && p.id == id
                && (kind == 0 ==> p.lookup.AddrLookup?) && (kind == 2 ==> p.lookup.NameLookup?)
                && (kind == 4 ==> p.lookup.ResLookup? && !p.lookup.search)
                && (kind == 5 ==> p.lookup.ResLookup? && p.lookup.search)
  {
    hide UnLE, GetInt, GetHints, Argument, CStringAt;
  }

  /** Cutting a concatenation of three at its seams. */
  lemma Cut<T>(s: seq<T>, a: seq<T>, b: seq<T>, c: seq<T>)
    requires s == a + b + c
    ensures s[|a|..|a| + |b|] == b && s[|a| + |b|..] == c && s[..|a|] == a
  {
  }

  lemma ArgumentRoundTrip(s: Option<seq<Byte>>, rest: seq<Byte>)
    requires s.Some? ==> IsCString(s.value)
    ensures Argument(Present(s) + rest, |Present(s)|) == s
  {
    if s.Some? {
      CStringAtFront(s.value, rest);
    }
  }

  lemma AddrRequestCuts(b: seq<Byte>, head: seq<Byte>, hints: seq<Byte>, pad: seq<Byte>, x: seq<Byte>, y: seq<Byte>,
                        tail: seq<Byte>)
    requires |head| == 16 && |hints| == 20 && |pad| == 4 && |x| == 8 && |y| == 8
    requires b == head + (hints + pad + x + y) + tail
    ensures b[16..36] == hints && b[40..48] == x && b[48..56] == y && b[56..] == tail
  {
    var f := hints + pad + x + y;
    Cut(b, head, f, tail);
    assert f[0..20] == hints && f[24..32] == x && f[32..40] == y;
    assert b[16..36] == f[0..20] && b[40..48] == f[24..32] && b[48..56] == f[32..40];
  }

  lemma AddrRequestRoundTrip(id: Word32, l: Lookup)
    requires l.AddrLookup? && WellFormed(l) && RequestSize(l) <= BUFSIZE
    ensures ParseAddrRequest(EncodeRequest(id, l), id) == Job(id, l)
  {
    hide PutHeader, PutHints, GetHints, LE, UnLE, CStringAt, IsCString, Range, Argument, Padding;
    RangeValues();
    var AddrLookup(node, service, hints) := l;
    var head := PutHeader(Header(RequestKind(l), id, RequestSize(l)));
    var n, v := Present(node), Present(service);
    AddrRequestCuts(EncodeRequest(id, l), head, PutHints(hints), Padding(4), LE(|n|, SIZE_T), LE(|v|, SIZE_T), n + v);
    assert EncodeRequest(id, l)[56 + |n|..] == v + [];
    HintsRoundTrip(hints);
    UnLEOfLE(|n|, SIZE_T);
    UnLEOfLE(|v|, SIZE_T);
    ArgumentRoundTrip(node, v);
    ArgumentRoundTrip(service, []);
  }

  lemma NameRequestRoundTrip(id: Word32, l: Lookup)
    requires l.NameLookup? && WellFormed(l) && RequestSize(l) <= BUFSIZE
    ensures ParseNameRequest(EncodeRequest(id, l), id) == if ShortAddress(l) then Job(id, l) else Overruns
  {
    hide PutHeader, PutInt, GetInt, LE, UnLE, Range;
    RangeValues();
    var b := EncodeRequest(id, l);
    var NameLookup(sockaddr, flags, gethost, getserv) := l;
    var head := PutHeader(Header(RequestKind(l), id, RequestSize(l)));
    Cut(b, head, RequestFields(l), sockaddr);
    var f := RequestFields(l);
    assert b[16..20] == f[0..4] && b[20..24] == f[4..8] && b[24..28] == f[8..12] && b[28..32] == f[12..16];
    assert f[0..4] == PutInt(flags) && f[4..8] == LE(|sockaddr|, UINT)
        && f[8..12] == PutInt(gethost) && f[12..16] == PutInt(getserv);
    IntRoundTrip(flags);
    IntRoundTrip(gethost);
    IntRoundTrip(getserv);
    UnLEOfLE(|sockaddr|, UINT);
  }

  lemma ResRequestRoundTrip(id: Word32, l: Lookup)
    requires l.ResLookup? && WellFormed(l) && RequestSize(l) <= BUFSIZE
    ensures ParseResRequest(EncodeRequest(id, l), id, l.search) == Job(id, l)
  {
    hide PutHeader, PutInt, GetInt, LE, UnLE, Range, CStringAt, IsCString;
    RangeValues();
    var b := EncodeRequest(id, l);
    var ResLookup(search, dname, rclass, rtype) := l;
    var head := PutHeader(Header(RequestKind(l), id, RequestSize(l)));
    Cut(b, head, RequestFields(l), dname);
    var f := RequestFields(l);
    assert b[16..20] == f[0..4] && b[20..24] == f[4..8] && b[24..32] == f[8..16];
    assert f[0..4] == PutInt(rclass) && f[4..8] == PutInt(rtype) && f[8..16] == LE(|dname|, SIZE_T);
    IntRoundTrip(rclass);
    IntRoundTrip(rtype);
    UnLEOfLE(|dname|, SIZE_T);
    CStringAtFront(dname, []);
    assert dname + [] == dname;
  }

  /** Every request that is sent fits the worker's buffer, passes its length asserts, and is
      taken apart into the id and exactly the arguments that were given, unless it holds a
      socket address of more than 128 bytes: that one the worker copies over its stack. */
  lemma RequestRoundTrip(id: Word32, l: Lookup)
    requires WellFormed(l) && RequestSize(l) <= BUFSIZE
    ensures ParseRequest(Received(EncodeRequest(id, l))) == if ShortAddress(l) then Job(id, l) else Overruns
  {
    hide PutHeader, GetHeader, RequestFields, RequestTail, Range, ParseAddrRequest, ParseNameRequest, ParseResRequest,
      WellFormed;
    RangeValues();
    var h := Header(RequestKind(l), id, RequestSize(l));
    HeaderRoundTrip(h, RequestFields(l) + RequestTail(l));
    assert EncodeRequest(id, l) == PutHeader(h) + (RequestFields(l) + RequestTail(l));
    match l {
      case AddrLookup(_, _, _) => AddrRequestRoundTrip(id, l);
      case NameLookup(_, _, _, _) => NameRequestRoundTrip(id, l);
      case ResLookup(_, _, _, _) => ResRequestRoundTrip(id, l);
    }
  }

  /** One byte more than the buffer holds is asked for and sent like any other lookup. */
  lemma LongAddressOverruns(id: Word32, flags: Int32, gethost: Int32, getserv: Int32)
    ensures var l := NameLookup(seq(SOCKADDR_STORAGE + 1, _ => 0), flags, gethost, getserv);
            && Askable(l) && WellFormed(l) && RequestSize(l) <= BUFSIZE
            && ParseRequest(Received(EncodeRequest(id, l))) == Overruns
  {
    hide ParseRequest, EncodeRequest, Range;
    RangeValues();
    RequestRoundTrip(id, NameLookup(seq(SOCKADDR_STORAGE + 1, _ => 0), flags, gethost, getserv));
  }

  lemma TerminateParsed(id: Word32)
    ensures ParseRequest(PutHeader(Header(REQUEST_TERMINATE, id, HEADER))) == Terminate
  {
    hide PutHeader, GetHeader, Range;
    RangeValues();
    HeaderRoundTrip(Header(REQUEST_TERMINATE, id, HEADER), []);
    assert PutHeader(Header(REQUEST_TERMINATE, id, HEADER)) + [] == PutHeader(Header(REQUEST_TERMINATE, id, HEADER));
  }

  method PutTwo(data: array<Byte>, off: nat, x: seq<Byte>, y: seq<Byte>)
    requires off + |x + y| <= data.Length
    modifies data
    ensures data[..off + |x + y|] == old(data[..off]) + (x + y)
  {
    ghost var front := data[..off];
    Put(data, off, x);
    Put(data, off + |x|, y);
    assert front + (x + y) == (front + x) + y;
  }

  /** The variable part of a request, behind the fixed part. */
  method PutTail(data: array<Byte>, off: nat, l: Lookup)
    requires off + |RequestTail(l)| <= data.Length
    modifies data
    ensures data[..off + |RequestTail(l)|] == old(data[..off]) + RequestTail(l)
  {
    hide Present;
    match l {
      case AddrLookup(node, service, _) =>
        PutTwo(data, off, Present(node), Present(service));
      case NameLookup(sockaddr, _, _, _) =>
        Put(data, off, sockaddr);
      case ResLookup(_, dname, _, _) =>
        Put(data, off, dname);
    }
  }

  /** The request buffer is cleared and filled in place; too long a request is not built. */
  method BuildRequest(id: Word32, l: Lookup) returns (r: Option<seq<Byte>>)
    ensures r == if RequestSize(l) > BUFSIZE then None else Some(EncodeRequest(id, l))
  {
    hide PutHeader, RequestFields, RequestTail;
    var size := RequestSize(l);
    if size > BUFSIZE {
      return None;
    }
    TailSize(l);
    var data := new Byte[BUFSIZE + ADDR_REQUEST](_ => 0);
    var fixed := PutHeader(Header(RequestKind(l), id, size)) + RequestFields(l);
    Put(data, 0, fixed);
    assert data[..|fixed|] == fixed;
    PutTail(data, |fixed|, l);
    return Some(data[..size]);
  }

  lemma TailSize(l: Lookup)
    ensures HEADER + |RequestFields(l)| + |RequestTail(l)| == RequestSize(l)
  {
  }

  // ----- replies

  function NameReply(id: Word32, st: Status, host: Option<seq<Byte>>, serv: Option<seq<Byte>>): (b: seq<Byte>)
    ensures |b| == NAME_REPLY + |Present(host)| + |Present(serv)|
  {
    var h, v := Present(host), Present(serv);
    PutHeader(Header(RESPONSE_NAMEINFO, id, NAME_REPLY + |h| + |v|))
    + (LE(|h|, SIZE_T) + LE(|v|, SIZE_T) + PutStatus(st) + Padding(4)) + (h + v)
  }

  function ResReply(id: Word32, st: Status, data: seq<Byte>): (b: seq<Byte>)
    ensures |b| == RES_REPLY + |data|
  {
    PutHeader(Header(RESPONSE_RES, id, RES_REPLY + |data|)) + (PutStatus(st) + Padding(4)) + data
  }

  const DEATH_NOTICE: seq<Byte> := PutHeader(Header(RESPONSE_DIED, 0, HEADER))

  /** A failed resolver query carries no data; names are C strings. */
  predicate Normal(r: Reply) {
    r.Answered? ==> NormalAnswer(r.answer)
  }

  predicate NormalAnswer(a: Answer) {
    match a
    case AddrAnswer(_, _) => true
    case NameAnswer(_, host, serv) =>
      (host.Some? ==> IsCString(host.value)) && (serv.Some? ==> IsCString(serv.value))
    case ResAnswer(st, data) => st.ret < 0 ==> data == []
  }

  /** strndup: at most n characters, up to the first zero, and a terminating zero. */
  function StrNDup(s: seq<Byte>, n: nat): seq<Byte> {
    if |s| == 0 || n == 0 || s[0] == 0 then [0] else [s[0]] + StrNDup(s[1..], n - 1)
  }

  /** What the copy is, whatever is there: characters up to the first zero, to n of them or to the
      end, and a zero behind them. */
  lemma {:induction false} StrNDupCopies(s: seq<Byte>, n: nat)
    ensures var r := StrNDup(s, n); var k := |r| - 1;
            && 0 <= k <= |s| && k <= n && r == s[..k] + [0]
            && (forall i :: 0 <= i < k ==> s[i] != 0)
            && (k == n || k == |s| || s[k] == 0)
  {
    if !(|s| == 0 || n == 0 || s[0] == 0) {
      StrNDupCopies(s[1..], n - 1);
      var k := |StrNDup(s[1..], n - 1)| - 1;
      assert [s[0]] + s[1..][..k] == s[..k + 1];
      assert forall i :: 1 <= i < k + 1 ==> s[i] == s[1..][i - 1];
    } else {
      assert s[..0] + [0] == [0];
    }
  }

  lemma {:induction false} StrNDupFront(s: seq<Byte>, rest: seq<Byte>)
    requires IsCString(s)
    ensures StrNDup(s + rest, |s| - 1) == s
  {
    if |s| > 1 {
      assert (s + rest)[1..] == s[1..] + rest;
      StrNDupFront(s[1..], rest);
    } else {
      assert s == [0];
    }
  }

  function NameField(b: seq<Byte>, len: nat): Option<seq<Byte>> {
    if len == 0 then None else Some(StrNDup(b, len - 1))
  }

  /** A worker's outcome as the reply it sends; None where an assert ends the worker instead. */
  function EncodeReply(id: Word32, a: Answer): Option<seq<Byte>> {
    match a
    case AddrAnswer(st, nodes) =>
      (match AddrCodec.WorkerReply(id, st, nodes)
       case Aborted => None
       case Sent(d) => Some(d))
    case NameAnswer(st, host, serv) => Some(NameReply(id, st, host, serv))
    case ResAnswer(st, data) =>
      if RES_REPLY + (if st.ret < 0 then 0 else st.ret) > AddrCodec.REPLY_BUFFER then None
      else Some(ResReply(id, st, data))
  }

  /** What the client makes of a datagram: a wrong length stops it at once; a reply too short
      for its type stops it only if the id finds a query; an unknown type is ignored. */
  datatype Arrival = BadLength | Short(id: Word32) | Unknown | Message(reply: Reply)

  /** handle_response's checks and the message it acts on, for a client with memory for `room`
      address nodes. A field the reply points at beyond the datagram is cut at its end. */
  function ParseReply(b: seq<Byte>, room: nat): Arrival {
    if |b| < HEADER || GetHeader(b).length != |b| then BadLength
    else
      var h := GetHeader(b);
      if h.kind == RESPONSE_DIED then Message(Died)
      else if h.kind == RESPONSE_ADDRINFO then
        if |b| < AddrCodec.RESPONSE_HEADER then Short(h.id)
        else var r := AddrCodec.ReadReply(b, room); Message(Answered(h.id, AddrAnswer(r.status, r.nodes)))
      else if h.kind == RESPONSE_NAMEINFO then
        if |b| < NAME_REPLY then Short(h.id)
        else
          var hostLen, tail := UnLE(b[16..24]), b[NAME_REPLY..];
          var servTail := if hostLen <= |tail| then tail[hostLen..] else [];
          Message(Answered(h.id, NameAnswer(GetStatus(b[32..44]), NameField(tail, hostLen),
                                            NameField(servTail, UnLE(b[24..32])))))
      else if h.kind == RESPONSE_RES then
        if |b| < RES_REPLY then Short(h.id)
        else
          var st, tail := GetStatus(b[16..28]), b[RES_REPLY..];
          var data := if st.ret < 0 then [] else if st.ret <= |tail| then tail[..st.ret] else tail;
          Message(Answered(h.id, ResAnswer(st, data)))
      else Unknown
  }

  /** handle_response on the datagram itself. */
  function HandleDatagram(s: State, b: seq<Byte>, room: nat): Effect
    requires |s.table| == SLOTS
  {
    match ParseReply(b, room)
    case BadLength => Fires(LengthMismatch)
    case Unknown => After(s)
    case Short(id) =>
      var e := s.table[id % SLOTS];
      if e.Some? && Id(e.value.tick) == id then Fires(TooShort) else After(s)
    case Message(reply) => HandleResponse(s, reply)
  }

  /** Every check of handle_response on every datagram, read off the bytes and the table: which
      assert fires, what is ignored, and which query is completed. */
  lemma DatagramChecks(s: State, b: seq<Byte>, room: nat)
    requires |s.table| == SLOTS
    ensures var e := HandleDatagram(s, b, room);
            if |b| < 16 || UnLE(b[8..16]) != |b| then e == Fires(LengthMismatch)
            else
              var kind, id := UnLE(b[0..4]), UnLE(b[4..8]);
              var q := s.table[id % 256];
              if kind == 8 then e == After(s.(dead := true))
              else if q.None? || q.value.tick % 0x1_0000_0000 != id || kind !in {1, 3, 6} then e == After(s)
              else if |b| < (if kind == 3 then 48 else 32) then e == Fires(TooShort)
              else if kind != (match q.value.lookup
                               case AddrLookup(_, _, _) => 1
                               case NameLookup(_, _, _, _) => 3
                               case ResLookup(_, _, _, _) => 6) then e == Fires(WrongType)
              else if q.value.answer.Some? then e == Fires(DoneTwice)
              else exists a :: ReplyKind(a) == kind && e == After(Complete(s, id % 256, a))
  {
    hide GetStatus, AddrCodec.ReadReply, NameField, Complete, UnLE;
    var p := ParseReply(b, room);
    assert p.Message? && p.reply.Answered? ==> ReplyKind(p.reply.answer) == GetHeader(b).kind;
  }

  lemma HandleDatagramValid(s: State, b: seq<Byte>, room: nat)
    requires Valid(s) && HandleDatagram(s, b, room).After?
    ensures Valid(HandleDatagram(s, b, room).value)
  {
    hide Valid, ParseReply, HandleResponse;
    TableSize(s);
    var p := ParseReply(b, room);
    if p.Message? {
      HandleResponseValid(s, p.reply);
    }
  }

  lemma NameReplyCuts(b: seq<Byte>, head: seq<Byte>, x: seq<Byte>, y: seq<Byte>, st: seq<Byte>, pad: seq<Byte>,
                      tail: seq<Byte>)
    requires |head| == 16 && |x| == 8 && |y| == 8 && |st| == 12 && |pad| == 4
    requires b == head + (x + y + st + pad) + tail
    ensures b[16..24] == x && b[24..32] == y && b[32..44] == st && b[48..] == tail
  {
    var f := x + y + st + pad;
    Cut(b, head, f, tail);
    assert f[0..8] == x && f[8..16] == y && f[16..28] == st;
    assert b[16..24] == f[0..8] && b[24..32] == f[8..16] && b[32..44] == f[16..28];
  }

  lemma NameReplyParts(id: Word32, st: Status, host: Option<seq<Byte>>, serv: Option<seq<Byte>>)
    ensures var b := NameReply(id, st, host, serv);
            && b[16..24] == LE(|Present(host)|, SIZE_T) && b[24..32] == LE(|Present(serv)|, SIZE_T)
            && b[32..44] == PutStatus(st) && b[NAME_REPLY..] == Present(host) + Present(serv)
  {
    hide PutHeader, LE, PutStatus, Padding;
    var b, h, v := NameReply(id, st, host, serv), Present(host), Present(serv);
    var head := PutHeader(Header(RESPONSE_NAMEINFO, id, NAME_REPLY + |h| + |v|));
    NameReplyCuts(b, head, LE(|h|, SIZE_T), LE(|v|, SIZE_T), PutStatus(st), Padding(4), h + v);
  }

  lemma NameFieldRoundTrip(s: Option<seq<Byte>>, rest: seq<Byte>)
    requires s.Some? ==> IsCString(s.value)
    ensures NameField(Present(s) + rest, |Present(s)|) == s
  {
    if s.Some? {
      StrNDupFront(s.value, rest);
    }
  }

  /** Names come back as they were sent. */
  lemma NameReplyRoundTrip(id: Word32, st: Status, host: Option<seq<Byte>>, serv: Option<seq<Byte>>, room: nat)
    requires (host.Some? ==> IsCString(host.value)) && (serv.Some? ==> IsCString(serv.value))
    requires |Present(host)| <= NI_MAXHOST && |Present(serv)| <= NI_MAXSERV
    ensures ParseReply(NameReply(id, st, host, serv), room) == Message(Answered(id, NameAnswer(st, host, serv)))
  {
    hide PutHeader, GetHeader, LE, UnLE, PutStatus, GetStatus, Range, NameField, IsCString;
    RangeValues();
    var b, h, v := NameReply(id, st, host, serv), Present(host), Present(serv);
    var fields := LE(|h|, SIZE_T) + LE(|v|, SIZE_T) + PutStatus(st) + Padding(4);
    HeaderRoundTrip(Header(RESPONSE_NAMEINFO, id, |b|), fields + (h + v));
    assert b == PutHeader(Header(RESPONSE_NAMEINFO, id, |b|)) + (fields + (h + v));
    NameReplyParts(id, st, host, serv);
    assert (h + v)[|h|..] == v + [];
    UnLEOfLE(|h|, SIZE_T);
    UnLEOfLE(|v|, SIZE_T);
    StatusRoundTrip(st);
    NameFieldRoundTrip(host, v);
    NameFieldRoundTrip(serv, []);
  }

  lemma ResReplyParts(id: Word32, st: Status, data: seq<Byte>)
    requires |data| < 0x1_0000_0000
    ensures var b := ResReply(id, st, data);
            GetHeader(b) == Header(RESPONSE_RES, id, |b|) && b[16..28] == PutStatus(st) && b[RES_REPLY..] == data
  {
    hide PutHeader, GetHeader, PutStatus, Padding, Range;
    RangeValues();
    var b, f := ResReply(id, st, data), PutStatus(st) + Padding(4);
    var h := Header(RESPONSE_RES, id, |b|);
    HeaderRoundTrip(h, f + data);
    assert b == PutHeader(h) + (f + data);
    Cut(b, PutHeader(h), f, data);
    assert b[16..28] == f[0..12];
  }

  /** A resolver answer arrives unchanged exactly when it is at most 10224 bytes long; a longer
      one is cut by recv, and the client's length assert fires. */
  lemma ResReplyArrivesIff(id: Word32, st: Status, data: seq<Byte>, room: nat)
    requires |data| == (if st.ret < 0 then 0 else st.ret)
    requires EncodeReply(id, ResAnswer(st, data)).Some?
    ensures var b := EncodeReply(id, ResAnswer(st, data)).value;
            ParseReply(Received(b), room) ==
              if |data| <= RECV_BUFFER - RES_REPLY then Message(Answered(id, ResAnswer(st, data))) else BadLength
  {
    hide PutHeader, GetHeader, PutStatus, GetStatus;
    var b := ResReply(id, st, data);
    ResReplyParts(id, st, data);
    StatusRoundTrip(st);
    if |b| > RECV_BUFFER {
      assert GetHeader(Received(b)) == GetHeader(b) by {
        HeaderOfPrefix(b, RECV_BUFFER);
      }
    } else {
      assert data[..|data|] == data;
    }
  }

  lemma HeaderOfPrefix(b: seq<Byte>, n: nat)
    requires HEADER <= n <= |b|
    ensures GetHeader(b[..n]) == GetHeader(b)
  {
    assert b[..n][0..4] == b[0..4] && b[..n][4..8] == b[4..8] && b[..n][8..16] == b[8..16];
  }

  /** What a caller of the lookup functions can get back: representable nodes, C strings, and
      exactly as much data as the return code says. */
  predicate Plain(a: Answer) {
    match a
    case AddrAnswer(_, nodes) => forall n :: n in nodes ==> Representable(n)
    case NameAnswer(_, host, serv) =>
      && (host.Some? ==> IsCString(host.value)) && (serv.Some? ==> IsCString(serv.value))
      && |Present(host)| <= NI_MAXHOST && |Present(serv)| <= NI_MAXSERV
    case ResAnswer(st, data) => |data| == (if st.ret < 0 then 0 else st.ret)
  }

  /** No assert ends the worker while it replies. */
  predicate Sendable(a: Answer) {
    match a
    case AddrAnswer(st, nodes) =>
      var k := AddrCodec.FirstMisfit(nodes, 0);
      st.ret != 0 || k == |nodes| || AddrCodec.Checked(nodes, k)
    case NameAnswer(_, _, _) => true
    case ResAnswer(st, _) => st.ret <= AddrCodec.REPLY_BUFFER - RES_REPLY
  }

  /** The reply fits the client's receive buffer. */
  predicate Receivable(a: Answer) {
    a.ResAnswer? ==> |a.data| <= RECV_BUFFER - RES_REPLY
  }

  predicate Deliverable(a: Answer) {
    Sendable(a) && Receivable(a)
  }

  /** What the client stores of a worker's answer: an address list is cut at the first node that
      does not fit the reply, or at the client's memory, and then the code says EAI_MEMORY. */
  function Arrived(a: Answer, room: nat): (r: Answer)
    ensures ReplyKind(r) == ReplyKind(a)
  {
    match a
    case AddrAnswer(st, nodes) =>
      var k := if st.ret != 0 then 0 else AddrCodec.FirstMisfit(nodes, 0);
      var status := if st.ret == 0 && k < |nodes| then st.(ret := AddrCodec.EAI_MEMORY) else st;
      if k <= room then AddrAnswer(status, nodes[..k])
      else AddrAnswer(status.(ret := AddrCodec.EAI_MEMORY), nodes[..room])
    case _ => a
  }

  lemma SendableIff(id: Word32, a: Answer)
    ensures EncodeReply(id, a).Some? <==> Sendable(a)
  {
    hide AddrCodec.FirstMisfit, AddrCodec.Checked, AddrCodec.Reply, NameReply, ResReply;
  }

  /** Worker to client, over the wire, for every answer a worker can give: what is sent is either
      longer than the client's buffer, and then its length assert fires, or the client acts on
      the answer as cut. */
  lemma ReplyRoundTrip(id: Word32, a: Answer, room: nat)
    requires Plain(a) && Sendable(a)
    ensures EncodeReply(id, a).Some?
    ensures var d := EncodeReply(id, a).value;
            && (|d| <= RECV_BUFFER <==> Receivable(a))
            && ParseReply(Received(d), room) ==
               if Receivable(a) then Message(Answered(id, Arrived(a, room))) else BadLength
  {
    hide ParseReply, PutHeader, LE, PutStatus, IsCString, Representable, AddrCodec.WorkerReply,
      AddrCodec.FirstMisfit, AddrCodec.Checked;
    SendableIff(id, a);
    match a {
      case AddrAnswer(st, nodes) =>
        AddrRoundTrip(id, st, nodes, room);
      case NameAnswer(st, host, serv) =>
        NameReplyRoundTrip(id, st, host, serv, room);
      case ResAnswer(st, data) =>
        ResReplyArrivesIff(id, st, data, room);
    }
  }

  lemma AddrRoundTrip(id: Word32, st: Status, nodes: seq<AddrNode>, room: nat)
    requires forall n :: n in nodes ==> Representable(n)
    requires EncodeReply(id, AddrAnswer(st, nodes)).Some?
    ensures var d := EncodeReply(id, AddrAnswer(st, nodes)).value;
            && |d| <= RECV_BUFFER
            && ParseReply(d, room) == Message(Answered(id, Arrived(AddrAnswer(st, nodes), room)))
  {
    hide GetHeader, Representable, AddrCodec.FirstMisfit, AddrCodec.Reply, AddrCodec.ReadReply;
    AddrCodec.AddrReplyDelivered(id, st, nodes, room);
  }

  /** The reply buffer holds all of the answer, and a failed lookup brings no list. */
  predicate Uncut(a: Answer) {
    a.AddrAnswer? ==>
      if a.status.ret == 0 then AddrCodec.FirstMisfit(a.nodes, 0) == |a.nodes| else a.nodes == []
  }

  /** The client stores the very answer the worker gave iff it is uncut and a list fits the
      client's memory. */
  lemma ArrivesUnchangedIff(a: Answer, room: nat)
    ensures Arrived(a, room) == a <==> Uncut(a) && (a.AddrAnswer? ==> |a.nodes| <= room)
  {
    hide AddrCodec.FirstMisfit;
    if a.AddrAnswer? {
      assert a.nodes[..|a.nodes|] == a.nodes && a.nodes[..0] == [];
      var cut := Arrived(a, room);
      assert cut == a ==> cut.status.ret == a.status.ret && |cut.nodes| == |a.nodes|;
    }
  }

  /** Memory for 159 address nodes is as good as any: then a list is cut at most where the reply
      buffer cut it. */
  lemma AmpleRoom(a: Answer, room: nat)
    requires room >= AddrCodec.MOST_NODES
    ensures Arrived(a, room) == Arrived(a, AddrCodec.MOST_NODES)
    ensures a.AddrAnswer? && a.status.ret == 0 ==>
              Arrived(a, room).nodes == a.nodes[..AddrCodec.FirstMisfit(a.nodes, 0)]
    ensures Arrived(a, room) == a <==> Uncut(a)
  {
    hide AddrCodec.FirstMisfit;
    ArrivesUnchangedIff(a, room);
    if a.AddrAnswer? {
      AddrCodec.AtMostNodes(a.nodes);
    }
  }

  /** Whatever arrives, the message taken from it is one the client's fields can hold. */
  lemma ParsedNormal(b: seq<Byte>, room: nat)
    requires ParseReply(b, room).Message?
    ensures Normal(ParseReply(b, room).reply)
  {
    hide GetHeader, GetStatus, UnLE, AddrCodec.ReadReply, StrNDup;
    if |b| >= NAME_REPLY && GetHeader(b).kind == RESPONSE_NAMEINFO {
      var hostLen, tail := UnLE(b[16..24]), b[NAME_REPLY..];
      NameFieldIsCString(tail, hostLen);
      NameFieldIsCString(if hostLen <= |tail| then tail[hostLen..] else [], UnLE(b[24..32]));
    }
  }

  lemma NameFieldIsCString(b: seq<Byte>, len: nat)
    ensures var f := NameField(b, len); f.Some? ==> IsCString(f.value)
  {
    if len > 0 {
      StrNDupIsCString(b, len - 1);
    }
  }

  lemma {:induction false} StrNDupIsCString(s: seq<Byte>, n: nat)
    ensures IsCString(StrNDup(s, n))
  {
    if !(|s| == 0 || n == 0 || s[0] == 0) {
      StrNDupIsCString(s[1..], n - 1);
    }
  }

  lemma DeathNoticeRoundTrip(room: nat)
    ensures ParseReply(Received(DEATH_NOTICE), room) == Message(Died)
  {
    hide PutHeader, GetHeader, Range;
    RangeValues();
    HeaderRoundTrip(Header(RESPONSE_DIED, 0, HEADER), []);
    assert DEATH_NOTICE + [] == DEATH_NOTICE;
  }
}
