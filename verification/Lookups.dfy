/** What a client asks for and what it is answered. */
module Lookups {
  import opened Wrappers
  import opened Bytes
  import opened AddrInfos
  import opened Datagram

  datatype Hints = Hints(flags: Int32, family: Int32, socktype: Int32, protocol: Int32)

  /** The three kinds of query; strings are C strings with their terminating zero. */
  datatype Lookup =
    | AddrLookup(node: Option<seq<Byte>>, service: Option<seq<Byte>>, hints: Option<Hints>)
    | NameLookup(sockaddr: seq<Byte>, flags: Int32, gethost: Int32, getserv: Int32)
    | ResLookup(search: bool, dname: seq<Byte>, rclass: Int32, rtype: Int32)

  datatype Answer =
    | AddrAnswer(status: Status, nodes: seq<AddrNode>)
    | NameAnswer(status: Status, host: Option<seq<Byte>>, serv: Option<seq<Byte>>)
    | ResAnswer(status: Status, data: seq<Byte>)

  function RequestKind(l: Lookup): Word32 {
    match l
    case AddrLookup(_, _, _) => REQUEST_ADDRINFO
    case NameLookup(_, _, _, _) => REQUEST_NAMEINFO
    case ResLookup(search, _, _, _) => if search then REQUEST_RES_SEARCH else REQUEST_RES_QUERY
  }

  function ReplyKind(a: Answer): Word32 {
    match a
    case AddrAnswer(_, _) => RESPONSE_ADDRINFO
    case NameAnswer(_, _, _) => RESPONSE_NAMEINFO
    case ResAnswer(_, _) => RESPONSE_RES
  }

  /** What the issuing functions assert about their arguments. */
  predicate Askable(l: Lookup) {
    match l
    case AddrLookup(node, service, _) => node.Some? || service.Some?
    case NameLookup(sockaddr, _, _, _) => |sockaddr| > 0
    case ResLookup(_, _, _, _) => true
  }

  /** sizeof of the request structures. */
  const ADDR_REQUEST: nat := 56
  const NAME_REQUEST: nat := 32
  const RES_REQUEST: nat := 32

  function Present(s: Option<seq<Byte>>): seq<Byte> {
    if s.Some? then s.value else []
  }

  /** The length of the request datagram. */
  function RequestSize(l: Lookup): nat {
    match l
    case AddrLookup(node, service, _) => ADDR_REQUEST + |Present(node)| + |Present(service)|
    case NameLookup(sockaddr, _, _, _) => NAME_REQUEST + |sockaddr|
    case ResLookup(_, dname, _, _) => RES_REQUEST + |dname|
  }

  /** handle_response's type asserts: the reply kinds a query of the given type accepts. */
  predicate Accepts(requestKind: Word32, replyKind: Word32) {
    || (replyKind == RESPONSE_ADDRINFO && requestKind == REQUEST_ADDRINFO)
    || (replyKind == RESPONSE_NAMEINFO && requestKind == REQUEST_NAMEINFO)
    || (replyKind == RESPONSE_RES && (requestKind == REQUEST_RES_QUERY || requestKind == REQUEST_RES_SEARCH))
  }

  /** The outcome of the lookup call a worker makes; which parts of it count depends on the request. */
  datatype Raw = Raw(status: Status, nodes: seq<AddrNode>, host: Option<seq<Byte>>, serv: Option<seq<Byte>>,
                     data: seq<Byte>)

  /** handle_request's switch: the kind of the reply follows the kind of the request, and names
      are passed on only if they were asked for and the lookup succeeded. */
  function Render(l: Lookup, raw: Raw): (a: Answer)
    ensures Accepts(RequestKind(l), ReplyKind(a))
  {
    match l
    case AddrLookup(_, _, _) => AddrAnswer(raw.status, raw.nodes)
    case NameLookup(_, _, gethost, getserv) =>
      NameAnswer(raw.status, if raw.status.ret == 0 && gethost != 0 then raw.host else None,
                 if raw.status.ret == 0 && getserv != 0 then raw.serv else None)
    case ResLookup(_, _, _, _) => ResAnswer(raw.status, raw.data)
  }

  /** What the reply is made of, field by field. */
  lemma RenderFields(l: Lookup, raw: Raw)
    ensures var a := Render(l, raw);
            && a.status == raw.status
            && (l.AddrLookup? ==> a.AddrAnswer? && a.nodes == raw.nodes)
            && (l.NameLookup? ==>
                  && a.NameAnswer?
                  && a.host == (if raw.status.ret == 0 && l.gethost != 0 then raw.host else None)
                  && a.serv == (if raw.status.ret == 0 && l.getserv != 0 then raw.serv else None))
            && (l.ResLookup? ==> a.ResAnswer? && a.data == raw.data)
  {
  }
}
