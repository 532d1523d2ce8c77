/** The address-list reply: written by a worker, read back by the client. */
module AddrCodec {
  import opened Wrappers
  import opened Bytes
  import opened AddrInfos
  import opened Datagram

  /** sizeof(addrinfo_response_t), sizeof(addrinfo_serialization_t). */
  const RESPONSE_HEADER: nat := 32
  const NODE_HEADER: nat := 32
  /** The size of the reply buffer: BUFSIZE rounded up by one more response header. */
  const REPLY_BUFFER: nat := (BUFSIZE / RESPONSE_HEADER + 1) * RESPONSE_HEADER

  const EAI_MEMORY: Int32 := -10

  // ----- one node

  function CanonBytes(n: AddrNode): seq<Byte> {
    if n.canon.Some? then n.canon.value else []
  }

  function NodeHeader(n: AddrNode): (s: seq<Byte>)
    ensures |s| == NODE_HEADER
  {
    PutInt(n.flags) + PutInt(n.family) + PutInt(n.socktype) + PutInt(n.protocol)
    + LE(|n.addr|, SIZE_T) + LE(|CanonBytes(n)|, SIZE_T)
  }

  /** The l of serialize_addrinfo. */
  function NodeSize(n: AddrNode): nat {
    NODE_HEADER + |n.addr| + |CanonBytes(n)|
  }

  function EncodeNode(n: AddrNode): (s: seq<Byte>)
    ensures |s| == NodeSize(n)
  {
    NodeHeader(n) + n.addr + CanonBytes(n)
  }

  /** unserialize_addrinfo on the bytes from p on: a node, or None when they do not hold one. */
  function DecodeNode(b: seq<Byte>): (r: Option<AddrNode>)
    ensures r.Some? ==> |EncodeNode(r.value)| <= |b|
  {
    if |b| < NODE_HEADER then None
    else
      var addrlen, canonlen := UnLE(b[16..24]), UnLE(b[24..32]);
      var l := NODE_HEADER + addrlen + canonlen;
      if |b| < l then None
      else Some(AddrNode(GetInt(b[0..4]), GetInt(b[4..8]), GetInt(b[8..12]), GetInt(b[12..16]),
                         b[NODE_HEADER..NODE_HEADER + addrlen],
                         if canonlen == 0 then None else Some(b[NODE_HEADER + addrlen..l])))
  }

  /** The six fields of a node header, wherever it is cut. */
  lemma HeaderFields(h: seq<Byte>, a: seq<Byte>, b: seq<Byte>, c: seq<Byte>, d: seq<Byte>, e: seq<Byte>, f: seq<Byte>)
    requires |a| == 4 && |b| == 4 && |c| == 4 && |d| == 4 && |e| == 8 && |f| == 8
    requires |h| >= NODE_HEADER
    ensures h[..32] == a + b + c + d + e + f
       <==> h[0..4] == a && h[4..8] == b && h[8..12] == c && h[12..16] == d && h[16..24] == e && h[24..32] == f
  {
    assert h[..32] == h[0..4] + h[4..8] + h[8..12] + h[12..16] + h[16..24] + h[24..32];
    if h[..32] == a + b + c + d + e + f {
      forall i | 0 <= i < 4
        ensures h[0..4][i] == a[i] && h[4..8][i] == b[i] && h[8..12][i] == c[i] && h[12..16][i] == d[i]
      {
        assert h[i] == h[..32][i] && h[4 + i] == h[..32][4 + i]
            && h[8 + i] == h[..32][8 + i] && h[12 + i] == h[..32][12 + i];
      }
      forall i | 0 <= i < 8
        ensures h[16..24][i] == e[i] && h[24..32][i] == f[i]
      {
        assert h[16 + i] == h[..32][16 + i] && h[24 + i] == h[..32][24 + i];
      }
    }
  }

  /** Reading back a node that was just written, whatever bytes follow it. */
  lemma DecodeEncodedNode(n: AddrNode, rest: seq<Byte>)
    requires Representable(n)
    ensures DecodeNode(EncodeNode(n) + rest) == Some(n)
  {
    hide PutInt, GetInt, LE, UnLE, Range;
    var b := EncodeNode(n) + rest;
    assert b[..32] == NodeHeader(n);
    HeaderFields(b, PutInt(n.flags), PutInt(n.family), PutInt(n.socktype), PutInt(n.protocol),
                 LE(|n.addr|, SIZE_T), LE(|CanonBytes(n)|, SIZE_T));
    IntRoundTrip(n.flags);
    IntRoundTrip(n.family);
    IntRoundTrip(n.socktype);
    IntRoundTrip(n.protocol);
    UnLEOfLE(|n.addr|, SIZE_T);
    UnLEOfLE(|CanonBytes(n)|, SIZE_T);
    assert b[32..32 + |n.addr|] == n.addr;
    assert b[32 + |n.addr|..32 + |n.addr| + |CanonBytes(n)|] == CanonBytes(n);
  }

  /** On any bytes at all, a node that decodes re-encodes to exactly the bytes it was read from. */
  lemma EncodeDecodedNode(b: seq<Byte>)
    requires DecodeNode(b).Some?
    ensures EncodeNode(DecodeNode(b).value) <= b
  {
    hide PutInt, GetInt, LE, UnLE, Range;
    var n := DecodeNode(b).value;
    IntCanonical(b[0..4]);
    IntCanonical(b[4..8]);
    IntCanonical(b[8..12]);
    IntCanonical(b[12..16]);
    LEOfUnLE(b[16..24]);
    LEOfUnLE(b[24..32]);
    HeaderFields(b, PutInt(n.flags), PutInt(n.family), PutInt(n.socktype), PutInt(n.protocol),
                 LE(|n.addr|, SIZE_T), LE(|CanonBytes(n)|, SIZE_T));
    assert NodeHeader(n) == b[..32];
    assert b[..|EncodeNode(n)|] == b[..32] + n.addr + CanonBytes(n);
  }

  // ----- a list of nodes

  function ListSize(ns: seq<AddrNode>): nat {
    if |ns| == 0 then 0 else NodeSize(ns[0]) + ListSize(ns[1..])
  }

  function EncodeNodes(ns: seq<AddrNode>): (s: seq<Byte>)
    ensures |s| == ListSize(ns)
  {
    if |ns| == 0 then [] else EncodeNode(ns[0]) + EncodeNodes(ns[1..])
  }

  datatype Decoded = Decoded(nodes: seq<AddrNode>, complete: bool)

  /** The client's decode loop. `room` is how many nodes the client's memory still
      holds; running out of it, like a malformed node, ends the loop early. */
  function DecodeNodes(b: seq<Byte>, room: nat): Decoded
    decreases |b|
  {
    if |b| == 0 then Decoded([], true)
    else
      match DecodeNode(b)
      case None => Decoded([], false)
      case Some(n) =>
        if room == 0 then Decoded([], false)
        else
          var d := DecodeNodes(b[|EncodeNode(n)|..], room - 1);
          Decoded([n] + d.nodes, d.complete)
  }

  lemma {:induction false} EncodeNodesAppend(ns: seq<AddrNode>, n: AddrNode)
    ensures EncodeNodes(ns + [n]) == EncodeNodes(ns) + EncodeNode(n)
  {
    if |ns| == 0 {
      assert EncodeNodes([]) == [] && (ns + [n])[1..] == [];
      assert EncodeNodes(ns + [n]) == EncodeNode(n) + EncodeNodes((ns + [n])[1..]);
    } else {
      assert (ns + [n])[1..] == ns[1..] + [n];
      EncodeNodesAppend(ns[1..], n);
      assert EncodeNode(ns[0]) + (EncodeNodes(ns[1..]) + EncodeNode(n))
          == EncodeNode(ns[0]) + EncodeNodes(ns[1..]) + EncodeNode(n);
    }
  }

  /** Decoding an encoded list gives back the list, in order, up to the memory there is. */
  lemma {:induction false} DecodeEncodedNodes(ns: seq<AddrNode>, room: nat)
    requires forall n :: n in ns ==> Representable(n)
    ensures var d := DecodeNodes(EncodeNodes(ns), room);
            d.complete == (|ns| <= room) && d.nodes == if |ns| <= room then ns else ns[..room]
  {
    hide DecodeNode, EncodeNode, Representable;
    if |ns| > 0 {
      var b, tail := EncodeNodes(ns), EncodeNodes(ns[1..]);
      DecodeEncodedNode(ns[0], tail);
      assert b[|EncodeNode(ns[0])|..] == tail;
      if room > 0 {
        DecodeEncodedNodes(ns[1..], room - 1);
        assert DecodeNodes(b, room).nodes == [ns[0]] + DecodeNodes(tail, room - 1).nodes;
      }
    }
  }

  /** On every byte string the decode loop reads only what it is given: the nodes it
      accepts re-encode to a prefix of the bytes, all of them when it ran to the end. */
  lemma {:induction false} DecodeAnyBytes(b: seq<Byte>, room: nat)
    ensures var d := DecodeNodes(b, room);
            && EncodeNodes(d.nodes) <= b
            && (d.complete <==> EncodeNodes(d.nodes) == b)
            && |d.nodes| <= room
            && NODE_HEADER * |d.nodes| <= |b|
    decreases |b|
  {
    hide DecodeNode, EncodeNode;
    if |b| > 0 && DecodeNode(b).Some? && room > 0 {
      var n := DecodeNode(b).value;
      var rest := b[|EncodeNode(n)|..];
      var d := DecodeNodes(rest, room - 1);
      EncodeDecodedNode(b);
      DecodeAnyBytes(rest, room - 1);
      assert b == EncodeNode(n) + rest;
      assert ([n] + d.nodes)[1..] == d.nodes;
      assert EncodeNodes([n] + d.nodes) == EncodeNode(n) + EncodeNodes(d.nodes);
    }
  }

  // ----- how much fits

  /** The reply length once the first k nodes are written. */
  function Filled(ns: seq<AddrNode>, k: nat): nat
    requires k <= |ns|
  {
    RESPONSE_HEADER + ListSize(ns[..k])
  }

  /** serialize_addrinfo's assert and its room test at node k. The length already counts
      the bytes before p, and maxlength is only what is left after p. */
  predicate Checked(ns: seq<AddrNode>, k: nat)
    requires k <= |ns|
  {
    2 * Filled(ns, k) <= BUFSIZE
  }

  predicate Fits(ns: seq<AddrNode>, k: nat)
    requires k < |ns|
  {
    2 * Filled(ns, k) + NodeSize(ns[k]) <= BUFSIZE
  }

  /** The first node from k on that does not fit. */
  function FirstMisfit(ns: seq<AddrNode>, k: nat): (r: nat)
    requires k <= |ns|
    ensures k <= r <= |ns|
    ensures forall j :: k <= j < r ==> Fits(ns, j)
    ensures r < |ns| ==> !Fits(ns, r)
    decreases |ns| - k
  {
    if k < |ns| && Fits(ns, k) then FirstMisfit(ns, k + 1) else k
  }

  lemma FilledNext(ns: seq<AddrNode>, k: nat)
    requires k < |ns|
    ensures EncodeNodes(ns[..k + 1]) == EncodeNodes(ns[..k]) + EncodeNode(ns[k])
    ensures Filled(ns, k + 1) == Filled(ns, k) + NodeSize(ns[k])
  {
    hide EncodeNode, EncodeNodes;
    assert ns[..k + 1] == ns[..k] + [ns[k]];
    EncodeNodesAppend(ns[..k], ns[k]);
    ListSizeAppend(ns[..k], ns[k]);
  }

  lemma {:induction false} ListSizeAppend(ns: seq<AddrNode>, n: AddrNode)
    ensures ListSize(ns + [n]) == ListSize(ns) + NodeSize(n)
  {
    hide NodeSize;
    if |ns| == 0 {
      assert (ns + [n])[1..] == [];
    } else {
      assert (ns + [n])[1..] == ns[1..] + [n];
      ListSizeAppend(ns[1..], n);
    }
  }

  lemma {:induction false} FilledMonotone(ns: seq<AddrNode>, j: nat, k: nat)
    requires j <= k <= |ns|
    ensures Filled(ns, j) <= Filled(ns, k)
    decreases k - j
  {
    if j < k {
      FilledMonotone(ns, j, k - 1);
      FilledNext(ns, k - 1);
    }
  }

  lemma MisfitStays(ns: seq<AddrNode>, r: nat, k: nat)
    requires r <= k < |ns| && !Fits(ns, r)
    ensures !Fits(ns, k)
  {
    hide EncodeNode, Filled;
    if r < k {
      FilledNext(ns, r);
      FilledMonotone(ns, r + 1, k);
    }
  }

  /** Exact capacity: a list is sent whole iff its last node still fits. */
  lemma SentWholeIff(ns: seq<AddrNode>)
    ensures FirstMisfit(ns, 0) == |ns| <==> ns == [] || Fits(ns, |ns| - 1)
  {
    hide FirstMisfit, Fits;
    var r := FirstMisfit(ns, 0);
    if r < |ns| {
      MisfitStays(ns, r, |ns| - 1);
    }
  }

  lemma {:induction false} UniformSize(ns: seq<AddrNode>, size: nat)
    requires forall n :: n in ns ==> NodeSize(n) == size
    ensures ListSize(ns) == size * |ns|
  {
    hide NodeSize;
    if |ns| > 0 {
      UniformSize(ns[1..], size);
    }
  }

  lemma {:induction false} ListSizeAtLeast(ns: seq<AddrNode>)
    ensures ListSize(ns) >= NODE_HEADER * |ns|
  {
    if |ns| > 0 {
      ListSizeAtLeast(ns[1..]);
    }
  }

  /** The most nodes that go into one reply. */
  const MOST_NODES: nat := 159

  lemma AtMostNodes(ns: seq<AddrNode>)
    ensures FirstMisfit(ns, 0) <= MOST_NODES
  {
    hide FirstMisfit, ListSize;
    var k := FirstMisfit(ns, 0);
    if k > 0 {
      assert Fits(ns, k - 1);
      ListSizeAtLeast(ns[..k - 1]);
    }
  }

  /** That many do go in, if they have neither address nor name. */
  lemma MostNodesFit(ns: seq<AddrNode>)
    requires |ns| >= MOST_NODES && forall n :: n in ns ==> |n.addr| == 0 && n.canon == None
    ensures FirstMisfit(ns, 0) == MOST_NODES
  {
    hide EncodeNodes, EncodeNode;
    AtMostNodes(ns);
    forall k | 0 <= k <= |ns|
      ensures Filled(ns, k) == 32 + 32 * k
    {
      UniformSize(ns[..k], NODE_HEADER);
    }
    assert forall k :: 0 <= k < MOST_NODES ==> Fits(ns, k);
  }

  /** The assert is reachable: a lookup answered by 86 or more IPv6 addresses (28-byte socket
      addresses, no canonical name) never gets a reply, because the 85th node is accepted at
      a length at which the test on entry for the 86th fails. */
  lemma LongAnswerAborts(id: Word32, st: Status, ns: seq<AddrNode>)
    requires st.ret == 0 && |ns| >= 86
    requires forall n :: n in ns ==> |n.addr| == 28 && n.canon == None
    ensures WorkerReply(id, st, ns) == Aborted
  {
    hide EncodeNodes, EncodeNode;
    forall k | 0 <= k <= |ns|
      ensures Filled(ns, k) == 32 + 60 * k
    {
      UniformSize(ns[..k], 60);
    }
    assert !Fits(ns, 85) && (forall k :: 0 <= k < 85 ==> Fits(ns, k));
    assert FirstMisfit(ns, 0) == 85;
  }

  // ----- the worker's side: send_addrinfo_reply

  function ReplyHeader(id: Word32, st: Status, length: nat): (s: seq<Byte>)
    ensures |s| == RESPONSE_HEADER
  {
    PutHeader(Header(RESPONSE_ADDRINFO, id, length)) + PutStatus(st) + Padding(4)
  }

  function Reply(id: Word32, st: Status, ns: seq<AddrNode>): seq<Byte> {
    ReplyHeader(id, st, RESPONSE_HEADER + |EncodeNodes(ns)|) + EncodeNodes(ns)
  }

  datatype Step = AssertFails | NoRoom | Written(p: nat, length: nat)
  datatype Outcome = Aborted | Sent(datagram: seq<Byte>)

  /** What leaves the worker for a lookup that ended with st and the list ns: the list whole,
      the part before the first node that does not fit, or nothing because the assert fired. */
  function WorkerReply(id: Word32, st: Status, ns: seq<AddrNode>): Outcome {
    var k := FirstMisfit(ns, 0);
    if st.ret != 0 then Sent(Reply(id, st, []))
    else if k == |ns| then Sent(Reply(id, st, ns))
    else if Checked(ns, k) then Sent(Reply(id, st.(ret := EAI_MEMORY), ns[..k]))
    else Aborted
  }

  /** serialize_addrinfo: one node into buf at p, with maxlength bytes left from p on. */
  method SerializeAddrInfo(buf: array<Byte>, p: nat, ai: AddrInfo, length: nat, maxlength: nat) returns (r: Step)
    requires p + maxlength <= buf.Length
    modifies buf
    ensures var l := |EncodeNode(old(ai.Node()))|;
            r == if length > maxlength then AssertFails
                 else if length + l > maxlength then NoRoom
                 else Written(p + l, length + l)
    ensures buf[..p] == old(buf[..p])
    ensures r.Written? ==> buf[p..r.p] == EncodeNode(old(ai.Node()))
    ensures !r.Written? ==> buf[..] == old(buf[..])
  {
    hide PutInt, LE;
    if length > maxlength {
      return AssertFails;
    }
    var cn := if ai.canon.Some? then ai.canon.value else [];
    var l := NODE_HEADER + |ai.addr| + |cn|;
    if length + l > maxlength {
      return NoRoom;
    }
    ghost var n := ai.Node();
    var header := PutInt(ai.flags) + PutInt(ai.family) + PutInt(ai.socktype) + PutInt(ai.protocol)
                + LE(|ai.addr|, SIZE_T) + LE(|cn|, SIZE_T);
    Put(buf, p, header + ai.addr + cn);
    return Written(p + l, length + l);
  }

  lemma MisfitStep(ns: seq<AddrNode>, k: nat)
    requires k < |ns|
    ensures FirstMisfit(ns, k) == if Fits(ns, k) then FirstMisfit(ns, k + 1) else k
  {
    hide Fits;
  }

  lemma MisfitEnd(ns: seq<AddrNode>)
    ensures FirstMisfit(ns, |ns|) == |ns| && Filled(ns, 0) == RESPONSE_HEADER
  {
  }

  /** One turn of the loop: the next node behind those already written. */
  method SerializeNext(data: array<Byte>, p: nat, ai: AddrInfo, length: nat, ghost ns: seq<AddrNode>, ghost k: nat)
    returns (r: Step)
    requires data.Length == REPLY_BUFFER && k < |ns| && ns[k] == ai.Node()
    requires p == length == Filled(ns, k) <= BUFSIZE
    requires data[RESPONSE_HEADER..p] == EncodeNodes(ns[..k])
    modifies data
    ensures r == if !Checked(ns, k) then AssertFails
                 else if !Fits(ns, k) then NoRoom
                 else Written(Filled(ns, k + 1), Filled(ns, k + 1))
    ensures r.Written? ==> RESPONSE_HEADER <= r.p <= BUFSIZE && data[RESPONSE_HEADER..r.p] == EncodeNodes(ns[..k + 1])
    ensures !r.Written? ==> data[..] == old(data[..])
  {
    hide EncodeNode, EncodeNodes;
    FilledNext(ns, k);
    ghost var done := data[RESPONSE_HEADER..p];
    r := SerializeAddrInfo(data, p, ai, length, BUFSIZE - p);
    if r.Written? {
      assert data[RESPONSE_HEADER..p] == done;
      assert data[RESPONSE_HEADER..r.p] == data[RESPONSE_HEADER..p] + data[p..r.p];
    }
  }

  /** The loop over the result list: p runs ahead of the written nodes, always at the
      reply length; it stops at the first node that does not fit. */
  method SerializeList(data: array<Byte>, ai: AddrInfo?, ghost chain: seq<AddrInfo>, ghost ns: seq<AddrNode>)
    returns (r: Step, length: nat, ghost k: nat)
    requires data.Length == REPLY_BUFFER && Chain(ai, chain) && ns == Contents(chain)
    modifies data
    ensures k == FirstMisfit(ns, 0)
    ensures length == Filled(ns, k) <= BUFSIZE
    ensures data[RESPONSE_HEADER..length] == EncodeNodes(ns[..k])
    ensures if k == |ns| then r.Written? else if Checked(ns, k) then r.NoRoom? else r.AssertFails?
  {
    hide EncodeNode, EncodeNodes, FirstMisfit, Filled;
    var p, node := RESPONSE_HEADER, ai;
    k, length := 0, RESPONSE_HEADER;
    NoNodes();
    MisfitEnd(ns);
    while node != null
      invariant k <= |ns| && node == if k < |ns| then chain[k] else null
      invariant RESPONSE_HEADER <= p == length == Filled(ns, k) <= BUFSIZE
      invariant FirstMisfit(ns, 0) == FirstMisfit(ns, k)
      invariant data[RESPONSE_HEADER..p] == EncodeNodes(ns[..k])
      decreases |ns| - k
    {
      assert ns[k] == node.Node();
      MisfitStep(ns, k);
      ghost var whole := data[..];
      assert data[RESPONSE_HEADER..length] == whole[RESPONSE_HEADER..length];
      r := SerializeNext(data, p, node, length, ns, k);
      if !r.Written? {
        assert data[RESPONSE_HEADER..length] == whole[RESPONSE_HEADER..length];
        return r, length, k;
      }
      p, length, node, k := r.p, r.length, node.next, k + 1;
    }
    r := Written(p, length);
  }

  /** The reply to an address lookup, built in a buffer of BUFSIZE bytes (rounded up).
      Sent whole, cut at the first node that does not fit, or not at all: the assert
      on entry to serialize_addrinfo ends the worker. */
  method SendAddrInfoReply(id: Word32, st: Status, ai: AddrInfo?, ghost chain: seq<AddrInfo>) returns (out: Outcome)
    requires Chain(ai, chain)
    ensures out == WorkerReply(id, st, Contents(chain))
  {
    hide EncodeNode, EncodeNodes, PutStatus, PutHeader, ReplyHeader, FirstMisfit, Checked, Chain, Fits;
    var data := new Byte[REPLY_BUFFER](_ => 0);
    var length, ret := RESPONSE_HEADER, st.ret;
    NoNodes();
    NullIsEmpty(ai, chain);
    if ret == 0 && ai != null {
      ghost var ns := Contents(chain);
      var r;
      ghost var k;
      r, length, k := SerializeList(data, ai, chain, ns);
      if r.AssertFails? {
        return Aborted;
      }
      if r.NoRoom? {
        ret := EAI_MEMORY;
      }
      assert ns[..|ns|] == ns;
    }
    var datagram := StampHeader(data, ReplyHeader(id, st.(ret := ret), length), length);
    return Sent(datagram);
  }

  lemma NullIsEmpty(ai: AddrInfo?, chain: seq<AddrInfo>)
    requires Chain(ai, chain)
    ensures ai == null ==> Contents(chain) == [] && FirstMisfit(Contents(chain), 0) == 0
  {
  }

  /** The finished header in front of what the loop wrote, and the bytes handed to send. */
  method StampHeader(data: array<Byte>, header: seq<Byte>, length: nat) returns (datagram: seq<Byte>)
    requires |header| <= length <= data.Length
    modifies data
    ensures datagram == header + old(data[|header|..length])
  {
    assert data[|header|..length] == data[|header|..][..length - |header|];
    Put(data, 0, header);
    assert data[|header|..length] == data[|header|..][..length - |header|];
    assert data[..length] == data[0..|header|] + data[|header|..length];
    datagram := data[..length];
  }

  lemma NoNodes()
    ensures EncodeNodes([]) == []
  {
  }

  // ----- the client's side: handle_response on RESPONSE_ADDRINFO

  datatype AddrResult = AddrResult(status: Status, nodes: seq<AddrNode>)

  function ReadReply(b: seq<Byte>, room: nat): AddrResult
    requires |b| >= RESPONSE_HEADER
  {
    var st := GetStatus(b[HEADER..HEADER + 12]);
    var d := DecodeNodes(b[RESPONSE_HEADER..], room);
    AddrResult(if d.complete then st else st.(ret := EAI_MEMORY), d.nodes)
  }

  /** unserialize_addrinfo at p with l bytes left; null when the bytes do not hold a node
      or the client has no memory for it. */
  method UnserializeAddrInfo(resp: seq<Byte>, p: nat, l: nat, memory: bool) returns (ai: AddrInfo?, p': nat, l': nat)
    requires p + l == |resp|
    ensures ai == null <==> DecodeNode(resp[p..]).None? || !memory
    ensures ai != null ==>
      && fresh(ai) && ai.next == null && DecodeNode(resp[p..]) == Some(ai.Node())
      && p' == p + |EncodeNode(ai.Node())| && l' < l && p' + l' == |resp|
  {
    hide UnLE, GetInt, EncodeNode, NodeHeader;
    ai, p', l' := null, p, l;
    if l < NODE_HEADER {
      return;
    }
    var b := resp[p..];
    var addrlen, canonlen := UnLE(b[16..24]), UnLE(b[24..32]);
    var size := NODE_HEADER + addrlen + canonlen;
    if l < size || !memory {
      return;
    }
    ai := new AddrInfo(AddrNode(GetInt(b[0..4]), GetInt(b[4..8]), GetInt(b[8..12]), GetInt(b[12..16]),
                                b[NODE_HEADER..NODE_HEADER + addrlen],
                                if canonlen == 0 then None else Some(b[NODE_HEADER + addrlen..size])));
    p', l' := p + size, l - size;
  }

  lemma DecodeStep(resp: seq<Byte>, p: nat, room: nat)
    requires p < |resp|
    ensures DecodeNode(resp[p..]).None? || room == 0 ==> DecodeNodes(resp[p..], room) == Decoded([], false)
    ensures DecodeNode(resp[p..]).Some? && room > 0 ==>
      var n := DecodeNode(resp[p..]).value;
      var whole, rest := DecodeNodes(resp[p..], room), DecodeNodes(resp[p + |EncodeNode(n)|..], room - 1);
      |whole.nodes| > 0 && whole.nodes[0] == n && whole.nodes[1..] == rest.nodes && whole.complete == rest.complete
  {
    hide DecodeNode, EncodeNode;
    if DecodeNode(resp[p..]).Some? {
      var size := |EncodeNode(DecodeNode(resp[p..]).value)|;
      assert resp[p..][size..] == resp[p + size..];
    }
  }

  /** What the decode loop has built: a list of the nodes read so far, with prev its last. */
  ghost predicate Linked(head: AddrInfo?, prev: AddrInfo?, chain: seq<AddrInfo>, done: seq<AddrNode>)
    reads chain
  {
    && Chain(head, chain) && Contents(chain) == done
    && prev == if chain == [] then null else chain[|chain| - 1]
  }

  lemma NothingLinked()
    ensures Linked(null, null, [], [])
  {
  }

  lemma LinkedIsChain(head: AddrInfo?, prev: AddrInfo?, chain: seq<AddrInfo>, done: seq<AddrNode>)
    requires Linked(head, prev, chain, done)
    ensures Chain(head, chain) && Contents(chain) == done
  {
  }

  /** A new last node: behind prev, or as the head of a list that was empty. */
  method LinkBehind(head: AddrInfo?, prev: AddrInfo?, ai: AddrInfo, ghost chain: seq<AddrInfo>,
                    ghost done: seq<AddrNode>)
    returns (head': AddrInfo?)
    requires Linked(head, prev, chain, done) && ai !in chain && ai.next == null
    modifies prev
    ensures Linked(head', ai, chain + [ai], done + [old(ai.Node())])
  {
    head' := head;
    if prev != null {
      prev.next := ai;
    } else {
      head' := ai;
    }
  }

  /** The decode loop: nodes are linked behind the previous one in the order they arrive. */
  method LinkNodes(resp: seq<Byte>, room: nat) returns (head: AddrInfo?, complete: bool, ghost chain: seq<AddrInfo>)
    requires |resp| >= RESPONSE_HEADER
    ensures Chain(head, chain) && fresh(chain)
    ensures Decoded(Contents(chain), complete) == DecodeNodes(resp[RESPONSE_HEADER..], room)
  {
    hide DecodeNode, DecodeNodes, EncodeNode, Linked, Chain, Contents;
    NothingLinked();
    var p: nat, l: nat, memory := RESPONSE_HEADER, |resp| - RESPONSE_HEADER, room;
    var prev: AddrInfo? := null;
    head, chain := null, [];
    ghost var done: seq<AddrNode> := [];
    ghost var whole := DecodeNodes(resp[p..], room);
    ghost var rest := whole;
    while l > 0
      invariant p + l == |resp|
      invariant Linked(head, prev, chain, done) && fresh(chain) && (prev != null ==> fresh(prev))
      invariant rest == DecodeNodes(resp[p..], memory)
      invariant whole.nodes == done + rest.nodes && whole.complete == rest.complete
      decreases l
    {
      DecodeStep(resp, p, memory);
      var ai, p', l' := UnserializeAddrInfo(resp, p, l, memory > 0);
      if ai == null {
        LinkedIsChain(head, prev, chain, done);
        return head, false, chain;
      }
      Shift(done, rest.nodes);
      head := LinkBehind(head, prev, ai, chain, done);
      prev, chain, done := ai, chain + [ai], done + [rest.nodes[0]];
      p, l, memory := p', l', memory - 1;
      rest := DecodeNodes(resp[p..], memory);
    }
    DecodedAll(resp[p..], memory);
    LinkedIsChain(head, prev, chain, done);
    return head, true, chain;
  }

  lemma Shift<T>(done: seq<T>, rest: seq<T>)
    requires |rest| > 0
    ensures done + rest == done + [rest[0]] + rest[1..]
  {
  }

  lemma DecodedAll(b: seq<Byte>, room: nat)
    requires |b| == 0
    ensures DecodeNodes(b, room) == Decoded([], true)
  {
  }

  method ReceiveAddrInfo(resp: seq<Byte>, room: nat) returns (st: Status, head: AddrInfo?, ghost chain: seq<AddrInfo>)
    requires |resp| >= RESPONSE_HEADER
    ensures Chain(head, chain) && fresh(chain)
    ensures AddrResult(st, Contents(chain)) == ReadReply(resp, room)
  {
    hide DecodeNodes, GetStatus;
    st := GetStatus(resp[HEADER..HEADER + 12]);
    var complete;
    head, complete, chain := LinkNodes(resp, room);
    if !complete {
      st := st.(ret := EAI_MEMORY);
    }
  }

  // ----- end to end

  lemma ReplyParts(id: Word32, st: Status, ns: seq<AddrNode>)
    requires |Reply(id, st, ns)| < Range(SIZE_T)
    ensures var b := Reply(id, st, ns);
            && GetHeader(b) == Header(RESPONSE_ADDRINFO, id, |b|)
            && b[HEADER..HEADER + 12] == PutStatus(st)
            && b[RESPONSE_HEADER..] == EncodeNodes(ns)
  {
    hide EncodeNodes, PutHeader, PutStatus, GetHeader, Range;
    var b := Reply(id, st, ns);
    var h := Header(RESPONSE_ADDRINFO, id, |b|);
    HeaderRoundTrip(h, PutStatus(st) + Padding(4) + EncodeNodes(ns));
    assert b == PutHeader(h) + (PutStatus(st) + Padding(4) + EncodeNodes(ns));
  }

  /** Worker to client: every reply that is sent passes the client's length checks, names
      the request, and yields the result list up to the first node that did not fit
      (EAI_MEMORY instead of success when some did not), or to the client's memory. */
  lemma AddrReplyDelivered(id: Word32, st: Status, ns: seq<AddrNode>, room: nat)
    requires forall n :: n in ns ==> Representable(n)
    requires WorkerReply(id, st, ns).Sent?
    ensures var d := WorkerReply(id, st, ns).datagram;
            var k := if st.ret != 0 then 0 else FirstMisfit(ns, 0);
            var status := if st.ret == 0 && k < |ns| then st.(ret := EAI_MEMORY) else st;
            && RESPONSE_HEADER <= |d| <= BUFSIZE
            && GetHeader(d) == Header(RESPONSE_ADDRINFO, id, |d|)
            && ReadReply(d, room) == if k <= room then AddrResult(status, ns[..k])
                                     else AddrResult(status.(ret := EAI_MEMORY), ns[..room])
  {
    hide EncodeNode, EncodeNodes, ReplyHeader, GetHeader, GetStatus, PutStatus, Range, DecodeNodes;
    RangeValues();
    NoNodes();
    var k := if st.ret != 0 then 0 else FirstMisfit(ns, 0);
    var status := if st.ret == 0 && k < |ns| then st.(ret := EAI_MEMORY) else st;
    assert ns[..|ns|] == ns && ns[..0] == [];
    if k > 0 {
      FilledNext(ns, k - 1);
      assert Fits(ns, k - 1);
    }
    assert WorkerReply(id, st, ns).datagram == Reply(id, status, ns[..k]);
    ReplyParts(id, status, ns[..k]);
    StatusRoundTrip(status);
    DecodeEncodedNodes(ns[..k], room);
    if k > room {
      assert ns[..k][..room] == ns[..room];
    }
  }
}
