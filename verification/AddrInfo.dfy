/** struct addrinfo: list nodes linked through ai_next, and their contents. */
module AddrInfos {
  import opened Wrappers
  import opened Bytes

  /** The contents of one node. `addr` holds the ai_addrlen bytes behind ai_addr
      (a null ai_addr is the empty sequence); `canon` is the canonical name as the
      bytes of a C string, or None for a null ai_canonname. */
  datatype AddrNode = AddrNode(flags: Int32, family: Int32, socktype: Int32, protocol: Int32,
                               addr: seq<Byte>, canon: Option<seq<Byte>>)

  /** What getaddrinfo hands out: the canonical name is a C string and the lengths
      are values of their 64-bit fields. */
  predicate Representable(n: AddrNode) {
    && |n.addr| < Range(SIZE_T)
    && (n.canon.Some? ==> IsCString(n.canon.value) && |n.canon.value| < Range(SIZE_T))
  }

  class AddrInfo {
    var flags: Int32
    var family: Int32
    var socktype: Int32
    var protocol: Int32
    var addr: seq<Byte>
    var canon: Option<seq<Byte>>
    var next: AddrInfo?

    ghost function Node(): AddrNode
      reads this
    {
      AddrNode(flags, family, socktype, protocol, addr, canon)
    }

    constructor (n: AddrNode)
      ensures Node() == n && next == null
    {
      flags, family, socktype, protocol := n.flags, n.family, n.socktype, n.protocol;
      addr, canon, next := n.addr, n.canon, null;
    }
  }

  /** `chain` lists the nodes reached from head by following next to the null end. */
  ghost predicate Chain(head: AddrInfo?, chain: seq<AddrInfo>)
    reads chain
  {
    && (head == null <==> chain == [])
    && (head != null ==> chain[0] == head && chain[|chain| - 1].next == null)
    && (forall i {:trigger chain[i].next} :: 0 <= i < |chain| - 1 ==> chain[i].next == chain[i + 1])
    && (forall i, j :: 0 <= i < j < |chain| ==> chain[i] != chain[j])
  }

  ghost function Contents(chain: seq<AddrInfo>): (ns: seq<AddrNode>)
    reads chain
    ensures |ns| == |chain|
    ensures forall i :: 0 <= i < |chain| ==> ns[i] == chain[i].Node()
  {
    seq(|chain|, i requires 0 <= i < |chain| reads chain => chain[i].Node())
  }
}
