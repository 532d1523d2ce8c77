/** lm-socket-address.c and the connecting part of lm-socket.c as the code keeps them. */
module SocketConnect {
  import opened Wrappers
  import opened AddrInfos
  import opened SocketSpec

  /** The port field of a socket address: bytes 2 and 3, most significant first; htons keeps
      the low 16 bits. */
  function WithPort(n: AddrNode, port: nat): AddrNode
    requires HasPort(n)
  {
    n.(addr := n.addr[2 := port % 0x1_0000 / 256][3 := port % 256])
  }

  predicate HasPort(n: AddrNode) {
    |n.addr| >= 4
  }

  /** The second node is the first with the given port, as a 16-bit number in network order, and
      nothing else about it is different. */
  predicate PortSet(was: AddrNode, now: AddrNode, port: nat) {
    && |now.addr| == |was.addr| >= 4 && 256 * now.addr[2] as int + now.addr[3] as int == port % 0x1_0000
    && now.addr[..2] == was.addr[..2] && now.addr[4..] == was.addr[4..]
    && now.flags == was.flags && now.family == was.family && now.socktype == was.socktype
    && now.protocol == was.protocol && now.canon == was.canon
  }

  predicate PortsSet(was: seq<AddrNode>, now: seq<AddrNode>, port: nat) {
    |now| == |was| && forall i :: 0 <= i < |was| ==> PortSet(was[i], now[i], port)
  }

  lemma PortWritten(n: AddrNode, port: nat)
    requires HasPort(n)
    ensures PortSet(n, WithPort(n, port), port)
  {
    assert port % 0x1_0000 / 256 * 256 + port % 256 == port % 0x1_0000;
  }

  lemma PortsWritten(ns: seq<AddrNode>, port: nat)
    requires forall i :: 0 <= i < |ns| ==> HasPort(ns[i])
    ensures PortsSet(ns, WithPorts(ns, port), port)
  {
    hide PortSet, WithPort;
    forall i | 0 <= i < |ns|
      ensures PortSet(ns[i], WithPort(ns[i], port), port)
    {
      PortWritten(ns[i], port);
    }
  }

  function WithPorts(ns: seq<AddrNode>, port: nat): (r: seq<AddrNode>)
    requires forall i :: 0 <= i < |ns| ==> HasPort(ns[i])
    ensures |r| == |ns|
    ensures forall i :: 0 <= i < |ns| ==> r[i] == WithPort(ns[i], port)
  {
    seq(|ns|, i requires 0 <= i < |ns| => WithPort(ns[i], port))
  }

  class Address {
    const port: nat
    var results: AddrInfo?
    ghost var chain: seq<AddrInfo>

    constructor (port: nat)
      ensures this.port == port && results == null && chain == []
    {
      this.port, results, chain := port, null, [];
    }

    /** lm_socket_address_set_results: the port goes into every node of the list, and nothing
        else about them changes. */
    method SetResults(ai: AddrInfo?, ghost nodes: seq<AddrInfo>)
      requires Chain(ai, nodes) && forall i :: 0 <= i < |nodes| ==> HasPort(nodes[i].Node())
      modifies this`results, this`chain, nodes`addr
      ensures results == ai && chain == nodes && Chain(results, chain)
      ensures Contents(chain) == WithPorts(old(Contents(nodes)), port)
      ensures PortsSet(old(Contents(nodes)), Contents(chain), port)
    {
      PortsWritten(Contents(nodes), port);
      SetPorts(ai, nodes);
      results, chain := ai, nodes;
    }

    method SetPorts(ai: AddrInfo?, ghost nodes: seq<AddrInfo>)
      requires Chain(ai, nodes) && forall i :: 0 <= i < |nodes| ==> HasPort(nodes[i].Node())
      modifies nodes`addr
      ensures Chain(ai, nodes)
      ensures forall i :: 0 <= i < |nodes| ==> nodes[i].Node() == WithPort(old(nodes[i].Node()), port)
    {
      var addr := ai;
      ghost var k := 0;
      while addr != null
        invariant k <= |nodes| && addr == if k < |nodes| then nodes[k] else null
        invariant Chain(ai, nodes)
        invariant forall i :: 0 <= i < k ==> nodes[i].Node() == WithPort(old(nodes[i].Node()), port)
        invariant forall i :: k <= i < |nodes| ==> nodes[i].addr == old(nodes[i].addr)
        decreases |nodes| - k
      {
        assert HasPort(old(nodes[k].Node()));
        addr.addr := addr.addr[2 := port % 0x1_0000 / 256][3 := port % 256];
        addr, k := addr.next, k + 1;
      }
    }
  }

  /** The results iterator of an address: the node it will hand out next. */
  class Iter {
    var current: AddrInfo?

    constructor (first: AddrInfo?)
      ensures current == first
    {
      current := first;
    }

    method GetNext() returns (r: AddrInfo?)
      modifies this
      ensures r == old(current) && current == if r == null then null else r.next
    {
      r := current;
      if current != null {
        current := current.next;
      }
    }
  }

  class Socket {
    const sa: Address
    var saIter: Iter?
    var connected: bool
    ghost var s: State

    /** The value-level results are the contents of the address's list. */
    ghost predicate Valid()
      reads this, sa, sa.chain, saIter
    {
      && Chain(sa.results, sa.chain) && s.results == Contents(sa.chain)
      && connected == s.connected && InOrder(s)
      && (saIter == null <==> s.iter.None?)
      && (saIter != null ==> PointsAt(saIter.current, s.iter.value))
    }

    /** The node is the k-th of the results, or null behind the last. */
    ghost predicate PointsAt(node: AddrInfo?, k: nat)
      reads sa
    {
      node == if k < |sa.chain| then sa.chain[k] else null
    }

    constructor (sa: Address)
      requires sa.results == null && sa.chain == []
      ensures Valid() && s == FRESH && this.sa == sa
    {
      this.sa, saIter, connected, s := sa, null, false, FRESH;
      new;
      assert Contents(sa.chain) == [];
    }

    ghost method Tell(told: seq<Event>)
      modifies this`s
      ensures s == old(s).(told := old(s).told + told)
    {
      s := s.(told := s.told + told);
    }

    lemma NodeAt(k: nat)
      requires Chain(sa.results, sa.chain) && k < |sa.chain|
      ensures PointsAt(sa.chain[k].next, k + 1)
      ensures |Contents(sa.chain)| == |sa.chain| && Contents(sa.chain)[k] == sa.chain[k].Node()
    {
    }

    lemma NodeHere(node: AddrInfo?, k: nat)
      requires PointsAt(node, k)
      ensures node == null <==> k >= |sa.chain|
      ensures node != null ==> node == sa.chain[k]
    {
    }

    lemma TryStep(s: State, k: nat, luck: Luck, n: nat)
      requires k == Place(s) <= |s.results| && s.iter.Some?
      ensures k == |s.results| ==> TryFrom(s, k, luck, n) == s.(told := s.told + [TriedAll])
      ensures k < |s.results| ==>
        var s' := s.(iter := Some(k + 1), tried := s.tried + [s.results[k]]);
        TryFrom(s, k, luck, n) == if luck(n) then s' else TryFrom(s', k + 1, luck, n + 1)
    {
    }

    lemma SameLength()
      ensures |Contents(sa.chain)| == |sa.chain|
    {
    }

    /** The loop of socket_attempt_connect_next: one address after another until an attempt
        gets going. */
    method TryAddresses(luck: Luck)
      requires saIter != null && s.iter.Some? && Place(s) <= |s.results|
      requires Chain(sa.results, sa.chain) && s.results == Contents(sa.chain) && PointsAt(saIter.current, Place(s))
      modifies this`s, saIter
      ensures s == TryFrom(old(s), old(Place(s)), luck, 0) && s.iter.Some? && PointsAt(saIter.current, Place(s))
    {
      hide Chain, Contents, TryFrom, InOrder, PointsAt;
      SameLength();
      var n := 0;
      ghost var goal := TryFrom(s, Place(s), luck, 0);
      while true
        invariant Chain(sa.results, sa.chain) && s.results == Contents(sa.chain) && |s.results| == |sa.chain|
        invariant s.iter.Some? && Place(s) <= |s.results|
        invariant PointsAt(saIter.current, Place(s))
        invariant goal == TryFrom(s, Place(s), luck, n)
        decreases |s.results| - Place(s)
      {
        ghost var k := Place(s);
        TryStep(s, k, luck, n);
        NodeHere(saIter.current, k);
        var addr := saIter.GetNext();
        if addr == null {
          Tell([TriedAll]);
          return;
        }
        NodeAt(k);
        s := s.(iter := Some(k + 1), tried := s.tried + [addr.Node()]);
        if luck(n) {
          return;
        }
        n := n + 1;
      }
    }

    /** socket_attempt_connect_next: the first call after a reset starts the address's iterator
        anew. */
    method AttemptConnectNext(luck: Luck)
      requires Valid()
      modifies this, saIter
      ensures Valid() && s == AttemptNext(old(s), luck)
      ensures saIter == old(saIter) || fresh(saIter)
    {
      hide Chain, Contents, TryFrom, InOrder, PointsAt;
      PlaceInResults(s);
      AttemptInOrder(s, luck);
      ghost var k := Place(s);
      TryFromPlace(s, k, luck);
      if saIter == null {
        saIter := new Iter(sa.results);
        ChainStart();
      }
      s := s.(iter := Some(k));
      TryAddresses(luck);
    }

    lemma PlaceInResults(s: State)
      requires InOrder(s)
      ensures Place(s) <= |s.results|
    {
    }

    lemma ChainStart()
      requires Chain(sa.results, sa.chain)
      ensures PointsAt(sa.results, 0)
    {
    }

    lemma TryFromPlace(s: State, k: nat, luck: Luck)
      requires k == Place(s) <= |s.results|
      ensures TryFrom(s.(iter := Some(k)), k, luck, 0) == TryFrom(s, k, luck, 0)
    {
    }

    /** socket_reset, for the fields kept here. */
    method Reset()
      requires Valid()
      modifies this
      ensures Valid() && s == SocketSpec.Reset(old(s))
    {
      connected := false;
      saIter := null;
      s := SocketSpec.Reset(s);
    }

    method EmitDisconnectedAndCleanup(reason: Reason)
      requires Valid()
      modifies this
      ensures Valid() && s == Disconnect(old(s), reason)
    {
      Tell([Closed(reason)]);
      Reset();
    }

    method Close()
      requires Valid()
      modifies this
      ensures Valid() && s == Disconnect(old(s), Requested)
    {
      EmitDisconnectedAndCleanup(Requested);
    }

    method HupCb() returns (keep: bool)
      requires Valid()
      modifies this
      ensures Valid() && s == Disconnect(old(s), HungUp) && !keep
    {
      EmitDisconnectedAndCleanup(HungUp);
      return false;
    }

    method OutCb() returns (keep: bool)
      requires Valid()
      modifies this
      ensures Valid() && s == Out(old(s)) && keep
    {
      hide Chain, Contents, PointsAt;
      if connected {
        Tell([Writeable]);
      } else {
        connected := true;
        s := s.(connected := true);
        Tell([ConnectOk]);
        Tell([Opened]);
        assert s.told == old(s).told + [ConnectOk, Opened];
      }
      return true;
    }

    /** `pending`: the error the socket reports is one of those that only mean "not yet". */
    method ErrCb(pending: bool, luck: Luck) returns (keep: bool)
      requires Valid()
      modifies this, saIter
      ensures Valid() && s == Err(old(s), pending, luck) && keep == (!old(connected) && pending)
    {
      if !connected {
        if !pending {
          AttemptConnectNext(luck);
          return false;
        }
      } else {
        EmitDisconnectedAndCleanup(IoError);
        return false;
      }
      return true;
    }

    /** lm_socket_connect; true when it has started a lookup. */
    method Connect(luck: Luck) returns (lookup: bool)
      requires Valid()
      modifies this, saIter
      ensures Valid() && s == SocketSpec.Connect(old(s), luck) && lookup == (old(s).results == [])
    {
      if sa.results == null {
        return true;
      }
      AttemptConnectNext(luck);
      return false;
    }

    lemma StoredInOrder(s: State, ns: seq<AddrNode>)
      requires InOrder(s) && s.results == [] && s.iter.None?
      ensures InOrder(s.(results := ns))
    {
    }

    lemma ToldInOrder(s: State, told: seq<Event>)
      requires InOrder(s)
      ensures InOrder(s.(told := s.told + told))
    {
    }

    /** The results are stored and the search begins. */
    method UseResults(ai: AddrInfo?, ghost nodes: seq<AddrInfo>, luck: Luck)
      requires Valid() && s.results == [] && s.iter.None?
      requires Chain(ai, nodes) && forall i :: 0 <= i < |nodes| ==> HasPort(nodes[i].Node())
      modifies this, sa, nodes`addr
      ensures Valid()
      ensures s == AttemptNext(old(s).(results := WithPorts(old(Contents(nodes)), sa.port)), luck)
    {
      hide Chain, Contents, WithPorts, PortsSet, AttemptNext, HasPort, InOrder;
      sa.SetResults(ai, nodes);
      StoredInOrder(s, Contents(sa.chain));
      s := s.(results := Contents(sa.chain));
      AttemptConnectNext(luck);
    }

    /** The resolver's "finished" signal after its results were stored: socket_resolver_finished_cb
        behind lm_socket_address_set_results. */
    method LookupFinished(ok: bool, ai: AddrInfo?, ghost nodes: seq<AddrInfo>, luck: Luck)
      requires Valid() && s.results == [] && s.iter.None?
      requires Chain(ai, nodes) && forall i :: 0 <= i < |nodes| ==> HasPort(nodes[i].Node())
      modifies this, sa, nodes`addr
      ensures Valid()
      ensures s == Resolved(old(s), if ok then Some(WithPorts(old(Contents(nodes)), sa.port)) else None, luck)
    {
      hide Chain, Contents, WithPorts, PortsSet, AttemptNext, HasPort, InOrder;
      if !ok {
        ToldInOrder(s, [DnsFailed]);
        Tell([DnsFailed]);
        return;
      }
      UseResults(ai, nodes, luck);
    }
  }
}
