/** The node objects of chord/local.go and a network of them. Remote calls are calls on the target node;
    every method is tied to the value model of ChordPeer and ChordProtocol. */
module ChordNode {
  import opened Bytes
  import opened Outcomes
  import opened Models
  import opened Ring
  import opened ChordPeer
  import opened ChordRing
  import opened ChordProtocol
  import opened ChordReturns

  class LocalNode {
    const self: Node
    const fingerTable: FingerTable
    var predecessor: Node

    ghost predicate Valid() {
      fingerTable.Valid()
    }

    ghost function View(): Peer
      requires Valid()
      reads this, fingerTable.table
    {
      Peer(self, fingerTable.View(), predecessor)
    }

    constructor (self: Node)
      ensures Valid() && fresh(fingerTable.table)
      ensures this.self == self && View() == Lone(self)
    {
      this.self := self;
      fingerTable := new FingerTable();
      predecessor := NO_NODE;
      new;
      var _ := fingerTable.SetIth(1, NewInterval(self, self), self, self);
    }

    method SetSuccessor(node: Node)
      requires Valid()
      modifies fingerTable.table
      ensures View() == WithSuccessor(old(View()), node)
    {
      var _ := fingerTable.SetIth(1, NewInterval(self, node), node, self);
    }

    /** Scan the finger table from the last slot down for a node strictly before the key. The loop stays in
        the table, so the error of GetIth never comes up. */
    method ClosestPrecedingNode(id: Identifier) returns (n: Node)
      requires Valid()
      ensures n == ClosestPreceding(View(), id)
    {
      var lnID := KeyToID(self.id);
      var nID := KeyToID(id);
      var i := M;
      while i >= 1
        invariant 0 <= i <= M
        invariant ClosestPreceding(View(), id) == Scan(View(), id, i)
      {
        var ith := fingerTable.GetIth(i).value;
        var ithSuccessorID := KeyToID(ith.successor.id);
        if ith.successor.addr != "" && Between(lnID, ithSuccessorID, nID) {
          return ith.successor;
        }
        i := i - 1;
      }
      return self;
    }

    function GetPredecessor(): Node
      reads this
    {
      predecessor
    }

    method SetPredecessor(n: Node) returns (r: Result<()>)
      requires Valid()
      modifies this
      ensures View() == WithPredecessor(old(View()), n)
      ensures r.Success? <==> Accepts(old(View()), n)
    {
      var lnID, nID, pID := KeyToID(self.id), KeyToID(n.id), KeyToID(predecessor.id);
      if predecessor.addr == "" {
        predecessor := n;
        return Success(());
      }
      if pID < lnID {
        if pID < nID && nID < lnID {
          predecessor := n;
          return Success(());
        }
        return Failure(NotBetween);
      } else {
        if nID < lnID || pID < nID {
          predecessor := n;
          return Success(());
        }
        return Failure(NotBetween);
      }
    }
  }

  class Network {
    /** The hash that turns an address into a node identifier. */
    const sha1: string -> Identifier
    /** The nodes that answer calls, under their addresses. */
    var nodes: map<string, LocalNode>

    ghost predicate Valid()
      reads this
    {
      && "" !in nodes
      && (forall a :: a in nodes ==> nodes[a].Valid() && nodes[a].self == Node(sha1(a), a))
      && (forall a, b :: a in nodes && b in nodes && a != b ==>
            nodes[a].fingerTable.table != nodes[b].fingerTable.table)
    }

    /** What every network built by the methods below satisfies. */
    ghost predicate Steady()
      requires Valid()
      reads this, Footprint()
    {
      Inv(View()) && AllLevelled(View())
    }

    ghost function Footprint(): set<object>
      reads this
    {
      (set a | a in nodes :: nodes[a] as object) + (set a | a in nodes :: nodes[a].fingerTable.table as object)
    }

    ghost function View(): Net
      requires Valid()
      reads this, Footprint()
    {
      map a | a in nodes :: nodes[a].View()
    }

    constructor (sha1: string -> Identifier)
      ensures Valid() && Steady() && View() == map[] && this.sha1 == sha1
    {
      this.sha1 := sha1;
      nodes := map[];
    }

    /** Successor as run on the node at a. */
    method FindSuccessor(a: string, id: Identifier) returns (r: Result<Node>)
      requires Valid() && a in nodes && Consistent(View())
      ensures View() == old(View())
      ensures r == Successor(View(), a, id)
      decreases Dist(At(View(), a), KeyToID(id)), 0
    {
      ghost var net := View();
      assert Grounded(net, a);
      var nPrime := nodes[a].ClosestPrecedingNode(id);
      assert View() == net;
      if nPrime.id == nodes[a].self.id {
        return Success(nodes[a].self);
      }
      if nPrime.addr !in nodes {
        return Failure(Unreachable);
      }
      var answer := RemoteSuccessor(nPrime.addr, id);
      return Success(answer);
    }

    /** The SuccessorHandler of the node at a: it answers with the empty node when its own lookup fails. */
    method RemoteSuccessor(a: string, id: Identifier) returns (n: Node)
      requires Valid() && a in nodes && Consistent(View())
      ensures View() == old(View())
      ensures n == Answered(Successor(View(), a, id))
      decreases Dist(At(View(), a), KeyToID(id)), 1
    {
      var r := FindSuccessor(a, id);
      n := if r.Success? then r.value else NO_NODE;
    }

    method SetSuccessorOf(a: string, n: Node)
      requires Valid() && a in nodes
      modifies Footprint()
      ensures Valid() && nodes == old(nodes)
      ensures View() == SetSuccessorAt(old(View()), a, n)
    {
      nodes[a].SetSuccessor(n);
    }

    /** The SetPredecessor call over the network: refusals are not reported, failed dials are. */
    method RemoteSetPredecessor(addr: string, n: Node) returns (r: Result<()>)
      requires Valid()
      modifies Footprint()
      ensures Valid() && nodes == old(nodes)
      ensures View() == NotifyAt(old(View()), addr, n)
      ensures r.Success? <==> addr in nodes
    {
      if addr !in nodes {
        return Failure(Unreachable);
      }
      var _ := nodes[addr].SetPredecessor(n);
      return Success(());
    }

    /** NewLocalNode with Initialize: the new node answers calls only after it has asked its peer. */
    method NewLocalNode(addr: string, peer: string) returns (r: Result<()>)
      requires Valid() && Steady()
      requires addr != "" && addr !in nodes && forall a :: a in View() ==> At(View(), a) != KeyToID(sha1(addr))
      modifies this, Footprint()
      ensures Valid() && Steady()
      ensures Consistent(old(View())) && View() == Join(old(View()), Node(sha1(addr), addr), peer).net
      ensures r.Success? <==> peer in old(View())
    {
      ghost var net := View();
      InvIsConsistent(net);
      JoinPreserves(net, Node(sha1(addr), addr), peer);
      JoinKeepsLevels(net, Node(sha1(addr), addr), peer);
      if peer !in nodes {
        Boot(addr);
        return Failure(Unreachable);
      }
      var successor := RemoteSuccessor(peer, sha1(addr));
      Boot(addr);
      Greet(addr, successor);
      return Success(());
    }

    /** The node at a takes its successor and presents itself to it. */
    method Greet(a: string, successor: Node)
      requires Valid() && a in View()
      modifies Footprint()
      ensures Valid() && nodes == old(nodes)
      ensures View() == NotifyAt(SetSuccessorAt(old(View()), a, successor), successor.addr, nodes[a].self)
    {
      SetSuccessorOf(a, successor);
      var _ := RemoteSetPredecessor(successor.addr, nodes[a].self);
    }

    /** A new node on its own. */
    method Boot(addr: string)
      requires Valid() && addr != "" && addr !in nodes
      modifies this
      ensures Valid() && fresh(Footprint() - old(Footprint()))
      ensures View() == old(View())[addr := Lone(Node(sha1(addr), addr))]
    {
      var ln := new LocalNode(Node(sha1(addr), addr));
      Register(addr, ln);
    }

    method Register(addr: string, ln: LocalNode)
      requires Valid() && ln.Valid() && ln.self == Node(sha1(addr), addr)
      requires addr != "" && addr !in nodes
      requires forall a :: a in nodes ==> nodes[a].fingerTable.table != ln.fingerTable.table
      modifies this
      ensures Valid() && nodes == old(nodes)[addr := ln]
      ensures View() == old(View())[addr := ln.View()]
    {
      nodes := nodes[addr := ln];
    }

    /** One Stabilize of the node at a. It comes back, and reports success, in every network that was built
        by these methods. */
    method StabilizeNode(a: string) returns (r: Result<()>)
      requires Valid() && Steady() && a in nodes
      modifies Footprint()
      ensures Valid() && nodes == old(nodes) && Steady()
      ensures Consistent(old(View())) && View() == Stabilize(old(View()), a).net
      ensures r.Success?
    {
      ghost var net := View();
      InvIsConsistent(net);
      StabilizePreserves(net, a);
      StabilizeKeepsLevels(net, a);
      OwnLookup(net, a);
      var ln := nodes[a].self;
      var found := FindSuccessor(a, ln.id);
      if found.Failure? {
        return Failure(Unreachable);
      }
      var currentSuccessor := found.value;
      CompareIsZeroForSameID(ln, currentSuccessor);
      if Compare(ln, currentSuccessor) == 0 {
        CloseRingAt(a);
        return Success(());
      }
      if currentSuccessor.addr !in nodes {
        return Failure(Unreachable);
      }
      r := ReconcileWith(a, currentSuccessor);
    }

    /** A node whose slot 1 still names itself walks back along the predecessors, and closes the ring at the
        node that has none. */
    method CloseRingAt(a: string)
      requires Valid() && Steady() && a in nodes && IsRoot(View(), a)
      modifies Footprint()
      ensures Valid() && nodes == old(nodes)
      ensures View() == CloseRing(old(View()), a)
    {
      var predecessor := nodes[a].GetPredecessor();
      if predecessor.addr == "" {
        return;
      }
      ghost var net := View();
      RootWalkEnds(net, a);
      ghost var k: nat, end := |net|, Follow(net, predecessor, |net|);
      while predecessor.addr in nodes
        invariant View() == net
        invariant Follow(net, predecessor, k) == end
        decreases k
      {
        var nextPredecessor := nodes[predecessor.addr].GetPredecessor();
        assert nextPredecessor == PredecessorAt(net, predecessor.addr);
        if nextPredecessor.addr == "" {
          Greet(a, predecessor);
          return;
        }
        predecessor := nextPredecessor;
        k := k - 1;
      }
    }

    method ReconcileWith(a: string, currentSuccessor: Node) returns (r: Result<()>)
      requires Valid() && a in nodes && currentSuccessor.addr in nodes
      modifies Footprint()
      ensures Valid() && nodes == old(nodes)
      ensures View() == Reconcile(old(View()), a, currentSuccessor).net
      ensures r.Success? <==> Reconcile(old(View()), a, currentSuccessor).ok
    {
      var ln := nodes[a].self;
      var currentSuccessorPredecessor := nodes[currentSuccessor.addr].GetPredecessor();
      var lnID := KeyToID(ln.id);
      var succPredID := KeyToID(currentSuccessorPredecessor.id);
      var succID := KeyToID(currentSuccessor.id);
      if succPredID == lnID {
        return Success(());
      }
      if succPredID < succID {
        if succPredID < lnID && lnID < succID {
          r := RemoteSetPredecessor(currentSuccessor.addr, ln);
        } else {
          SetSuccessorOf(a, currentSuccessorPredecessor);
          r := RemoteSetPredecessor(currentSuccessorPredecessor.addr, ln);
        }
      } else {
        if succPredID < lnID || lnID < succID {
          SetSuccessorOf(a, currentSuccessorPredecessor);
          r := RemoteSetPredecessor(currentSuccessorPredecessor.addr, ln);
        } else {
          r := RemoteSetPredecessor(currentSuccessor.addr, ln);
        }
      }
    }
  }
}
