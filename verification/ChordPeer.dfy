/** One node of the ring as a value, its operations, and lookups across a network of such values. */
module ChordPeer {
  import opened Bytes
  import opened Outcomes
  import opened Models
  import opened Ring

  datatype Peer = Peer(self: Node, slots: Slots, predecessor: Node)

  /** The network: each member's state under its address. */
  type Net = map<string, Peer>

  /** The first finger record is the successor. */
  function Succ(p: Peer): Node {
    p.slots[0].successor
  }

  function Lone(self: Node): Peer {
    Peer(self, NoSlots()[0 := FingerFor(self, self)], NO_NODE)
  }

  function WithSuccessor(p: Peer, n: Node): Peer {
    p.(slots := p.slots[0 := FingerFor(p.self, n)])
  }

  /** Whether SetPredecessor(n) is taken rather than refused with an error. */
  predicate Accepts(p: Peer, n: Node) {
    p.predecessor.addr == "" || Nearer(Pos(p.self), Pos(p.predecessor), Pos(n))
  }

  function WithPredecessor(p: Peer, n: Node): Peer {
    if Accepts(p, n) then p.(predecessor := n) else p
  }

  /** Slot i of p names a node strictly between p and the key. */
  predicate Precedes(p: Peer, i: nat, id: Identifier)
    requires i < M
  {
    p.slots[i].successor.addr != "" && Between(Pos(p.self), Pos(p.slots[i].successor), KeyToID(id))
  }

  /** The descending scan over slots i..1. */
  function Scan(p: Peer, id: Identifier, i: nat): (n: Node)
    requires i <= M
    ensures n == p.self <==> forall j :: 0 <= j < i ==> !Precedes(p, j, id)
    ensures n != p.self ==> exists j :: 0 <= j < i && Precedes(p, j, id) && n == p.slots[j].successor
                                        && forall h :: j < h < i ==> !Precedes(p, h, id)
  {
    if i == 0 then p.self
    else if Precedes(p, i - 1, id) then p.slots[i - 1].successor
    else Scan(p, id, i - 1)
  }

  function ClosestPreceding(p: Peer, id: Identifier): (n: Node)
    ensures n.id == p.self.id <==> n == p.self
    ensures n != p.self ==> Between(Pos(p.self), Pos(n), KeyToID(id)) && n.addr != ""
    ensures n != p.self ==> exists j :: 0 <= j < M && p.slots[j].successor == n
  {
    Scan(p, id, M)
  }

  /** A reference to a live address carries the identifier that node has (ID = sha1(Addr) everywhere). */
  ghost predicate Resolves(net: Net, n: Node) {
    n.addr in net ==> net[n.addr].self == n
  }

  /** What the node at a holds under its own and other nodes' names. */
  ghost predicate Grounded(net: Net, a: string)
    requires a in net
  {
    && net[a].self.addr == a
    && (forall i :: 0 <= i < M ==> Resolves(net, net[a].slots[i].successor))
    && Resolves(net, net[a].predecessor)
  }

  ghost predicate Consistent(net: Net) {
    && "" !in net
    && forall a {:trigger Grounded(net, a)} :: a in net ==> Grounded(net, a)
  }

  function At(net: Net, a: string): Position
    requires a in net
  {
    Pos(net[a].self)
  }

  /** Successor on the node at a: the node where the hops stop. A failed dial is an error for the node
      that dialled, but the handler of that node's caller answers with the empty node. */
  ghost function Successor(net: Net, a: string, id: Identifier): Result<Node>
    requires Consistent(net) && a in net
    decreases Dist(At(net, a), KeyToID(id))
  {
    assert Grounded(net, a);
    var n := ClosestPreceding(net[a], id);
    if n == net[a].self then Success(n)
    else if n.addr !in net then Failure(Unreachable)
    else
      Success(Answered(Successor(net, n.addr, id)))
  }

  /** What the SuccessorHandler sends back: it drops the error and encodes the (empty) node. */
  function Answered(r: Result<Node>): Node {
    match r
    case Success(n) => n
    case Failure(_) => NO_NODE
  }

  /** The number of remote hops of that lookup. */
  ghost function Hops(net: Net, a: string, id: Identifier): nat
    requires Consistent(net) && a in net
    decreases Dist(At(net, a), KeyToID(id))
  {
    assert Grounded(net, a);
    var n := ClosestPreceding(net[a], id);
    if n == net[a].self || n.addr !in net then 0
    else
      1 + Hops(net, n.addr, id)
  }

  /** route lists the nodes that a lookup contacts: each names the next, and the last names itself. */
  ghost predicate IsRoute(net: Net, route: seq<string>, id: Identifier) {
    && |route| > 0
    && (forall i :: 0 <= i < |route| ==> route[i] in net)
    && (forall i :: 0 <= i < |route| - 1 ==>
          ClosestPreceding(net[route[i]], id) != net[route[i]].self
          && ClosestPreceding(net[route[i]], id).addr == route[i + 1])
    && ClosestPreceding(net[route[|route| - 1]], id) == net[route[|route| - 1]].self
  }

  /** The lookup answers with the last node of its route, after one hop for each step of it. */
  lemma {:induction false} RouteGivesAnswer(net: Net, route: seq<string>, id: Identifier)
    requires Consistent(net) && IsRoute(net, route, id)
    ensures Hops(net, route[0], id) == |route| - 1
    ensures Successor(net, route[0], id) == Success(net[route[|route| - 1]].self)
  {
    assert Grounded(net, route[0]);
    if |route| > 1 {
      RouteGivesAnswer(net, route[1..], id);
    }
  }

  lemma RouteExtends(net: Net, a: string, route: seq<string>, id: Identifier)
    requires a in net && IsRoute(net, route, id)
    requires ClosestPreceding(net[a], id) != net[a].self && ClosestPreceding(net[a], id).addr == route[0]
    ensures IsRoute(net, [a] + route, id)
  {
    var longer := [a] + route;
    forall i | 0 <= i < |longer| - 1
      ensures ClosestPreceding(net[longer[i]], id) != net[longer[i]].self
              && ClosestPreceding(net[longer[i]], id).addr == longer[i + 1]
    {
      assert i > 0 ==> longer[i] == route[i - 1];
      assert longer[i + 1] == route[i];
    }
  }

  /** The lookup from a is cut off: the last contacted node names an address that nobody answers. */
  ghost predicate CutOff(net: Net, a: string, id: Identifier)
    requires Consistent(net) && a in net
    decreases Dist(At(net, a), KeyToID(id))
  {
    assert Grounded(net, a);
    var n := ClosestPreceding(net[a], id);
    n != net[a].self && (n.addr !in net || CutOff(net, n.addr, id))
  }

  /** Every lookup either has a route or is cut off. A dead address is an error only if the first node
      names it; found later on, the answer is the empty node. */
  lemma {:induction false} LookupHasRoute(net: Net, a: string, id: Identifier) returns (route: seq<string>)
    requires Consistent(net) && a in net
    ensures |route| > 0 && route[0] == a
    ensures IsRoute(net, route, id) <==> !CutOff(net, a, id)
    ensures CutOff(net, a, id) ==>
      Successor(net, a, id) == if ClosestPreceding(net[a], id).addr !in net then Failure(Unreachable) else Success(NO_NODE)
    decreases Dist(At(net, a), KeyToID(id))
  {
    assert Grounded(net, a);
    var n := ClosestPreceding(net[a], id);
    route := [a];
    if n != net[a].self && n.addr in net {
      var rest := LookupHasRoute(net, n.addr, id);
      if !CutOff(net, n.addr, id) {
        RouteExtends(net, a, rest, id);
        route := [a] + rest;
      }
    }
  }

  /** Lookup does not depend on the network standing still: `asked` lists the state of each contacted
      node at the moment it was contacted, each one the node that the previous one named. However the
      tables are filled, at most 159 remote hops happen. */
  lemma {:induction false} LookupTerminates(asked: seq<Peer>, id: Identifier)
    requires |asked| > 0
    requires forall i :: 0 <= i < |asked| - 1 ==>
      ClosestPreceding(asked[i], id) != asked[i].self && ClosestPreceding(asked[i], id).id == asked[i + 1].self.id
    ensures |asked| - 1 <= Dist(Pos(asked[0].self), KeyToID(id)) - Dist(Pos(asked[|asked| - 1].self), KeyToID(id))
    ensures |asked| - 1 <= 159
  {
    if |asked| > 1 {
      LookupTerminates(asked[1..], id);
      var n := ClosestPreceding(asked[0], id);
      assert n.id == asked[1].self.id;
    }
  }

  // ---- SetPredecessor over whole histories ----

  function NotifyAll(p: Peer, ns: seq<Node>): Peer {
    if ns == [] then p else WithPredecessor(NotifyAll(p, ns[..|ns| - 1]), ns[|ns| - 1])
  }

  function Accepted(p: Peer, ns: seq<Node>): nat {
    if ns == [] then 0
    else Accepted(p, ns[..|ns| - 1]) + if Accepts(NotifyAll(p, ns[..|ns| - 1]), ns[|ns| - 1]) then 1 else 0
  }

  /** ns[i] is the first of the candidates that are clockwise nearest to p. */
  predicate FirstNearest(p: Peer, ns: seq<Node>, i: nat)
    requires i < |ns|
  {
    && (forall j :: 0 <= j < |ns| ==> Dist(Pos(ns[i]), Pos(p.self)) <= Dist(Pos(ns[j]), Pos(p.self)))
    && (forall j :: 0 <= j < i ==> Dist(Pos(ns[i]), Pos(p.self)) < Dist(Pos(ns[j]), Pos(p.self)))
  }

  /** A call is refused exactly when it changes nothing. */
  lemma RefusedIffUnchanged(p: Peer, n: Node)
    requires n.addr != ""
    ensures !Accepts(p, n) <==> WithPredecessor(p, n) == p
    ensures Accepts(p, n) ==> WithPredecessor(p, n).predecessor == n
  {
  }

  /** From an empty cell, any non-empty history of calls leaves the first nearest candidate, and the cell
      was assigned at most 160 times. */
  lemma {:induction false} NotifyKeepsFirstNearest(p: Peer, ns: seq<Node>) returns (i: nat)
    requires p.predecessor.addr == ""
    requires ns != [] && forall j :: 0 <= j < |ns| ==> ns[j].addr != ""
    ensures i < |ns| && FirstNearest(p, ns, i)
    ensures NotifyAll(p, ns) == p.(predecessor := ns[i])
    ensures Accepted(p, ns) <= 161 - Dist(Pos(ns[i]), Pos(p.self))
  {
    var k := |ns| - 1;
    if k == 0 {
      assert ns[..0] == [];
      i := 0;
    } else {
      var h := NotifyKeepsFirstNearest(p, ns[..k]);
      assert ns == ns[..k] + [ns[k]];
      i := if Accepts(NotifyAll(p, ns[..k]), ns[k]) then k else h;
    }
  }

  /** The order of the calls does not matter for the position that is kept. */
  lemma NotifyIgnoresOrder(p: Peer, ns: seq<Node>, ms: seq<Node>)
    requires p.predecessor.addr == ""
    requires ns != [] && forall j :: 0 <= j < |ns| ==> ns[j].addr != ""
    requires multiset(ns) == multiset(ms)
    ensures Pos(NotifyAll(p, ns).predecessor) == Pos(NotifyAll(p, ms).predecessor)
  {
    var i := NotifyKeepsFirstNearest(p, ns);
    SameMembers(ns, ms);
    SameMembers(ms, ns);
    var j := NotifyKeepsFirstNearest(p, ms);
    var h :| 0 <= h < |ms| && ms[h] == ns[i];
    var l :| 0 <= l < |ns| && ns[l] == ms[j];
    assert Dist(Pos(ns[i]), Pos(p.self)) == Dist(Pos(ms[j]), Pos(p.self));
  }

  lemma SameMembers(ns: seq<Node>, ms: seq<Node>)
    requires multiset(ns) == multiset(ms)
    ensures forall i :: 0 <= i < |ns| ==> ns[i] in ms
    ensures |ns| == |ms|
  {
    forall i | 0 <= i < |ns| ensures ns[i] in ms {
      assert ns[i] in multiset(ns);
    }
    assert |multiset(ns)| == |multiset(ms)|;
  }
}
