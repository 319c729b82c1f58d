/** Join and Stabilize as atomic steps of the whole network, and what every run of them keeps. */
module ChordProtocol {
  import opened Bytes
  import opened Outcomes
  import opened Models
  import opened Ring
  import opened ChordPeer
  import opened ChordRing

  /** The state after a step, and whether the Go function returned a nil error. */
  datatype Step = Step(net: Net, ok: bool)

  function SetSuccessorAt(net: Net, a: string, n: Node): Net
    requires a in net
  {
    net[a := WithSuccessor(net[a], n)]
  }

  /** The SetPredecessor call to an address: a refusal reaches the caller as success, a failed dial
      changes nothing. */
  function NotifyAt(net: Net, addr: string, n: Node): Net {
    if addr in net then net[addr := WithPredecessor(net[addr], n)] else net
  }

  function PredecessorAt(net: Net, addr: string): Node
    requires addr in net
  {
    net[addr].predecessor
  }

  // ---- Join: NewLocalNode with its Initialize ----

  ghost function Join(net: Net, self: Node, peer: string): Step
    requires Consistent(net) && self.addr !in net
  {
    var net0 := net[self.addr := Lone(self)];
    if peer !in net then Step(net0, false)
    else
      var s := Answered(Successor(net, peer, self.id));
      Step(NotifyAt(SetSuccessorAt(net0, self.addr, s), s.addr, self), true)
  }

  // ---- Stabilize ----

  datatype Chain = Broken | End(node: Node) | Running

  /** The predecessor-chain walk from n, cut off after k further nodes. */
  function Follow(net: Net, n: Node, k: nat): Chain
    decreases k
  {
    if n.addr !in net then Broken
    else if PredecessorAt(net, n.addr).addr == "" then End(n)
    else if k == 0 then Running
    else Follow(net, PredecessorAt(net, n.addr), k - 1)
  }

  lemma {:induction false} FollowIsStable(net: Net, n: Node, k: nat, k': nat)
    requires Follow(net, n, k) != Running && Follow(net, n, k') != Running
    ensures Follow(net, n, k) == Follow(net, n, k')
    decreases k
  {
    if n.addr in net && PredecessorAt(net, n.addr).addr != "" {
      FollowIsStable(net, PredecessorAt(net, n.addr), k - 1, k' - 1);
    }
  }

  lemma {:induction false} FollowStaysStopped(net: Net, n: Node, k: nat, k': nat)
    requires k <= k' && Follow(net, n, k) != Running
    ensures Follow(net, n, k') != Running
    decreases k
  {
    if n.addr in net && PredecessorAt(net, n.addr).addr != "" {
      FollowStaysStopped(net, PredecessorAt(net, n.addr), k - 1, k' - 1);
    }
  }

  /** The members from which the walk stops within k further nodes. */
  ghost function StopsWithin(net: Net, k: nat): set<string> {
    set x | x in net && Follow(net, net[x].self, k) != Running
  }

  /** A walk that needs k + 1 further nodes has passed k other members. */
  lemma {:induction false} LongWalkPassesMany(net: Net, n: Node, k: nat)
    requires forall x :: x in net ==> net[x].self.addr == x
    requires Follow(net, n, k) == Running && Follow(net, n, k + 1) != Running
    ensures |StopsWithin(net, k)| >= k && n.addr in net && n.addr !in StopsWithin(net, k)
    decreases k
  {
    FollowUsesAddress(net, n, net[n.addr].self, k);
    if k > 0 {
      var p := PredecessorAt(net, n.addr);
      LongWalkPassesMany(net, p, k - 1);
      FollowUsesAddress(net, p, net[p.addr].self, k);
      forall x | x in StopsWithin(net, k - 1) ensures x in StopsWithin(net, k) {
        FollowStaysStopped(net, net[x].self, k - 1, k);
      }
      CardinalityMonotone(StopsWithin(net, k - 1) + {p.addr}, StopsWithin(net, k));
    }
  }

  lemma FollowUsesAddress(net: Net, n: Node, m: Node, k: nat)
    requires n.addr == m.addr && n.addr in net
    ensures Follow(net, n, k) == Running <==> Follow(net, m, k) == Running
  {
  }

  /** The walk, which the code does not bound, ends exactly if it ends within as many steps as there are
      members. */
  lemma WalkEndsIff(net: Net, n: Node)
    requires forall x :: x in net ==> net[x].self.addr == x
    ensures ChainStops(net, n) <==> Follow(net, n, |net|) != Running
  {
    if ChainStops(net, n) {
      var k: nat :| Follow(net, n, k) != Running;
      while k > 0 && Follow(net, n, k - 1) != Running
        invariant Follow(net, n, k) != Running
      {
        k := k - 1;
      }
      if k > 0 {
        LongWalkPassesMany(net, n, k - 1);
        CardinalityMonotone(StopsWithin(net, k - 1) + {n.addr}, net.Keys);
      }
      FollowStaysStopped(net, n, k, |net|);
    }
  }

  /** The walk comes to an end, which the code takes for granted. */
  ghost predicate ChainStops(net: Net, n: Node) {
    exists k: nat :: Follow(net, n, k) != Running
  }

  /** Stabilize at a returns: its chain walk, if it starts one, stops. */
  ghost predicate Returns(net: Net, a: string)
    requires Consistent(net) && a in net
  {
    var r := Successor(net, a, net[a].self.id);
    r.Success? && r.value.id == net[a].self.id && net[a].predecessor.addr != "" ==>
      ChainStops(net, net[a].predecessor)
  }

  /** The network after a Stabilize at a. A walk that never ends changes nothing, so the step is defined for
      it, too; ChordReturns shows that no run comes to that. */
  ghost function Stabilize(net: Net, a: string): Step
    requires Consistent(net) && a in net
  {
    var r := Successor(net, a, net[a].self.id);
    if r.Failure? then Step(net, false)
    else if Compare(net[a].self, r.value) == 0 then Step(CloseRing(net, a), true)
    else if r.value.addr !in net then Step(net, false)
    else Reconcile(net, a, r.value)
  }

  /** The branch of a node that finds no other node: adopt the end of the predecessor chain. A walk that
      ends does so within as many steps as there are members (WalkEndsIff). */
  function CloseRing(net: Net, a: string): Net
    requires a in net
  {
    if net[a].predecessor.addr == "" then net
    else match Follow(net, net[a].predecessor, |net|)
      case End(e) => NotifyAt(SetSuccessorAt(net, a, e), e.addr, net[a].self)
      case _ => net
  }

  /** Whether a should take the predecessor p of the contacted node s as its successor, rather than
      present itself to s. The two halves mirror the code, inversion included. */
  predicate TakesPredecessor(ln: Position, p: Position, s: Position) {
    if p < s then !(p < ln && ln < s) else p < ln || ln < s
  }

  /** The branch of a node that contacted another node s. */
  function Reconcile(net: Net, a: string, s: Node): Step
    requires a in net && s.addr in net
  {
    var p := PredecessorAt(net, s.addr);
    if Pos(p) == At(net, a) then Step(net, true)
    else if TakesPredecessor(At(net, a), Pos(p), Pos(s)) then
      var net' := SetSuccessorAt(net, a, p);
      Step(NotifyAt(net', p.addr, net[a].self), p.addr in net)
    else Step(NotifyAt(net, s.addr, net[a].self), true)
  }

  // ---- What every reachable state satisfies ----

  ghost predicate Sound(net: Net, a: string)
    requires a in net
  {
    var p := net[a];
    && p.self.addr == a
    && Succ(p).addr in net && net[Succ(p).addr].self == Succ(p)
    && p.slots[0] == FingerFor(p.self, Succ(p))
    && (forall i :: 1 <= i < M ==> p.slots[i] == NO_FINGER)
    && (p.predecessor == NO_NODE || (p.predecessor.addr in net && net[p.predecessor.addr].self == p.predecessor))
    && p.predecessor.addr != a
    && (Succ(p).addr != a ==>
          var q := net[Succ(p).addr].predecessor;
          q.addr != "" && Dist(Pos(q), Pos(Succ(p))) <= Dist(Pos(p.self), Pos(Succ(p))))
  }

  /** Fingers and predecessors name members (or nothing), only slot 1 is filled, nobody is its own
      predecessor, and whoever is named by another node's slot 1 has a predecessor at least as near. */
  ghost predicate Inv(net: Net) {
    && "" !in net
    && DistinctPositions(net)
    && forall a {:trigger Sound(net, a)} :: a in net ==> Sound(net, a)
  }

  lemma InvIsConsistent(net: Net)
    requires Inv(net)
    ensures Consistent(net)
  {
    forall a | a in net ensures Grounded(net, a) {
      assert Sound(net, a);
    }
  }

  /** Every lookup answers with a member, and that member has a predecessor unless it is the node asked. */
  lemma {:induction false} LookupNamesMember(net: Net, a: string, id: Identifier)
    requires Inv(net) && Consistent(net) && a in net
    ensures var r := Successor(net, a, id);
      r.Success? && r.value.addr in net && net[r.value.addr].self == r.value
      && (r.value.addr == a || net[r.value.addr].predecessor.addr != "")
    decreases Dist(At(net, a), KeyToID(id))
  {
    assert Sound(net, a) && Grounded(net, a);
    var n := ClosestPreceding(net[a], id);
    if n != net[a].self {
      LookupNamesMember(net, n.addr, id);
    }
  }

  ghost predicate Kept(net: Net, net': Net, a: string)
    requires a in net
  {
    && a in net' && net'[a].self == net[a].self
    && (net[a].predecessor.addr != "" ==>
          net'[a].predecessor.addr != ""
          && Dist(Pos(net'[a].predecessor), Pos(net[a].self)) <= Dist(Pos(net[a].predecessor), Pos(net[a].self)))
  }

  /** Membership and identity last, and a predecessor once set is only replaced by a nearer one. */
  ghost predicate Grows(net: Net, net': Net) {
    forall a {:trigger Kept(net, net', a)} :: a in net ==> Kept(net, net', a)
  }

  lemma LonePreserves(net: Net, self: Node)
    requires Inv(net) && self.addr !in net && self.addr != ""
    requires forall a :: a in net ==> At(net, a) != Pos(self)
    ensures Inv(net[self.addr := Lone(self)]) && Grows(net, net[self.addr := Lone(self)])
  {
    var net' := net[self.addr := Lone(self)];
    forall a, b | a in net' && b in net' && At(net', a) == At(net', b) ensures a == b {
      assert a in net ==> At(net, a) == At(net', a);
      assert b in net ==> At(net, b) == At(net', b);
    }
    forall a | a in net' ensures Sound(net', a) {
      assert a != self.addr ==> Sound(net, a);
    }
  }

  lemma SameMembersStayDistinct(net: Net, net': Net)
    requires DistinctPositions(net)
    requires net.Keys == net'.Keys && forall a :: a in net ==> net[a].self == net'[a].self
    ensures DistinctPositions(net')
  {
    forall a, b | a in net' && b in net' && At(net', a) == At(net', b) ensures a == b {
      assert At(net, a) == At(net', a) && At(net, b) == At(net', b);
    }
  }

  lemma NotifyKeepsSound(net: Net, b: string, a: string, x: string)
    requires Inv(net) && a in net && b in net && a != b && x in net
    ensures Sound(NotifyAt(net, b, net[a].self), x)
  {
    assert Sound(net, a) && Sound(net, x);
  }

  lemma NotifyGrows(net: Net, b: string, n: Node)
    requires b in net && n.addr != ""
    ensures Grows(net, NotifyAt(net, b, n)) && NotifyAt(net, b, n)[b].predecessor.addr != ""
  {
  }

  /** b has a predecessor at least as near as a. */
  ghost predicate Known(net: Net, a: string, b: string)
    requires a in net && b in net
  {
    net[b].predecessor.addr != "" && Dist(Pos(net[b].predecessor), At(net, b)) <= Dist(At(net, a), At(net, b))
  }

  lemma NotifyMakesKnown(net: Net, b: string, a: string)
    requires a in net && b in net && a != b && net[a].self.addr != ""
    ensures Known(NotifyAt(net, b, net[a].self), a, b)
  {
  }

  lemma NotifyPreserves(net: Net, b: string, a: string)
    requires Inv(net) && a in net && b in net && a != b
    ensures Inv(NotifyAt(net, b, net[a].self)) && Grows(net, NotifyAt(net, b, net[a].self))
    ensures Known(NotifyAt(net, b, net[a].self), a, b)
  {
    var net' := NotifyAt(net, b, net[a].self);
    assert Sound(net, a);
    NotifyMakesKnown(net, b, a);
    NotifyGrows(net, b, net[a].self);
    SameMembersStayDistinct(net, net');
    forall x | x in net' ensures Sound(net', x) {
      NotifyKeepsSound(net, b, a, x);
    }
  }

  lemma SetSuccessorKeepsSound(net: Net, a: string, b: string, x: string)
    requires Inv(net) && a in net && b in net && Known(net, a, b) && x in net
    ensures Sound(SetSuccessorAt(net, a, net[b].self), x)
  {
    assert Sound(net, b) && Sound(net, x);
  }

  lemma SetSuccessorGrows(net: Net, a: string, n: Node)
    requires a in net
    ensures Grows(net, SetSuccessorAt(net, a, n))
  {
  }

  lemma SetSuccessorPreserves(net: Net, a: string, b: string)
    requires Inv(net) && a in net && b in net && Known(net, a, b)
    ensures Inv(SetSuccessorAt(net, a, net[b].self)) && Grows(net, SetSuccessorAt(net, a, net[b].self))
  {
    var net' := SetSuccessorAt(net, a, net[b].self);
    SetSuccessorGrows(net, a, net[b].self);
    SameMembersStayDistinct(net, net');
    forall x | x in net' ensures Sound(net', x) {
      SetSuccessorKeepsSound(net, a, b, x);
    }
  }

  lemma WritesCommute(net: Net, a: string, b: string, s: Node, n: Node)
    requires a in net && b in net && a != b
    ensures NotifyAt(SetSuccessorAt(net, a, s), b, n) == SetSuccessorAt(NotifyAt(net, b, n), a, s)
  {
  }

  /** a takes b as its successor and presents itself to b. */
  lemma AdoptPreserves(net: Net, a: string, b: string)
    requires Inv(net) && a in net && b in net && a != b
    ensures var net' := NotifyAt(SetSuccessorAt(net, a, net[b].self), b, net[a].self); Inv(net') && Grows(net, net')
  {
    var net1 := NotifyAt(net, b, net[a].self);
    NotifyPreserves(net, b, a);
    SetSuccessorPreserves(net1, a, b);
    WritesCommute(net, a, b, net[b].self, net[a].self);
  }

  lemma JoinPreserves(net: Net, self: Node, peer: string)
    requires Inv(net) && Consistent(net) && self.addr !in net && self.addr != ""
    requires forall a :: a in net ==> At(net, a) != Pos(self)
    ensures var net' := Join(net, self, peer).net; Inv(net') && Grows(net, net')
    ensures Join(net, self, peer).ok <==> peer in net
  {
    LonePreserves(net, self);
    var net0 := net[self.addr := Lone(self)];
    if peer in net {
      LookupNamesMember(net, peer, self.id);
      var s := Answered(Successor(net, peer, self.id));
      AdoptPreserves(net0, self.addr, s.addr);
      assert Join(net, self, peer).net == NotifyAt(SetSuccessorAt(net0, self.addr, net0[s.addr].self), s.addr, self);
    }
  }

  lemma {:induction false} FollowNamesMember(net: Net, n: Node, k: nat)
    requires Inv(net) && n.addr in net && net[n.addr].self == n
    ensures Follow(net, n, k) != Broken
    ensures Follow(net, n, k).End? ==>
      var e := Follow(net, n, k).node; e.addr in net && net[e.addr].self == e && net[e.addr].predecessor.addr == ""
    decreases k
  {
    assert Sound(net, n.addr);
    if k > 0 && PredecessorAt(net, n.addr).addr != "" {
      FollowNamesMember(net, PredecessorAt(net, n.addr), k - 1);
    }
  }

  /** Stabilize keeps the invariant and never fails; in particular the node it contacts has a predecessor,
      so it never takes the empty node as its successor. */
  lemma StabilizePreserves(net: Net, a: string)
    requires Inv(net) && Consistent(net) && a in net
    ensures var net' := Stabilize(net, a).net; Inv(net') && Grows(net, net')
    ensures Stabilize(net, a).ok
  {
    assert Sound(net, a);
    LookupNamesMember(net, a, net[a].self.id);
    var s := Successor(net, a, net[a].self.id).value;
    CompareIsZeroForSameID(net[a].self, s);
    if Compare(net[a].self, s) == 0 {
      assert At(net, s.addr) == At(net, a);
      if net[a].predecessor.addr != "" {
        FollowNamesMember(net, net[a].predecessor, |net|);
        if Follow(net, net[a].predecessor, |net|).End? {
          AdoptPreserves(net, a, Follow(net, net[a].predecessor, |net|).node.addr);
        }
      }
    } else {
      assert Sound(net, s.addr);
      var p := PredecessorAt(net, s.addr);
      assert Pos(p) == At(net, p.addr);
      if Pos(p) != At(net, a) {
        if TakesPredecessor(At(net, a), Pos(p), Pos(s)) {
          AdoptPreserves(net, a, p.addr);
        } else {
          NotifyPreserves(net, s.addr, a);
        }
      }
    }
  }

  /** At most slot 1 of a, to name the node at b, and the predecessor of b, to be a. */
  ghost predicate Writes(net: Net, net': Net, a: string, b: string)
    requires a in net
  {
    && net'.Keys == net.Keys
    && (forall x {:trigger net'[x]} :: x in net && x != a && x != b ==> net'[x] == net[x])
    && (net'[a].slots == net[a].slots
        || exists n: Node :: n.addr == b && net'[a].slots == net[a].slots[0 := Finger(At(net, a), Interval(At(net, a), Pos(n)), n)])
    && net'[a].self == net[a].self
    && (b != a ==> net'[a].predecessor == net[a].predecessor)
    && (b in net && b != a ==> net'[b].self == net[b].self && net'[b].slots == net[b].slots)
    && (b in net ==>
          net'[b].predecessor == net[b].predecessor
          || (net'[b].predecessor == net[a].self && Accepts(net[b], net[a].self)))
  }

  lemma NotifyWrites(net: Net, a: string, b: string)
    requires a in net
    ensures Writes(net, NotifyAt(net, b, net[a].self), a, b)
  {
  }

  lemma TakeWrites(net: Net, a: string, n: Node)
    requires a in net
    ensures Writes(net, NotifyAt(SetSuccessorAt(net, a, n), n.addr, net[a].self), a, n.addr)
  {
    var net' := NotifyAt(SetSuccessorAt(net, a, n), n.addr, net[a].self);
    assert net'[a].slots == net[a].slots[0 := FingerFor(net[a].self, n)];
  }

  lemma CloseRingWrites(net: Net, a: string) returns (b: string)
    requires a in net
    ensures Writes(net, CloseRing(net, a), a, b)
  {
    b := a;
    if net[a].predecessor.addr != "" {
      var end := Follow(net, net[a].predecessor, |net|);
      if end.End? {
        b := end.node.addr;
        TakeWrites(net, a, end.node);
      }
    }
  }

  lemma ReconcileWrites(net: Net, a: string, s: Node) returns (b: string)
    requires a in net && s.addr in net
    ensures Writes(net, Reconcile(net, a, s).net, a, b)
    ensures Reconcile(net, a, s).ok <==> b in net
  {
    var p := PredecessorAt(net, s.addr);
    b := a;
    if Pos(p) != At(net, a) {
      if TakesPredecessor(At(net, a), Pos(p), Pos(s)) {
        b := p.addr;
        TakeWrites(net, a, p);
      } else {
        b := s.addr;
        NotifyWrites(net, a, b);
      }
    }
  }

  /** In any network, with any fingers and dead addresses in it, that is all that Stabilize writes. It reports
      an error exactly if the lookup does, or the contacted or the newly taken node does not answer. */
  lemma StabilizeWrites(net: Net, a: string) returns (b: string)
    requires Consistent(net) && a in net
    ensures Writes(net, Stabilize(net, a).net, a, b)
    ensures var r := Successor(net, a, net[a].self.id);
      !Stabilize(net, a).ok <==>
        r.Failure? || (r.value.id != net[a].self.id && (r.value.addr !in net || b !in net))
  {
    var r := Successor(net, a, net[a].self.id);
    b := a;
    if r.Success? {
      CompareIsZeroForSameID(net[a].self, r.value);
      if Compare(net[a].self, r.value) == 0 {
        b := CloseRingWrites(net, a);
      } else if r.value.addr in net {
        b := ReconcileWrites(net, a, r.value);
      }
    }
  }

  /** In any network a join adds the lone node and writes, if the peer answers, slot 1 of it and one predecessor;
      a lookup that is cut off gives it the empty node for a successor, and the join still reports success. */
  lemma JoinWrites(net: Net, self: Node, peer: string)
    requires Consistent(net) && self.addr !in net
    ensures var net0, net' := net[self.addr := Lone(self)], Join(net, self, peer).net;
      if peer !in net then net' == net0 && !Join(net, self, peer).ok
      else
        Join(net, self, peer).ok && self.addr in net'
        && (var s := Succ(net'[self.addr]);
            Writes(net0, net', self.addr, s.addr) && (CutOff(net, peer, self.id) <==> s == NO_NODE)
            && (s.addr in net ==> s == net[s.addr].self && net'[s.addr] == WithPredecessor(net[s.addr], self)))
  {
    if peer in net {
      var net0 := net[self.addr := Lone(self)];
      var s := Answered(Successor(net, peer, self.id));
      TakeWrites(net0, self.addr, s);
      var route := LookupHasRoute(net, peer, self.id);
      if !CutOff(net, peer, self.id) {
        RouteGivesAnswer(net, route, self.id);
        assert Grounded(net, route[|route| - 1]);
      }
      assert Succ(WithSuccessor(Lone(self), s)) == s;
    }
  }

  /** The node reached from n over k predecessor references. */
  function Back(net: Net, n: Node, k: nat): Node
    decreases k
  {
    if k == 0 then n
    else if n.addr !in net then NO_NODE
    else Back(net, PredecessorAt(net, n.addr), k - 1)
  }

  /** The walk ends at a node that some number of references leads to, and at the first one that has no
      predecessor. */
  lemma {:induction false} WalkReachesEnd(net: Net, n: Node, k: nat) returns (j: nat)
    requires Follow(net, n, k).End?
    ensures Follow(net, n, k).node == Back(net, n, j) && Back(net, n, j).addr in net
    ensures PredecessorAt(net, Back(net, n, j).addr).addr == ""
    ensures forall i :: 0 <= i < j ==> Back(net, n, i).addr in net && PredecessorAt(net, Back(net, n, i).addr).addr != ""
    decreases k
  {
    j := 0;
    if PredecessorAt(net, n.addr).addr != "" {
      var p := PredecessorAt(net, n.addr);
      var h := WalkReachesEnd(net, p, k - 1);
      j := h + 1;
      forall i | 0 <= i < j
        ensures Back(net, n, i).addr in net && PredecessorAt(net, Back(net, n, i).addr).addr != ""
      {
        if i > 0 {
          assert Back(net, n, i) == Back(net, p, i - 1);
        }
      }
    }
  }

  /** net' is net after a has taken e and e has got a as its predecessor, and nothing else. */
  ghost predicate TakesEnd(net: Net, net': Net, a: string, e: Node)
    requires a in net && e.addr in net
  {
    && net'.Keys == net.Keys
    && (forall x :: x in net && x != a && x != e.addr ==> net'[x] == net[x])
    && net'[a] == Peer(net[a].self, net[a].slots[0 := Finger(At(net, a), Interval(At(net, a), Pos(e)), e)], net[a].predecessor)
    && net'[e.addr] == Peer(net[e.addr].self, net[e.addr].slots, net[a].self)
  }

  /** A node without another successor that has a predecessor walks back over the predecessor references
      past every node that has a predecessor itself, takes the first node e that has none, and becomes its
      predecessor: from a on, the references now lead to e and on to a. */
  lemma CloseRingClosesLoop(net: Net, a: string) returns (e: Node, k: nat)
    requires Inv(net) && a in net && net[a].predecessor.addr != "" && ChainStops(net, net[a].predecessor)
    ensures e == Back(net, net[a].predecessor, k) && e.addr in net && e.addr != a && net[e.addr].predecessor.addr == ""
    ensures forall i :: 0 <= i < k ==>
      var n := Back(net, net[a].predecessor, i); n.addr in net && net[n.addr].predecessor.addr != ""
    ensures TakesEnd(net, CloseRing(net, a), a, e)
    ensures Back(CloseRing(net, a), net[a].self, k + 1) == e && Back(CloseRing(net, a), net[a].self, k + 2) == net[a].self
  {
    assert Sound(net, a);
    var p := net[a].predecessor;
    forall x | x in net ensures net[x].self.addr == x {
      assert Sound(net, x);
    }
    WalkEndsIff(net, p);
    FollowNamesMember(net, p, |net|);
    k := WalkReachesEnd(net, p, |net|);
    e := Back(net, p, k);
    var net' := CloseRing(net, a);
    WalkIsKept(net, net', p, k, e);
    BackStep(net', p, k);
  }

  /** References are only read at the nodes passed, so a change at e leaves the walk to e as it was. */
  lemma {:induction false} WalkIsKept(net: Net, net': Net, n: Node, k: nat, e: Node)
    requires forall i :: 0 <= i < k ==>
      Back(net, n, i).addr in net && PredecessorAt(net, Back(net, n, i).addr).addr != ""
    requires e.addr in net && PredecessorAt(net, e.addr).addr == ""
    requires net'.Keys == net.Keys && forall x :: x in net && x != e.addr ==> net'[x].predecessor == net[x].predecessor
    ensures Back(net', n, k) == Back(net, n, k)
    decreases k
  {
    if k > 0 {
      assert Back(net, n, 0) == n;
      var p := PredecessorAt(net, n.addr);
      forall i | 0 <= i < k - 1
        ensures Back(net, p, i).addr in net && PredecessorAt(net, Back(net, p, i).addr).addr != ""
      {
        assert Back(net, n, i + 1) == Back(net, p, i);
      }
      WalkIsKept(net, net', p, k - 1, e);
    }
  }

  /** One more predecessor reference at the far end. */
  lemma {:induction false} BackStep(net: Net, n: Node, k: nat)
    requires Back(net, n, k).addr in net && "" !in net
    ensures Back(net, n, k + 1) == PredecessorAt(net, Back(net, n, k).addr)
    decreases k
  {
    if k > 0 {
      assert n.addr in net;
      BackStep(net, PredecessorAt(net, n.addr), k - 1);
    }
  }

  // ---- Runs ----

  datatype Action = JoinOf(self: Node, peer: string) | StabilizeOf(addr: string)

  /** Joining nodes are new and take a free position; any member may stabilize. */
  ghost predicate Enabled(net: Net, act: Action)
    requires Consistent(net)
  {
    match act
    case JoinOf(self, _) =>
      self.addr !in net && self.addr != "" && forall a :: a in net ==> At(net, a) != Pos(self)
    case StabilizeOf(a) => a in net
  }

  ghost function Apply(net: Net, act: Action): Step
    requires Consistent(net) && Enabled(net, act)
  {
    match act
    case JoinOf(self, peer) => Join(net, self, peer)
    case StabilizeOf(a) => Stabilize(net, a)
  }

  ghost predicate IsStep(net: Net, act: Action, net': Net) {
    Consistent(net) && Enabled(net, act) && Apply(net, act).net == net'
  }

  /** nets is the history of a run of acts that starts without any node. */
  ghost predicate IsRun(nets: seq<Net>, acts: seq<Action>) {
    && |nets| == |acts| + 1
    && nets[0] == map[]
    && forall i {:trigger acts[i]} :: 0 <= i < |acts| ==> IsStep(nets[i], acts[i], nets[i + 1])
  }

  lemma StepPreserves(net: Net, act: Action, net': Net)
    requires Inv(net) && IsStep(net, act, net')
    ensures Inv(net') && Grows(net, net')
  {
    match act
    case JoinOf(self, peer) => JoinPreserves(net, self, peer);
    case StabilizeOf(a) => StabilizePreserves(net, a);
  }

  lemma GrowsIsTransitive(net0: Net, net1: Net, net2: Net)
    requires Grows(net0, net1) && Grows(net1, net2)
    ensures Grows(net0, net2)
  {
    forall a | a in net0 ensures Kept(net0, net2, a) {
      assert Kept(net0, net1, a) && Kept(net1, net2, a);
    }
  }

  /** Every state of every run is sound. */
  lemma {:induction false} RunKeepsInvariant(nets: seq<Net>, acts: seq<Action>, i: nat)
    requires IsRun(nets, acts) && i < |nets|
    ensures Inv(nets[i])
  {
    if i > 0 {
      RunKeepsInvariant(nets, acts, i - 1);
      StepPreserves(nets[i - 1], acts[i - 1], nets[i]);
    }
  }

  /** From any state of a run to any later one, no predecessor is cleared or replaced by a farther one. */
  lemma {:induction false} RunGrows(nets: seq<Net>, acts: seq<Action>, j: nat, i: nat)
    requires IsRun(nets, acts) && j <= i < |nets|
    ensures Grows(nets[j], nets[i])
  {
    if j < i {
      RunGrows(nets, acts, j, i - 1);
      RunKeepsInvariant(nets, acts, i - 1);
      StepPreserves(nets[i - 1], acts[i - 1], nets[i]);
      GrowsIsTransitive(nets[j], nets[i - 1], nets[i]);
    }
  }

  /** In every state of every run, any member's Stabilize would report success and every lookup from any
      member finds a member. */
  lemma RunNeverFails(nets: seq<Net>, acts: seq<Action>, i: nat)
    requires IsRun(nets, acts) && i < |nets|
    ensures Inv(nets[i]) && Consistent(nets[i])
    ensures forall a :: a in nets[i] ==> Stabilize(nets[i], a).ok
    ensures forall a, id :: a in nets[i] ==>
      Successor(nets[i], a, id).Success? && Successor(nets[i], a, id).value.addr in nets[i]
  {
    RunKeepsInvariant(nets, acts, i);
    InvIsConsistent(nets[i]);
    forall a | a in nets[i] ensures Stabilize(nets[i], a).ok {
      StabilizePreserves(nets[i], a);
    }
    forall a, id | a in nets[i]
      ensures Successor(nets[i], a, id).Success? && Successor(nets[i], a, id).value.addr in nets[i]
    {
      LookupNamesMember(nets[i], a, id);
    }
  }
}
